/**
 `parseContainer` of `caddyfile/marshal.go`.

 The program keeps a stack of pointers to containers and a pointer to the block created last. All
 of them lie on the rightmost spine of the tree: the block created last is its end, and every
 container on the stack encloses that block. A container is therefore named by its depth on the
 spine, the root container being at depth 0.
 */
module Parser {
  import opened Options
  import opened Text
  import opened Tree
  import opened Lexer

  // ---------- the rightmost spine ----------

  function Last(f: Forest): Block
    requires f != []
  {
    f[|f| - 1]
  }

  /** The forest with another last block. */
  function WithLast(f: Forest, b: Block): Forest
    requires f != []
  {
    f[..|f| - 1] + [b]
  }

  /** The number of blocks on the spine; the container of the block created last is at this depth. */
  function Spine(f: Forest): nat {
    if f == [] then 0 else 1 + Spine(Last(f).children)
  }

  /** The blocks of the container at depth `d`. */
  function At(f: Forest, d: nat): Forest
    requires d <= Spine(f)
  {
    if d == 0 then f else At(Last(f).children, d - 1)
  }

  /** Appends blocks to the container at depth `d`. */
  function Graft(f: Forest, d: nat, g: Forest): Forest
    requires d <= Spine(f)
  {
    if d == 0 then f + g
    else WithLast(f, Last(f).(children := Graft(Last(f).children, d - 1, g)))
  }

  /** Adds a key to the block created last. */
  function AddKey(f: Forest, key: string): Forest
    requires f != []
  {
    var b := Last(f);
    WithLast(f, if b.children == [] then b.(keys := b.keys + [key]) else b.(children := AddKey(b.children, key)))
  }

  /** Adds an empty block to the container at depth `d`, numbered by its position. */
  function AddBlock(f: Forest, d: nat): Forest
    requires d <= Spine(f)
  {
    Graft(f, d, [Block(|At(f, d)|, [], [])])
  }

  // ---------- the machine ----------

  datatype State = State(root: Forest, stack: seq<nat>, isNewBlock: bool, tokenLine: int) {
    /**
     Every container on the stack encloses the block created last and the containers above it on
     the stack, and there is a current block unless one is about to be created.
     */
    ghost predicate Valid() {
      && stack != []
      && (forall i :: 0 <= i < |stack| ==> stack[i] <= Spine(root))
      && (forall i, j :: 0 <= i < j < |stack| ==> stack[i] <= stack[j])
      && (!isNewBlock ==> root != [])
    }
  }

  const START := State([], [0], true, -1)

  /** A token on another line starts a new block. */
  function NewLine(s: State, t: Token): State {
    if t.line == s.tokenLine then s
    else s.(isNewBlock := s.isNewBlock || s.tokenLine != -1, tokenLine := t.line)
  }

  /** Creates the block that the next keys belong to, if one is due. */
  function NewBlock(s: State): State
    requires s.Valid()
  {
    if !s.isNewBlock then s
    else
      var d := s.stack[|s.stack| - 1];
      s.(root := AddBlock(s.root, d), isNewBlock := false)
  }

  lemma SpineGraft(f: Forest, d: nat, b: Block)
    requires d <= Spine(f)
    ensures Spine(Graft(f, d, [b])) == d + 1 + Spine(b.children)
  {}

  lemma SpineAddKey(f: Forest, key: string)
    requires f != []
    ensures Spine(AddKey(f, key)) == Spine(f)
    ensures AddKey(f, key) != []
  {}

  lemma NewBlockValid(s: State)
    requires s.Valid()
    ensures NewBlock(s).Valid() && !NewBlock(s).isNewBlock
    ensures NewBlock(s).stack == s.stack
  {
    if s.isNewBlock {
      var d := s.stack[|s.stack| - 1];
      SpineGraft(s.root, d, Block(|At(s.root, d)|, [], []));
    }
  }

  /** Gives the current block a key; a key of several lines moves on to the line of its end. */
  function NewKey(s: State, key: string): (r: State)
    requires s.Valid() && s.root != []
    ensures r.Valid() && r.stack == s.stack
  {
    SpineAddKey(s.root, key);
    s.(root := AddKey(s.root, key), tokenLine := s.tokenLine + Newlines(key))
  }

  /** One round of the loop; no result is Go's error on an unexpected `}`. */
  function StepToken(s: State, t: Token): (r: Option<State>)
    requires s.Valid()
    ensures r.Some? ==> r.value.Valid()
  {
    hide Spine, Graft, AddKey, At, Newlines;
    var n := NewLine(s, t);
    if t.text == "}" then
      if |n.stack| == 1 then None else Some(n.(stack := n.stack[..|n.stack| - 1]))
    else
      NewBlockValid(n);
      var b := NewBlock(n);
      if t.text == "{" then Some(b.(stack := b.stack + [Spine(b.root)]))
      else
        Some(NewKey(b, t.text))
  }

  function Parse(s: State, tokens: seq<Token>): (r: Option<State>)
    requires s.Valid()
    ensures r.Some? ==> r.value.Valid()
    decreases tokens
  {
    if tokens == [] then Some(s)
    else
      match StepToken(s, tokens[0])
      case None => None
      case Some(n) => Parse(n, tokens[1..])
  }

  function ParseContainer(tokens: seq<Token>): Option<Forest> {
    match Parse(START, tokens)
    case None => None
    case Some(s) => Some(s.root)
  }

  /** `Unmarshal`; no result is one of Go's errors. */
  function Unmarshal(content: string): Option<Forest> {
    if content == [] then None else ParseContainer(Tokens(Load(content), 1, 0))
  }

  // ---------- the loop ----------

  lemma ParseSnoc(s: State, tokens: seq<Token>, t: Token)
    requires s.Valid()
    ensures Parse(s, tokens + [t])
         == match Parse(s, tokens) case None => None case Some(n) => StepToken(n, t)
    decreases tokens
  {
    if tokens == [] {
      assert ([] + [t])[1..] == [];
    } else {
      assert (tokens + [t])[1..] == tokens[1..] + [t];
      if StepToken(s, tokens[0]).Some? {
        ParseSnoc(StepToken(s, tokens[0]).value, tokens[1..], t);
      }
    }
  }

  lemma ParseFailed(s: State, tokens: seq<Token>, n: nat)
    requires s.Valid()
    requires n <= |tokens| && Parse(s, tokens[..n]).None?
    ensures Parse(s, tokens).None?
    decreases tokens
  {
    if n > 0 && StepToken(s, tokens[0]).Some? {
      assert tokens[..n][1..] == tokens[1..][..n - 1];
      ParseFailed(StepToken(s, tokens[0]).value, tokens[1..], n - 1);
    }
  }

  /** Reading the first `i` tokens leads to state `s`. */
  ghost predicate Reaches(tokens: seq<Token>, i: nat, s: State) {
    i <= |tokens| && s.Valid() && Parse(START, tokens[..i]) == Some(s)
  }

  lemma ReachesStart(tokens: seq<Token>)
    ensures Reaches(tokens, 0, START)
  {}

  lemma ReachesNext(tokens: seq<Token>, i: nat, s: State)
    requires i < |tokens| && Reaches(tokens, i, s)
    ensures match StepToken(s, tokens[i])
            case None => ParseContainer(tokens) == None
            case Some(n) => Reaches(tokens, i + 1, n)
  {
    hide StepToken;
    ParseSnoc(START, tokens[..i], tokens[i]);
    assert tokens[..i + 1] == tokens[..i] + [tokens[i]];
    if StepToken(s, tokens[i]).None? {
      ParseFailed(START, tokens, i + 1);
    }
  }

  lemma ReachesEnd(tokens: seq<Token>, s: State)
    requires Reaches(tokens, |tokens|, s)
    ensures ParseContainer(tokens) == Some(s.root)
  {
    assert tokens[..|tokens|] == tokens;
  }

  method ParseContainerLoop(tokens: seq<Token>) returns (result: Option<Forest>)
    ensures result == ParseContainer(tokens)
  {
    hide Spine, Graft, At, AddKey, Parse, Newlines;
    var rootContainer: Forest := [];
    var stack: seq<nat> := [0];
    var isNewBlock := true;
    var tokenLine := -1;

    ReachesStart(tokens);
    for i := 0 to |tokens|
      invariant Reaches(tokens, i, State(rootContainer, stack, isNewBlock, tokenLine))
    {
      var token := tokens[i];
      ghost var s := State(rootContainer, stack, isNewBlock, tokenLine);
      ghost var n, next := NewLine(s, token), StepToken(s, token);
      ReachesNext(tokens, i, s);
      if token.line != tokenLine {
        if tokenLine != -1 {
          isNewBlock := true;
        }
        tokenLine := token.line;
      }
      if token.text == "}" {
        if |stack| == 1 {
          return None;
        }
        stack := stack[..|stack| - 1];
      } else {
        NewBlockValid(n);
        if isNewBlock {
          var parent := stack[|stack| - 1];
          rootContainer := AddBlock(rootContainer, parent);
          isNewBlock := false;
        }
        assert State(rootContainer, stack, isNewBlock, tokenLine) == NewBlock(n);
        if token.text == "{" {
          stack := stack + [Spine(rootContainer)];
          assert next == Some(NewBlock(n).(stack := stack));
        } else {
          rootContainer := AddKey(rootContainer, token.text);
          tokenLine := tokenLine + Newlines(token.text);
          assert State(rootContainer, stack, isNewBlock, tokenLine) == NewKey(NewBlock(n), token.text);
        }
      }
      assert Some(State(rootContainer, stack, isNewBlock, tokenLine)) == next;
    }
    ReachesEnd(tokens, State(rootContainer, stack, isNewBlock, tokenLine));
    return Some(rootContainer);
  }

  // ---------- what parsing keeps ----------

  /** The tokens that are not braces, which become keys. */
  function Words(tokens: seq<Token>): seq<string> {
    if tokens == [] then []
    else (if tokens[0].text == "{" || tokens[0].text == "}" then [] else [tokens[0].text]) + Words(tokens[1..])
  }

  /** How many containers the tokens open and do not close; negative when they close too many. */
  function Balance(tokens: seq<Token>): int {
    if tokens == [] then 0
    else (if tokens[0].text == "{" then 1 else if tokens[0].text == "}" then -1 else 0) + Balance(tokens[1..])
  }

  lemma AllKeysWithLast(f: Forest, b: Block)
    requires f != []
    ensures AllKeys(WithLast(f, b)) == AllKeys(f[..|f| - 1]) + b.keys + AllKeys(b.children)
  {
    AllKeysConcat(f[..|f| - 1], [b]);
    assert AllKeys([b]) == b.keys + AllKeys(b.children);
  }

  lemma AllKeysGraft(f: Forest, d: nat, order: int)
    requires d <= Spine(f)
    ensures AllKeys(Graft(f, d, [Block(order, [], [])])) == AllKeys(f)
  {
    var empty := Block(order, [], []);
    if d == 0 {
      AllKeysConcat(f, [empty]);
      assert AllKeys([empty]) == [];
    } else {
      AllKeysGraft(Last(f).children, d - 1, order);
      AllKeysWithLast(f, Last(f));
      assert WithLast(f, Last(f)) == f;
      AllKeysWithLast(f, Last(f).(children := Graft(Last(f).children, d - 1, [empty])));
    }
  }

  lemma AllKeysAddKey(f: Forest, key: string)
    requires f != []
    ensures AllKeys(AddKey(f, key)) == AllKeys(f) + [key]
  {
    var b := Last(f);
    assert WithLast(f, b) == f;
    AllKeysWithLast(f, b);
    if b.children == [] {
      AllKeysWithLast(f, b.(keys := b.keys + [key]));
    } else {
      AllKeysAddKey(b.children, key);
      AllKeysWithLast(f, b.(children := AddKey(b.children, key)));
    }
  }

  lemma StepKeepsKeys(s: State, t: Token)
    requires s.Valid()
    ensures StepToken(s, t).Some? ==> AllKeys(StepToken(s, t).value.root) == AllKeys(s.root) + Words([t])
  {
    hide Graft, AddKey, Spine, At, AllKeys, Newlines;
    var n := NewLine(s, t);
    assert [t][1..] == [];
    if t.text != "}" {
      NewBlockValid(n);
      var d := n.stack[|n.stack| - 1];
      if n.isNewBlock {
        AllKeysGraft(n.root, d, |At(n.root, d)|);
      }
      if t.text != "{" {
        AllKeysAddKey(NewBlock(n).root, t.text);
      }
    }
  }

  lemma {:induction false} ParseKeepsKeys(s: State, tokens: seq<Token>)
    requires s.Valid()
    ensures Parse(s, tokens).Some? ==> AllKeys(Parse(s, tokens).value.root) == AllKeys(s.root) + Words(tokens)
    decreases tokens
  {
    if tokens != [] && StepToken(s, tokens[0]).Some? {
      StepKeepsKeys(s, tokens[0]);
      ParseKeepsKeys(StepToken(s, tokens[0]).value, tokens[1..]);
      assert [tokens[0]][1..] == [];
    }
  }

  /**
   However the tokens are laid out, an accepted parse has exactly the tokens that are not braces as
   its keys, in the same order.
   */
  lemma ParserConservation(tokens: seq<Token>)
    ensures ParseContainer(tokens).Some? ==> AllKeys(ParseContainer(tokens).value) == Words(tokens)
  {
    ParseKeepsKeys(START, tokens);
    assert [] + Words(tokens) == Words(tokens);
  }

  lemma {:induction false} ParseRejects(s: State, tokens: seq<Token>)
    requires s.Valid()
    ensures Parse(s, tokens).None? <==> exists i :: 0 <= i <= |tokens| && |s.stack| + Balance(tokens[..i]) < 1
    decreases tokens
  {
    if tokens == [] {
      assert forall i :: 0 <= i <= |tokens| ==> tokens[..i] == [];
    } else {
      var t := tokens[0];
      forall i | 1 <= i <= |tokens| ensures Balance(tokens[..i]) == Balance([t]) + Balance(tokens[1..][..i - 1]) {
        assert tokens[..i][1..] == tokens[1..][..i - 1];
        assert [t][1..] == [];
      }
      assert tokens[..0] == [];
      if StepToken(s, t).Some? {
        var n := StepToken(s, t).value;
        ParseRejects(n, tokens[1..]);
        assert |n.stack| == |s.stack| + Balance([t]);
        if i :| 0 <= i <= |tokens[1..]| && |n.stack| + Balance(tokens[1..][..i]) < 1 {
          assert |s.stack| + Balance(tokens[..i + 1]) < 1;
        }
      } else {
        assert |s.stack| + Balance(tokens[..1]) < 1;
      }
    }
  }

  /** Parsing fails exactly when some prefix of the tokens has more `}` than `{`. */
  lemma ParserRejects(tokens: seq<Token>)
    ensures ParseContainer(tokens).None? <==> exists i :: 0 <= i <= |tokens| && Balance(tokens[..i]) < 0
  {
    ParseRejects(START, tokens);
    assert forall i :: 0 <= i <= |tokens| ==> (|START.stack| + Balance(tokens[..i]) < 1 <==> Balance(tokens[..i]) < 0);
  }
}
