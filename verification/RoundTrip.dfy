/**
 Printing and parsing undo each other on trees with safe keys.

 The tokens of a printed forest are written down directly as `ForestTokens`; lexing the text gives
 those tokens and parsing them gives the forest back.
 */
module RoundTrip {
  import opened Options
  import opened Text
  import opened Tree
  import opened BlockOrder
  import opened Lexer
  import opened Printer
  import opened Parser
  import opened KeyLexing

  ghost predicate SafeKeys(keys: seq<string>) {
    forall i :: 0 <= i < |keys| ==> KeySafe(keys[i])
  }

  /** Every block has a key or a child. */
  predicate Full(f: Forest)
    decreases f
  {
    forall i :: 0 <= i < |f| ==> (f[i].keys != [] || f[i].children != []) && Full(f[i].children)
  }

  /** Every key is safe and every block has a key or a child. */
  ghost predicate Printable(f: Forest) {
    SafeKeys(AllKeys(f)) && Full(f)
  }

  /** The forest without the blocks that have neither a key nor a child: they are printed as blank lines. */
  function Pruned(f: Forest): Forest {
    if f == [] then []
    else (if f[0].keys == [] && f[0].children == [] then []
          else [Block(f[0].order, f[0].keys, Pruned(f[0].children))]) + Pruned(f[1..])
  }

  lemma SafeConcat(keys: seq<string>, more: seq<string>)
    ensures SafeKeys(keys + more) <==> SafeKeys(keys) && SafeKeys(more)
  {
    hide KeySafe;
    if SafeKeys(keys + more) {
      forall i | 0 <= i < |keys| ensures KeySafe(keys[i]) {
        assert (keys + more)[i] == keys[i];
      }
      forall i | 0 <= i < |more| ensures KeySafe(more[i]) {
        assert (keys + more)[|keys| + i] == more[i];
      }
    }
  }

  lemma SafeParts(f: Forest)
    requires f != []
    ensures SafeKeys(AllKeys(f)) <==>
      SafeKeys(f[0].keys) && SafeKeys(AllKeys(f[0].children)) && SafeKeys(AllKeys(f[1..]))
  {
    hide SafeKeys;
    SafeConcat(f[0].keys + AllKeys(f[0].children), AllKeys(f[1..]));
    SafeConcat(f[0].keys, AllKeys(f[0].children));
  }

  // ---------- the tokens of a printed forest ----------

  /** The line ends inside keys. */
  function KeyLines(keys: seq<string>): nat {
    if keys == [] then 0 else Newlines(keys[0]) + KeyLines(keys[1..])
  }

  function KeyTokens(keys: seq<string>, line: int): seq<Token> {
    if keys == [] then [] else [Token(line, keys[0])] + KeyTokens(keys[1..], line + Newlines(keys[0]))
  }

  function BlockLines(b: Block): nat
    decreases b, 1
  {
    KeyLines(b.keys) + (if b.children == [] then 0 else 1 + ForestLines(b.children)) + 1
  }

  function ForestLines(f: Forest): nat
    decreases f, 0
  {
    if f == [] then 0 else BlockLines(f[0]) + ForestLines(f[1..])
  }

  function BlockTokens(b: Block, line: int): seq<Token>
    decreases b, 1
  {
    KeyTokens(b.keys, line) + ChildrenTokens(b.children, line + KeyLines(b.keys))
  }

  function ChildrenTokens(f: Forest, line: int): seq<Token>
    decreases f, 1
  {
    if f == [] then []
    else [Token(line, "{")] + ForestTokens(f, line + 1) + [Token(line + 1 + ForestLines(f), "}")]
  }

  function ForestTokens(f: Forest, line: int): seq<Token>
    decreases f, 0
  {
    if f == [] then [] else BlockTokens(f[0], line) + ForestTokens(f[1..], line + BlockLines(f[0]))
  }

  // ---------- lexing ----------

  lemma {:induction false} LexIndent(level: nat, rest: string, line: int)
    ensures Tokens(Repeat('\t', level) + rest, line, 0) == Tokens(rest, line, 0)
  {
    hide Tokens, Lexable, KeyText, Newlines;
    if level == 0 {
      assert Repeat('\t', 0) + rest == rest;
    } else {
      assert Repeat('\t', level) + rest == ['\t'] + (Repeat('\t', level - 1) + rest);
      SkipBlank('\t', Repeat('\t', level - 1) + rest, line);
      LexIndent(level - 1, rest, line);
    }
  }

  lemma LexBrace(brace: string, end: string, line: int)
    requires (brace == "{" || brace == "}") && EndsWord(end)
    ensures Tokens(brace + end, line, 0) == [Token(line, brace)] + Tokens(end, line, 0)
  {
    hide Tokens;
    assert TrailingBackslashes(brace) == 0;
    LexKey(brace, end, line);
    assert Newlines(brace) == Newlines(brace[1..]) == 0;
  }

  lemma {:induction false} LexKeys(keys: seq<string>, end: string, line: int)
    requires SafeKeys(keys) && EndsWord(end)
    ensures Tokens(KeysText(keys) + end, line, 0) == KeyTokens(keys, line) + Tokens(end, line + KeyLines(keys), 0)
    decreases |keys|
  {
    hide Tokens, Lexable, KeyText, Newlines;
    if keys == [] {
      assert KeysText(keys) + end == end;
    } else if |keys| == 1 {
      LexKey(keys[0], end, line);
      assert KeyLines(keys[1..]) == 0;
      assert KeyTokens(keys, line) == [Token(line, keys[0])];
    } else {
      var rest := KeysText(keys[1..]) + end;
      var next := line + Newlines(keys[0]);
      assert KeysText(keys) + end == KeyText(keys[0]) + ([' '] + rest);
      LexKey(keys[0], [' '] + rest, line);
      SkipBlank(' ', rest, next);
      LexKeys(keys[1..], end, next);
      Associative([Token(line, keys[0])], KeyTokens(keys[1..], next), Tokens(end, line + KeyLines(keys), 0));
    }
  }

  lemma {:induction false} LexChildren(f: Forest, level: nat, end: string, line: int)
    requires SafeKeys(AllKeys(f)) && f != [] && EndsWord(end)
    ensures Tokens(ChildrenText(f, level) + end, line, 0)
         == ChildrenTokens(f, line) + Tokens(end, line + 1 + ForestLines(f), 0)
    decreases f, 1
  {
    hide Tokens, Lexable, Newlines, KeyText, ForestText, ForestTokens, ForestLines, SafeKeys;
    var close := Repeat('\t', level) + ("}" + end);
    var inside := ForestText(f, level + 1) + close;
    var last := line + 1 + ForestLines(f);
    assert ChildrenText(f, level) + end == "{" + (['\n'] + inside);
    LexBrace("{", ['\n'] + inside, line);
    SkipNewline(inside, line);
    LexForest(f, level + 1, close, line + 1);
    LexIndent(level, "}" + end, last);
    LexBrace("}", end, last);
    assert ChildrenTokens(f, line) + Tokens(end, last, 0)
      == [Token(line, "{")] + (ForestTokens(f, line + 1) + ([Token(last, "}")] + Tokens(end, last, 0)));
  }

  lemma {:induction false} LexBlock(b: Block, level: nat, rest: string, line: int)
    requires SafeKeys(b.keys) && SafeKeys(AllKeys(b.children))
    ensures Tokens(BlockText(b, level) + rest, line, 0)
         == BlockTokens(b, line) + Tokens(rest, line + BlockLines(b), 0)
    decreases b, 0
  {
    hide Tokens, Lexable, KeyText, Newlines;
    var end := ['\n'] + rest;
    var next := line + KeyLines(b.keys);
    if b.children == [] {
      assert BlockText(b, level) + rest == Repeat('\t', level) + (KeysText(b.keys) + end);
      LexIndent(level, KeysText(b.keys) + end, line);
      LexKeys(b.keys, end, line);
      SkipNewline(rest, next);
      assert BlockTokens(b, line) == KeyTokens(b.keys, line);
    } else {
      var body := ChildrenText(b.children, level) + end;
      var space := if b.keys == [] then "" else " ";
      assert BlockText(b, level) + rest == Repeat('\t', level) + (KeysText(b.keys) + (space + body));
      LexIndent(level, KeysText(b.keys) + (space + body), line);
      if b.keys == [] {
        assert KeysText(b.keys) + (space + body) == body;
      } else {
        LexKeys(b.keys, space + body, line);
        SkipBlank(' ', body, next);
      }
      LexChildren(b.children, level, end, next);
      SkipNewline(rest, next + 1 + ForestLines(b.children));
      Associative(KeyTokens(b.keys, line), ChildrenTokens(b.children, next), Tokens(rest, line + BlockLines(b), 0));
    }
  }

  lemma {:induction false} LexForest(f: Forest, level: nat, rest: string, line: int)
    requires SafeKeys(AllKeys(f))
    ensures Tokens(ForestText(f, level) + rest, line, 0)
         == ForestTokens(f, line) + Tokens(rest, line + ForestLines(f), 0)
    decreases f, 0
  {
    hide Tokens, Lexable, KeyText, Newlines;
    hide BlockText, BlockTokens, BlockLines, SafeKeys;
    if f == [] {
      assert ForestText(f, level) + rest == rest;
    } else {
      var tail := ForestText(f[1..], level) + rest;
      assert ForestText(f, level) + rest == BlockText(f[0], level) + tail;
      SafeParts(f);
      LexBlock(f[0], level, tail, line);
      LexForest(f[1..], level, rest, line + BlockLines(f[0]));
      Associative(BlockTokens(f[0], line), ForestTokens(f[1..], line + BlockLines(f[0])),
        Tokens(rest, line + ForestLines(f), 0));
    }
  }

  // ---------- grafting ----------

  lemma {:induction false} GraftTwice(f: Forest, d: nat, g: Forest, h: Forest)
    requires d <= Spine(f)
    ensures d <= Spine(Graft(f, d, g))
    ensures At(Graft(f, d, g), d) == At(f, d) + g
    ensures Graft(Graft(f, d, g), d, h) == Graft(f, d, g + h)
  {
    if d == 0 {
      Associative(f, g, h);
    } else {
      GraftTwice(Last(f).children, d - 1, g, h);
    }
  }

  lemma {:induction false} GraftNothing(f: Forest, d: nat)
    requires d <= Spine(f)
    ensures Graft(f, d, []) == f
  {
    if d > 0 {
      GraftNothing(Last(f).children, d - 1);
      assert WithLast(f, Last(f)) == f;
    } else {
      assert f + [] == f;
    }
  }

  lemma {:induction false} GraftInside(f: Forest, d: nat, b: Block, g: Forest)
    requires d <= Spine(f)
    ensures d + 1 <= Spine(Graft(f, d, [b]))
    ensures At(Graft(f, d, [b]), d + 1) == b.children
    ensures Graft(Graft(f, d, [b]), d + 1, g) == Graft(f, d, [b.(children := b.children + g)])
  {
    if d == 0 {
      assert Last(f + [b]) == b;
      assert (f + [b])[..|f|] == f;
    } else {
      GraftInside(Last(f).children, d - 1, b, g);
    }
  }

  lemma {:induction false} AddKeyGraft(f: Forest, d: nat, b: Block, key: string)
    requires d <= Spine(f) && b.children == []
    ensures AddKey(Graft(f, d, [b]), key) == Graft(f, d, [b.(keys := b.keys + [key])])
  {
    if d == 0 {
      assert Last(f + [b]) == b;
      assert (f + [b])[..|f|] == f;
    } else {
      AddKeyGraft(Last(f).children, d - 1, b, key);
      GraftNotEmpty(Last(f).children, d - 1, b);
    }
  }

  lemma GraftNotEmpty(f: Forest, d: nat, b: Block)
    requires d <= Spine(f)
    ensures Graft(f, d, [b]) != []
  {}

  // ---------- parsing ----------

  /** The depth of the container that gets new blocks. */
  function Top(s: State): nat
    requires s.Valid()
  {
    s.stack[|s.stack| - 1]
  }

  /** A token on `line` starts a new block. */
  ghost predicate Ready(s: State, line: int) {
    s.Valid() && s.tokenLine < line && (s.tokenLine == -1 ==> s.isNewBlock)
  }

  /** The state in which the last block of the top container is current. */
  ghost predicate Current(s: State, root: Forest, d: nat, b: Block, line: int) {
    && s.Valid() && d == Top(s) && d <= Spine(root) && line >= 0
    && s.root == Graft(root, d, [b]) && !s.isNewBlock && s.tokenLine == line
  }

  lemma ParseOne(s: State, t: Token, more: seq<Token>, n: State)
    requires s.Valid() && StepToken(s, t) == Some(n)
    ensures Parse(s, [t] + more) == Parse(n, more)
  {}

  /** Starting a block early makes no difference to the token that would start it. */
  lemma ParseStart(s: State, t: Token, more: seq<Token>) returns (n: State)
    requires Ready(s, t.line) && t.line >= 0 && t.text != "}"
    ensures n.stack == s.stack
    ensures Current(n, s.root, Top(s), Block(|At(s.root, Top(s))|, [], []), t.line)
    ensures Parse(s, [t] + more) == Parse(n, [t] + more)
  {
    NewBlockValid(NewLine(s, t));
    n := NewBlock(NewLine(s, t));
    assert StepToken(n, t) == StepToken(s, t);
    assert ([t] + more)[0] == t && ([t] + more)[1..] == more;
  }

  lemma StepKey(s: State, root: Forest, d: nat, b: Block, line: int, key: string) returns (n: State)
    requires Current(s, root, d, b, line) && b.children == [] && KeySafe(key)
    ensures StepToken(s, Token(line, key)) == Some(n) && n.stack == s.stack
    ensures Current(n, root, d, b.(keys := b.keys + [key]), line + Newlines(key))
  {
    hide Lexable, Newlines;
    GraftNotEmpty(root, d, b);
    n := NewKey(s, key);
    AddKeyGraft(root, d, b, key);
  }

  lemma {:induction false} ParseKeys(s: State, root: Forest, d: nat, b: Block, keys: seq<string>, line: int,
      more: seq<Token>) returns (n: State)
    requires Current(s, root, d, b, line) && b.children == [] && SafeKeys(keys)
    ensures n.stack == s.stack
    ensures Current(n, root, d, b.(keys := b.keys + keys), line + KeyLines(keys))
    ensures Parse(s, KeyTokens(keys, line) + more) == Parse(n, more)
    decreases |keys|
  {
    hide Lexable, Newlines, Parse, Graft, Spine, StepToken;
    if keys == [] {
      n := s;
      assert b.keys + keys == b.keys;
      assert KeyTokens(keys, line) + more == more;
    } else {
      var t := Token(line, keys[0]);
      var next := line + Newlines(keys[0]);
      var one := StepKey(s, root, d, b, line, keys[0]);
      ParseOne(s, t, KeyTokens(keys[1..], next) + more, one);
      Associative([t], KeyTokens(keys[1..], next), more);
      n := ParseKeys(one, root, d, b.(keys := b.keys + [keys[0]]), keys[1..], next, more);
      assert b.keys + [keys[0]] + keys[1..] == b.keys + keys;
    }
  }

  lemma StepOpen(s: State, root: Forest, d: nat, b: Block, line: int) returns (n: State)
    requires Current(s, root, d, b, line) && b.children == []
    ensures StepToken(s, Token(line, "{")) == Some(n) && n.root == s.root
    ensures n.stack == s.stack + [d + 1] && Ready(n, line + 1)
  {
    SpineGraft(root, d, b);
    n := s.(stack := s.stack + [Spine(s.root)]);
  }

  lemma StepClose(s: State, stack: seq<nat>, d: nat, line: int) returns (n: State)
    requires Ready(s, line) && line >= 0 && stack != [] && s.stack == stack + [d]
    ensures StepToken(s, Token(line, "}")) == Some(n) && n.root == s.root
    ensures n.stack == stack && Ready(n, line + 1)
  {
    n := s.(stack := stack, isNewBlock := true, tokenLine := line);
    assert s.stack[..|s.stack| - 1] == stack;
    assert StepToken(s, Token(line, "}")).Some?;
  }

  lemma {:induction false} ParseChildren(s: State, root: Forest, d: nat, b: Block, f: Forest, line: int,
      more: seq<Token>) returns (n: State)
    requires Current(s, root, d, b, line) && b.children == [] && SafeKeys(AllKeys(f)) && f != []
    ensures n.stack == s.stack && Ready(n, line + 2 + ForestLines(f))
    ensures n.root == Graft(root, d, [b.(children := Reindex(Pruned(f)))])
    ensures Parse(s, ChildrenTokens(f, line) + more) == Parse(n, more)
    decreases f, 1
  {
    hide Parse, Graft, Spine, At, StepToken, SafeKeys, AllKeys, ForestTokens, ForestLines, Reindex, Pruned, Newlines;
    var last := line + 1 + ForestLines(f);
    var open, close := Token(line, "{"), Token(last, "}");
    var inside := ForestTokens(f, line + 1) + ([close] + more);
    assert ChildrenTokens(f, line) + more == [open] + inside;
    GraftInside(root, d, b, Reindex(Pruned(f)));
    var one := StepOpen(s, root, d, b, line);
    ParseOne(s, open, inside, one);
    var two := ParseForest(one, f, line + 1, [close] + more);
    assert [] + Reindex(Pruned(f)) == Reindex(Pruned(f));
    n := StepClose(two, s.stack, d + 1, last);
    ParseOne(two, close, more, n);
  }

  lemma {:induction false} ParseBlock(s: State, b: Block, line: int, more: seq<Token>) returns (n: State)
    requires Ready(s, line) && SafeKeys(b.keys) && SafeKeys(AllKeys(b.children)) && line >= 0
    requires b.keys != [] || b.children != []
    ensures n.stack == s.stack && Ready(n, line + BlockLines(b))
    ensures n.root == Graft(s.root, Top(s), [Block(|At(s.root, Top(s))|, b.keys, Reindex(Pruned(b.children)))])
    ensures Parse(s, BlockTokens(b, line) + more) == Parse(n, more)
    decreases b, 0
  {
    hide Parse, Graft, Spine, At, StepToken, Reindex, Newlines, Lexable, AllKeys;
    var d := Top(s);
    var next := line + KeyLines(b.keys);
    var rest := ChildrenTokens(b.children, next) + more;
    var tokens := KeyTokens(b.keys, line) + rest;
    Associative(KeyTokens(b.keys, line), ChildrenTokens(b.children, next), more);
    assert tokens != [] && tokens[0].line == line && tokens[0].text != "}" by {
      assert b.keys != [] ==> KeySafe(b.keys[0]);
    }
    assert tokens == [tokens[0]] + tokens[1..];
    var one := ParseStart(s, tokens[0], tokens[1..]);
    var empty := Block(|At(s.root, d)|, [], []);
    var two := ParseKeys(one, s.root, d, empty, b.keys, line, rest);
    assert empty.keys + b.keys == b.keys;
    if b.children == [] {
      n := two;
      assert rest == more;
      assert Reindex(Pruned(b.children)) == [] by { ReindexNothing(); }
    } else {
      n := ParseChildren(two, s.root, d, empty.(keys := b.keys), b.children, next, more);
    }
  }

  lemma ReindexNothing()
    ensures forall first: nat :: Reindex([], first) == []
  {}

  /** A block that is printed as a blank line has no tokens. */
  lemma NoBlock(b: Block, line: int)
    requires b.keys == [] && b.children == []
    ensures BlockTokens(b, line) == []
  {}

  lemma ReadyLater(s: State, line: int, later: int)
    requires Ready(s, line) && line <= later
    ensures Ready(s, later)
  {}

  lemma {:induction false} ParseForest(s: State, f: Forest, line: int, more: seq<Token>) returns (n: State)
    requires Ready(s, line) && SafeKeys(AllKeys(f)) && line >= 0
    ensures n.stack == s.stack && Ready(n, line + ForestLines(f))
    ensures n.root == Graft(s.root, Top(s), Reindex(Pruned(f), |At(s.root, Top(s))|))
    ensures Parse(s, ForestTokens(f, line) + more) == Parse(n, more)
    decreases f, 0
  {
    hide Parse, Graft, Spine, At, BlockTokens, BlockLines, SafeKeys;
    var d := Top(s);
    var count := |At(s.root, d)|;
    if f == [] {
      n := s;
      GraftNothing(s.root, d);
      assert ForestTokens(f, line) + more == more;
    } else {
      SafeParts(f);
      var b, next := f[0], line + BlockLines(f[0]);
      var rest := ForestTokens(f[1..], next) + more;
      Associative(BlockTokens(b, line), ForestTokens(f[1..], next), more);
      if b.keys == [] && b.children == [] {
        NoBlock(b, line);
        ReadyLater(s, line, next);
        assert BlockTokens(b, line) + rest == rest && Pruned(f) == Pruned(f[1..]);
        n := ParseForest(s, f[1..], next, more);
      } else {
        var one := ParseBlock(s, b, line, rest);
        var placed := Block(count, b.keys, Reindex(Pruned(b.children)));
        PrunedFirst(f, count);
        GraftTwice(s.root, d, [placed], Reindex(Pruned(f[1..]), count + 1));
        n := ParseForest(one, f[1..], next, more);
      }
    }
  }

  lemma PrunedFirst(f: Forest, first: nat)
    requires f != [] && (f[0].keys != [] || f[0].children != [])
    ensures Reindex(Pruned(f), first)
         == [Block(first, f[0].keys, Reindex(Pruned(f[0].children)))] + Reindex(Pruned(f[1..]), first + 1)
  {
    assert Pruned(f)[1..] == Pruned(f[1..]);
  }

  // ---------- the document ----------

  lemma {:induction false} PrunedFull(f: Forest)
    requires Full(f)
    ensures Pruned(f) == f
  {
    if f != [] {
      PrunedFull(f[0].children);
      PrunedFull(f[1..]);
    }
  }

  /** Sorting keeps the keys, each as often as it was there. */
  lemma {:induction false} SortKeepsKeys(f: Forest)
    ensures multiset(AllKeys(SortForest(f))) == multiset(AllKeys(f))
    decreases f, 1
  {
    ChildrenKeepKeys(f);
    SameBlocksSameKeys(SortForest(f), SortChildren(f));
  }

  lemma {:induction false} ChildrenKeepKeys(f: Forest)
    ensures multiset(AllKeys(SortChildren(f))) == multiset(AllKeys(f))
    decreases f, 0
  {
    hide SortForest;
    if f != [] {
      SortKeepsKeys(f[0].children);
      ChildrenKeepKeys(f[1..]);
      assert SortChildren(f)[1..] == SortChildren(f[1..]);
      assert SortChildren(f)[0] == Block(f[0].order, f[0].keys, SortForest(f[0].children));
    }
  }

  lemma AllKeysJoin(before: Forest, b: Block, after: Forest)
    ensures multiset(AllKeys(before + [b] + after))
         == multiset(AllKeys(before + after)) + multiset(b.keys + AllKeys(b.children))
  {
    AllKeysConcat(before + [b], after);
    AllKeysConcat(before, [b]);
    AllKeysConcat(before, after);
    assert [b][1..] == [];
    assert AllKeys([b]) == b.keys + AllKeys(b.children);
  }

  lemma KeysWithout(f: Forest, i: nat)
    requires i < |f|
    ensures multiset(AllKeys(f)) == multiset(AllKeys(Without(f, i))) + multiset(f[i].keys + AllKeys(f[i].children))
    ensures i == 0 ==> Without(f, i) == f[1..]
  {
    assert f[..0] + f[1..] == f[1..];
    SplitAt(f, i);
    AllKeysJoin(f[..i], f[i], f[i + 1..]);
  }

  lemma {:induction false} SameBlocksSameKeys(f: Forest, g: Forest)
    requires multiset(f) == multiset(g)
    ensures multiset(AllKeys(f)) == multiset(AllKeys(g))
    decreases |f|
  {
    if f == [] {
      assert |g| == |multiset(g)| == 0;
    } else {
      assert f[0] in multiset(g);
      var i :| 0 <= i < |g| && g[i] == f[0];
      TailMultiset(f);
      WithoutMultiset(g, i);
      RemoveSame(multiset(f[1..]), multiset(Without(g, i)), f[0]);
      SameBlocksSameKeys(f[1..], Without(g, i));
      hide AllKeys, Without;
      KeysWithout(g, i);
      KeysWithout(f, 0);
    }
  }

  lemma FullElements(f: Forest, g: Forest)
    requires multiset(f) == multiset(g) && Full(f)
    ensures Full(g)
  {
    forall i | 0 <= i < |g| ensures (g[i].keys != [] || g[i].children != []) && Full(g[i].children) {
      assert g[i] in multiset(f);
      var j :| 0 <= j < |f| && f[j] == g[i];
    }
  }

  /** Sorting neither makes nor fills a block that has neither a key nor a child. */
  lemma {:induction false} FullSorted(f: Forest)
    ensures Full(SortForest(f)) <==> Full(f)
    decreases f
  {
    var s := SortChildren(f);
    forall i | 0 <= i < |f|
      ensures s[i].keys == f[i].keys && (s[i].children == [] <==> f[i].children == [])
      ensures Full(s[i].children) <==> Full(f[i].children)
    {
      SortChildrenAt(f, i);
      FullSorted(f[i].children);
      assert |multiset(SortForest(f[i].children))| == |SortChildren(f[i].children)|;
    }
    hide SortForest, SortChildren;
    assert Full(s) <==> Full(f);
    SortedElements(f);
    if Full(s) {
      FullElements(s, SortForest(f));
    }
    if Full(SortForest(f)) {
      FullElements(SortForest(f), s);
    }
  }

  lemma SortedElements(f: Forest)
    ensures multiset(SortForest(f)) == multiset(SortChildren(f))
  {}

  lemma SafeElements(keys: seq<string>)
    ensures SafeKeys(keys) <==> forall k :: k in multiset(keys) ==> KeySafe(k)
  {
    hide KeySafe;
    forall i | 0 <= i < |keys| ensures keys[i] in multiset(keys) {}
  }

  /** The text starts with a byte order mark, which `load` discards. */
  predicate StartsWithBom(text: string) {
    text != [] && text[0] == '\U{FEFF}'
  }

  lemma MarshalNotEmpty(f: Forest)
    requires f != []
    ensures Marshal(f) != ""
  {
    var s := SortForest(f);
    assert |s| == |f|;
    hide SortForest;
    assert BlockText(s[0], 0) != "";
  }

  lemma NoTokens(line: int)
    ensures Tokens("", line, 0) == []
  {}

  lemma LexPrinted(s: Forest)
    requires SafeKeys(AllKeys(s))
    ensures Tokens(ForestText(s, 0), 1, 0) == ForestTokens(s, 1)
  {
    hide *;
    NoTokens(1 + ForestLines(s));
    LexForest(s, 0, "", 1);
    assert ForestText(s, 0) + "" == ForestText(s, 0);
    assert ForestTokens(s, 1) + [] == ForestTokens(s, 1);
  }

  lemma ParsePrinted(s: Forest)
    requires SafeKeys(AllKeys(s))
    ensures ParseContainer(ForestTokens(s, 1)) == Some(Reindex(Pruned(s)))
  {
    assert At([], 0) == [] && Graft([], 0, Reindex(Pruned(s))) == [] + Reindex(Pruned(s));
    hide SafeKeys, AllKeys, ForestTokens, ForestLines, At, Graft, Reindex, Pruned;
    var n := ParseForest(START, s, 1, []);
    assert ForestTokens(s, 1) + [] == ForestTokens(s, 1) && [] + Reindex(Pruned(s)) == Reindex(Pruned(s));
  }

  /** Blocks that have neither a key nor a child are lost, and with safe keys nothing else is. */
  lemma UnmarshalSafe(f: Forest)
    requires f != [] && SafeKeys(AllKeys(f)) && !StartsWithBom(Marshal(f))
    ensures Unmarshal(Marshal(f)) == Some(Reindex(Pruned(SortForest(f))))
  {
    var s := SortForest(f);
    MarshalNotEmpty(f);
    SortKeepsKeys(f);
    SafeElements(AllKeys(f));
    SafeElements(AllKeys(s));
    hide SortForest, SafeKeys, AllKeys, ForestText, ForestTokens, Tokens, Parse, ParseContainer, Reindex, Pruned;
    LexPrinted(s);
    ParsePrinted(s);
  }

  /**
   Round trip: lexing and parsing the printed text gives back the sorted tree, with the same keys and
   children at every level and the sibling index for an order.
   */
  lemma UnmarshalMarshal(f: Forest)
    requires f != [] && Printable(f) && !StartsWithBom(Marshal(f))
    ensures Unmarshal(Marshal(f)) == Some(Reindex(SortForest(f)))
  {
    FullSorted(f);
    hide SortForest, SafeKeys, AllKeys, Unmarshal, Marshal, Reindex, Pruned, Full;
    UnmarshalSafe(f);
    PrunedFull(SortForest(f));
  }

  // ---------- printing again ----------

  /** Sibling indices agree with the classes that are written first, so they keep a sorted tree sorted. */
  lemma {:induction false} ReindexSorted(f: Forest, first: nat)
    requires DeepSorted(f)
    ensures DeepSorted(Reindex(f, first))
  {
    var r := Reindex(f, first);
    forall i, j | 0 <= i < j < |f| ensures Compare(r[i], r[j]) <= 0 {
      ReindexAt(f, first, i);
      ReindexAt(f, first, j);
      assert Compare(f[i], f[j]) <= 0;
    }
    forall i | 0 <= i < |f| ensures DeepSorted(r[i].children) {
      ReindexAt(f, first, i);
      ReindexSorted(f[i].children, 0);
    }
  }

  /** Printing what was read back from a printed tree gives the same text. */
  lemma PrintingFixpoint(f: Forest)
    requires f != [] && Printable(f) && !StartsWithBom(Marshal(f))
    ensures var g := Unmarshal(Marshal(f));
            g.Some? && Marshal(g.value) == Marshal(f)
  {
    UnmarshalMarshal(f);
    SortForestDeepSorted(f);
    var s := SortForest(f);
    ReindexSorted(s, 0);
    SortForestFixed(Reindex(s));
    OrdersNotPrinted(s, 0, 0);
  }
}
