/**
 What `parseContainer` makes of tokens, said without a machine: the tokens of one line are one block, and
 braces say how deep the blocks of the following lines are.
 */
module Outlines {
  import opened Options
  import opened Text
  import opened Tree
  import opened Lexer
  import opened Lexical
  import opened KeyLexing
  import opened Parser

  // ---------- outlines ----------

  datatype Line = Line(depth: nat, keys: seq<string>)

  /** The blocks of a forest, parents before children, with their depths. */
  function Outline(f: Forest, depth: nat): seq<Line> {
    if f == [] then []
    else [Line(depth, f[0].keys)] + Outline(f[0].children, depth + 1) + Outline(f[1..], depth)
  }

  // ---------- lines of tokens ----------

  /** The line on which a token ends. */
  function EndOf(t: Token): int {
    t.line + Newlines(t.text)
  }

  /** How many tokens go on where `line` ends, each of them starting on the line on which the last one ends. */
  function InLine(tokens: seq<Token>, line: int): (n: nat)
    ensures n <= |tokens|
  {
    if tokens == [] || tokens[0].line != line then 0 else 1 + InLine(tokens[1..], EndOf(tokens[0]))
  }

  /** The open containers behind the tokens of one block, whose own container is at depth `inside`. */
  function Open(stack: seq<nat>, tokens: seq<Token>, inside: nat): (r: Option<seq<nat>>)
    requires stack != []
    ensures r.Some? ==> r.value != []
    decreases |tokens|
  {
    if tokens == [] then Some(stack)
    else if tokens[0].text == "{" then Open(stack + [inside], tokens[1..], inside)
    else if tokens[0].text != "}" then Open(stack, tokens[1..], inside)
    else if |stack| == 1 then None
    else Open(stack[..|stack| - 1], tokens[1..], inside)
  }

  /** The tokens up to the end of the line on which the first one starts. */
  function LineOf(tokens: seq<Token>): (n: nat)
    requires tokens != []
    ensures 0 < n <= |tokens|
  {
    1 + InLine(tokens[1..], EndOf(tokens[0]))
  }

  /**
   The blocks that tokens stand for, while the containers at the depths of `stack` are open. Where no block has
   begun, a `}` closes a container, and anything else begins a block of the innermost open one: the rest of the
   line belongs to it, and its keys are all words of that.
   */
  function Lines(tokens: seq<Token>, stack: seq<nat>): Option<seq<Line>>
    requires stack != []
    decreases |tokens|
  {
    if tokens == [] then Some([])
    else if tokens[0].text == "}" then
      if |stack| == 1 then None else Lines(tokens[1..], stack[..|stack| - 1])
    else
      var n, depth := LineOf(tokens), stack[|stack| - 1];
      match Open(stack, tokens[..n], depth + 1)
      case None => None
      case Some(open) => Joined(Line(depth, Words(tokens[..n])), Lines(tokens[n..], open))
  }

  function Joined(line: Line, more: Option<seq<Line>>): Option<seq<Line>> {
    match more
    case None => None
    case Some(lines) => Some([line] + lines)
  }

  /** The lines that follow when a block with some keys has begun and goes on where `line` ends. */
  function LinesInside(tokens: seq<Token>, stack: seq<nat>, line: int, inside: nat, keys: seq<string>):
      Option<seq<Line>>
    requires stack != [] && inside > 0
  {
    var n := InLine(tokens, line);
    match Open(stack, tokens[..n], inside)
    case None => None
    case Some(open) => Joined(Line(inside - 1, keys + Words(tokens[..n])), Lines(tokens[n..], open))
  }

  // ---------- the machine does that ----------

  lemma OutlineConcat(f: Forest, g: Forest, depth: nat)
    ensures Outline(f + g, depth) == Outline(f, depth) + Outline(g, depth)
  {
    if f == [] {
      assert f + g == g;
    } else {
      assert (f + g)[1..] == f[1..] + g;
      OutlineConcat(f[1..], g, depth);
      var first := [Line(depth, f[0].keys)] + Outline(f[0].children, depth + 1);
      Associative(first, Outline(f[1..], depth), Outline(g, depth));
    }
  }

  lemma OutlineOne(b: Block, depth: nat)
    ensures Outline([b], depth) == [Line(depth, b.keys)] + Outline(b.children, depth + 1)
  {
    assert [b][1..] == [];
  }

  lemma OutlineWithLast(f: Forest, b: Block, depth: nat)
    requires f != []
    ensures Outline(WithLast(f, b), depth)
         == Outline(f[..|f| - 1], depth) + [Line(depth, b.keys)] + Outline(b.children, depth + 1)
  {
    OutlineConcat(f[..|f| - 1], [b], depth);
    OutlineOne(b, depth);
    Associative(Outline(f[..|f| - 1], depth), [Line(depth, b.keys)], Outline(b.children, depth + 1));
  }

  lemma WithLastSame(f: Forest)
    requires f != []
    ensures WithLast(f, Last(f)) == f
  {}

  /** A block that is added to a container on the spine comes last. */
  lemma {:induction false} OutlineGraft(f: Forest, d: nat, b: Block, depth: nat)
    requires d <= Spine(f) && b.children == []
    ensures Outline(Graft(f, d, [b]), depth) == Outline(f, depth) + [Line(depth + d, b.keys)]
    decreases d
  {
    if d == 0 {
      OutlineConcat(f, [b], depth);
      OutlineOne(b, depth);
      assert [Line(depth, b.keys)] + [] == [Line(depth, b.keys)];
    } else {
      var last := Last(f);
      OutlineGraft(last.children, d - 1, b, depth + 1);
      OutlineWithLast(f, last, depth);
      WithLastSame(f);
      OutlineWithLast(f, last.(children := Graft(last.children, d - 1, [b])), depth);
      Associative(Outline(f[..|f| - 1], depth) + [Line(depth, last.keys)], Outline(last.children, depth + 1),
        [Line(depth + d, b.keys)]);
    }
  }

  /** The block created last is the last line. */
  ghost predicate EndsIn(f: Forest, depth: nat, before: seq<Line>, keys: seq<string>) {
    f != [] && Outline(f, depth) == before + [Line(depth + Spine(f) - 1, keys)]
  }

  lemma {:induction false} OutlineAddKey(f: Forest, key: string, depth: nat, before: seq<Line>, keys: seq<string>)
    requires EndsIn(f, depth, before, keys)
    ensures EndsIn(AddKey(f, key), depth, before, keys + [key])
  {
    var b, init := Last(f), Outline(f[..|f| - 1], depth);
    SpineAddKey(f, key);
    OutlineWithLast(f, b, depth);
    WithLastSame(f);
    if b.children == [] {
      OutlineWithLast(f, b.(keys := b.keys + [key]), depth);
      assert init + [Line(depth, b.keys)] + [] == init + [Line(depth, b.keys)];
      assert init + [Line(depth, b.keys + [key])] + [] == init + [Line(depth, b.keys + [key])];
      SameEnd(init, Line(depth, b.keys), before, Line(depth + Spine(f) - 1, keys));
    } else {
      var inner := Outline(b.children, depth + 1);
      OutlineNotEmpty(b.children, depth + 1);
      var rest := inner[..|inner| - 1];
      var line := Line(depth + Spine(f) - 1, keys);
      assert init + [Line(depth, b.keys)] + inner == init + [Line(depth, b.keys)] + rest + [inner[|inner| - 1]];
      SameEnd(init + [Line(depth, b.keys)] + rest, inner[|inner| - 1], before, line);
      assert inner == rest + [line];
      OutlineAddKey(b.children, key, depth + 1, rest, keys);
      OutlineWithLast(f, b.(children := AddKey(b.children, key)), depth);
      Associative(init + [Line(depth, b.keys)], rest, [Line(depth + Spine(f) - 1, keys + [key])]);
    }
  }

  lemma OutlineNotEmpty(f: Forest, depth: nat)
    ensures Outline(f, depth) == [] <==> f == []
  {}

  lemma SameEnd(a: seq<Line>, x: Line, b: seq<Line>, y: Line)
    requires a + [x] == b + [y]
    ensures a == b && x == y
  {
    assert (a + [x])[..|a|] == a && (b + [y])[..|b|] == b;
    assert (a + [x])[|a|] == x && (b + [y])[|b|] == y;
  }

  /** Lines are counted from a number that no line has. */
  ghost predicate Placed(tokens: seq<Token>) {
    forall t :: t in tokens ==> t.line >= 0
  }

  /** Parsing fails where there are no lines, and otherwise adds them to the outline. */
  ghost predicate Adds(s: State, tokens: seq<Token>, before: seq<Line>, lines: Option<seq<Line>>)
    requires s.Valid()
  {
    match Parse(s, tokens)
    case None => lines.None?
    case Some(t) => lines.Some? && Outline(t.root, 0) == before + lines.value
  }

  /** The next token, if it is no `}`, begins a block. */
  predicate BeginsBlock(s: State, tokens: seq<Token>) {
    tokens != [] ==> NewLine(s, tokens[0]).isNewBlock
  }

  lemma AddsNothing(s: State)
    requires s.Valid()
    ensures Adds(s, [], Outline(s.root, 0), Some([]))
  {}

  lemma AddsNext(s: State, tokens: seq<Token>, before: seq<Line>, lines: Option<seq<Line>>)
    requires s.Valid() && tokens != []
    requires match StepToken(s, tokens[0])
      case None => lines.None?
      case Some(n) => Adds(n, tokens[1..], before, lines)
    ensures Adds(s, tokens, before, lines)
  {
    hide StepToken;
  }

  /** A `}` where no block has begun. */
  lemma CloseStep(s: State, t: Token)
    requires s.Valid() && t.text == "}"
    ensures StepToken(s, t) == if |s.stack| == 1 then None
      else Some(NewLine(s, t).(stack := s.stack[..|s.stack| - 1]))
  {}

  /** A token that begins a block is one of the new block. */
  lemma BeginStep(s: State, t: Token)
    requires s.Valid() && t.text != "}" && NewLine(s, t).isNewBlock
    ensures var n := NewLine(s, t);
      && n.Valid() && NewBlock(n).Valid() && !NewBlock(n).isNewBlock && NewBlock(n).stack == s.stack
      && NewBlock(n).tokenLine == t.line && StepToken(s, t) == StepToken(NewBlock(n), t)
  {
    NewBlockValid(NewLine(s, t));
    hide Spine, Graft, At, AddKey, AddBlock, Newlines;
  }

  lemma BlockAdded(s: State)
    requires s.Valid() && s.isNewBlock
    ensures var d := s.stack[|s.stack| - 1];
      && NewBlock(s).Valid() && Spine(NewBlock(s).root) == d + 1
      && EndsIn(NewBlock(s).root, 0, Outline(s.root, 0), [])
  {
    var d := s.stack[|s.stack| - 1];
    var b := Block(|At(s.root, d)|, [], []);
    NewBlockValid(s);
    SpineGraft(s.root, d, b);
    OutlineGraft(s.root, d, b, 0);
    assert NewBlock(s).root == Graft(s.root, d, [b]);
    assert Spine([]) == 0;
  }

  lemma OneWord(t: Token)
    ensures Words([t]) == if t.text == "{" || t.text == "}" then [] else [t.text]
  {
    assert [t][1..] == [];
  }

  /** A token of a block that has begun. */
  lemma InsideStep(s: State, t: Token, before: seq<Line>, keys: seq<string>)
    requires s.Valid() && !s.isNewBlock && s.tokenLine == t.line && EndsIn(s.root, 0, before, keys)
    ensures StepToken(s, t).None? <==> t.text == "}" && |s.stack| == 1
    ensures StepToken(s, t).Some? ==> var n := StepToken(s, t).value;
      && !n.isNewBlock && n.tokenLine == EndOf(t) && Spine(n.root) == Spine(s.root)
      && n.stack == (if t.text == "}" then s.stack[..|s.stack| - 1]
                     else if t.text == "{" then s.stack + [Spine(s.root)] else s.stack)
      && EndsIn(n.root, 0, before, keys + Words([t]))
  {
    OneWord(t);
    assert keys + [] == keys;
    assert Newlines("{") == 0 && Newlines("}") == 0 by {
      assert "{"[1..] == "" && "}"[1..] == "";
    }
    if t.text != "}" && t.text != "{" {
      OutlineAddKey(s.root, t.text, 0, before, keys);
      SpineAddKey(s.root, t.text);
    }
    hide Spine, Graft, At, AddKey, EndsIn, Newlines;
  }

  lemma PlacedRest(tokens: seq<Token>, n: nat)
    requires Placed(tokens) && n <= |tokens|
    ensures Placed(tokens[n..])
  {}

  lemma NoLines(stack: seq<nat>)
    requires stack != []
    ensures Lines([], stack) == Some([])
  {}

  lemma LinesClose(tokens: seq<Token>, stack: seq<nat>)
    requires stack != [] && tokens != [] && tokens[0].text == "}"
    ensures Lines(tokens, stack) == if |stack| == 1 then None else Lines(tokens[1..], stack[..|stack| - 1])
  {}

  lemma LinesBegin(tokens: seq<Token>, stack: seq<nat>)
    requires stack != [] && tokens != [] && tokens[0].text != "}"
    ensures Lines(tokens, stack) == LinesInside(tokens, stack, tokens[0].line, stack[|stack| - 1] + 1, [])
  {
    hide Open, Words;
    assert InLine(tokens, tokens[0].line) == LineOf(tokens);
    assert [] + Words(tokens[..LineOf(tokens)]) == Words(tokens[..LineOf(tokens)]);
  }

  lemma LinesOutside(tokens: seq<Token>, stack: seq<nat>, line: int, inside: nat, keys: seq<string>)
    requires stack != [] && inside > 0 && (tokens == [] || tokens[0].line != line)
    ensures LinesInside(tokens, stack, line, inside, keys) == Joined(Line(inside - 1, keys), Lines(tokens, stack))
  {
    hide Lines;
    assert tokens[..0] == [] && tokens[0..] == tokens && keys + [] == keys;
  }

  lemma WordsFirst(t: Token, more: seq<Token>)
    ensures Words([t] + more) == Words([t]) + Words(more)
  {
    assert ([t] + more)[1..] == more && [t][1..] == [];
  }

  lemma OpenFirst(stack: seq<nat>, t: Token, more: seq<Token>, inside: nat)
    requires stack != []
    ensures Open(stack, [t] + more, inside)
         == if t.text == "{" then Open(stack + [inside], more, inside)
            else if t.text != "}" then Open(stack, more, inside)
            else if |stack| == 1 then None
            else Open(stack[..|stack| - 1], more, inside)
  {
    assert ([t] + more)[1..] == more;
  }

  /** One token of a block. */
  lemma LinesNext(tokens: seq<Token>, stack: seq<nat>, inside: nat, keys: seq<string>)
    requires stack != [] && inside > 0 && tokens != []
    ensures LinesInside(tokens, stack, tokens[0].line, inside, keys)
         == var t, more := tokens[0], keys + Words([tokens[0]]);
            if t.text == "{" then LinesInside(tokens[1..], stack + [inside], EndOf(t), inside, more)
            else if t.text != "}" then LinesInside(tokens[1..], stack, EndOf(t), inside, more)
            else if |stack| == 1 then None
            else LinesInside(tokens[1..], stack[..|stack| - 1], EndOf(t), inside, more)
  {
    var t := tokens[0];
    var n := InLine(tokens[1..], EndOf(t));
    assert InLine(tokens, t.line) == n + 1;
    hide Open, Words, Lines, InLine, EndOf;
    assert tokens[..n + 1] == [t] + tokens[1..][..n] && tokens[1..][n..] == tokens[n + 1..];
    WordsFirst(t, tokens[1..][..n]);
    OpenFirst(stack, t, tokens[1..][..n], inside);
    Associative(keys, Words([t]), Words(tokens[1..][..n]));
  }

  lemma StackNotEmpty(s: State)
    requires s.Valid()
    ensures s.stack != []
  {}

  lemma SpineNotZero(f: Forest, before: seq<Line>, keys: seq<string>)
    requires EndsIn(f, 0, before, keys)
    ensures Spine(f) > 0
  {}

  lemma PlacedFirst(tokens: seq<Token>)
    requires Placed(tokens) && tokens != []
    ensures tokens[0].line >= 0
  {}

  lemma EndIsPlaced(t: Token)
    requires t.line >= 0
    ensures EndOf(t) >= 0
  {}

  lemma NewLineBegins(s: State, tokens: seq<Token>)
    requires s.tokenLine >= 0 && (tokens == [] || tokens[0].line != s.tokenLine)
    ensures BeginsBlock(s, tokens)
  {}

  lemma StillBegins(s: State, tokens: seq<Token>)
    requires BeginsBlock(s, tokens) && tokens != []
    ensures var n := NewLine(s, tokens[0]);
      n.isNewBlock && n.root == s.root && n.stack == s.stack
    ensures forall m: State :: m.isNewBlock ==> BeginsBlock(m, tokens[1..])
  {}

  lemma SameStep(s: State, b: State, tokens: seq<Token>, before: seq<Line>, lines: Option<seq<Line>>)
    requires s.Valid() && b.Valid() && tokens != [] && StepToken(s, tokens[0]) == StepToken(b, tokens[0])
    requires Adds(b, tokens, before, lines)
    ensures Adds(s, tokens, before, lines)
  {
    hide StepToken;
  }

  lemma AddsMore(s: State, tokens: seq<Token>, before: seq<Line>, keys: seq<string>)
    requires s.Valid() && EndsIn(s.root, 0, before, keys)
    requires Adds(s, tokens, Outline(s.root, 0), Lines(tokens, s.stack))
    ensures Adds(s, tokens, before, Joined(Line(Spine(s.root) - 1, keys), Lines(tokens, s.stack)))
  {
    hide Parse, Lines, Outline;
    var lines := Lines(tokens, s.stack);
    if lines.Some? {
      Associative(before, [Line(Spine(s.root) - 1, keys)], lines.value);
    }
  }

  /** Where no block has begun. */
  lemma {:induction false} ParsesLines(s: State, tokens: seq<Token>)
    requires s.Valid() && BeginsBlock(s, tokens) && Placed(tokens)
    ensures Adds(s, tokens, Outline(s.root, 0), Lines(tokens, s.stack))
    decreases |tokens|, 1
  {
    hide *;
    StackNotEmpty(s);
    if tokens == [] {
      AddsNothing(s);
      NoLines(s.stack);
    } else {
      var t, n := tokens[0], NewLine(s, tokens[0]);
      PlacedRest(tokens, 1);
      StillBegins(s, tokens);
      if t.text == "}" {
        CloseStep(s, t);
        LinesClose(tokens, s.stack);
        if |s.stack| > 1 {
          ParsesLines(StepToken(s, t).value, tokens[1..]);
        }
        AddsNext(s, tokens, Outline(s.root, 0), Lines(tokens, s.stack));
      } else {
        BeginStep(s, t);
        BlockAdded(n);
        var b := NewBlock(n);
        PlacedFirst(tokens);
        ParsesBlock(b, tokens, Outline(s.root, 0), []);
        LinesBegin(tokens, s.stack);
        SameStep(s, b, tokens, Outline(s.root, 0), Lines(tokens, s.stack));
      }
    }
  }

  /** Where a block has begun, which goes on with the tokens in its line. */
  lemma {:induction false} ParsesBlock(s: State, tokens: seq<Token>, before: seq<Line>, keys: seq<string>)
    requires s.Valid() && !s.isNewBlock && s.tokenLine >= 0 && Placed(tokens) && EndsIn(s.root, 0, before, keys)
    ensures Adds(s, tokens, before, LinesInside(tokens, s.stack, s.tokenLine, Spine(s.root), keys))
    decreases |tokens|, if tokens != [] && tokens[0].line == s.tokenLine then 0 else 2
  {
    hide *;
    var depth := Spine(s.root);
    StackNotEmpty(s);
    SpineNotZero(s.root, before, keys);
    if tokens == [] || tokens[0].line != s.tokenLine {
      NewLineBegins(s, tokens);
      ParsesLines(s, tokens);
      LinesOutside(tokens, s.stack, s.tokenLine, depth, keys);
      AddsMore(s, tokens, before, keys);
    } else {
      var t := tokens[0];
      PlacedRest(tokens, 1);
      PlacedFirst(tokens);
      InsideStep(s, t, before, keys);
      LinesNext(tokens, s.stack, depth, keys);
      if StepToken(s, t).Some? {
        var n := StepToken(s, t).value;
        EndIsPlaced(t);
        ParsesBlock(n, tokens[1..], before, keys + Words([t]));
      }
      AddsNext(s, tokens, before, LinesInside(tokens, s.stack, s.tokenLine, depth, keys));
    }
  }

  // ---------- what the tree is ----------

  /** Every order is the position of its block. */
  predicate Indexed(f: Forest) {
    Reindex(f) == f
  }

  lemma {:induction false} ReindexSnoc(f: Forest, b: Block, first: nat)
    ensures Reindex(f + [b], first) == Reindex(f, first) + [Block(first + |f|, b.keys, Reindex(b.children))]
  {
    if f == [] {
      assert f + [b] == [b] && [b][1..] == [];
    } else {
      assert (f + [b])[1..] == f[1..] + [b];
      ReindexSnoc(f[1..], b, first + 1);
    }
  }

  lemma IndexedSnoc(f: Forest, b: Block)
    ensures Indexed(f + [b]) <==> Indexed(f) && b.order == |f| && Indexed(b.children)
  {
    ReindexSnoc(f, b, 0);
    hide Reindex;
    var r := Block(|f|, b.keys, Reindex(b.children));
    assert (Reindex(f) + [r])[..|f|] == Reindex(f) && (f + [b])[..|f|] == f;
    assert (Reindex(f) + [r])[|f|] == r && (f + [b])[|f|] == b;
  }

  lemma LastSplit(f: Forest)
    requires f != []
    ensures f == f[..|f| - 1] + [Last(f)]
  {}

  lemma {:induction false} GraftIndexed(f: Forest, d: nat)
    requires d <= Spine(f) && Indexed(f)
    ensures Indexed(AddBlock(f, d))
    decreases d
  {
    var b := Block(|At(f, d)|, [], []);
    if d == 0 {
      assert Indexed([]);
      IndexedSnoc(f, b);
    } else {
      LastSplit(f);
      IndexedSnoc(f[..|f| - 1], Last(f));
      GraftIndexed(Last(f).children, d - 1);
      IndexedSnoc(f[..|f| - 1], Last(f).(children := AddBlock(Last(f).children, d - 1)));
    }
  }

  lemma {:induction false} AddKeyIndexed(f: Forest, key: string)
    requires f != [] && Indexed(f)
    ensures Indexed(AddKey(f, key))
  {
    var b := Last(f);
    LastSplit(f);
    IndexedSnoc(f[..|f| - 1], b);
    if b.children == [] {
      IndexedSnoc(f[..|f| - 1], b.(keys := b.keys + [key]));
    } else {
      AddKeyIndexed(b.children, key);
      IndexedSnoc(f[..|f| - 1], b.(children := AddKey(b.children, key)));
    }
  }

  lemma StepIndexed(s: State, t: Token)
    requires s.Valid() && Indexed(s.root)
    ensures StepToken(s, t).Some? ==> Indexed(StepToken(s, t).value.root)
  {
    var n := NewLine(s, t);
    if t.text != "}" {
      NewBlockValid(n);
      if n.isNewBlock {
        GraftIndexed(n.root, n.stack[|n.stack| - 1]);
      }
      if t.text != "{" {
        AddKeyIndexed(NewBlock(n).root, t.text);
      }
    }
    hide Spine, Graft, At, AddKey, AddBlock, Newlines, Indexed;
  }

  lemma {:induction false} ParseIndexed(s: State, tokens: seq<Token>)
    requires s.Valid() && Indexed(s.root)
    ensures Parse(s, tokens).Some? ==> Indexed(Parse(s, tokens).value.root)
    decreases tokens
  {
    hide StepToken, Indexed;
    if tokens != [] {
      StepIndexed(s, tokens[0]);
      if StepToken(s, tokens[0]).Some? {
        ParseIndexed(StepToken(s, tokens[0]).value, tokens[1..]);
      }
    }
  }

  /**
   Parsing gives the tree whose blocks are the lines of the tokens, parents before children, with their keys and
   their depths, numbered by position; it fails exactly where a `}` has nothing to close.
   */
  lemma ParseContainerLines(tokens: seq<Token>)
    requires Placed(tokens)
    ensures match ParseContainer(tokens)
      case None => Lines(tokens, [0]).None?
      case Some(f) => Lines(tokens, [0]) == Some(Outline(f, 0)) && Indexed(f)
  {
    ParsesLines(START, tokens);
    ParseIndexed(START, tokens);
    hide Parse, Lines;
    if Parse(START, tokens).Some? {
      var lines := Lines(tokens, [0]).value;
      assert Outline(START.root, 0) + lines == lines;
    }
  }

  lemma {:induction false} OutlineDepths(f: Forest, depth: nat)
    ensures forall l :: l in Outline(f, depth) ==> l.depth >= depth
    ensures f != [] ==> Outline(f, depth)[0] == Line(depth, f[0].keys)
  {
    if f != [] {
      OutlineDepths(f[0].children, depth + 1);
      OutlineDepths(f[1..], depth);
    }
  }

  /** Lines of greater depth in front of the first one of depth `depth`. */
  lemma {:induction false} SameInside(a: seq<Line>, rest: seq<Line>, b: seq<Line>, more: seq<Line>, depth: nat)
    requires a + rest == b + more
    requires forall l :: l in a || l in b ==> l.depth > depth
    requires (rest != [] ==> rest[0].depth == depth) && (more != [] ==> more[0].depth == depth)
    ensures a == b && rest == more
  {
    FirstOf(a, rest);
    FirstOf(b, more);
    if a != [] && b != [] {
      assert (a + rest)[1..] == a[1..] + rest && (b + more)[1..] == b[1..] + more;
      SameInside(a[1..], rest, b[1..], more, depth);
      assert a == [a[0]] + a[1..] && b == [b[0]] + b[1..];
    } else {
      assert [] + rest == rest && [] + more == more;
    }
  }

  lemma FirstOf(a: seq<Line>, rest: seq<Line>)
    ensures a + rest == [] <==> a == [] && rest == []
    ensures a + rest != [] ==> (a + rest)[0] == if a != [] then a[0] else rest[0]
  {}

  /** There is one tree for an outline, when blocks are numbered by position. */
  lemma {:induction false} OutlineUnique(f: Forest, g: Forest, depth: nat, first: nat)
    requires Outline(f, depth) == Outline(g, depth)
    ensures Reindex(f, first) == Reindex(g, first)
    decreases f
  {
    OutlineNotEmpty(f, depth);
    OutlineNotEmpty(g, depth);
    if f != [] {
      OutlineDepths(f, depth);
      OutlineDepths(g, depth);
      OutlineDepths(f[0].children, depth + 1);
      OutlineDepths(g[0].children, depth + 1);
      OutlineDepths(f[1..], depth);
      OutlineDepths(g[1..], depth);
      OutlineSplit(f, depth);
      OutlineSplit(g, depth);
      hide Outline;
      SameInside(Outline(f[0].children, depth + 1), Outline(f[1..], depth), Outline(g[0].children, depth + 1),
        Outline(g[1..], depth), depth);
      OutlineUnique(f[0].children, g[0].children, depth + 1, 0);
      OutlineUnique(f[1..], g[1..], depth, first + 1);
    }
  }

  lemma OutlineSplit(f: Forest, depth: nat)
    requires f != []
    ensures |Outline(f, depth)| > 0
    ensures Outline(f, depth)[1..] == Outline(f[0].children, depth + 1) + Outline(f[1..], depth)
  {}

  lemma {:induction false} LexPlaced(text: string, place: Place, escaped: bool)
    requires place.line >= 0 && place.skipped >= 0
    ensures Placed(Lex(text, place, escaped))
    decreases |text|
  {
    hide WordValue, QuotesValue, EndsEscaped, NoReturns, IsSpace, QuotesLength, Newlines;
    if text != [] {
      if (text[0] == '\\' && !escaped) || IsSpace(text[0]) {
        LexPlaced(text[1..], place, true);
        LexPlaced(text[1..], place.Behind(text[0], escaped), escaped && text[0] != '\n');
      } else if text[0] == '#' {
        var n := LineLength(text);
        if n < |text| {
          LexPlaced(text[n + 1..], place.Behind('\n', escaped || '\\' in text[..n]), false);
        }
      } else if text[0] == '"' {
        var n := QuotesLength(text[1..], escaped);
        if n < |text[1..]| {
          LexPlaced(text[1..][n + 1..], place.Over(text[1..][..n]), false);
        }
      } else if text[0] == '`' {
        var n := TicksLength(text[1..]);
        if n < |text[1..]| {
          LexPlaced(text[1..][n + 1..], place.Over(text[1..][..n]), false);
        }
      } else {
        var n := WordLength(text);
        if n < |text| {
          LexPlaced(text[n + 1..], place.Behind(text[n], EndsEscaped(escaped, NoReturns(text[..n]))), false);
        }
      }
    }
  }

  /** What is read from a text that somebody wrote is the only tree, numbered by position, with its lines. */
  lemma UnmarshalLines(content: string)
    requires content != []
    ensures var lines := Lines(Lex(Load(content), Place(1, 0), false), [0]);
      match Unmarshal(content)
      case None => lines.None?
      case Some(f) => forall g :: (Indexed(g) && lines == Some(Outline(g, 0))) <==> g == f
  {
    var tokens := Tokens(Load(content), 1, 0);
    TokensAre(Load(content), 1, 0);
    LexPlaced(Load(content), Place(1, 0), false);
    hide Lex, Tokens, ParseContainer, Lines;
    ParseContainerLines(tokens);
    if ParseContainer(tokens).Some? {
      var f := ParseContainer(tokens).value;
      forall g | Indexed(g) && Outline(g, 0) == Outline(f, 0) ensures g == f {
        OutlineUnique(g, f, 0, 0);
      }
    }
  }
}
