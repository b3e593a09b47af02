/** `write` and `Marshal` of `caddyfile/marshal.go`: the text of a tree. */
module Printer {
  import opened Text
  import opened Tree
  import opened BlockOrder

  /** `strings.ReplaceAll` of one character by a string. */
  function ReplaceAll(s: string, c: char, replacement: string): string {
    if s == [] then [] else (if s[0] == c then replacement else [s[0]]) + ReplaceAll(s[1..], c, replacement)
  }

  /** The three quoting styles. */
  function KeyText(key: string): string {
    if '\n' in key || '"' in key then "`" + ReplaceAll(key, '`', "\\`") + "`"
    else if ' ' in key then "\"" + ReplaceAll(key, '"', "\\\"") + "\""
    else key
  }

  /** Keys separated by one space. */
  function KeysText(keys: seq<string>): string {
    if keys == [] then ""
    else if |keys| == 1 then KeyText(keys[0])
    else KeyText(keys[0]) + " " + KeysText(keys[1..])
  }

  function BlockText(b: Block, level: nat): string
    decreases b, 1
  {
    Repeat('\t', level) + KeysText(b.keys)
    + (if b.children == [] then "" else (if b.keys == [] then "" else " ") + ChildrenText(b.children, level))
    + "\n"
  }

  /** The braces around children and what is between them. */
  function ChildrenText(f: Forest, level: nat): string
    decreases f, 1
  {
    "{\n" + ForestText(f, level + 1) + Repeat('\t', level) + "}"
  }

  function ForestText(f: Forest, level: nat): string
    decreases f, 0
  {
    if f == [] then "" else BlockText(f[0], level) + ForestText(f[1..], level)
  }

  /** `Container.Marshal`: the text of the sorted container. */
  function Marshal(f: Forest): string {
    ForestText(SortForest(f), 0)
  }

  // ---------- the layout ----------

  /** A tab in front of every line. */
  function IndentLines(s: string, lineStarts: bool): string
    decreases |s|
  {
    if s == [] then [] else (if lineStarts then "\t" else "") + [s[0]] + IndentLines(s[1..], s[0] == '\n')
  }

  lemma {:induction false} IndentFlat(s: string, t: string)
    requires '\n' !in s
    ensures IndentLines(s + t, false) == s + IndentLines(t, false)
  {
    if s == [] {
      assert s + t == t;
    } else {
      assert (s + t)[1..] == s[1..] + t;
      IndentFlat(s[1..], t);
    }
  }

  lemma IndentStart(s: string)
    requires s != []
    ensures IndentLines(s, true) == "\t" + IndentLines(s, false)
  {}

  /** The text is empty or ends with a line end. */
  predicate WholeLines(s: string) {
    s == [] || s[|s| - 1] == '\n'
  }

  lemma {:induction false} IndentConcat(s: string, t: string, lineStarts: bool)
    requires WholeLines(s) && (s == [] ==> lineStarts)
    ensures IndentLines(s + t, lineStarts) == IndentLines(s, lineStarts) + IndentLines(t, true)
    decreases |s|
  {
    if s == [] {
      assert s + t == t;
    } else {
      assert (s + t)[1..] == s[1..] + t;
      IndentConcat(s[1..], t, s[0] == '\n');
      Associative((if lineStarts then "\t" else "") + [s[0]], IndentLines(s[1..], s[0] == '\n'), IndentLines(t, true));
    }
  }

  lemma {:induction false} ReplaceAllFlat(s: string, c: char, replacement: string)
    requires '\n' !in s && '\n' !in replacement
    ensures '\n' !in ReplaceAll(s, c, replacement)
  {
    if s != [] {
      ReplaceAllFlat(s[1..], c, replacement);
    }
  }

  lemma {:induction false} KeysTextFlat(keys: seq<string>)
    requires forall k :: k in keys ==> '\n' !in k
    ensures '\n' !in KeysText(keys)
  {
    if keys != [] {
      ReplaceAllFlat(keys[0], '`', "\\`");
      ReplaceAllFlat(keys[0], '"', "\\\"");
      hide ReplaceAll;
      if |keys| > 1 {
        KeysTextFlat(keys[1..]);
      }
    }
  }

  lemma TextWholeLines(f: Forest, level: nat)
    ensures WholeLines(ForestText(f, level))
    decreases |f|
  {
    hide BlockText;
    if f != [] {
      TextWholeLines(f[1..], level);
      BlockWholeLines(f[0], level);
    }
  }

  lemma BlockWholeLines(b: Block, level: nat)
    ensures BlockText(b, level) != [] && WholeLines(BlockText(b, level))
  {
    hide KeysText, ChildrenText;
  }

  lemma MoreTabs(level: nat)
    ensures Repeat('\t', level + 1) == "\t" + Repeat('\t', level) && '\n' !in Repeat('\t', level)
  {}

  /** A text of one line in front of whole lines, and one behind them. */
  lemma IndentAround(first: string, lines: string, last: string)
    requires '\n' !in first && WholeLines(lines) && '\n' !in last
    ensures IndentLines(first + "\n" + lines + last + "\n", true)
         == "\t" + first + "\n" + IndentLines(lines, true) + "\t" + last + "\n"
  {
    hide IndentLines;
    OneLine(first);
    OneLine(last);
    IndentConcat(first + "\n", lines + (last + "\n"), true);
    IndentConcat(lines, last + "\n", true);
    assert first + "\n" + lines + last + "\n" == first + "\n" + (lines + (last + "\n"));
    assert ("\t" + first + "\n") + (IndentLines(lines, true) + ("\t" + last + "\n"))
        == "\t" + first + "\n" + IndentLines(lines, true) + "\t" + last + "\n";
  }

  lemma OneLine(s: string)
    requires '\n' !in s
    ensures IndentLines(s + "\n", true) == "\t" + s + "\n"
  {
    IndentStart(s + "\n");
    IndentFlat(s, "\n");
    assert "\n"[1..] == [];
    assert IndentLines("\n", false) == "\n";
    assert "\t" + (s + "\n") == "\t" + s + "\n";
  }

  /** One level deeper, a block has a tab more in front of every line. */
  lemma {:induction false} BlockIndented(b: Block, level: nat)
    requires forall k :: k in b.keys || k in AllKeys(b.children) ==> '\n' !in k
    ensures BlockText(b, level + 1) == IndentLines(BlockText(b, level), true)
    decreases b, 1
  {
    KeysTextFlat(b.keys);
    MoreTabs(level);
    BlockIs(b, level);
    BlockIs(b, level + 1);
    hide *;
    var tabs, line := Repeat('\t', level), KeysText(b.keys) + Opening(b);
    NoLineEnd(tabs, line);
    Associative("\t", tabs, line);
    Associative("\t", tabs, "}");
    if b.children == [] {
      OneLine(tabs + line);
    } else {
      ForestIndented(b.children, level + 1);
      TextWholeLines(b.children, level + 1);
      IndentAround(tabs + line, ForestText(b.children, level + 1), tabs + "}");
      Associative("\t" + (tabs + line) + "\n" + ForestText(b.children, level + 2), "\t", tabs + "}");
    }
  }

  /** What stands behind the keys of a block. */
  function Opening(b: Block): (s: string)
    ensures '\n' !in s
  {
    if b.children == [] then "" else (if b.keys == [] then "" else " ") + "{"
  }

  lemma NoLineEnd(tabs: string, line: string)
    requires '\n' !in tabs && '\n' !in line
    ensures '\n' !in tabs + line && '\n' !in tabs + "}"
  {}

  lemma BlockIs(b: Block, level: nat)
    ensures var first := Repeat('\t', level) + (KeysText(b.keys) + Opening(b));
      BlockText(b, level) == if b.children == [] then first + "\n"
        else first + "\n" + ForestText(b.children, level + 1) + (Repeat('\t', level) + "}") + "\n"
  {
    hide KeysText, ForestText, Repeat;
    var tabs, keys, text := Repeat('\t', level), KeysText(b.keys), ForestText(b.children, level + 1);
    assert keys + "" == keys;
    var blank := if b.keys == [] then "" else " ";
    assert tabs + keys + (blank + ("{\n" + text + tabs + "}")) + "\n"
        == tabs + (keys + (blank + "{")) + "\n" + text + (tabs + "}") + "\n";
  }

  lemma {:induction false} ForestIndented(f: Forest, level: nat)
    requires forall k :: k in AllKeys(f) ==> '\n' !in k
    ensures ForestText(f, level + 1) == IndentLines(ForestText(f, level), true)
    decreases f, 0
  {
    if f != [] {
      BlockIndented(f[0], level);
      ForestIndented(f[1..], level);
      BlockWholeLines(f[0], level);
      hide BlockText, IndentLines;
      IndentConcat(BlockText(f[0], level), ForestText(f[1..], level), true);
    }
  }

  /**
   A block is its keys on a line, and if it has children, these in braces, indented by a tab; without keys there
   is no blank in front of the brace.
   */
  lemma BlockLaidOut(b: Block)
    requires forall k :: k in AllKeys(b.children) ==> '\n' !in k
    ensures BlockText(b, 0) == KeysText(b.keys) + (
      if b.children == [] then "\n"
      else (if b.keys == [] then "{\n" else " {\n") + IndentLines(ForestText(b.children, 0), true) + "}\n")
  {
    hide KeysText, ForestText, IndentLines;
    ForestIndented(b.children, 0);
  }

  // ---------- writing to a buffer ----------

  /** Go's `bytes.Buffer`, as far as `write` uses it. */
  class Buffer {
    var contents: string

    constructor ()
      ensures contents == ""
    {
      contents := "";
    }

    method WriteString(s: string)
      modifies this
      ensures contents == old(contents) + s
    {
      contents := contents + s;
    }
  }

  lemma KeysTextSnoc(keys: seq<string>, key: string)
    ensures KeysText(keys + [key]) == (if keys == [] then "" else KeysText(keys) + " ") + KeyText(key)
  {
    hide KeyText;
    if keys == [] {
      assert keys + [key] == [key];
    } else {
      assert (keys + [key])[1..] == keys[1..] + [key];
      KeysTextSnoc(keys[1..], key);
      if |keys| > 1 {
        Associative(KeyText(keys[0]) + " ", KeysText(keys[1..]) + " ", KeyText(key));
        Associative(KeyText(keys[0]) + " ", KeysText(keys[1..]), " ");
      }
    }
  }

  lemma ForestTextConcat(f: Forest, g: Forest, level: nat)
    ensures ForestText(f + g, level) == ForestText(f, level) + ForestText(g, level)
  {
    if f == [] {
      assert f + g == g;
    } else {
      assert (f + g)[1..] == f[1..] + g;
      ForestTextConcat(f[1..], g, level);
    }
  }

  method WriteKey(buffer: Buffer, key: string)
    modifies buffer
    ensures buffer.contents == old(buffer.contents) + KeyText(key)
  {
    ghost var start := buffer.contents;
    if '\n' in key || '"' in key {
      buffer.WriteString("`");
      buffer.WriteString(ReplaceAll(key, '`', "\\`"));
      Associative(start, "`", ReplaceAll(key, '`', "\\`"));
      buffer.WriteString("`");
      Associative(start, "`" + ReplaceAll(key, '`', "\\`"), "`");
    } else if ' ' in key {
      buffer.WriteString("\"");
      buffer.WriteString(ReplaceAll(key, '"', "\\\""));
      Associative(start, "\"", ReplaceAll(key, '"', "\\\""));
      buffer.WriteString("\"");
      Associative(start, "\"" + ReplaceAll(key, '"', "\\\""), "\"");
    } else {
      buffer.WriteString(key);
    }
  }

  lemma NoKeysText()
    ensures KeysText([]) == ""
  {}

  method WriteKeys(buffer: Buffer, keys: seq<string>) returns (needsWhitespace: bool)
    modifies buffer
    ensures buffer.contents == old(buffer.contents) + KeysText(keys)
    ensures needsWhitespace == (keys != [])
  {
    hide KeyText, KeysText;
    needsWhitespace := false;
    ghost var start := buffer.contents;
    assert KeysText(keys[..0]) == "" by { NoKeysText(); }
    for i := 0 to |keys|
      invariant needsWhitespace == (i > 0)
      invariant buffer.contents == start + KeysText(keys[..i])
    {
      ghost var before := KeysText(keys[..i]);
      assert i == 0 ==> keys[..i] == [];
      if needsWhitespace {
        buffer.WriteString(" ");
        Associative(start, before, " ");
        Associative(start, before + " ", KeyText(keys[i]));
      }
      WriteKey(buffer, keys[i]);
      assert i == 0 ==> start + before == start;
      needsWhitespace := true;
      KeysTextSnoc(keys[..i], keys[i]);
      assert keys[..i + 1] == keys[..i] + [keys[i]];
    }
    assert keys[..|keys|] == keys;
  }

  method WriteBlock(buffer: Buffer, b: Block, level: nat)
    modifies buffer
    ensures buffer.contents == old(buffer.contents) + BlockText(b, level)
    decreases b, 2
  {
    ghost var start := buffer.contents;
    var indent := Repeat('\t', level);
    buffer.WriteString(indent);
    var needsWhitespace := WriteKeys(buffer, b.keys);
    Associative(start, indent, KeysText(b.keys));
    ghost var line := indent + KeysText(b.keys);
    ghost var tail := "";
    if |b.children| > 0 {
      tail := (if b.keys == [] then "" else " ") + ChildrenText(b.children, level);
      if needsWhitespace {
        buffer.WriteString(" ");
      }
      WriteChildren(buffer, b.children, level);
      Associative(start + line, if b.keys == [] then "" else " ", ChildrenText(b.children, level));
    }
    assert buffer.contents == start + line + tail;
    buffer.WriteString("\n");
    assert start + line + tail + "\n" == start + (line + tail + "\n");
  }

  method WriteChildren(buffer: Buffer, f: Forest, level: nat)
    modifies buffer
    ensures buffer.contents == old(buffer.contents) + ChildrenText(f, level)
    decreases f, 1
  {
    ghost var start := buffer.contents;
    buffer.WriteString("{\n");
    WriteForest(buffer, f, level + 1);
    Associative(start, "{\n", ForestText(f, level + 1));
    buffer.WriteString(Repeat('\t', level) + "}");
    Associative(start, "{\n" + ForestText(f, level + 1), Repeat('\t', level) + "}");
    Associative("{\n" + ForestText(f, level + 1), Repeat('\t', level), "}");
  }

  method WriteForest(buffer: Buffer, f: Forest, level: nat)
    modifies buffer
    ensures buffer.contents == old(buffer.contents) + ForestText(f, level)
    decreases f, 0
  {
    for i := 0 to |f|
      invariant buffer.contents == old(buffer.contents) + ForestText(f[..i], level)
    {
      WriteBlock(buffer, f[i], level);
      ForestTextConcat(f[..i], [f[i]], level);
      assert ForestText([f[i]], level) == BlockText(f[i], level) + ForestText([], level);
      assert f[..i + 1] == f[..i] + [f[i]];
    }
    assert f[..|f|] == f;
  }

  // ---------- the text does not depend on how siblings are arranged ----------

  /** `Marshal` is unchanged by rearranging siblings at any level. */
  lemma MarshalCanonical(f: Forest, g: Forest)
    requires SameForest(f, g)
    ensures Marshal(f) == Marshal(g)
  {
    SortCanonical(f, g);
  }

  /** Orders only arrange siblings; they are not printed. */
  lemma {:induction false} OrdersNotPrinted(f: Forest, first: nat, level: nat)
    ensures ForestText(Reindex(f, first), level) == ForestText(f, level)
    decreases f, 0
  {
    if f != [] {
      OrdersNotPrinted(f[0].children, 0, level + 1);
      OrdersNotPrinted(f[1..], first + 1, level);
      var r := Reindex(f, first);
      assert r[1..] == Reindex(f[1..], first + 1);
      assert r[0] == Block(first, f[0].keys, Reindex(f[0].children));
      assert BlockText(r[0], level) == BlockText(f[0], level);
    }
  }
}
