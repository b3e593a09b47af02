/**
 Printed trees as lists of keys with the separators between them, and the words that are read from a
 text.
 */
module Layout {
  import opened Text
  import opened Tree
  import opened Lexer
  import opened Printer
  import opened Parser
  import opened KeyLexing
  import opened RoundTrip

  // ---------- the words of a text ----------

  /** The words that are read from a text: its tokens apart from braces. */
  function Reads(text: string): seq<string> {
    Words(Tokens(text, 1, 0))
  }

  predicate Brace(word: string) {
    word == "{" || word == "}"
  }

  const BEGIN := Fresh(NO_TOKEN, 1, 0)

  /** The first call of `next`. */
  function First(text: string): Next {
    Run(BEGIN, text)
  }

  /** The same state apart from lines and the token in the making. */
  predicate SameReading(s: Scan, t: Scan) {
    && s.val == t.val && s.comment == t.comment
    && s.quoted == t.quoted && s.btQuoted == t.btQuoted && s.escaped == t.escaped
  }

  lemma {:induction false} RunAlike(s: Scan, t: Scan, input: string)
    requires SameReading(s, t)
    ensures var r, q := Run(s, input), Run(t, input);
      r.Found? == q.Found? && SameReading(r.scan, q.scan) && (r.Found? ==> r.rest == q.rest)
    decreases |input|
  {
    if input != [] {
      StepAlike(s, t, input[0]);
      hide Step;
      if Step(s, input[0]).Continue? {
        RunAlike(Step(s, input[0]).scan, Step(t, input[0]).scan, input[1..]);
      }
    }
  }

  lemma StepAlike(s: Scan, t: Scan, c: char)
    requires SameReading(s, t)
    ensures Step(s, c).Continue? == Step(t, c).Continue? && SameReading(Step(s, c).scan, Step(t, c).scan)
  {}

  /** The words do not depend on where the line count starts. */
  lemma {:induction false} WordsAnyLine(text: string, line: int, skippedLines: int, other: int, skipped: int)
    ensures Words(Tokens(text, line, skippedLines)) == Words(Tokens(text, other, skipped))
    decreases |text|
  {
    var s, t := Fresh(NO_TOKEN, line, skippedLines), Fresh(NO_TOKEN, other, skipped);
    RunAlike(s, t, text);
    var r, q := Run(s, text), Run(t, text);
    if r.Found? {
      WordsAnyLine(r.rest, r.scan.line, r.scan.skippedLines, q.scan.line, q.scan.skippedLines);
      hide Run, Step;
      var a, b := Tokens(text, line, skippedLines), Tokens(text, other, skipped);
      assert a[0].text == r.scan.val && a[1..] == Tokens(r.rest, r.scan.line, r.scan.skippedLines);
      assert b[0].text == q.scan.val && b[1..] == Tokens(q.rest, q.scan.line, q.scan.skippedLines);
    }
  }

  /** The words of a text are its first token, unless that is a brace, and the words behind it. */
  lemma ReadsFirst(text: string)
    ensures First(text).NotFound? ==> Reads(text) == []
    ensures First(text).Found? ==>
      |First(text).rest| < |text|
      && Reads(text) == (if Brace(First(text).scan.val) then [] else [First(text).scan.val]) + Reads(First(text).rest)
  {
    var r := First(text);
    if r.Found? {
      WordsAnyLine(r.rest, r.scan.line, r.scan.skippedLines, 1, 0);
      hide Run;
      var a := Tokens(text, 1, 0);
      assert a[0].text == r.scan.val && a[1..] == Tokens(r.rest, r.scan.line, r.scan.skippedLines);
    }
  }

  // ---------- keys and separators ----------

  /** A key and what is written between it and the next one. */
  datatype Item = Item(key: string, sep: string)

  function Keys(items: seq<Item>): seq<string> {
    if items == [] then [] else [items[0].key] + Keys(items[1..])
  }

  function TextOf(items: seq<Item>): string {
    if items == [] then "" else KeyText(items[0].key) + items[0].sep + TextOf(items[1..])
  }

  /** White space and braces, each brace at the end of its line. */
  predicate Blanks(s: string) {
    s == [] || (BlankStart(s) && Blanks(s[1..]))
  }

  predicate BlankStart(s: string) {
    && s != []
    && (s[0] == ' ' || s[0] == '\t' || s[0] == '\n' || (Brace([s[0]]) && |s| > 1 && s[1] == '\n'))
  }

  predicate Separator(s: string) {
    Blanks(s) && EndsWord(s)
  }

  /** Separators between all keys, and a line end behind the last one. */
  predicate Laid(items: seq<Item>) {
    items != [] ==>
      Separator(items[0].sep) && (|items| == 1 ==> '\n' in items[0].sep) && Laid(items[1..])
  }

  lemma {:induction false} BlankConcat(s: string, t: string)
    requires Blanks(s) && Blanks(t)
    ensures Blanks(s + t)
  {
    if s == [] {
      assert s + t == t;
    } else {
      assert (s + t)[1..] == s[1..] + t;
      BlankConcat(s[1..], t);
    }
  }

  lemma {:induction false} BlankTabs(n: nat)
    ensures Blanks(Repeat('\t', n))
  {
    if n > 0 {
      assert Repeat('\t', n)[1..] == Repeat('\t', n - 1);
      BlankTabs(n - 1);
    }
  }

  /** Separators hold no words. */
  lemma {:induction false} ReadsBlank(blank: string, rest: string)
    requires Blanks(blank)
    ensures Reads(blank + rest) == Reads(rest)
    decreases |blank|
  {
    hide Reads;
    if blank == [] {
      assert blank + rest == rest;
    } else {
      var more := blank[1..];
      assert blank + rest == [blank[0]] + (more + rest);
      ReadsBlank(more, rest);
      if Brace([blank[0]]) {
        assert (more + rest)[0] == blank[1];
        ReadsBrace([blank[0]], more + rest);
      } else {
        ReadsSpace(blank[0], more + rest);
      }
    }
  }

  lemma ReadsSpace(c: char, rest: string)
    requires c == ' ' || c == '\t' || c == '\n'
    ensures Reads([c] + rest) == Reads(rest)
  {
    if c == '\n' {
      SkipNewline(rest, 1);
      WordsAnyLine(rest, 2, 0, 1, 0);
    } else {
      SkipBlank(c, rest, 1);
    }
  }

  lemma ReadsBrace(brace: string, rest: string)
    requires Brace(brace) && EndsWord(rest)
    ensures Reads(brace + rest) == Reads(rest)
  {
    hide Tokens;
    LexBrace(brace, rest, 1);
    WordsAnyLine(rest, 1, 0, 1, 0);
    assert ([Token(1, brace)] + Tokens(rest, 1, 0))[1..] == Tokens(rest, 1, 0);
  }

  /** A lexable key is read as itself. */
  lemma ReadsKey(key: string, rest: string)
    requires Lexable(key) && !Brace(key) && EndsWord(rest)
    ensures Reads(KeyText(key) + rest) == [key] + Reads(rest)
  {
    hide Tokens, Lexable, KeyText, Newlines, EndsWord;
    LexKey(key, rest, 1);
    WordsAnyLine(rest, 1 + Newlines(key), 0, 1, 0);
    var tokens := Tokens(rest, 1 + Newlines(key), 0);
    assert ([Token(1, key)] + tokens)[1..] == tokens;
  }

  // ---------- the layout of a printed forest ----------

  /** What comes before the first key, and the keys with what follows them. */
  datatype Sheet = Sheet(lead: string, items: seq<Item>) {
    function Text(): string {
      lead + TextOf(items)
    }

    predicate Valid() {
      Blanks(lead) && Laid(items)
    }

    /** The sheet with more in front of it. */
    function Behind(blank: string): Sheet {
      Sheet(blank + lead, items)
    }
  }

  lemma BehindBlank(s: Sheet, blank: string)
    requires s.Valid() && Blanks(blank)
    ensures s.Behind(blank).Valid() && s.Behind(blank).Text() == blank + s.Text()
  {
    BlankConcat(blank, s.lead);
    Associative(blank, s.lead, TextOf(s.items));
  }

  /** Keys with single blanks between them and `end` behind the last one. */
  function KeyItems(keys: seq<string>, end: string): seq<Item> {
    if keys == [] then []
    else [Item(keys[0], if |keys| == 1 then end else " ")] + KeyItems(keys[1..], end)
  }

  lemma SmallBlanks()
    ensures Blanks("\n") && Blanks("{\n") && Blanks("}\n") && Blanks(" ")
    ensures Separator(" ") && '\n' in "{\n"
  {
    assert "{\n"[1..] == "}\n"[1..] == "\n" && "\n"[1..] == " "[1..] == "";
    assert "{\n"[1] == '\n';
  }

  lemma LayOne(item: Item, items: seq<Item>)
    requires Laid(items) && Separator(item.sep) && (items == [] ==> '\n' in item.sep)
    ensures Laid([item] + items)
    ensures TextOf([item] + items) == KeyText(item.key) + (item.sep + TextOf(items))
    ensures Keys([item] + items) == [item.key] + Keys(items)
  {
    hide Separator, KeyText;
    assert ([item] + items)[1..] == items;
  }

  lemma {:induction false} LayKeys(keys: seq<string>, end: string, items: seq<Item>)
    requires keys != [] && Laid(items) && Separator(end) && '\n' in end
    ensures Laid(KeyItems(keys, end) + items)
    ensures TextOf(KeyItems(keys, end) + items) == KeysText(keys) + (end + TextOf(items))
    ensures Keys(KeyItems(keys, end) + items) == keys + Keys(items)
    decreases |keys|
  {
    SmallBlanks();
    hide KeyText, Separator, Laid, TextOf, Keys;
    var first := Item(keys[0], if |keys| == 1 then end else " ");
    var more := KeyItems(keys[1..], end) + items;
    assert KeyItems(keys, end) + items == [first] + more;
    assert keys == [keys[0]] + keys[1..];
    if |keys| == 1 {
      assert more == items;
    } else {
      LayKeys(keys[1..], end, items);
      Associative(KeyText(keys[0]) + " ", KeysText(keys[1..]), end + TextOf(items));
      Associative(KeyText(keys[0]), " ", KeysText(keys[1..]) + (end + TextOf(items)));
      Associative([keys[0]], keys[1..], Keys(items));
    }
    LayOne(first, more);
  }

  /** What follows the keys of a block, with the sheet behind the block. */
  function AfterKeys(b: Block, level: nat, s: Sheet): string {
    (if b.children == [] then "" else (if b.keys == [] then "" else " ") + ChildrenText(b.children, level))
    + ("\n" + s.Text())
  }

  lemma SeparatorConcat(s: string, t: string)
    requires s == "\n" || s == " "
    requires Blanks(t)
    ensures Separator(s + t)
  {
    SmallBlanks();
    BlankConcat(s, t);
  }

  lemma {:induction false} LayChildren(b: Block, level: nat, s: Sheet) returns (r: Sheet)
    requires s.Valid()
    ensures r.Valid() && r.Text() == AfterKeys(b, level, s)
    ensures Keys(r.items) == AllKeys(b.children) + Keys(s.items)
    ensures b.keys != [] ==> Separator(r.lead) && '\n' in r.lead
    decreases b, 0
  {
    hide ForestText, TextOf, Laid, Blanks, AllKeys, Keys, EndsWord;
    SmallBlanks();
    var after := s.Behind("\n");
    BehindBlank(s, "\n");
    if b.children == [] {
      r := after;
      NoChildren(s);
      SeparatorConcat("\n", s.lead);
      assert AfterKeys(b, level, s) == "" + ("\n" + s.Text());
    } else {
      BehindBlank(s, "}\n");
      BlankTabs(level);
      BehindBlank(s.Behind("}\n"), Repeat('\t', level));
      var inner := LayForest(b.children, level + 1, s.Behind("}\n").Behind(Repeat('\t', level)));
      BehindBlank(inner, "{\n");
      r := inner.Behind("{\n");
      assert r.lead[1] == '\n';
      if b.keys != [] {
        SeparatorConcat(" ", r.lead);
        BehindBlank(r, " ");
        assert (" " + r.lead)[2] == '\n';
        r := r.Behind(" ");
      }
      BracesAround(b, level, s);
    }
  }

  lemma NoChildren(s: Sheet)
    ensures Keys(s.items) == AllKeys([]) + Keys(s.items)
  {}

  lemma BracesAround(b: Block, level: nat, s: Sheet)
    requires b.children != []
    ensures AfterKeys(b, level, s) == (if b.keys == [] then "" else " ")
      + ("{\n" + (ForestText(b.children, level + 1) + (Repeat('\t', level) + ("}\n" + s.Text()))))
  {
    hide ForestText;
    assert "}" + ("\n" + s.Text()) == "}\n" + s.Text();
  }

  lemma {:induction false} LayBlock(b: Block, level: nat, s: Sheet) returns (r: Sheet)
    requires s.Valid()
    ensures r.Valid() && r.Text() == BlockText(b, level) + s.Text()
    ensures Keys(r.items) == b.keys + AllKeys(b.children) + Keys(s.items)
    decreases b, 1
  {
    var body := LayChildren(b, level, s);
    BlockTextIs(b, level, s);
    hide BlockText, AfterKeys, TextOf, Laid, Blanks, AllKeys, Keys, KeysText, KeyItems, EndsWord, KeyText;
    BlankTabs(level);
    var tabs := Repeat('\t', level);
    if b.keys == [] {
      BehindBlank(body, tabs);
      r := body.Behind(tabs);
      assert KeysText([]) == "" by { NoKeysText(); }
      assert "" + AfterKeys(b, level, s) == AfterKeys(b, level, s);
    } else {
      LayKeys(b.keys, body.lead, body.items);
      r := Sheet(tabs, KeyItems(b.keys, body.lead) + body.items);
      assert r.Text() == tabs + (KeysText(b.keys) + AfterKeys(b, level, s));
      Associative(b.keys, AllKeys(b.children), Keys(s.items));
    }
  }

  lemma BlockTextIs(b: Block, level: nat, s: Sheet)
    ensures BlockText(b, level) + s.Text() == Repeat('\t', level) + (KeysText(b.keys) + AfterKeys(b, level, s))
  {
    hide KeysText, ChildrenText, TextOf;
  }

  /**
   The text of a forest is a blank, and then keys with separators between them; the keys are all keys
   of the forest.
   */
  lemma {:induction false} LayForest(f: Forest, level: nat, s: Sheet) returns (r: Sheet)
    requires s.Valid()
    ensures r.Valid() && r.Text() == ForestText(f, level) + s.Text()
    ensures Keys(r.items) == AllKeys(f) + Keys(s.items)
    decreases f, 2
  {
    hide BlockText, TextOf, Laid, Blanks, Keys, Sheet.Text;
    if f == [] {
      r := s;
      assert [] + Keys(s.items) == Keys(s.items);
      assert "" + s.Text() == s.Text();
    } else {
      var behind := LayForest(f[1..], level, s);
      r := LayBlock(f[0], level, behind);
      Associative(BlockText(f[0], level), ForestText(f[1..], level), s.Text());
      Associative(f[0].keys + AllKeys(f[0].children), AllKeys(f[1..]), Keys(s.items));
    }
  }
}
