/** Exactly the documents with safe keys and no empty blocks are read back from their printed text. */
module TreeExact {
  import opened Options
  import opened Text
  import opened Tree
  import opened BlockOrder
  import opened Lexer
  import opened Printer
  import opened Parser
  import opened KeyLexing
  import opened RoundTrip
  import opened KeyExact
  import opened Layout
  import opened Misreading

  // ---------- the reader stays ahead of the keys ----------

  /** What follows the text of the first key. */
  function AfterKey(items: seq<Item>): string
    requires items != []
  {
    items[0].sep + TextOf(items[1..])
  }

  /** The rest of a text is not inside a key of white space and braces, which could be taken for a separator. */
  predicate Ahead(items: seq<Item>, rest: string) {
    items != [] && Blanks(items[0].key) && InBackticks(items[0].key) ==> |rest| <= |AfterKey(items)|
  }

  /** A key has been read, and with it a part of the text of the next keys. */
  predicate Overran(items: seq<Item>, rest: string) {
    items != [] && |rest| < |TextOf(items)| && HasSuffix(TextOf(items), rest) && Ahead(items, rest)
  }

  lemma {:induction false} RestIsSuffix(s: Scan, input: string)
    ensures Run(s, input).Found? ==> HasSuffix(input, Run(s, input).rest)
    decreases |input|
  {
    hide Step;
    if input != [] && Step(s, input[0]).Continue? {
      RestIsSuffix(Step(s, input[0]).scan, input[1..]);
    }
  }

  lemma SuffixOf(text: string, word: string, tail: string)
    requires HasSuffix(text, word)
    ensures HasSuffix(word, tail) ==> HasSuffix(text, tail)
  {}

  lemma SuffixSplit(a: string, b: string, u: string) returns (w: string)
    requires HasSuffix(a + b, u) && |b| <= |u|
    ensures u == w + b && HasSuffix(a, w)
  {
    w := u[..|u| - |b|];
    assert u == (a + b)[|a + b| - |u|..];
    assert w == a[|a| - |w|..];
  }

  lemma TickedText(key: string)
    requires Blanks(key) && InBackticks(key)
    ensures KeyText(key) == Ticked(key)
  {
    BlankChars(key);
    hide Blanks;
    ReplaceNone(key, '`', "\\`");
  }

  /** No token is read over the text of the next key if that is white space and braces. */
  lemma IntoNext(key: string, s: Scan, blank: string, w: string)
    requires Blanks(blank) && HasSuffix(Ticked(blank), w) && w != []
    requires s == BEGIN || (w == Ticked(blank) && KeyMissed(key, s))
    ensures Goes(key, ReadOver(s, w))
  {
    SuffixLength(Ticked(blank), w);
    StartSane();
    IdleMissed(key, BEGIN);
    hide Blanks, Goes, KeyMissed, Sane, Idle;
    if |w| == |Ticked(blank)| {
      SuffixWhole(Ticked(blank), w);
      IntoWhole(key, s, blank);
    } else {
      var part := QuotedPart('`', blank, w);
      IntoPart(key, blank, part);
    }
  }

  lemma TextIs(items: seq<Item>)
    requires items != []
    ensures TextOf(items) == KeyText(items[0].key) + AfterKey(items)
    ensures Laid(items) ==> TextOf(items) != []
  {
    hide KeyText, Blanks;
    Associative(KeyText(items[0].key), items[0].sep, TextOf(items[1..]));
  }

  /** The next word is read, if at all, from the text of the next keys. */
  lemma Arrive(key: string, s: Scan, items: seq<Item>, x: string)
    requires !Brace(key) && Laid(items) && HasSuffix(TextOf(items), x)
    requires s == BEGIN || (x == TextOf(items) && KeyMissed(key, s))
    requires x == [] ==> s.val == [] || s.val != key
    ensures var r := Run(s, x); r.Found? && r.scan.val == key ==> Overran(items, r.rest)
  {
    var r := Run(s, x);
    if r.Found? && r.scan.val == key && x != [] {
      assert items != [] && |x| <= |TextOf(items)|;
      RestIsSuffix(s, x);
      SuffixOf(TextOf(items), x, r.rest);
      var next := items[0].key;
      if Blanks(next) && InBackticks(next) && |r.rest| > |AfterKey(items)| {
        TextIs(items);
        TickedText(next);
        var w := SuffixSplit(KeyText(next), AfterKey(items), x);
        hide Run, Blanks, InBackticks, AfterKey, TextOf, HasSuffix, KeyMissed, Laid;
        assert w != [];
        if x == TextOf(items) {
          assert w == Ticked(next);
        }
        IntoNext(key, s, next, w);
        RunOver(s, w, AfterKey(items));
        InsideNext(s, w, AfterKey(items));
      }
    }
  }

  lemma InsideNext(s: Scan, w: string, tail: string)
    ensures var r := Run(s, w + tail); r.Found? && |r.rest| > |tail| ==>
      var o := ReadOver(s, w); o.Emitted? && o.rest != [] && o.scan == r.scan
  {
    RunOver(s, w, tail);
  }

  lemma FromPassed(items: seq<Item>, word: string, u: string)
    requires items != [] && Laid(items) && !Brace(items[0].key) && u == word + TextOf(items[1..])
    requires Passed(items[0].key, items[0].sep, ReadOver(BEGIN, word))
    ensures var r := First(u); r.Found? && r.scan.val == items[0].key ==> Overran(items[1..], r.rest)
  {
    var key, more := items[0].key, items[1..];
    var o := ReadOver(BEGIN, word);
    RunOver(BEGIN, word, TextOf(more));
    if o.Reached? {
      if more != [] {
        TextIs(more);
      }
      hide Run, Laid, TextOf, KeyMissed, Brace;
      Arrive(key, o.scan, more, TextOf(more));
    }
  }

  /** The reader starts in the separator behind the key. */
  lemma FromSeparator(items: seq<Item>, u: string)
    requires items != [] && Laid(items) && !Brace(items[0].key)
    requires HasSuffix(TextOf(items), u) && |TextOf(items[1..])| <= |u| <= |AfterKey(items)|
    ensures var r := First(u); r.Found? && r.scan.val == items[0].key ==> Overran(items[1..], r.rest)
  {
    var key, sep, more := items[0].key, items[0].sep, items[1..];
    TextIs(items);
    SuffixTail(KeyText(key), AfterKey(items), u);
    var w := SuffixSplit(sep, TextOf(more), u);
    hide Run, TextOf, HasSuffix, KeyMissed, Brace, AfterKey;
    SuffixBlank(sep, w);
    StartSane();
    OverBlank(BEGIN, w);
    OverSane(BEGIN, w);
    RunOver(BEGIN, w, TextOf(more));
    var o := ReadOver(BEGIN, w);
    if o.Reached? {
      assert HasSuffix(TextOf(more), TextOf(more)) by { WholeSuffix(TextOf(more)); }
      assert KeyMissed(key, o.scan) by { IdleMissed(key, o.scan); }
      Arrive(key, o.scan, more, TextOf(more));
    }
  }

  lemma WholeSuffix(s: string)
    ensures HasSuffix(s, s)
  {}

  lemma IdleMissed(key: string, s: Scan)
    requires Sane(s) && Idle(s)
    ensures KeyMissed(key, s)
  {}

  lemma SuffixTail(a: string, b: string, u: string)
    requires HasSuffix(a + b, u) && |u| <= |b|
    ensures HasSuffix(b, u)
  {}

  lemma BackticksText(key: string)
    requires InBackticks(key)
    ensures KeyText(key) == ['`'] + (Escaped(key) + ['`'])
  {}

  lemma QuotesText(key: string)
    requires InQuotes(key)
    ensures KeyText(key) == ['"'] + (key + ['"'])
  {
    ReplaceNone(key, '"', "\\\"");
  }

  /** A proper part of a quoted text. */
  lemma QuotedPart(mark: char, inside: string, w: string) returns (part: string)
    requires HasSuffix([mark] + (inside + [mark]), w) && 0 < |w| < |inside| + 2
    ensures w == part + [mark] && HasSuffix(inside, part)
  {
    SuffixTail([mark], inside + [mark], w);
    part := SuffixSplit(inside, [mark], w);
  }

  /** The reader starts in the text of a key, or in front of it if the key is not safe. */
  lemma FromKey(items: seq<Item>, w: string, u: string)
    requires items != [] && Laid(items) && !Brace(items[0].key) && Ahead(items, u)
    requires HasSuffix(KeyText(items[0].key), w) && w != [] && u == w + AfterKey(items)
    requires w == KeyText(items[0].key) ==> !Lexable(items[0].key)
    ensures var r := First(u); r.Found? && r.scan.val == items[0].key ==> Overran(items[1..], r.rest)
  {
    var key, sep, rest := items[0].key, items[0].sep, TextOf(items[1..]);
    assert u == (w + sep) + rest;
    var whole := |w| == |KeyText(key)|;
    assert whole ==> w == KeyText(key);
    hide Run, HasSuffix, Lexable, Blanks, TextOf, Laid, Passed, Overran, Brace, EndsWord;
    assert Separator(sep) by { FirstSeparator(items); }
    if InBackticks(key) {
      BackticksText(key);
      if whole {
        assert '`' in key by { UnsafeBackticks(key); }
        BacktickKeyIsLost(key, AfterKey(items), 1);
      } else {
        hide InBackticks, InQuotes, KeyText, Escaped;
        assert Ahead(items, u) && |u| > |AfterKey(items)|;
        SuffixLength(KeyText(key), w);
        var part := QuotedPart('`', Escaped(key), w);
        PassTicks(key, part, sep);
        FromPassed(items, w + sep, u);
      }
    } else if InQuotes(key) {
      QuotesText(key);
      if whole {
        UnsafeQuotes(key);
        QuotedKeyIsLost(key, AfterKey(items), 1);
      } else {
        hide InBackticks, InQuotes, KeyText, Escaped;
        SuffixLength(KeyText(key), w);
        var part := QuotedPart('"', key, w);
        PassQuotes(key, part, sep);
        FromPassed(items, w + sep, u);
      }
    } else {
      assert KeyText(key) == key;
      PassBare(key, w, sep);
      FromPassed(items, w + sep, u);
    }
  }

  lemma FirstSeparator(items: seq<Item>)
    requires items != [] && Laid(items)
    ensures Separator(items[0].sep) && Laid(items[1..])
  {}

  lemma UnsafeBackticks(key: string)
    requires InBackticks(key) && !Lexable(key)
    ensures '`' in key
  {}

  lemma UnsafeQuotes(key: string)
    requires InQuotes(key) && !Lexable(key)
    ensures TrailingBackslashes(key) % 2 == 1
  {}

  /**
   A reader that is not in front of a safe key and yet reads that key has read into the text of the
   next keys.
   */
  lemma Passes(items: seq<Item>, u: string)
    requires items != [] && Laid(items) && !Brace(items[0].key) && Ahead(items, u)
    requires HasSuffix(TextOf(items), u) && (|u| == |TextOf(items)| ==> !Lexable(items[0].key))
    ensures var r := First(u); r.Found? && r.scan.val == items[0].key ==> Overran(items[1..], r.rest)
  {
    hide Run, HasSuffix, Lexable, Blanks, Overran, Brace, TextOf, Ahead;
    FirstSeparator(items);
    TextIs(items);
    var more := items[1..];
    if |u| <= |TextOf(more)| {
      SuffixTail(KeyText(items[0].key) + items[0].sep, TextOf(more), u) by {
        Associative(KeyText(items[0].key), items[0].sep, TextOf(more));
      }
      Arrive(items[0].key, BEGIN, more, u);
    } else if |u| <= |AfterKey(items)| {
      FromSeparator(items, u);
    } else {
      var w := SuffixSplit(KeyText(items[0].key), AfterKey(items), u);
      FromKey(items, w, u);
    }
  }

  // ---------- unsafe keys are lost ----------

  predicate NoBraces(keys: seq<string>) {
    "{" !in keys && "}" !in keys
  }

  lemma PrefixTail<T>(a: T, b: seq<T>, w: seq<T>)
    ensures [a] + b <= w ==> w != [] && w[0] == a && b <= w[1..]
  {
    if [a] + b <= w {
      assert w[0] == ([a] + b)[0];
      assert b == ([a] + b)[1..] == w[1..][..|b|];
    }
  }

  lemma NoBracesTail(items: seq<Item>)
    requires items != [] && NoBraces(Keys(items))
    ensures !Brace(items[0].key) && NoBraces(Keys(items[1..]))
    ensures Keys(items) == [items[0].key] + Keys(items[1..])
  {}

  lemma AheadLater(items: seq<Item>, rest: string, later: string)
    requires Ahead(items, rest) && |later| <= |rest|
    ensures Ahead(items, later)
  {}

  /** Too little text is left for the keys. */
  lemma {:induction false} Lagging(items: seq<Item>, u: string)
    requires Laid(items) && NoBraces(Keys(items)) && Overran(items, u)
    ensures !(Keys(items) <= Reads(u))
    decreases |u|
  {
    ReadsFirst(u);
    NoBracesTail(items);
    var r := First(u);
    if r.Found? {
      RestIsSuffix(BEGIN, u);
      SuffixOf(TextOf(items), u, r.rest);
      assert Laid(items[1..]);
      hide Run, Reads, Laid, Keys, TextOf, HasSuffix, NoBraces, Ahead;
      if Brace(r.scan.val) {
        AheadLater(items, u, r.rest);
        Lagging(items, r.rest);
        assert [] + Reads(r.rest) == Reads(r.rest);
      } else {
        PrefixTail(items[0].key, Keys(items[1..]), Reads(u));
        assert Reads(u)[0] == r.scan.val && Reads(u)[1..] == Reads(r.rest);
        if r.scan.val == items[0].key {
          Passes(items, u);
          Lagging(items[1..], r.rest);
        }
      }
    }
  }

  lemma UnsafeIsAhead(items: seq<Item>, u: string)
    requires items != [] && !Lexable(items[0].key)
    ensures Ahead(items, u)
  {
    var key := items[0].key;
    if Blanks(key) {
      BlankChars(key);
    }
  }

  /** A text that begins with a key that is not safe is not read as its keys. */
  lemma UnsafeFirst(items: seq<Item>)
    requires items != [] && Laid(items) && NoBraces(Keys(items)) && !Lexable(items[0].key)
    ensures !(Keys(items) <= Reads(TextOf(items)))
  {
    var u := TextOf(items);
    ReadsFirst(u);
    NoBracesTail(items);
    WholeSuffix(u);
    UnsafeIsAhead(items, u);
    var r := First(u);
    if r.Found? {
      RestIsSuffix(BEGIN, u);
      UnsafeIsAhead(items, r.rest);
      assert Laid(items[1..]);
      hide Run, Reads, Laid, Keys, TextOf, HasSuffix, NoBraces, Ahead, Lexable;
      if Brace(r.scan.val) {
        Lagging(items, r.rest);
        assert [] + Reads(r.rest) == Reads(r.rest);
      } else {
        PrefixTail(items[0].key, Keys(items[1..]), Reads(u));
        assert Reads(u)[0] == r.scan.val && Reads(u)[1..] == Reads(r.rest);
        if r.scan.val == items[0].key {
          Passes(items, u);
          Lagging(items[1..], r.rest);
        }
      }
    }
  }

  lemma ReadsItem(items: seq<Item>)
    requires items != [] && Laid(items) && Lexable(items[0].key) && !Brace(items[0].key)
    ensures Reads(TextOf(items)) == [items[0].key] + Reads(TextOf(items[1..]))
  {
    var key, sep, rest := items[0].key, items[0].sep, TextOf(items[1..]);
    assert EndsWord(sep + rest) && TextOf(items) == KeyText(key) + (sep + rest) by {
      Associative(KeyText(key), sep, rest);
    }
    FirstSeparator(items);
    hide Lexable, KeyText, Reads, TextOf, EndsWord, Brace;
    ReadsKey(key, sep + rest);
    ReadsBlank(sep, rest);
  }

  lemma SafeTail(items: seq<Item>)
    requires items != [] && !Brace(items[0].key)
    ensures SafeKeys(Keys(items)) <==> Lexable(items[0].key) && SafeKeys(Keys(items[1..]))
  {
    hide Lexable;
    SafeConcat([items[0].key], Keys(items[1..]));
    assert SafeKeys([items[0].key]) <==> KeySafe([items[0].key][0]);
  }

  /** Laid out keys are read back only if they are safe. */
  lemma {:induction false} UnsafeKeysAreLost(items: seq<Item>)
    requires Laid(items) && NoBraces(Keys(items)) && !SafeKeys(Keys(items))
    ensures !(Keys(items) <= Reads(TextOf(items)))
  {
    assert items != [];
    NoBracesTail(items);
    SafeTail(items);
    FirstSeparator(items);
    hide Laid, NoBraces, SafeKeys, Keys, Reads, TextOf, Lexable, Brace;
    if Lexable(items[0].key) {
      UnsafeKeysAreLost(items[1..]);
      ReadsItem(items);
      PrefixTail(items[0].key, Keys(items[1..]), Reads(TextOf(items)));
      var words := [items[0].key] + Reads(TextOf(items[1..]));
      assert words[1..] == Reads(TextOf(items[1..]));
    } else {
      UnsafeFirst(items);
    }
  }

  // ---------- empty blocks are lost ----------

  lemma {:induction false} ReindexSize(f: Forest, first: nat)
    ensures Size(Reindex(f, first)) == Size(f)
    decreases f
  {
    if f != [] {
      ReindexSize(f[0].children, 0);
      ReindexSize(f[1..], first + 1);
      var r := Reindex(f, first);
      assert r[0] == Block(first, f[0].keys, Reindex(f[0].children)) && r[1..] == Reindex(f[1..], first + 1);
    }
  }

  lemma FullParts(f: Forest)
    requires f != []
    ensures Full(f) <==> (f[0].keys != [] || f[0].children != []) && Full(f[0].children) && Full(f[1..])
  {
    if Full(f[1..]) {
      assert forall i :: 1 <= i < |f| ==> f[i] == f[1..][i - 1];
    }
  }

  lemma {:induction false} PrunedSize(f: Forest)
    ensures Size(Pruned(f)) <= Size(f)
    ensures Size(Pruned(f)) == Size(f) ==> Full(f)
    decreases f
  {
    if f != [] {
      PrunedSize(f[0].children);
      PrunedSize(f[1..]);
      FullParts(f);
      var p := Pruned(f);
      if f[0].keys != [] || f[0].children != [] {
        assert p[0].children == Pruned(f[0].children) && p[1..] == Pruned(f[1..]);
        assert Size(p) == 1 + Size(Pruned(f[0].children)) + Size(Pruned(f[1..]));
      } else {
        assert p == Pruned(f[1..]);
      }
    }
  }

  // ---------- the class of trees ----------

  lemma {:induction false} ReindexKeys(f: Forest, first: nat)
    ensures AllKeys(Reindex(f, first)) == AllKeys(f)
    decreases f
  {
    if f != [] {
      ReindexKeys(f[0].children, 0);
      ReindexKeys(f[1..], first + 1);
      var r := Reindex(f, first);
      assert r[0] == Block(first, f[0].keys, Reindex(f[0].children)) && r[1..] == Reindex(f[1..], first + 1);
    }
  }

  /** What is read from the text of a tree that is read back. */
  lemma ReadsAllKeys(text: string, s: Forest)
    requires text != [] && Unmarshal(text) == Some(Reindex(s))
    ensures Reads(Load(text)) == AllKeys(s) && NoBraces(AllKeys(s))
  {
    hide AllKeys, Reindex, Words, Tokens, ParseContainer;
    ReindexKeys(s, 0);
    ParserConservation(Tokens(Load(text), 1, 0));
    WordsAreNoBraces(Tokens(Load(text), 1, 0));
  }

  /** Without its first character, the text lags behind. */
  lemma BomLags(sheet: Sheet)
    requires sheet.Valid() && NoBraces(Keys(sheet.items)) && StartsWithBom(sheet.Text())
    ensures Reads(sheet.Text()[1..]) != Keys(sheet.items)
  {
    var items, text := sheet.items, sheet.Text();
    assert sheet.lead == [];
    assert text == TextOf(items) && items != [];
    if InBackticks(items[0].key) {
      BackticksText(items[0].key);
      TextIs(items);
    }
    assert HasSuffix(text, text[1..]);
    hide Laid, NoBraces, Reads, TextOf, Keys, Blanks, HasSuffix;
    Lagging(items, text[1..]);
  }

  /** A tree that is read back from its text has safe keys only, and the text starts with no mark. */
  lemma ReadBackIsSafe(s: Forest)
    requires var text := ForestText(s, 0); text != [] && Unmarshal(text) == Some(Reindex(s))
    ensures SafeKeys(AllKeys(s)) && !StartsWithBom(ForestText(s, 0))
  {
    var text := ForestText(s, 0);
    ReadsAllKeys(text, s);
    var sheet := LayForest(s, 0, Sheet("", []));
    assert text + "" == text && AllKeys(s) + [] == AllKeys(s);
    assert Load(text) == if StartsWithBom(text) then text[1..] else text;
    hide AllKeys, Reindex, Unmarshal, ForestText, Reads, Keys, TextOf, Laid, Blanks, NoBraces, SafeKeys, StartsWithBom;
    if StartsWithBom(text) {
      BomLags(sheet);
    } else if !SafeKeys(AllKeys(s)) {
      UnsafeKeysAreLost(sheet.items);
      ReadsBlank(sheet.lead, TextOf(sheet.items));
    }
  }

  lemma MarshalIs(f: Forest)
    ensures Marshal(f) == ForestText(SortForest(f), 0)
    ensures f == [] ==> Unmarshal(Marshal(f)) == None
  {
    if f == [] {
      assert SortForest(f) == [];
    }
  }

  /** A document that is read back from its text is printable. */
  lemma ReadBackIsPrintable(f: Forest)
    requires Unmarshal(Marshal(f)) == Some(Reindex(SortForest(f)))
    ensures f != [] && Printable(f) && !StartsWithBom(Marshal(f))
  {
    hide *;
    MarshalIs(f);
    var s := SortForest(f);
    MarshalNotEmpty(f);
    ReadBackIsSafe(s);
    SortKeepsKeys(f);
    SafeElements(AllKeys(f));
    SafeElements(AllKeys(s));
    UnmarshalSafe(f);
    ReindexSize(s, 0);
    ReindexSize(Pruned(s), 0);
    PrunedSize(s);
    FullSorted(f);
    PrintableIs(f);
  }

  lemma PrintableIs(f: Forest)
    ensures Printable(f) <==> SafeKeys(AllKeys(f)) && Full(f)
  {}

  /**
   A document is read back from its printed text exactly when it has a block, every key is safe, every
   block has a key or a child and the text does not start with a byte order mark.
   */
  lemma ReadBackExact(f: Forest)
    ensures Unmarshal(Marshal(f)) == Some(Reindex(SortForest(f)))
        <==> f != [] && Printable(f) && !StartsWithBom(Marshal(f))
  {
    hide *;
    if f != [] && Printable(f) && !StartsWithBom(Marshal(f)) {
      UnmarshalMarshal(f);
    }
    if Unmarshal(Marshal(f)) == Some(Reindex(SortForest(f))) {
      ReadBackIsPrintable(f);
    }
  }

  // ---------- documents of one key ----------

  /** A document that consists of one key. */
  function OneKey(key: string, order: int := UNORDERED): Forest {
    [Block(order, [key], [])]
  }

  lemma OneKeyText(key: string)
    ensures SortForest(OneKey(key)) == OneKey(key)
    ensures Marshal(OneKey(key)) == KeyText(key) + ['\n']
  {
    var f := OneKey(key);
    assert f[..0] == [] && f[1..] == [];
    assert SortForest([]) == [];
    assert SortChildren(f) == f;
    assert SortForest(f) == f;
    assert Repeat('\t', 0) == "";
    assert ForestText(f, 0) == BlockText(f[0], 0) + ForestText([], 0);
  }

  /**
   A document of one key is read back unchanged exactly when the key is safe and is not taken for a
   byte order mark.
   */
  lemma KeySafeExact(key: string)
    ensures Unmarshal(Marshal(OneKey(key))) == Some(OneKey(key, 0))
        <==> KeySafe(key) && !(Bare(key) && key[0] == '\U{FEFF}')
  {
    var f := OneKey(key);
    OneKeyText(key);
    ReadBackExact(f);
    assert Reindex(f) == OneKey(key, 0);
    OneKeyPrintable(key);
    hide KeyText, Bare, Marshal, Unmarshal, Reindex, SortForest;
    if KeySafe(key) {
      FirstChar(key);
    }
  }

  lemma OneKeyPrintable(key: string)
    ensures Printable(OneKey(key)) <==> KeySafe(key)
  {
    var f := OneKey(key);
    assert AllKeys(f) == [key] + AllKeys([]) + AllKeys(f[1..]) == [key];
    hide KeySafe;
    assert SafeKeys([key]) <==> KeySafe([key][0]);
    assert Full(f) && Full([]);
  }

  /** Text in quotes or backticks does not start with a byte order mark. */
  lemma FirstChar(key: string)
    requires key != []
    ensures StartsWithBom(KeyText(key) + ['\n']) <==> Bare(key) && key[0] == '\U{FEFF}'
  {}
}
