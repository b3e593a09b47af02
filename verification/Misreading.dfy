/**
 What the token machine makes of printed keys when it starts in the middle of one, or at a key that is
 not safe: it never gets back in step with the keys.
 */
module Misreading {
  import opened Text
  import opened Lexer
  import opened Printer
  import opened KeyLexing
  import opened KeyExact
  import opened Layout

  // ---------- reading over a word ----------

  /** The machine is still in the same token, or has emitted one. */
  datatype Over = Reached(scan: Scan) | Emitted(scan: Scan, rest: string)

  /** The machine on the characters of a word, with more to come. */
  function ReadOver(s: Scan, word: string): Over
    decreases |word|
  {
    if word == [] then Reached(s)
    else
      match Step(s, word[0])
      case Continue(t) => ReadOver(t, word[1..])
      case Emit(t) => Emitted(t, word[1..])
  }

  lemma {:induction false} RunOver(s: Scan, word: string, tail: string)
    ensures Run(s, word + tail) == match ReadOver(s, word)
      case Reached(t) => Run(t, tail)
      case Emitted(t, rest) => Found(t, rest + tail)
    decreases |word|
  {
    hide Step;
    if word == [] {
      assert word + tail == tail;
    } else {
      assert (word + tail)[0] == word[0] && (word + tail)[1..] == word[1..] + tail;
      if Step(s, word[0]).Continue? {
        RunOver(Step(s, word[0]).scan, word[1..], tail);
      }
    }
  }

  lemma {:induction false} OverConcat(s: Scan, word: string, more: string)
    ensures ReadOver(s, word + more) == match ReadOver(s, word)
      case Reached(t) => ReadOver(t, more)
      case Emitted(t, rest) => Emitted(t, rest + more)
    decreases |word|
  {
    hide Step;
    if word == [] {
      assert word + more == more;
    } else {
      assert (word + more)[0] == word[0] && (word + more)[1..] == word[1..] + more;
      if Step(s, word[0]).Continue? {
        OverConcat(Step(s, word[0]).scan, word[1..], more);
      }
    }
  }

  // ---------- what every step keeps ----------

  predicate NoSpace(s: string) {
    forall i :: 0 <= i < |s| ==> !IsSpace(s[i])
  }

  predicate Plain(s: Scan) {
    !s.quoted && !s.btQuoted
  }

  /**
   The machine is in quotes, in backticks or in neither. In a comment there is no token yet, a token in
   backticks has no backtick and one outside quotations has no white space.
   */
  predicate Sane(s: Scan) {
    && !(s.quoted && s.btQuoted)
    && (s.comment ==> s.val == [] && Plain(s))
    && (s.btQuoted ==> '`' !in s.val)
    && (Plain(s) ==> NoSpace(s.val))
  }

  lemma StepSane(s: Scan, c: char)
    requires Sane(s)
    ensures Sane(Step(s, c).scan)
  {}

  lemma {:induction false} OverSane(s: Scan, word: string)
    requires Sane(s)
    ensures Sane(ReadOver(s, word).scan)
    decreases |word|
  {
    hide Step, Sane;
    if word != [] {
      StepSane(s, word[0]);
      if Step(s, word[0]).Continue? {
        OverSane(Step(s, word[0]).scan, word[1..]);
      }
    }
  }

  /** One quotation mark for the quotation that is open. */
  function Open(c: char, s: Scan): nat {
    if (s.quoted && c == '"') || (s.btQuoted && c == '`') then 1 else 0
  }

  lemma CountOne(c: char, d: char)
    ensures Count(c, [d]) == if c == d then 1 else 0
  {
    assert [d][1..] == [];
  }

  lemma StepTakes(c: char, s: Scan, ch: char)
    requires c != '\\' && Sane(s)
    ensures var t := Step(s, ch).scan;
      if Step(s, ch).Continue? then Count(c, t.val) + Open(c, t) <= Count(c, s.val) + Open(c, s) + Count(c, [ch])
      else Count(c, t.val) + 2 * Open(c, t) <= Count(c, s.val) + Open(c, s) + Count(c, [ch])
  {
    CountOne(c, ch);
    CountOne(c, '\\');
    CountConcat(c, s.val, [ch]);
    CountConcat(c, s.val, ['\\']);
    CountConcat(c, s.val + ['\\'], [ch]);
  }

  /** A token and its quotation marks have no more of a character than the word they were read from. */
  lemma {:induction false} OverTakes(c: char, s: Scan, word: string)
    requires c != '\\' && Sane(s)
    ensures match ReadOver(s, word)
      case Reached(t) => Count(c, t.val) + Open(c, t) <= Count(c, s.val) + Open(c, s) + Count(c, word)
      case Emitted(t, rest) => Count(c, t.val) + 2 * Open(c, t) <= Count(c, s.val) + Open(c, s) + Count(c, word)
    decreases |word|
  {
    hide Step, Sane, Open;
    if word != [] {
      StepTakes(c, s, word[0]);
      StepSane(s, word[0]);
      CountConcat(c, [word[0]], word[1..]);
      assert word == [word[0]] + word[1..];
      if Step(s, word[0]).Continue? {
        OverTakes(c, Step(s, word[0]).scan, word[1..]);
      }
    }
  }

  lemma StepLength(s: Scan, c: char)
    ensures var t := Step(s, c).scan;
      if Step(s, c).Continue? then |Raw(t)| <= |Raw(s)| + 1 else |t.val| <= |Raw(s)|
  {}

  /** A token is shorter than what was read for it and its end. */
  lemma {:induction false} OverLength(s: Scan, word: string)
    ensures match ReadOver(s, word)
      case Reached(t) => |Raw(t)| <= |Raw(s)| + |word|
      case Emitted(t, rest) => |t.val| + 1 <= |Raw(s)| + |word|
    decreases |word|
  {
    hide Step, Raw;
    if word != [] {
      StepLength(s, word[0]);
      if Step(s, word[0]).Continue? {
        OverLength(Step(s, word[0]).scan, word[1..]);
      }
    }
  }

  /** Outside quotations and comments, a word without white space is read literally. */
  lemma {:induction false} OverLiteral(s: Scan, word: string)
    requires NoSpace(word)
    ensures match ReadOver(s, word)
      case Reached(t) => !Plain(t) || t.comment || Raw(t) == Raw(s) + word
      case Emitted(t, rest) => !Plain(t)
    ensures var o := ReadOver(s, word);
      o.Reached? && (!Plain(s) || s.comment) ==> !Plain(o.scan) || o.scan.comment
    decreases |word|
  {
    if word == [] {
      assert Raw(s) + word == Raw(s);
    } else {
      StepLiteral(s, word[0]);
      hide Step, Raw, Plain, IsSpace;
      assert NoSpace(word[1..]);
      if Step(s, word[0]).Continue? {
        OverLiteral(Step(s, word[0]).scan, word[1..]);
        assert Raw(s) + [word[0]] + word[1..] == Raw(s) + word;
      }
    }
  }

  lemma StepLiteral(s: Scan, c: char)
    requires !IsSpace(c)
    ensures var t := Step(s, c).scan;
      && (Step(s, c).Emit? ==> !Plain(t))
      && ((!Plain(s) || s.comment) ==> !Plain(t) || t.comment)
      && (!Plain(t) || t.comment || Raw(t) == Raw(s) + [c])
  {}

  // ---------- reading over separators ----------

  /** There is no token yet. */
  predicate Idle(s: Scan) {
    Plain(s) && s.val == []
  }

  /** From white space and braces only a brace is read, behind a backslash if one was pending. */
  lemma {:induction false} OverBlank(s: Scan, blank: string)
    requires Idle(s) && Blanks(blank)
    ensures match ReadOver(s, blank)
      case Reached(t) => Idle(t)
      case Emitted(t, _) =>
        Plain(t) && (Brace(t.val) || (s.escaped && !s.comment && (t.val == "\\{" || t.val == "\\}")))
    decreases |blank|
  {
    if blank != [] {
      var o := Step(s, blank[0]);
      if Brace([blank[0]]) && !s.comment {
        assert blank[1..][0] == '\n';
        var t := o.scan;
        assert Step(t, '\n').Emit?;
      } else {
        OverBlank(o.scan, blank[1..]);
      }
    }
  }

  lemma {:induction false} OverInTicks(s: Scan, word: string)
    requires s.btQuoted && !s.quoted && '`' !in word
    ensures var o := ReadOver(s, word);
      o.Reached? && o.scan.btQuoted && !o.scan.quoted && o.scan.val == s.val + word
    decreases |word|
  {
    if word == [] {
      assert s.val + word == s.val;
    } else {
      OverInTicks(Step(s, word[0]).scan, word[1..]);
      assert s.val + [word[0]] + word[1..] == s.val + word;
    }
  }

  lemma StepInside(s: Scan, c: char)
    requires s.quoted && !s.btQuoted && c != '"'
    ensures var o := Step(s, c);
      && o.Continue? && o.scan.quoted && !o.scan.btQuoted && !o.scan.comment == !s.comment
      && s.val <= o.scan.val && (c == '\n' ==> '\n' in o.scan.val)
  {}

  lemma {:induction false} OverInQuotes(s: Scan, word: string)
    requires s.quoted && !s.btQuoted && '"' !in word
    ensures var o := ReadOver(s, word);
      o.Reached? && o.scan.quoted && !o.scan.btQuoted && s.val <= o.scan.val && ('\n' in word ==> '\n' in o.scan.val)
    decreases |word|
  {
    hide Step;
    if word != [] {
      StepInside(s, word[0]);
      var t := Step(s, word[0]).scan;
      OverInQuotes(t, word[1..]);
      var v := ReadOver(s, word).scan.val;
      assert forall i :: 0 <= i < |t.val| ==> v[i] == t.val[i];
    }
  }

  lemma {:induction false} BlankChars(blank: string)
    requires Blanks(blank)
    ensures forall i :: 0 <= i < |blank| ==> blank[i] != '"' && blank[i] != '`' && blank[i] != '\\'
  {
    if blank != [] {
      BlankChars(blank[1..]);
      assert forall i :: 1 <= i < |blank| ==> blank[i] == blank[1..][i - 1];
    }
  }

  /** Quotations go on over a separator, words end, and without a token at most a brace is read. */
  predicate OverIt(s: Scan, sep: string, o: Over) {
    if s.btQuoted then o.Reached? && o.scan.btQuoted && !o.scan.quoted && o.scan.val == s.val + sep
    else if s.quoted then
      && o.Reached? && o.scan.quoted && Count('"', o.scan.val) <= Count('"', s.val)
      && ('\n' in sep ==> '\n' in o.scan.val)
    else if s.val != [] then o.Emitted? && Plain(o.scan) && o.scan.val == s.val
    else if o.Reached? then Idle(o.scan)
    else Plain(o.scan) && (Brace(o.scan.val) || (s.escaped && (o.scan.val == "\\{" || o.scan.val == "\\}")))
  }

  lemma OverSeparator(s: Scan, sep: string)
    requires Sane(s) && Separator(sep)
    ensures Sane(ReadOver(s, sep).scan) && OverIt(s, sep, ReadOver(s, sep))
  {
    OverSane(s, sep);
    BlankChars(sep);
    hide Blanks, NoSpace;
    if s.btQuoted {
      OverInTicks(s, sep);
    } else if s.quoted {
      OverInQuotes(s, sep);
      OverTakes('"', s, sep);
      CountNone('"', sep);
    } else if s.val != [] {
      assert Step(s, sep[0]).Emit?;
    } else {
      OverBlank(s, sep);
    }
  }

  lemma CountNone(c: char, s: string)
    ensures Count(c, s) == 0 <==> c !in s
  {}

  // ---------- reading the rest of a key ----------

  lemma StartSane()
    ensures Sane(BEGIN) && Idle(BEGIN) && forall c :: Count(c, BEGIN.val) == Open(c, BEGIN) == 0
    ensures Raw(BEGIN) == []
  {}

  /** The machine at the beginning of what follows a key and its separator: `key` has been missed. */
  predicate KeyMissed(key: string, s: Scan) {
    Sane(s) && (Idle(s) || s.quoted || (s.btQuoted && s.val != key))
  }

  /** What is read over the rest of a key and its separator is not the key. */
  predicate Passed(key: string, sep: string, o: Over) {
    match o
    case Emitted(t, _) => t.val != key
    case Reached(t) => KeyMissed(key, t) && ('\n' in sep ==> t.val == [] || t.val != key)
  }

  lemma SuffixCount(c: char, s: string, w: string)
    requires HasSuffix(s, w)
    ensures Count(c, w) <= Count(c, s) && (c in w ==> c in s)
  {
    assert s == s[..|s| - |w|] + w;
    CountConcat(c, s[..|s| - |w|], w);
  }

  /** The rest of an unquoted key. */
  lemma PassBare(key: string, w: string, sep: string)
    requires Bare(key) && !Brace(key) && HasSuffix(key, w) && (w == key ==> !Lexable(key)) && Separator(sep)
    ensures Passed(key, sep, ReadOver(BEGIN, w + sep))
  {
    hide Lexable, HasSuffix, Separator, Bare;
    assert '"' !in key by { BareNoQuote(key); }
    OverConcat(BEGIN, w, sep);
    OverSane(BEGIN, w);
    OverLength(BEGIN, w);
    OverTakes('"', BEGIN, w);
    SuffixCount('"', key, w);
    CountNone('"', key);
    var o := ReadOver(BEGIN, w);
    assert Raw(BEGIN) == [] && Count('"', BEGIN.val) == 0;
    assert |w| <= |key| by { SuffixLength(key, w); }
    if o.Reached? {
      var s := o.scan;
      OverSeparator(s, sep);
      if s.btQuoted {
        TickInside(key, w);
      } else if s.val != [] {
        if s.val == key {
          SuffixWhole(key, w);
          ReadsItself(key, sep);
        }
      } else {
        EscapedBrace(key, w);
      }
    }
  }

  lemma BareNoQuote(key: string)
    requires Bare(key)
    ensures '"' !in key
  {}

  lemma SuffixLength(s: string, w: string)
    requires HasSuffix(s, w)
    ensures |w| <= |s|
  {}

  lemma SuffixWhole(s: string, w: string)
    requires HasSuffix(s, w) && |w| == |s|
    ensures w == s
  {}

  lemma ReadsItself(key: string, sep: string)
    requires Bare(key) && Separator(sep)
    requires var o := ReadOver(BEGIN, key); o.Reached? && Plain(o.scan) && o.scan.val == key != []
    ensures Lexable(key)
  {
    var t := ReadOver(BEGIN, key).scan;
    RunOver(BEGIN, key, [sep[0]]);
    assert Step(t, sep[0]).Emit?;
    BareKeyExact(key, sep[0], 1);
  }

  /** A backtick that opens a quotation is one of the word. */
  lemma TickInside(key: string, w: string)
    requires HasSuffix(key, w)
    ensures ReadOver(BEGIN, w).scan.btQuoted ==> '`' in key
  {
    SuffixCount('`', key, w);
    CountNone('`', key);
    OverTakes('`', BEGIN, w);
  }

  /** A brace behind a backslash is a word that has begun before its separator. */
  lemma EscapedBrace(key: string, w: string)
    requires HasSuffix(key, w)
    ensures var o := ReadOver(BEGIN, w);
      o.Reached? && Idle(o.scan) && o.scan.escaped ==> key != "\\{" && key != "\\}"
  {
    if w != [] && |key| == 2 && key[0] == '\\' && Brace([key[1]]) {
      assert w[|w| - 1] == key[1];
      if |w| == 1 {
        assert w[1..] == [] && Step(BEGIN, key[1]).scan.val == [key[1]];
      } else {
        var one := BEGIN.(escaped := true);
        assert w[1..] == [key[1]] && w[1..][1..] == [];
        assert Step(BEGIN, w[0]) == Continue(one) && Step(one, key[1]).scan.val == key;
        assert ReadOver(BEGIN, w) == ReadOver(one, w[1..]);
      }
    }
  }

  lemma QuotesFacts(key: string)
    requires InQuotes(key)
    ensures '"' !in key && '\n' !in key && ' ' in key && !NoSpace(key) && Count('"', key) == 0
    ensures !Brace(key) && key != "\\{" && key != "\\}"
  {
    var i :| 0 <= i < |key| && key[i] == ' ';
    assert IsSpace(key[i]);
    CountNone('"', key);
  }

  /** The rest of a key in quotes, with the closing quote. */
  lemma PassQuotes(key: string, w: string, sep: string)
    requires InQuotes(key) && HasSuffix(key, w) && Separator(sep)
    ensures Passed(key, sep, ReadOver(BEGIN, (w + ['"']) + sep))
  {
    StartSane();
    hide HasSuffix, Separator, InQuotes, NoSpace, ReadOver;
    QuotesFacts(key);
    OverConcat(BEGIN, w + ['"'], sep);
    OverConcat(BEGIN, w, ['"']);
    OverSane(BEGIN, w);
    OverTakes('"', BEGIN, w);
    SuffixCount('"', key, w);
    TickInside(key, w);
    var o := ReadOver(BEGIN, w);
    if o.Reached? {
      ClosingQuote(o.scan);
      OverSeparator(ReadOver(o.scan, ['"']).scan, sep);
    }
  }

  /** A quote outside quotes opens a quotation or is part of the word. */
  lemma ClosingQuote(s: Scan)
    requires Sane(s) && !s.quoted
    ensures var o := ReadOver(s, ['"']);
      o.Reached? && Sane(o.scan) && (s.btQuoted ==> o.scan.btQuoted)
    ensures !s.btQuoted ==> !ReadOver(s, ['"']).scan.btQuoted
  {
    StepSane(s, '"');
    assert ['"'][1..] == [];
    assert ReadOver(s, ['"']) == Reached(Step(s, '"').scan);
  }

  // ---------- the rest of a key in backticks ----------

  function Escaped(key: string): string {
    ReplaceAll(key, '`', "\\`")
  }

  /** How far the last quotation mark is from the end. */
  function Behind(s: string): nat {
    if s == [] || '"' !in s then 0 else if '"' in s[1..] then Behind(s[1..]) else |s|
  }

  lemma {:induction false} EscapedCounts(key: string)
    ensures Count('"', Escaped(key)) == Count('"', key)
    ensures Count('`', Escaped(key)) == Count('`', key)
    ensures '"' in Escaped(key) <==> '"' in key
    ensures '`' in Escaped(key) <==> '`' in key
    ensures |key| <= |Escaped(key)| && Behind(key) <= Behind(Escaped(key))
    ensures NoSpace(key) ==> NoSpace(Escaped(key))
  {
    if key != [] {
      EscapedCounts(key[1..]);
      var head := if key[0] == '`' then "\\`" else [key[0]];
      assert Escaped(key) == head + Escaped(key[1..]);
    }
  }

  lemma {:induction false} BehindSuffix(s: string, w: string)
    requires HasSuffix(s, w) && '"' in w
    ensures Behind(w) == Behind(s)
  {
    if |w| < |s| {
      assert HasSuffix(s[1..], w);
      assert w[0] in s[1..] && forall c :: c in w ==> c in s[1..];
      BehindSuffix(s[1..], w);
    } else {
      assert w == s;
    }
  }

  lemma {:induction false} BehindTick(s: string)
    requires '"' in s
    ensures Behind(s + ['`']) == Behind(s) + 1
  {
    var t := s + ['`'];
    assert t[1..] == s[1..] + ['`'];
    assert '"' in t;
    if '"' in s[1..] {
      assert '"' in t[1..];
      BehindTick(s[1..]);
    } else {
      assert '"' !in t[1..];
    }
  }

  /** The rest of the text of a key is not the key itself: its last quotation mark is further from the end. */
  lemma RestIsAnother(key: string, w: string)
    requires HasSuffix(Escaped(key), w)
    ensures '"' in key ==> w + ['`'] != key
  {
    var word := w + ['`'];
    if '"' in key && word == key {
      assert '"' in w;
      BehindSuffix(Escaped(key), w);
      BehindTick(w);
      EscapedCounts(key);
    }
  }

  lemma SnocNoSpace(s: string, w: string, c: char)
    requires HasSuffix(s, w) && NoSpace(s) && !IsSpace(c)
    ensures NoSpace(w + [c])
  {
    hide IsSpace;
    assert forall i :: 0 <= i < |w| ==> w[i] == s[|s| - |w| + i];
  }

  /** Without white space the rest of the text of a key is read literally, and is another word. */
  lemma LiteralRest(key: string, w: string)
    requires HasSuffix(Escaped(key), w) && InBackticks(key)
    ensures var o := ReadOver(BEGIN, w + ['`']);
      Plain(o.scan) && o.scan.val == key ==> !Sane(o.scan)
  {
    var o := ReadOver(BEGIN, w + ['`']);
    if Plain(o.scan) && o.scan.val == key && Sane(o.scan) {
      KeyNoSpace(key);
      EscapedCounts(key);
      SnocNoSpace(Escaped(key), w, '`');
      OverLiteral(BEGIN, w + ['`']);
      StartSane();
      assert [] + (w + ['`']) == w + ['`'];
      hide Escaped, HasSuffix, NoSpace;
      RestIsAnother(key, w);
      LastTick(w);
    }
  }

  lemma KeyNoSpace(key: string)
    requires InBackticks(key) && NoSpace(key)
    ensures '"' in key && key != []
  {
    assert forall i :: 0 <= i < |key| ==> key[i] != '\n';
  }

  /** A backtick leaves no backslash pending in a word. */
  lemma LastTick(w: string)
    ensures var o := ReadOver(BEGIN, w + ['`']);
      o.Reached? && Plain(o.scan) && o.scan.val != [] ==> !o.scan.escaped
  {
    OverConcat(BEGIN, w, ['`']);
    OverSane(BEGIN, w);
    var o := ReadOver(BEGIN, w);
    if o.Reached? {
      assert ['`'][1..] == [];
      assert ReadOver(o.scan, ['`']) ==
        match Step(o.scan, '`') case Continue(t) => Reached(t) case Emit(t) => Emitted(t, []);
    }
  }

  /** Inside the text of a key in backticks no token ends that is the key. */
  lemma EmittedInside(key: string, w: string)
    requires HasSuffix(Escaped(key), w) && InBackticks(key)
    ensures var o := ReadOver(BEGIN, w + ['`']); o.Emitted? ==> o.scan.val != key
  {
    var word := w + ['`'];
    var o := ReadOver(BEGIN, word);
    OverSane(BEGIN, word);
    LiteralRest(key, w);
    EscapedCounts(key);
    TextTakes('"', key, w);
    TextTakes('`', key, w);
    CountNone('`', key);
  }

  lemma TextTakes(c: char, key: string, w: string)
    requires HasSuffix(Escaped(key), w) && c != '\\'
    ensures Count(c, w + ['`']) <= Count(c, Escaped(key)) + (if c == '`' then 1 else 0)
    ensures var o := ReadOver(BEGIN, w + ['`']);
      Count(c, o.scan.val) + (if o.Emitted? then 2 else 1) * Open(c, o.scan) <= Count(c, w + ['`'])
  {
    hide Escaped, HasSuffix;
    StartSane();
    SuffixCount(c, Escaped(key), w);
    CountConcat(c, w, ['`']);
    CountOne(c, '`');
    OverTakes(c, BEGIN, w + ['`']);
  }

  /** Only the closing backtick can open a quotation, and only where no token has begun. */
  lemma ClosingTick(key: string, w: string)
    requires HasSuffix(Escaped(key), w) && '`' !in key
    ensures var o := ReadOver(BEGIN, w + ['`']);
      o.Reached? && o.scan.btQuoted ==> o.scan.val == []
  {
    StartSane();
    OverConcat(BEGIN, w, ['`']);
    EscapedCounts(key);
    SuffixCount('`', Escaped(key), w);
    CountNone('`', w);
    CountNone('`', Escaped(key));
    OverTakes('`', BEGIN, w);
    var o := ReadOver(BEGIN, w);
    if o.Reached? {
      assert !o.scan.btQuoted;
      assert ['`'][1..] == [];
      assert ReadOver(o.scan, ['`']) ==
        match Step(o.scan, '`') case Continue(t) => Reached(t) case Emit(t) => Emitted(t, []);
    }
  }

  lemma TicksFacts(key: string)
    requires InBackticks(key)
    ensures !Brace(key) && key != [] && key != "\\{" && key != "\\}"
  {}

  /** The rest of a key in backticks, with the closing backtick; the key is more than a separator. */
  lemma PassTicks(key: string, w: string, sep: string)
    requires InBackticks(key) && !Blanks(key) && HasSuffix(Escaped(key), w) && Separator(sep)
    ensures Passed(key, sep, ReadOver(BEGIN, (w + ['`']) + sep))
  {
    assert key != sep;
    StartSane();
    hide HasSuffix, Separator, InBackticks, NoSpace, ReadOver, Escaped, Blanks;
    TicksFacts(key);
    var word := w + ['`'];
    OverConcat(BEGIN, word, sep);
    OverSane(BEGIN, word);
    EmittedInside(key, w);
    var o := ReadOver(BEGIN, word);
    if o.Reached? {
      OverSeparator(o.scan, sep);
      if o.scan.btQuoted {
        if '`' !in key {
          ClosingTick(key, w);
          assert [] + sep == sep;
        }
      } else if o.scan.quoted {
        TextTakes('"', key, w);
        EscapedCounts(key);
      } else if o.scan.val != [] {
        LiteralRest(key, w);
      }
    }
  }

  // ---------- into the next key ----------

  /** The text of a key of white space and braces that is printed in backticks. */
  function Ticked(blank: string): string {
    ['`'] + (blank + ['`'])
  }

  /** Before the end of what is read no token ends that is `key`, which is not a brace. */
  predicate Goes(key: string, o: Over) {
    o.Emitted? ==> o.rest == [] || Brace(o.scan.val) || o.scan.val != key
  }

  lemma TickStep(s: Scan)
    ensures ReadOver(s, ['`']) == match Step(s, '`') case Continue(t) => Reached(t) case Emit(t) => Emitted(t, [])
  {
    assert ['`'][1..] == [];
  }

  /** From white space and braces with a backtick behind them only braces are read. */
  lemma BlankAndTick(key: string, s: Scan, blank: string)
    requires Idle(s) && (s.escaped ==> s.comment) && Blanks(blank)
    ensures Goes(key, ReadOver(s, blank + ['`']))
  {
    OverConcat(s, blank, ['`']);
    OverBlank(s, blank);
    var o := ReadOver(s, blank);
    if o.Reached? {
      TickStep(o.scan);
    }
  }

  lemma IntoWhole(key: string, s: Scan, blank: string)
    requires KeyMissed(key, s) && Blanks(blank)
    ensures Goes(key, ReadOver(s, Ticked(blank)))
  {
    OverConcat(s, ['`'], blank + ['`']);
    TickStep(s);
    BlankChars(blank);
    hide Blanks;
    if s.quoted {
      OverInQuotes(s, Ticked(blank));
    } else if Idle(s) {
      var t := Step(s, '`').scan;
      if s.comment {
        assert t == s;
        BlankAndTick(key, s, blank);
      } else {
        assert t.btQuoted && !t.quoted;
        OverInTicks(t, blank);
        OverConcat(t, blank, ['`']);
        TickStep(ReadOver(t, blank).scan);
      }
    }
  }

  lemma {:induction false} SuffixBlank(s: string, w: string)
    requires Blanks(s) && HasSuffix(s, w)
    ensures Blanks(w)
  {
    if |w| == |s| {
      assert w == s;
    } else {
      assert HasSuffix(s[1..], w);
      SuffixBlank(s[1..], w);
    }
  }

  lemma IntoPart(key: string, blank: string, w: string)
    requires Blanks(blank) && HasSuffix(blank, w)
    ensures Goes(key, ReadOver(BEGIN, w + ['`']))
  {
    SuffixBlank(blank, w);
    BlankAndTick(key, BEGIN, w);
  }
}
