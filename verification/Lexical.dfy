/**
 What the tokens of a text are, said without a machine: a text is cut into comments, quotations and
 words, and each of them has a value.
 */
module Lexical {
  import opened Text
  import opened Lexer
  import opened KeyLexing

  // ---------- pieces of a text ----------

  /** How many characters come before the first one that stops. */
  function Span(text: string, stops: char -> bool): (n: nat)
    ensures n <= |text| && (n < |text| ==> stops(text[n]))
    ensures forall i :: 0 <= i < n ==> !stops(text[i])
  {
    if text == [] || stops(text[0]) then 0 else 1 + Span(text[1..], stops)
  }

  /** White space ends a word, but for a carriage return, which is not there at all. */
  predicate EndsWordAt(c: char) {
    IsSpace(c) && c != '\r'
  }

  function WordLength(text: string): (n: nat)
    ensures n <= |text|
  {
    Span(text, EndsWordAt)
  }

  function LineLength(text: string): (n: nat)
    ensures n <= |text|
  {
    Span(text, (c: char) => c == '\n')
  }

  function TicksLength(text: string): (n: nat)
    ensures n <= |text|
  {
    Span(text, (c: char) => c == '`')
  }

  /** How many characters come before the first quotation mark that is not escaped. */
  function QuotesLength(text: string, escaped: bool): (n: nat)
    ensures n <= |text| && (n < |text| ==> text[n] == '"')
    decreases |text|
  {
    if text == [] || (text[0] == '"' && !escaped) then 0
    else 1 + QuotesLength(text[1..], !escaped && text[0] == '\\')
  }

  // ---------- values ----------

  function NoReturns(s: string): string {
    if s == [] then [] else (if s[0] == '\r' then [] else [s[0]]) + NoReturns(s[1..])
  }

  /** A word keeps its backslashes, but for one that is pending at its end. */
  function WordValue(word: string, escaped: bool): string {
    var raw := (if escaped then "\\" else "") + NoReturns(word);
    if raw != [] && EndsEscaped(escaped, NoReturns(word)) then raw[..|raw| - 1] else raw
  }

  /** In quotes only an escaped quotation mark loses its backslash, and so does the end of the text. */
  function QuotesValue(s: string, escaped: bool): string
    decreases |s|
  {
    if s == [] then []
    else if escaped then (if s[0] == '"' then [] else ['\\']) + [s[0]] + QuotesValue(s[1..], false)
    else if s[0] == '\\' then QuotesValue(s[1..], true)
    else [s[0]] + QuotesValue(s[1..], false)
  }

  // ---------- lines ----------

  /** The line of the next token, and the escaped line ends that are not counted yet. */
  datatype Place = Place(line: int, skipped: int) {
    /** Behind a character outside of quotations. */
    function Behind(c: char, escaped: bool): Place {
      if c != '\n' then this
      else if escaped then Place(line, skipped + 1)
      else Place(line + 1 + skipped, 0)
    }

    /** Behind what is quoted. */
    function Over(s: string): Place {
      if '\n' in s then Place(line + skipped + Newlines(s), 0) else this
    }
  }

  // ---------- the tokens ----------

  /** The tokens of a text, with a backslash pending in front of it or not. */
  function Lex(text: string, place: Place, escaped: bool): seq<Token>
    decreases |text|, 1
  {
    if text == [] then []
    else if text[0] == '\\' && !escaped then Lex(text[1..], place, true)
    else if IsSpace(text[0]) then Lex(text[1..], place.Behind(text[0], escaped), escaped && text[0] != '\n')
    else if text[0] == '#' then
      // a comment, up to the end of its line
      var n := LineLength(text);
      if n == |text| then []
      else Lex(text[n + 1..], place.Behind('\n', escaped || '\\' in text[..n]), false)
    else if text[0] == '"' then
      var n := QuotesLength(text[1..], escaped);
      var inside := text[1..][..n];
      Quotation(text[1..], n, QuotesValue(inside, escaped), place)
    else if text[0] == '`' then
      var n := TicksLength(text[1..]);
      Quotation(text[1..], n, text[1..][..n], place)
    else
      var n := WordLength(text);
      var token := Token(place.line, WordValue(text[..n], escaped));
      var pending := EndsEscaped(escaped, NoReturns(text[..n]));
      if n == |text| then [token] else [token] + Lex(text[n + 1..], place.Behind(text[n], pending), false)
  }

  /** A quotation that ends after `n` characters; it may be empty unless it is cut off by the end of the text. */
  function Quotation(text: string, n: nat, value: string, place: Place): seq<Token>
    requires n <= |text|
    decreases |text|, 2
  {
    if n == |text| then (if value == [] then [] else [Token(place.line, value)])
    else [Token(place.line, value)] + Lex(text[n + 1..], place.Over(text[..n]), false)
  }

  // ---------- the machine computes them ----------

  /** The tokens that the machine reads from a state in the middle of `next`. */
  function ReadOn(s: Scan, input: string): seq<Token> {
    match Run(s, input)
    case NotFound(_) => []
    case Found(t, rest) => [Token(t.token.line, t.val)] + Tokens(rest, t.line, t.skippedLines)
  }

  function PlaceOf(s: Scan): Place {
    Place(s.line, s.skippedLines)
  }

  /** No token has begun. */
  predicate Waits(s: Scan) {
    s.val == [] && !s.comment && !s.quoted && !s.btQuoted
  }

  lemma {:induction false} CommentRun(s: Scan, text: string)
    requires s.comment && s.val == [] && !s.quoted && !s.btQuoted
    ensures var n := LineLength(text);
      if n == |text| then Run(s, text).NotFound?
      else Run(s, text) == Run(s.(escaped := s.escaped || '\\' in text[..n]), text[n..])
    decreases |text|
  {
    if text != [] && text[0] != '\n' {
      CommentStep(s, text);
      LineSplit(text);
      hide *;
      CommentRun(s.(escaped := s.escaped || text[0] == '\\'), text[1..]);
    } else {
      assert text[0..] == text && text[..0] == [];
    }
  }

  lemma CommentStep(s: Scan, text: string)
    requires s.comment && s.val == [] && !s.quoted && !s.btQuoted && text != [] && text[0] != '\n'
    ensures Run(s, text) == Run(s.(escaped := s.escaped || text[0] == '\\'), text[1..])
  {
    assert Step(s, text[0]).scan == s.(escaped := s.escaped || text[0] == '\\');
  }

  lemma LineSplit(text: string)
    requires text != [] && text[0] != '\n'
    ensures var n := LineLength(text);
      && n == 1 + LineLength(text[1..])
      && ('\\' in text[..n] <==> text[0] == '\\' || '\\' in text[1..][..n - 1])
      && text[1..][n - 1..] == text[n..]
      && (n < |text| ==> text[1..][n - 1..] == ['\n'] + text[n + 1..])
  {
    var n := LineLength(text);
    assert text[..n] == [text[0]] + text[1..][..n - 1];
  }

  lemma StepInWord(s: Scan, c: char)
    requires !s.comment && !s.quoted && !s.btQuoted && s.val != [] && !EndsWordAt(c)
    ensures var t := Step(s, c).scan;
      && Step(s, c).Continue? && !t.comment && !t.quoted && !t.btQuoted && t.val != []
      && t.token == s.token && PlaceOf(t) == PlaceOf(s)
      && t.escaped == (if c == '\r' then s.escaped else !s.escaped && c == '\\')
      && Raw(t) == Raw(s) + (if c == '\r' then [] else [c])
  {}

  lemma NoReturnsFirst(text: string, n: nat)
    requires 0 < n <= |text|
    ensures NoReturns(text[..n]) == (if text[0] == '\r' then [] else [text[0]]) + NoReturns(text[1..][..n - 1])
  {
    assert text[..n][1..] == text[1..][..n - 1];
  }

  lemma EndsEscapedFirst(escaped: bool, c: char, more: string)
    ensures EndsEscaped(escaped, [c] + more) == EndsEscaped(!escaped && c == '\\', more)
  {
    assert ([c] + more)[1..] == more;
  }

  lemma WordFirst(text: string)
    ensures WordLength(text) == if text == [] || EndsWordAt(text[0]) then 0 else 1 + WordLength(text[1..])
  {}

  lemma RunContinues(s: Scan, text: string)
    requires text != [] && Step(s, text[0]).Continue?
    ensures Run(s, text) == Run(Step(s, text[0]).scan, text[1..])
  {
    hide Step;
  }

  lemma WordEnds(s: Scan, text: string)
    requires !s.comment && !s.quoted && !s.btQuoted && s.val != []
    requires text == [] || EndsWordAt(text[0])
    ensures var e, r := EndsEscaped(s.escaped, NoReturns(text[..0])), Run(s, text);
      var raw := Raw(s) + NoReturns(text[..0]);
      && r.Found? && r.scan.token == s.token && |raw| >= 1
      && r.scan.val == (if e then raw[..|raw| - 1] else raw)
      && (text == [] ==> r.rest == [])
      && (text != [] ==> r.rest == text[1..] && PlaceOf(r.scan) == PlaceOf(s).Behind(text[0], e))
  {
    assert NoReturns(text[..0]) == [] && Raw(s) + [] == Raw(s);
  }

  /** A word that has begun goes on to the next white space. */
  lemma {:induction false} WordRun(s: Scan, text: string)
    requires !s.comment && !s.quoted && !s.btQuoted && s.val != []
    ensures var n := WordLength(text);
      var e := EndsEscaped(s.escaped, NoReturns(text[..n]));
      var raw := Raw(s) + NoReturns(text[..n]);
      var r := Run(s, text);
      && r.Found? && r.scan.token == s.token && |raw| >= 1
      && r.scan.val == (if e then raw[..|raw| - 1] else raw)
      && (n == |text| ==> r.rest == [])
      && (n < |text| ==> r.rest == text[n + 1..] && PlaceOf(r.scan) == PlaceOf(s).Behind(text[n], e))
    decreases |text|
  {
    hide *;
    var n := WordLength(text);
    WordFirst(text);
    if n == 0 {
      WordEnds(s, text);
    } else {
      StepInWord(s, text[0]);
      var t := Step(s, text[0]).scan;
      var more := NoReturns(text[1..][..n - 1]);
      NoReturnsFirst(text, n);
      EndsEscapedFirst(s.escaped, text[0], more);
      WordRun(t, text[1..]);
      RunContinues(s, text);
      assert n < |text| ==> text[1..][n..] == text[n + 1..];
      assert [] + more == more;
      Associative(Raw(s), if text[0] == '\r' then [] else [text[0]], more);
    }
  }

  /** The rest of a quotation, of `n` characters, is read and its whole value is `value`. */
  predicate ReadsQuotation(s: Scan, text: string, n: nat, value: string) {
    var r := Run(s, text);
    && n <= |text|
    && (r.Found? <==> n < |text| || value != [])
    && (r.Found? ==> r.scan.val == value && r.scan.token == s.token)
    && (r.Found? && n == |text| ==> r.rest == [])
    && (r.Found? && n < |text| ==> r.rest == text[n + 1..] && PlaceOf(r.scan) == PlaceOf(s).Over(text[..n]))
  }

  /** One more character in front. */
  lemma ReadsMore(s: Scan, t: Scan, text: string, n: nat, value: string)
    requires 0 < n <= |text| && ReadsQuotation(t, text[1..], n - 1, value)
    requires Step(s, text[0]) == Continue(t) && t.token == s.token && PlaceOf(t) == PlaceOf(s).Over([text[0]])
    ensures ReadsQuotation(s, text, n, value)
  {
    OverFirst(PlaceOf(s), text, n);
    hide Step, Newlines, Place.Over;
    assert Run(s, text) == Run(t, text[1..]);
    assert n < |text| ==> text[1..][n..] == text[n + 1..];
  }

  lemma {:induction false} TicksRun(s: Scan, text: string)
    requires s.btQuoted && !s.quoted && !s.comment
    ensures ReadsQuotation(s, text, TicksLength(text), s.val + text[..TicksLength(text)])
    decreases |text|
  {
    hide *;
    var n := TicksLength(text);
    TicksFirst(text);
    if n == 0 {
      QuotationEnds(s, text);
    } else {
      var t := StepInTicks(s, text[0]);
      TicksRun(t, text[1..]);
      assert s.val + text[..n] == s.val + [text[0]] + text[1..][..n - 1];
      ReadsMore(s, t, text, n, s.val + text[..n]);
    }
  }

  lemma TicksFirst(text: string)
    ensures TicksLength(text) == if text == [] || text[0] == '`' then 0 else 1 + TicksLength(text[1..])
  {}

  lemma QuotationEnds(s: Scan, text: string)
    requires !s.comment && s.quoted != s.btQuoted
    requires text == [] || if s.quoted then text[0] == '"' && !s.escaped else text[0] == '`'
    ensures ReadsQuotation(s, text, 0, s.val + text[..0])
  {
    assert s.val + text[..0] == s.val;
    assert PlaceOf(s).Over(text[..0]) == PlaceOf(s);
  }

  lemma StepInTicks(s: Scan, c: char) returns (t: Scan)
    requires s.btQuoted && !s.quoted && !s.comment && c != '`'
    ensures Step(s, c) == Continue(t) && t.btQuoted && !t.quoted && !t.comment && t.token == s.token
    ensures t.val == s.val + [c] && PlaceOf(t) == PlaceOf(s).Over([c])
  {
    t := Step(s, c).scan;
    assert [c][..1] == [c];
    OverFirst(PlaceOf(s), [c], 1);
  }

  lemma OverFirst(place: Place, text: string, n: nat)
    requires 0 < n <= |text|
    ensures place.Over(text[..n]) == place.Over([text[0]]).Over(text[1..][..n - 1])
    ensures place.Over([text[0]]) == if text[0] == '\n' then Place(place.line + place.skipped + 1, 0) else place
  {
    assert [text[0]][1..] == [];
    assert text[..n][1..] == text[1..][..n - 1];
    assert Newlines([text[0]]) == if text[0] == '\n' then 1 else 0;
    NoLine(text[..n]);
    NoLine(text[1..][..n - 1]);
  }

  lemma NoLine(s: string)
    ensures Newlines(s) == 0 <==> '\n' !in s
  {}

  lemma StepInQuotes(s: Scan, c: char)
    requires s.quoted && !s.btQuoted && !s.comment && (c != '"' || s.escaped)
    ensures var t := Step(s, c).scan;
      && Step(s, c).Continue? && t.quoted && !t.btQuoted && !t.comment && t.token == s.token
      && t.escaped == (!s.escaped && c == '\\')
      && PlaceOf(t) == PlaceOf(s).Over([c])
      && t.val + QuotesValue([], t.escaped) == s.val + QuotesValue([c], s.escaped)
  {
    assert [c][1..] == [] && [c][..1] == [c];
    OverFirst(PlaceOf(s), [c], 1);
  }

  lemma {:induction false} QuotesValueFirst(c: char, s: string, escaped: bool)
    ensures QuotesValue([c] + s, escaped) == QuotesValue([c], escaped) + QuotesValue(s, !escaped && c == '\\')
    ensures QuotesValue([], escaped) == []
  {
    assert ([c] + s)[1..] == s && [c][1..] == [];
  }

  lemma QuotesFirst(text: string, escaped: bool)
    ensures QuotesLength(text, escaped)
         == if text == [] || (text[0] == '"' && !escaped) then 0
            else 1 + QuotesLength(text[1..], !escaped && text[0] == '\\')
  {}

  lemma {:induction false} QuotesRun(s: Scan, text: string)
    requires s.quoted && !s.btQuoted && !s.comment
    ensures var n := QuotesLength(text, s.escaped);
      ReadsQuotation(s, text, n, s.val + QuotesValue(text[..n], s.escaped))
    decreases |text|
  {
    hide *;
    var n := QuotesLength(text, s.escaped);
    QuotesFirst(text, s.escaped);
    if n == 0 {
      QuotationEnds(s, text);
      QuotesValueFirst('"', [], s.escaped);
      assert text[..0] == [];
    } else {
      StepInQuotes(s, text[0]);
      var t := Step(s, text[0]).scan;
      assert text == [text[0]] + text[1..];
      QuotesRun(t, text[1..]);
      var more := text[1..][..n - 1];
      assert text[..n] == [text[0]] + more;
      QuotesValueFirst(text[0], more, s.escaped);
      QuotesValueFirst(text[0], [], t.escaped);
      assert t.val + [] == t.val;
      Associative(s.val, QuotesValue([text[0]], s.escaped), QuotesValue(more, t.escaped));
      ReadsMore(s, t, text, n, s.val + QuotesValue(text[..n], s.escaped));
    }
  }

  /** The state in which nothing has begun, with or without a backslash pending. */
  function Waiting(place: Place, escaped: bool): Scan {
    Fresh(NO_TOKEN, place.line, place.skipped).(escaped := escaped)
  }

  lemma ReadOnSame(s: Scan, t: Scan, input: string, more: string)
    requires Run(s, input) == Run(t, more)
    ensures ReadOn(s, input) == ReadOn(t, more)
  {}

  lemma ReadOnNotFound(s: Scan, input: string)
    requires Run(s, input).NotFound?
    ensures ReadOn(s, input) == []
  {}

  lemma ReadOnFound(s: Scan, input: string)
    requires Run(s, input).Found?
    ensures var r := Run(s, input);
      ReadOn(s, input) == [Token(r.scan.token.line, r.scan.val)]
                          + ReadOn(Waiting(PlaceOf(r.scan), false), r.rest)
  {}

  lemma ReadOnNothing(place: Place)
    ensures ReadOn(Waiting(place, false), []) == []
  {}

  /** White space and backslashes in front of a token. */
  lemma SkipsBefore(place: Place, escaped: bool, text: string)
    requires text != [] && (IsSpace(text[0]) || (text[0] == '\\' && !escaped))
    ensures ReadOn(Waiting(place, escaped), text) ==
      if text[0] == '\\' then ReadOn(Waiting(place, true), text[1..])
      else ReadOn(Waiting(place.Behind(text[0], escaped), escaped && text[0] != '\n'), text[1..])
  {}

  /** In a comment the line end is the same as elsewhere. */
  lemma CommentEnds(place: Place, escaped: bool, more: string)
    ensures ReadOn(Waiting(place, escaped).(comment := true), ['\n'] + more)
         == ReadOn(Waiting(place.Behind('\n', escaped), false), more)
  {
    assert (['\n'] + more)[1..] == more;
  }

  lemma CommentStarts(place: Place, escaped: bool, text: string)
    requires text != [] && text[0] == '#'
    ensures Run(Waiting(place, escaped), text) == Run(Waiting(place, escaped).(comment := true), text[1..])
  {}

  lemma ReadComment(place: Place, escaped: bool, text: string)
    requires text != [] && text[0] == '#'
    ensures var n := LineLength(text);
      ReadOn(Waiting(place, escaped), text) ==
        if n == |text| then []
        else ReadOn(Waiting(place.Behind('\n', escaped || '\\' in text[..n]), false), text[n + 1..])
  {
    hide Step, Run, ReadOn, LineLength;
    var s, t := Waiting(place, escaped), Waiting(place, escaped).(comment := true);
    var n := LineLength(text);
    CommentStarts(place, escaped, text);
    ReadOnSame(s, t, text, text[1..]);
    CommentRun(t, text[1..]);
    LineSplit(text);
    if n == |text| {
      ReadOnNotFound(t, text[1..]);
    } else {
      var e := escaped || '\\' in text[1..][..n - 1];
      ReadOnSame(t, Waiting(place, e).(comment := true), text[1..], text[1..][n - 1..]);
      CommentEnds(place, e, text[n + 1..]);
    }
  }

  /** The state behind the sign that starts a quotation. */
  lemma QuotationStarts(place: Place, escaped: bool, text: string) returns (t: Scan)
    requires text != [] && text[0] in "\"`"
    ensures Run(Waiting(place, escaped), text) == Run(t, text[1..])
    ensures t.val == [] && t.token.line == place.line && PlaceOf(t) == place && t.escaped == escaped && !t.comment
    ensures t.quoted == (text[0] == '"') && t.btQuoted == (text[0] == '`')
  {
    t := Step(Waiting(place, escaped), text[0]).scan;
    assert text[0] == '"' || text[0] == '`';
  }

  lemma QuotationRead(s: Scan, text: string, n: nat, value: string)
    requires ReadsQuotation(s, text, n, value)
    ensures var r := Run(s, text);
      && n <= |text| && (r.Found? <==> n < |text| || value != [])
      && (r.Found? ==> r.scan.val == value && r.scan.token == s.token)
      && (r.Found? && n == |text| ==> r.rest == [])
      && (r.Found? && n < |text| ==> r.rest == text[n + 1..] && PlaceOf(r.scan) == PlaceOf(s).Over(text[..n]))
  {
    hide Run;
  }

  lemma ReadQuotes(place: Place, escaped: bool, text: string)
    requires text != [] && text[0] == '"'
    ensures var n := QuotesLength(text[1..], escaped);
      var value := QuotesValue(text[1..][..n], escaped);
      ReadOn(Waiting(place, escaped), text) ==
        if n == |text[1..]| then (if value == [] then [] else [Token(place.line, value)])
        else [Token(place.line, value)] + ReadOn(Waiting(place.Over(text[1..][..n]), false), text[1..][n + 1..])
  {
    hide *;
    var s := Waiting(place, escaped);
    var t := QuotationStarts(place, escaped, text);
    ReadOnSame(s, t, text, text[1..]);
    QuotesRun(t, text[1..]);
    var value := QuotesValue(text[1..][..QuotesLength(text[1..], escaped)], escaped);
    assert [] + value == value;
    var n := QuotesLength(text[1..], escaped);
    QuotationRead(t, text[1..], n, value);
    if Run(t, text[1..]).Found? {
      ReadOnFound(t, text[1..]);
      ReadOnNothing(PlaceOf(Run(t, text[1..]).scan));
    } else {
      ReadOnNotFound(t, text[1..]);
    }
  }

  lemma ReadTicks(place: Place, escaped: bool, text: string)
    requires text != [] && text[0] == '`'
    ensures var n := TicksLength(text[1..]);
      var value := text[1..][..n];
      ReadOn(Waiting(place, escaped), text) ==
        if n == |text[1..]| then (if value == [] then [] else [Token(place.line, value)])
        else [Token(place.line, value)] + ReadOn(Waiting(place.Over(value), false), text[1..][n + 1..])
  {
    hide *;
    var s := Waiting(place, escaped);
    var t := QuotationStarts(place, escaped, text);
    ReadOnSame(s, t, text, text[1..]);
    TicksRun(t, text[1..]);
    var value := text[1..][..TicksLength(text[1..])];
    assert [] + value == value;
    var n := TicksLength(text[1..]);
    QuotationRead(t, text[1..], n, value);
    if Run(t, text[1..]).Found? {
      ReadOnFound(t, text[1..]);
      ReadOnNothing(PlaceOf(Run(t, text[1..]).scan));
    } else {
      ReadOnNotFound(t, text[1..]);
    }
  }

  /** The first character of a word. */
  predicate StartsWord(c: char, escaped: bool) {
    !IsSpace(c) && c !in "#\"`" && (c == '\\' ==> escaped)
  }

  /** The state behind the first character of a word. */
  lemma WordStep(place: Place, escaped: bool, text: string) returns (t: Scan)
    requires text != [] && StartsWord(text[0], escaped)
    ensures var s := Waiting(place, escaped);
      && Run(s, text) == Run(t, text[1..]) && PlaceOf(t) == PlaceOf(s) == place
      && !t.comment && !t.quoted && !t.btQuoted && t.val != [] && t.token.line == place.line
      && t.escaped == (!escaped && text[0] == '\\')
      && Raw(t) == (if escaped then "\\" else "") + [text[0]]
    ensures WordLength(text) == 1 + WordLength(text[1..]) && text[0] != '\r'
  {
    t := Step(Waiting(place, escaped), text[0]).scan;
    assert Raw(t) == (if escaped then "\\" else "") + [text[0]];
    assert text[0] != '\r';
  }

  lemma WordValueRaw(word: string, escaped: bool)
    requires word != [] && word[0] != '\r'
    ensures var raw := (if escaped then "\\" else "") + NoReturns(word);
      WordValue(word, escaped) == if EndsEscaped(escaped, NoReturns(word)) then raw[..|raw| - 1] else raw
  {
    hide EndsEscaped;
  }

  lemma ReadWord(place: Place, escaped: bool, text: string)
    requires text != [] && StartsWord(text[0], escaped)
    ensures var n := WordLength(text);
      var token := Token(place.line, WordValue(text[..n], escaped));
      var pending := EndsEscaped(escaped, NoReturns(text[..n]));
      ReadOn(Waiting(place, escaped), text) ==
        if n == |text| then [token]
        else [token] + ReadOn(Waiting(place.Behind(text[n], pending), false), text[n + 1..])
  {
    hide *;
    var s := Waiting(place, escaped);
    var t := WordStep(place, escaped, text);
    ReadOnSame(s, t, text, text[1..]);
    WordRun(t, text[1..]);
    var n := WordLength(text);
    var more := NoReturns(text[1..][..n - 1]);
    var pending := EndsEscaped(escaped, NoReturns(text[..n]));
    NoReturnsFirst(text, n);
    EndsEscapedFirst(escaped, text[0], more);
    Associative(if escaped then "\\" else "", [text[0]], more);
    WordValueRaw(text[..n], escaped);
    ReadOnFound(t, text[1..]);
    if n == |text| {
      ReadOnNothing(PlaceOf(Run(t, text[1..]).scan));
    } else {
      assert text[1..][n..] == text[n + 1..];
    }
  }

  lemma {:induction false} MachineLexes(text: string, place: Place, escaped: bool)
    ensures ReadOn(Waiting(place, escaped), text) == Lex(text, place, escaped)
    decreases |text|
  {
    hide Run, Step, ReadOn, IsSpace, Tokens, EndsEscaped, NoReturns, QuotesValue, QuotesLength, WordValue;
    hide LineLength, TicksLength, WordLength, Waiting, Place.Behind, Place.Over;
    if text == [] {
      NothingLeft(place, escaped);
    } else if IsSpace(text[0]) || (text[0] == '\\' && !escaped) {
      SpaceIsNoBackslash(text[0]);
      SkipsBefore(place, escaped, text);
      MachineLexes(text[1..], place, true);
      MachineLexes(text[1..], place.Behind(text[0], escaped), escaped && text[0] != '\n');
    } else if text[0] == '#' {
      ReadComment(place, escaped, text);
      var n := LineLength(text);
      if n < |text| {
        MachineLexes(text[n + 1..], place.Behind('\n', escaped || '\\' in text[..n]), false);
      }
    } else if text[0] == '"' {
      ReadQuotes(place, escaped, text);
      var n := QuotesLength(text[1..], escaped);
      if n < |text[1..]| {
        MachineLexes(text[1..][n + 1..], place.Over(text[1..][..n]), false);
      }
    } else if text[0] == '`' {
      ReadTicks(place, escaped, text);
      var n := TicksLength(text[1..]);
      if n < |text[1..]| {
        MachineLexes(text[1..][n + 1..], place.Over(text[1..][..n]), false);
      }
    } else {
      ReadWord(place, escaped, text);
      var n := WordLength(text);
      if n < |text| {
        MachineLexes(text[n + 1..], place.Behind(text[n], EndsEscaped(escaped, NoReturns(text[..n]))), false);
      }
    }
  }

  lemma NothingLeft(place: Place, escaped: bool)
    ensures ReadOn(Waiting(place, escaped), []) == []
  {}

  lemma SpaceIsNoBackslash(c: char)
    ensures IsSpace(c) ==> c !in "\\#\"`"
  {}

  /** The machine reads exactly these tokens, from every text. */
  lemma TokensAre(text: string, line: int, skipped: int)
    ensures Tokens(text, line, skipped) == Lex(text, Place(line, skipped), false)
  {
    MachineLexes(text, Place(line, skipped), false);
  }

  // ---------- what that means for the parts of a text ----------

  lemma {:induction false} SpanOver(text: string, rest: string, stops: char -> bool)
    requires forall c | c in text :: !stops(c)
    requires rest == [] || stops(rest[0])
    ensures Span(text + rest, stops) == |text|
  {
    if text == [] {
      assert text + rest == rest;
    } else {
      assert text[0] in text && (text + rest)[1..] == text[1..] + rest;
      SpanOver(text[1..], rest, stops);
    }
  }

  lemma Parts(first: string, c: char, rest: string)
    ensures var text := first + [c] + rest;
      |first| < |text| && text[..|first|] == first && text[|first|] == c && text[|first| + 1..] == rest
  {}

  /** Behind the comment sign, everything up to the end of the line is left out. */
  lemma CommentIsSkipped(comment: string, rest: string, place: Place, escaped: bool)
    requires '\n' !in comment
    ensures Lex(['#'] + comment + ['\n'] + rest, place, escaped)
         == Lex(rest, place.Behind('\n', escaped || '\\' in comment), false)
  {
    hide IsSpace;
    var text := ['#'] + comment + ['\n'] + rest;
    Parts(['#'] + comment, '\n', rest);
    SpanOver(['#'] + comment, ['\n'] + rest, (c: char) => c == '\n');
    assert ['#'] + comment + (['\n'] + rest) == text;
    assert LineLength(text) == |comment| + 1;
    SpaceIsNoBackslash('#');
    assert text[0] == '#' && !IsSpace('#');
  }

  /**
   A comment ends with its line. If there is a backslash in it, its line end is one of those that are
   counted with a later one.
   */
  lemma CommentLine(comment: string, rest: string, line: int, skipped: int)
    requires '\n' !in comment
    ensures Tokens(['#'] + comment + ['\n'] + rest, line, skipped)
         == if '\\' in comment then Tokens(rest, line, skipped + 1) else Tokens(rest, line + 1 + skipped, 0)
  {
    hide *;
    CommentIsSkipped(comment, rest, Place(line, skipped), false);
    BehindIs(Place(line, skipped), '\n', '\\' in comment);
    TokensAre(['#'] + comment + ['\n'] + rest, line, skipped);
    TokensAre(rest, line, skipped + 1);
    TokensAre(rest, line + 1 + skipped, 0);
  }

  /** Without a line end there is nothing behind the comment sign. */
  lemma CommentAtEnd(comment: string, line: int, skipped: int)
    requires '\n' !in comment
    ensures Tokens(['#'] + comment, line, skipped) == []
  {
    var text := ['#'] + comment;
    TokensAre(text, line, skipped);
    SpanOver(text, [], (c: char) => c == '\n');
    assert text + [] == text;
    SpaceIsNoBackslash('#');
    hide IsSpace, Tokens;
    assert text[0] == '#' && LineLength(text) == |text|;
  }

  /** A text that is read as one word, with nothing in it or around it that has a meaning of its own. */
  predicate IsWord(word: string) {
    && word != [] && word[0] !in "\\#\"`"
    && (forall c | c in word :: !IsSpace(c))
    && !EndsEscaped(false, word)
  }

  lemma {:induction false} NoReturnsNone(s: string)
    requires '\r' !in s
    ensures NoReturns(s) == s
  {
    if s != [] {
      NoReturnsNone(s[1..]);
    }
  }

  lemma {:induction false} NoReturnsAtEnd(s: string)
    ensures NoReturns(s + ['\r']) == NoReturns(s)
  {
    if s == [] {
      assert s + ['\r'] == ['\r'];
    } else {
      assert (s + ['\r'])[1..] == s[1..] + ['\r'];
      NoReturnsAtEnd(s[1..]);
    }
  }

  lemma EndsEscapedBy(s: string)
    requires !EndsEscaped(false, s)
    ensures EndsEscaped(false, s + ['\\'])
  {
    EndsEscapedAt(false, s);
  }

  lemma {:induction false} EndsEscapedAt(escaped: bool, s: string)
    requires !EndsEscaped(escaped, s)
    ensures EndsEscaped(escaped, s + ['\\'])
    decreases |s|
  {
    if s == [] {
      assert s + ['\\'] == ['\\'];
    } else {
      assert (s + ['\\'])[1..] == s[1..] + ['\\'];
      EndsEscapedAt(!escaped && s[0] == '\\', s[1..]);
    }
  }

  /** What comes between a word and the white space that ends it, and is not part of it. */
  const ENDINGS := {"", "\r", "\\", "\\\r"}

  lemma WordValueIs(text: string, body: string)
    requires NoReturns(text) == body && body != []
    ensures WordValue(text, false) == if EndsEscaped(false, body) then body[..|body| - 1] else body
  {
    hide NoReturns, EndsEscaped;
    assert "" + body == body;
  }

  lemma EndingReturns(word: string, ending: string)
    requires '\r' !in word && ending in ENDINGS
    ensures NoReturns(word + ending) == if '\\' in ending then word + ['\\'] else word
  {
    var body := if '\\' in ending then word + ['\\'] else word;
    NoReturnsNone(body);
    NoReturnsAtEnd(body);
    assert word + ending == if '\r' in ending then body + ['\r'] else body;
  }

  lemma Endings(word: string, ending: string)
    requires IsWord(word) && ending in ENDINGS
    ensures WordValue(word + ending, false) == word
    ensures EndsEscaped(false, NoReturns(word + ending)) == ('\\' in ending)
  {
    assert '\r' !in word by {
      assert IsSpace('\r');
    }
    EndingReturns(word, ending);
    EndsEscapedBy(word);
    hide IsSpace, EndsEscaped, NoReturns, WordValue;
    var body := if '\\' in ending then word + ['\\'] else word;
    WordValueIs(word + ending, body);
    assert (word + ['\\'])[..|word|] == word;
  }

  lemma WordStops(word: string, ending: string, space: char, rest: string)
    requires IsWord(word) && ending in ENDINGS && EndsWordAt(space)
    ensures WordLength(word + ending + [space] + rest) == |word + ending|
  {
    forall c | c in word + ending ensures !EndsWordAt(c) {
      if c in ending {
        assert c == '\r' || c == '\\';
      }
    }
    assert ([space] + rest)[0] == space;
    SpanOver(word + ending, [space] + rest, EndsWordAt);
    assert word + ending + ([space] + rest) == word + ending + [space] + rest;
  }

  /**
   A word is a token on its line, and the white space behind it ends it. A backslash in front of a line end
   puts off the counting of the line; it is not part of the word, and neither is a carriage return.
   */
  lemma WordThenRest(word: string, ending: string, space: char, rest: string, line: int, skipped: int)
    requires IsWord(word) && ending in ENDINGS && EndsWordAt(space)
    ensures Tokens(word + ending + [space] + rest, line, skipped) == [Token(line, word)] +
      if space != '\n' then Tokens(rest, line, skipped)
      else if '\\' in ending then Tokens(rest, line, skipped + 1)
      else Tokens(rest, line + 1 + skipped, 0)
  {
    hide *;
    var text := word + ending + [space] + rest;
    var place := Place(line, skipped);
    TokensAre(text, line, skipped);
    TokensAre(rest, line, skipped);
    TokensAre(rest, line, skipped + 1);
    TokensAre(rest, line + 1 + skipped, 0);
    Endings(word, ending);
    WordStops(word, ending, space, rest);
    Parts(word + ending, space, rest);
    WordStarts(word);
    assert text[0] == word[0];
    LexWord(text, place);
    BehindIs(place, space, '\\' in ending);
  }

  lemma WordStarts(word: string)
    requires IsWord(word)
    ensures word != [] && StartsWord(word[0], false)
  {
    assert word[0] in word;
  }

  lemma BehindIs(place: Place, c: char, escaped: bool)
    ensures place.Behind(c, escaped) ==
      if c != '\n' then place
      else if escaped then Place(place.line, place.skipped + 1)
      else Place(place.line + 1 + place.skipped, 0)
  {}

  lemma LexWord(text: string, place: Place)
    requires text != [] && StartsWord(text[0], false) && WordLength(text) < |text|
    ensures var n := WordLength(text);
      Lex(text, place, false)
      == [Token(place.line, WordValue(text[..n], false))]
         + Lex(text[n + 1..], place.Behind(text[n], EndsEscaped(false, NoReturns(text[..n]))), false)
  {
    hide IsSpace, WordValue, WordLength, NoReturns, EndsEscaped;
  }

  /** White space in front of a token; a line end counts those that were escaped before it. */
  lemma SpaceThenRest(space: char, rest: string, line: int, skipped: int)
    requires IsSpace(space)
    ensures Tokens([space] + rest, line, skipped)
         == if space == '\n' then Tokens(rest, line + 1 + skipped, 0) else Tokens(rest, line, skipped)
  {
    hide *;
    var place := Place(line, skipped);
    TokensAre([space] + rest, line, skipped);
    TokensAre(rest, line, skipped);
    TokensAre(rest, line + 1 + skipped, 0);
    SpaceIsNoBackslash(space);
    LexSkips([space] + rest, place, false);
    BehindIs(place, space, false);
    assert ([space] + rest)[1..] == rest;
  }

  /** A line that is continued: the words behind the escaped line end are still on the line in front of it. */
  lemma ContinuedLine(word: string, rest: string, line: int, skipped: int)
    requires IsWord(word)
    ensures Tokens(word + " \\\n" + rest, line, skipped) == [Token(line, word)] + Tokens(rest, line, skipped + 1)
  {
    hide *;
    BlankEnds();
    WordThenRest(word, "", ' ', "\\\n" + rest, line, skipped);
    ContinuedText(word, rest);
    TokensAre("\\\n" + rest, line, skipped);
    TokensAre(rest, line, skipped + 1);
    LexEscapedLine(rest, Place(line, skipped));
  }

  lemma BlankEnds()
    ensures EndsWordAt(' ') && "" in ENDINGS
  {}

  lemma ContinuedText(word: string, rest: string)
    ensures word + "" + [' '] + ("\\\n" + rest) == word + " \\\n" + rest
  {}

  lemma LexEscapedLine(rest: string, place: Place)
    ensures Lex("\\\n" + rest, place, false) == Lex(rest, Place(place.line, place.skipped + 1), false)
  {
    hide *;
    var text := "\\\n" + rest;
    assert text[1..] == ['\n'] + rest && text[1..][1..] == rest;
    LineEndIsSpace();
    LexSkips(text, place, false);
    LexSkips(text[1..], place, true);
    BehindIs(place, '\n', true);
  }

  lemma LineEndIsSpace()
    ensures IsSpace('\n')
  {}

  /** White space and backslashes in front of a token. */
  lemma LexSkips(text: string, place: Place, escaped: bool)
    requires text != [] && (IsSpace(text[0]) || (text[0] == '\\' && !escaped))
    ensures Lex(text, place, escaped) == if text[0] == '\\' then Lex(text[1..], place, true)
      else Lex(text[1..], place.Behind(text[0], escaped), escaped && text[0] != '\n')
  {
    SpaceIsNoBackslash(text[0]);
    hide IsSpace;
  }

  /** A comment behind a word takes nothing else than the rest of its line. */
  lemma WordThenComment(word: string, comment: string, rest: string, line: int, skipped: int)
    requires IsWord(word) && '\n' !in comment
    ensures Tokens(word + " #" + comment + ['\n'] + rest, line, skipped) == [Token(line, word)] +
      if '\\' in comment then Tokens(rest, line, skipped + 1) else Tokens(rest, line + 1 + skipped, 0)
  {
    var more := ['#'] + comment + ['\n'] + rest;
    assert word + "" + [' '] + more == word + " #" + comment + ['\n'] + rest;
    WordThenRest(word, "", ' ', more, line, skipped);
    CommentLine(comment, rest, line, skipped);
  }

  /** Whoever quotes a text escapes its quotation marks. */
  function EscapeQuotes(s: string): string {
    if s == [] then [] else (if s[0] == '"' then "\\\"" else [s[0]]) + EscapeQuotes(s[1..])
  }

  /** No quotation mark, and not the end, comes behind an odd number of backslashes. */
  predicate Quotable(s: string, escaped: bool)
    decreases |s|
  {
    if s == [] then !escaped else (s[0] == '"' ==> !escaped) && Quotable(s[1..], !escaped && s[0] == '\\')
  }

  lemma QuotesLengthFirst(c: char, more: string, escaped: bool)
    ensures QuotesLength([c] + more, escaped)
         == if c == '"' && !escaped then 0 else 1 + QuotesLength(more, !escaped && c == '\\')
  {
    assert ([c] + more)[1..] == more;
  }

  lemma NewlinesFirst(c: char, more: string)
    ensures Newlines([c] + more) == (if c == '\n' then 1 else 0) + Newlines(more)
  {
    assert ([c] + more)[1..] == more;
  }

  lemma EscapeQuotesFirst(s: string)
    requires s != []
    ensures EscapeQuotes(s) == (if s[0] == '"' then "\\\"" else [s[0]]) + EscapeQuotes(s[1..])
  {}

  lemma {:induction false} EscapedLength(s: string, rest: string, escaped: bool)
    requires Quotable(s, escaped)
    ensures QuotesLength(EscapeQuotes(s) + ['"'] + rest, escaped) == |EscapeQuotes(s)|
    decreases |s|
  {
    hide QuotesLength;
    if s == [] {
      QuotesLengthFirst('"', rest, false);
      assert EscapeQuotes(s) + ['"'] + rest == ['"'] + rest;
    } else {
      var more := EscapeQuotes(s[1..]) + ['"'] + rest;
      EscapedLength(s[1..], rest, !escaped && s[0] == '\\');
      hide EscapeQuotes;
      EscapeQuotesFirst(s);
      if s[0] == '"' {
        assert EscapeQuotes(s) + ['"'] + rest == ['\\'] + (['"'] + more);
        QuotesLengthFirst('\\', ['"'] + more, false);
        QuotesLengthFirst('"', more, true);
      } else {
        assert EscapeQuotes(s) + ['"'] + rest == [s[0]] + more;
        QuotesLengthFirst(s[0], more, escaped);
      }
    }
  }

  lemma QuotesValueOne(c: char, escaped: bool)
    ensures QuotesValue([c], escaped)
         == if escaped then (if c == '"' then [c] else ['\\', c]) else if c == '\\' then [] else [c]
  {
    assert [c][1..] == [];
  }

  lemma {:induction false} EscapedValue(s: string, escaped: bool)
    requires Quotable(s, escaped)
    ensures QuotesValue(EscapeQuotes(s), escaped) == (if escaped then "\\" else "") + s
    decreases |s|
  {
    hide QuotesValue;
    if s == [] {
      QuotesValueFirst('"', [], false);
    } else {
      var more := EscapeQuotes(s[1..]);
      EscapedValue(s[1..], !escaped && s[0] == '\\');
      hide EscapeQuotes, Quotable;
      EscapeQuotesFirst(s);
      assert s == [s[0]] + s[1..] && "" + s[1..] == s[1..];
      if s[0] == '"' {
        assert EscapeQuotes(s) == ['\\'] + (['"'] + more);
        QuotesValueFirst('\\', ['"'] + more, false);
        QuotesValueOne('\\', false);
        QuotesValueFirst('"', more, true);
        QuotesValueOne('"', true);
      } else {
        QuotesValueFirst(s[0], more, escaped);
        QuotesValueOne(s[0], escaped);
      }
    }
  }

  lemma {:induction false} EscapedLines(s: string)
    ensures Newlines(EscapeQuotes(s)) == Newlines(s)
  {
    if s != [] {
      EscapedLines(s[1..]);
      NewlinesConcat(if s[0] == '"' then "\\\"" else [s[0]], EscapeQuotes(s[1..]));
      NewlinesFirst(s[0], []);
      NewlinesFirst('\\', ['"']);
      NewlinesFirst('"', []);
      assert ['\\'] + ['"'] == "\\\"" && [s[0]] + [] == [s[0]];
    }
  }

  /** A quoted text is read as it was before its quotation marks were escaped, with its line ends counted. */
  lemma QuotedText(s: string, rest: string, line: int, skipped: int)
    requires Quotable(s, false)
    ensures Tokens(['"'] + EscapeQuotes(s) + ['"'] + rest, line, skipped) == [Token(line, s)] +
      if '\n' in s then Tokens(rest, line + skipped + Newlines(s), 0) else Tokens(rest, line, skipped)
  {
    hide *;
    var inside := EscapeQuotes(s);
    var text := ['"'] + inside + ['"'] + rest;
    TokensAre(text, line, skipped);
    TokensAre(rest, line, skipped);
    TokensAre(rest, line + skipped + Newlines(s), 0);
    EscapedLength(s, rest, false);
    EscapedValue(s, false);
    EscapedLines(s);
    NoLine(s);
    NoLine(inside);
    Parts(inside, '"', rest);
    assert text[0] == '"' && text[1..] == inside + ['"'] + rest && "" + s == s;
    LexQuotes(text, Place(line, skipped), false);
    OverIs(Place(line, skipped), inside);
    OverIs(Place(line, skipped), s);
  }

  lemma OverIs(place: Place, s: string)
    ensures place.Over(s) == if '\n' in s then Place(place.line + place.skipped + Newlines(s), 0) else place
  {}

  lemma LexQuotes(text: string, place: Place, escaped: bool)
    requires text != [] && text[0] == '"' && QuotesLength(text[1..], escaped) < |text[1..]|
    ensures var n := QuotesLength(text[1..], escaped);
      Lex(text, place, escaped)
      == [Token(place.line, QuotesValue(text[1..][..n], escaped))]
         + Lex(text[1..][n + 1..], place.Over(text[1..][..n]), false)
  {
    SpaceIsNoBackslash('"');
    hide IsSpace, QuotesValue, QuotesLength;
  }
}
