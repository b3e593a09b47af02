/**
 Unsafe keys are lost: a brace is never a key, and the text of any other unsafe key is not read as that
 key, whatever follows it.
 */
module KeyExact {
  import opened Options
  import opened Text
  import opened Tree
  import opened Lexer
  import opened Printer
  import opened Parser
  import opened KeyLexing

  // ---------- braces ----------

  lemma WordsAreNoBraces(tokens: seq<Token>)
    ensures "{" !in Words(tokens) && "}" !in Words(tokens)
  {}

  /** Parsing never makes a key of a brace, so no tree with such a key is ever read back. */
  lemma BraceKeysAreLost(f: Forest)
    requires "{" in AllKeys(f) || "}" in AllKeys(f)
    ensures forall content :: Unmarshal(content) != Some(f)
  {
    forall content ensures Unmarshal(content) != Some(f) {
      if content != [] {
        var tokens := Tokens(Load(content), 1, 0);
        ParserConservation(tokens);
        WordsAreNoBraces(tokens);
      }
    }
  }

  // ---------- what a token can be made of ----------

  function Count(c: char, s: string): nat {
    if s == [] then 0 else (if s[0] == c then 1 else 0) + Count(c, s[1..])
  }

  lemma CountConcat(c: char, s: string, t: string)
    ensures Count(c, s + t) == Count(c, s) + Count(c, t)
  {
    if s == [] {
      assert s + t == t;
    } else {
      assert (s + t)[1..] == s[1..] + t;
    }
  }

  /** The characters `c` that `next` has used up so far: those in the token and an opening backtick. */
  function Used(c: char, s: Scan): nat {
    Count(c, s.val) + if s.btQuoted && c == '`' then 1 else 0
  }

  lemma StepUses(c: char, s: Scan, ch: char)
    requires c != '\\' && !s.quoted && ch != '"'
    ensures !Step(s, ch).scan.quoted
    ensures Used(c, Step(s, ch).scan) <= Used(c, s) + Count(c, [ch])
  {
    CountConcat(c, s.val, [ch]);
    CountConcat(c, s.val, ['\\']);
    CountConcat(c, s.val + ['\\'], [ch]);
    assert ['\\'][1..] == [] && [ch][1..] == [];
  }

  /** A token has no more characters `c` than the input it was read from. */
  lemma {:induction false} RunUses(c: char, s: Scan, input: string)
    requires c != '\\' && !s.quoted && '"' !in input
    ensures Run(s, input).Found? ==> Used(c, Run(s, input).scan) <= Used(c, s) + Count(c, input)
    decreases |input|
  {
    if input != [] {
      StepUses(c, s, input[0]);
      assert [input[0]][1..] == [];
      if Step(s, input[0]).Continue? {
        RunUses(c, Step(s, input[0]).scan, input[1..]);
      }
    }
  }

  /** Outside quotations, a token has no white space. */
  lemma {:induction false} RunHasNoSpace(s: Scan, input: string)
    requires '"' !in input && !s.quoted
    requires !s.btQuoted ==> forall c :: c in s.val ==> !IsSpace(c)
    ensures var r := Run(s, input);
            r.Found? && !r.scan.btQuoted ==> forall c :: c in r.scan.val ==> !IsSpace(c)
    decreases |input|
  {
    if input != [] && Step(s, input[0]).Continue? {
      RunHasNoSpace(Step(s, input[0]).scan, input[1..]);
    }
  }

  // ---------- bare keys ----------

  /** The characters that the printer writes behind a key. */
  predicate IsEnd(end: char) {
    end == ' ' || end == '\n'
  }

  lemma {:induction false} RunComment(s: Scan, text: string, end: char)
    requires s.comment && s.val == [] && !s.quoted && !s.btQuoted && '\n' !in text && IsEnd(end)
    ensures Run(s, text + [end]).NotFound?
    decreases |text|
  {
    if text == [] {
      assert (text + [end])[1..] == [];
    } else {
      assert (text + [end])[1..] == text[1..] + [end];
      RunComment(Step(s, text[0]).scan, text[1..], end);
    }
  }

  lemma {:induction false} RunStaysInBackticks(s: Scan, input: string)
    requires s.btQuoted
    ensures Run(s, input).scan.btQuoted
    decreases |input|
  {
    if input != [] && Step(s, input[0]).Continue? {
      RunStaysInBackticks(Step(s, input[0]).scan, input[1..]);
    }
  }

  /** A word that starts like a comment or a quotation is read as one. */
  lemma SpecialIsSpecial(key: string, end: char, line: int)
    requires Bare(key) && StartsSpecial(key) && IsEnd(end)
    ensures var r := Run(Fresh(NO_TOKEN, line, 0), key + [end]);
            r.Found? ==> r.scan.btQuoted
  {
    var s := Fresh(NO_TOKEN, line, 0);
    var input := key + [end];
    assert input[1..] == key[1..] + [end];
    var one := Step(s, key[0]).scan;
    if key[0] == '\\' {
      assert one == s.(escaped := true);
      assert input[1..][0] == key[1];
      assert input[1..][1..] == key[2..] + [end];
      var two := Step(one, key[1]).scan;
      assert Run(s, input) == Run(two, key[2..] + [end]);
      if key[1] == '#' {
        RunComment(two, key[2..], end);
      } else {
        RunStaysInBackticks(two, key[2..] + [end]);
      }
    } else {
      assert Run(s, input) == Run(one, key[1..] + [end]);
      if key[0] == '#' {
        RunComment(one, key[1..], end);
      } else {
        RunStaysInBackticks(one, key[1..] + [end]);
      }
    }
  }

  /** A pending backslash at the end of a word is lost with the blank or line end behind it. */
  lemma OddBackslashIsLost(key: string, end: char, line: int)
    requires Bare(key) && key != [] && !StartsSpecial(key) && IsEnd(end)
    requires forall c :: c in key ==> !IsSpace(c)
    requires TrailingBackslashes(key) % 2 == 1
    ensures var r := Run(Fresh(NO_TOKEN, line, 0), key + [end]);
            r.Found? ==> r.scan.val != key
  {
    assert [end][1..] == [];
    if key == "\\" {
      assert (key + [end])[1..] == [end];
    } else {
      EndsEscapedParity(key);
      var t := OpenWord(key, [end], line);
      assert Run(t, [end]).Found?;
      assert |Run(t, [end]).scan.val| + 1 == |key|;
    }
  }

  /** A bare key that is read as it is printed is lexable. */
  lemma BareKeyExact(key: string, end: char, line: int)
    requires Bare(key) && IsEnd(end)
    requires var r := Run(Fresh(NO_TOKEN, line, 0), key + [end]);
             r.Found? && r.scan.val == key
    ensures Lexable(key)
  {
    var r := Run(Fresh(NO_TOKEN, line, 0), key + [end]);
    var input := key + [end];
    if key != [] {
      RunUses('`', Fresh(NO_TOKEN, line, 0), input);
      CountConcat('`', key, [end]);
      assert [end][1..] == [];
      assert !r.scan.btQuoted;
      RunHasNoSpace(Fresh(NO_TOKEN, line, 0), input);
      if StartsSpecial(key) {
        SpecialIsSpecial(key, end, line);
      } else if TrailingBackslashes(key) % 2 == 1 {
        OddBackslashIsLost(key, end, line);
      }
    }
  }

  // ---------- quoted keys ----------

  lemma ReplaceAllConcat(s: string, t: string, c: char, replacement: string)
    ensures ReplaceAll(s + t, c, replacement) == ReplaceAll(s, c, replacement) + ReplaceAll(t, c, replacement)
  {
    if s == [] {
      assert s + t == t;
    } else {
      assert (s + t)[1..] == s[1..] + t;
      ReplaceAllConcat(s[1..], t, c, replacement);
    }
  }

  lemma FirstIndex(s: string, c: char) returns (i: nat)
    requires c in s
    ensures i < |s| && s[i] == c && c !in s[..i]
  {
    i := 0;
    while s[i] != c
      invariant i < |s| && c !in s[..i] && c in s[i..]
      decreases |s| - i
    {
      assert s[..i + 1] == s[..i] + [s[i]];
      assert s[i..] == [s[i]] + s[i + 1..];
      i := i + 1;
    }
  }

  lemma BacktickText(key: string, before: string, after: string)
    requires InBackticks(key) && key == before + (['`'] + after) && '`' !in before
    ensures KeyText(key) == ['`'] + ((before + ['\\']) + (['`'] + (ReplaceAll(after, '`', "\\`") + ['`'])))
  {
    var escape := "\\`";
    ReplaceAllConcat(before, ['`'] + after, '`', escape);
    ReplaceNone(before, '`', escape);
    assert (['`'] + after)[1..] == after;
    assert ReplaceAll(['`'] + after, '`', escape) == escape + ReplaceAll(after, '`', escape);
  }

  /** What follows the text of a key is not taken for that key. */
  ghost predicate Lost(key: string, text: string, line: int) {
    var r := Run(Fresh(NO_TOKEN, line, 0), text);
    r.Found? ==> r.scan.val != key && r.scan.val != "{" && r.scan.val != "}"
  }

  lemma {:induction false} RunExtends(s: Scan, input: string)
    ensures s.val <= Run(s, input).scan.val
    ensures s.val != [] ==> Run(s, input).Found?
    decreases |input|
  {
    if input != [] && Step(s, input[0]).Continue? {
      RunExtends(Step(s, input[0]).scan, input[1..]);
    }
  }

  lemma Reassociate(a: string, b: string, c: string, d: string, e: string)
    ensures a + (b + (c + d)) + e == a + (b + (c + (d + e)))
  {}

  /** The token of a key in backticks ends at its first backtick, behind a backslash that is not in the key. */
  lemma BacktickKeyIsLost(key: string, rest: string, line: int)
    requires InBackticks(key) && '`' in key
    ensures Lost(key, KeyText(key) + rest, line)
  {
    hide Run, ReplaceAll, Newlines, KeyText;
    var i := FirstIndex(key, '`');
    var before, after := key[..i], key[i + 1..];
    var word := before + ['\\'];
    assert key == before + (['`'] + after);
    BacktickText(key, before, after);
    var tail := ReplaceAll(after, '`', "\\`") + ['`'];
    Reassociate(['`'], word, ['`'], tail, rest);
    RunBacktickWord(word, tail + rest, line);
    assert word[i] != key[i] && word[|word| - 1] == '\\';
  }

  lemma OpenQuote(inside: string, line: int)
    ensures Run(Fresh(NO_TOKEN, line, 0), ['"'] + inside)
         == Run(Fresh(Token(line, ""), line, 0).(quoted := true), inside)
  {
    assert (['"'] + inside)[1..] == inside;
  }

  lemma EscapedQuote(t: Scan, rest: string) returns (u: Scan)
    requires t.quoted && !t.btQuoted && t.escaped
    ensures Run(t, ['"'] + rest) == Run(u, rest) && u.val == t.val + ['"']
  {
    u := t.(val := t.val + ['"'], escaped := false);
    assert (['"'] + rest)[1..] == rest && Step(t, '"') == Continue(u);
  }

  /** The closing quote behind a pending backslash becomes part of the token. */
  lemma ClosingQuoteStays(key: string, rest: string, line: int) returns (u: Scan)
    requires InQuotes(key) && TrailingBackslashes(key) % 2 == 1
    ensures Run(Fresh(NO_TOKEN, line, 0), KeyText(key) + rest) == Run(u, rest)
    ensures |u.val| == |key| && u.val[|key| - 1] == '"'
  {
    hide Run, Step, ReplaceAll, EndsEscaped;
    ReplaceNone(key, '"', "\\\"");
    EndsEscapedParity(key);
    var q := Fresh(Token(line, ""), line, 0).(quoted := true);
    var end := ['"'] + rest;
    assert KeyText(key) + rest == ['"'] + (key + end);
    OpenQuote(key + end, line);
    var t := RunQuoted(q, key, end);
    u := EscapedQuote(t, rest);
  }

  lemma QuotedKeyIsLost(key: string, rest: string, line: int)
    requires InQuotes(key) && TrailingBackslashes(key) % 2 == 1
    ensures Lost(key, KeyText(key) + rest, line)
  {
    var u := ClosingQuoteStays(key, rest, line);
    assert key[|key| - 1] == '\\' && ' ' in key && |key| >= 2;
    hide Run, KeyText;
    RunExtends(u, rest);
    var r := Run(u, rest);
    assert r.scan.val[|key| - 1] == u.val[|key| - 1];
  }
}
