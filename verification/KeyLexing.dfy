/**
 Reading back a printed key: which keys the token machine returns unchanged from the text that the
 printer writes for them.
 */
module KeyLexing {
  import opened Text
  import opened Lexer
  import opened Printer

  // ---------- safe keys ----------

  /** The length of the run of backslashes that ends `s`. */
  function TrailingBackslashes(s: string): nat {
    if s == [] || s[|s| - 1] != '\\' then 0 else 1 + TrailingBackslashes(s[..|s| - 1])
  }

  /** A word that would be read as a comment or a quotation. */
  predicate StartsSpecial(key: string) {
    var word := if HasPrefix(key, "\\") then key[1..] else key;
    word != [] && word[0] in "#`"
  }

  predicate InBackticks(key: string) {
    '\n' in key || '"' in key
  }

  predicate InQuotes(key: string) {
    !InBackticks(key) && ' ' in key
  }

  /** The key is written as it is. */
  predicate Bare(key: string) {
    !InBackticks(key) && !InQuotes(key)
  }

  /** The printed key is read back as the token it came from. */
  predicate Lexable(key: string) {
    && key != []
    && (InBackticks(key) ==> '`' !in key)
    && (InQuotes(key) ==> TrailingBackslashes(key) % 2 == 0)
    && (Bare(key) ==>
        && TrailingBackslashes(key) % 2 == 0
        && !StartsSpecial(key)
        && forall c :: c in key ==> !IsSpace(c))
  }

  /** A key that survives printing and parsing: it is also not a brace. */
  predicate KeySafe(key: string) {
    Lexable(key) && key != "{" && key != "}"
  }

  // ---------- escapes ----------

  /** Whether a backslash is pending after `s`, given whether one was pending before. */
  function EndsEscaped(escaped: bool, s: string): bool
    decreases |s|
  {
    if s == [] then escaped else EndsEscaped(!escaped && s[0] == '\\', s[1..])
  }

  lemma EndsEscapedSnoc(escaped: bool, s: string, c: char)
    ensures EndsEscaped(escaped, s + [c]) == (!EndsEscaped(escaped, s) && c == '\\')
    decreases |s|
  {
    if s == [] {
      assert ([] + [c])[1..] == [];
    } else {
      assert (s + [c])[1..] == s[1..] + [c];
      EndsEscapedSnoc(!escaped && s[0] == '\\', s[1..], c);
    }
  }

  lemma {:induction false} EndsEscapedParity(s: string)
    ensures EndsEscaped(false, s) <==> TrailingBackslashes(s) % 2 == 1
  {
    if s != [] {
      var init := s[..|s| - 1];
      assert s == init + [s[|s| - 1]];
      EndsEscapedParity(init);
      EndsEscapedSnoc(false, init, s[|s| - 1]);
    }
  }

  /** What has been read so far, a pending backslash included. */
  function Raw(s: Scan): string {
    if s.escaped then s.val + ['\\'] else s.val
  }

  // ---------- runs inside a token ----------

  lemma StepInWord(s: Scan, c: char) returns (n: Scan)
    requires !s.comment && !s.quoted && !s.btQuoted && s.val != [] && !IsSpace(c)
    ensures Step(s, c) == Continue(n) && n.val != []
    ensures n == s.(val := n.val, escaped := !s.escaped && c == '\\')
    ensures Raw(n) == Raw(s) + [c]
  {
    n := Step(s, c).scan;
  }

  lemma {:induction false} RunBare(s: Scan, word: string, tail: string) returns (t: Scan)
    requires !s.comment && !s.quoted && !s.btQuoted && s.val != []
    requires forall c :: c in word ==> !IsSpace(c)
    ensures Run(s, word + tail) == Run(t, tail)
    ensures t == s.(val := t.val, escaped := EndsEscaped(s.escaped, word)) && t.val != []
    ensures Raw(t) == Raw(s) + word
    decreases |word|
  {
    if word == [] {
      t := s;
      assert word + tail == tail;
    } else {
      assert (word + tail)[1..] == word[1..] + tail;
      var n := StepInWord(s, word[0]);
      hide Step, Raw, IsSpace;
      t := RunBare(n, word[1..], tail);
      Associative(Raw(s), [word[0]], word[1..]);
      assert word == [word[0]] + word[1..];
    }
  }

  lemma StepInQuotes(s: Scan, c: char) returns (n: Scan)
    requires s.quoted && !s.btQuoted && c != '"' && c != '\n'
    ensures Step(s, c) == Continue(n)
    ensures n == s.(val := n.val, escaped := !s.escaped && c == '\\')
    ensures Raw(n) == Raw(s) + [c]
  {
    n := Step(s, c).scan;
  }

  lemma {:induction false} RunQuoted(s: Scan, text: string, tail: string) returns (t: Scan)
    requires s.quoted && !s.btQuoted
    requires '"' !in text && '\n' !in text
    ensures Run(s, text + tail) == Run(t, tail)
    ensures t == s.(val := t.val, escaped := EndsEscaped(s.escaped, text))
    ensures Raw(t) == Raw(s) + text
    decreases |text|
  {
    if text == [] {
      t := s;
      assert text + tail == tail;
    } else {
      assert (text + tail)[1..] == text[1..] + tail;
      var n := StepInQuotes(s, text[0]);
      t := RunQuoted(n, text[1..], tail);
      assert Raw(s) + text == Raw(n) + text[1..];
    }
  }

  lemma {:induction false} RunBackticks(s: Scan, text: string, tail: string)
    requires s.btQuoted && !s.quoted && s.skippedLines == 0
    requires '`' !in text
    ensures Run(s, text + tail) == Run(s.(val := s.val + text, line := s.line + Newlines(text)), tail)
    decreases |text|
  {
    if text == [] {
      assert text + tail == tail && s.val + text == s.val;
    } else {
      assert (text + tail)[1..] == text[1..] + tail;
      var n := Step(s, text[0]).scan;
      RunBackticks(n, text[1..], tail);
      assert n.val + text[1..] == s.val + text;
    }
  }

  // ---------- separators ----------

  lemma SkipBlank(blank: char, rest: string, line: int)
    requires blank == ' ' || blank == '\t'
    ensures Tokens([blank] + rest, line, 0) == Tokens(rest, line, 0)
  {}

  lemma SkipNewline(rest: string, line: int)
    ensures Tokens(['\n'] + rest, line, 0) == Tokens(rest, line + 1, 0)
  {}

  // ---------- whole keys ----------

  lemma ReplaceNone(s: string, c: char, replacement: string)
    requires c !in s
    ensures ReplaceAll(s, c, replacement) == s
  {}

  /** `end` ends a word without belonging to it. */
  predicate EndsWord(end: string) {
    end != [] && (end[0] == ' ' || end[0] == '\n')
  }

  lemma FirstToken(input: string, line: int, t: Scan, rest: string)
    requires Run(Fresh(NO_TOKEN, line, 0), input) == Found(t, rest)
    ensures Tokens(input, line, 0) == [Token(t.token.line, t.val)] + Tokens(rest, t.line, t.skippedLines)
  {}

  lemma RunBacktickWord(key: string, end: string, line: int)
    requires '`' !in key
    ensures var t := Scan(key, false, false, true, false, Token(line, ""), line + Newlines(key), 0);
            Run(Fresh(NO_TOKEN, line, 0), ['`'] + (key + (['`'] + end))) == Found(t, end)
  {
    var s := Fresh(NO_TOKEN, line, 0);
    var q := s.(token := Token(line, ""), btQuoted := true);
    var inside := key + (['`'] + end);
    assert Run(s, ['`'] + inside) == Run(q, inside) by {
      assert Step(s, '`') == Continue(q);
      assert (['`'] + inside)[1..] == inside;
    }
    RunBackticks(q, key, ['`'] + end);
    assert q.val + key == key;
    assert (['`'] + end)[1..] == end;
  }

  lemma RunKeyInBackticks(key: string, end: string, line: int)
    requires InBackticks(key) && Lexable(key)
    ensures var t := Scan(key, false, false, true, false, Token(line, ""), line + Newlines(key), 0);
            Run(Fresh(NO_TOKEN, line, 0), KeyText(key) + end) == Found(t, end)
  {
    RunBacktickWord(key, end, line);
    assert KeyText(key) + end == ['`'] + (key + (['`'] + end)) by {
      ReplaceNone(key, '`', "\\`");
    }
  }

  lemma LexBackticks(key: string, end: string, line: int)
    requires InBackticks(key) && Lexable(key)
    ensures Tokens(KeyText(key) + end, line, 0) == [Token(line, key)] + Tokens(end, line + Newlines(key), 0)
  {
    RunKeyInBackticks(key, end, line);
    FirstToken(KeyText(key) + end, line,
      Scan(key, false, false, true, false, Token(line, ""), line + Newlines(key), 0), end);
  }

  lemma RunKeyInQuotes(key: string, end: string, line: int) returns (t: Scan)
    requires InQuotes(key) && Lexable(key)
    ensures Run(Fresh(NO_TOKEN, line, 0), KeyText(key) + end) == Found(t, end)
    ensures t.val == key && t.token.line == line == t.line && t.skippedLines == 0
  {
    var q := Fresh(Token(line, ""), line, 0).(quoted := true);
    var inside := key + (['"'] + end);
    assert KeyText(key) + end == ['"'] + inside by {
      ReplaceNone(key, '"', "\\\"");
    }
    assert Run(Fresh(NO_TOKEN, line, 0), ['"'] + inside) == Run(q, inside) by {
      assert (['"'] + inside)[1..] == inside;
    }
    EndsEscapedParity(key);
    t := RunQuoted(q, key, ['"'] + end);
    assert t.val == Raw(q) + key == key;
    assert (['"'] + end)[1..] == end;
  }

  lemma LexQuotes(key: string, end: string, line: int)
    requires InQuotes(key) && Lexable(key)
    ensures Tokens(KeyText(key) + end, line, 0) == [Token(line, key)] + Tokens(end, line, 0)
  {
    var t := RunKeyInQuotes(key, end, line);
    FirstToken(KeyText(key) + end, line, t, end);
  }

  /** The first one or two characters of a bare word open it. */
  lemma OpenWord(key: string, tail: string, line: int) returns (t: Scan)
    requires Bare(key) && key != [] && key != "\\" && !StartsSpecial(key)
    requires forall c :: c in key ==> !IsSpace(c)
    ensures Run(Fresh(NO_TOKEN, line, 0), key + tail) == Run(t, tail)
    ensures t == Scan(t.val, false, false, false, EndsEscaped(false, key), Token(line, ""), line, 0) && t.val != []
    ensures Raw(t) == key
  {
    var s := Fresh(NO_TOKEN, line, 0);
    assert (key + tail)[1..] == key[1..] + tail;
    var one := Step(s, key[0]).scan;
    if key[0] == '\\' {
      assert one == s.(escaped := true);
      assert key[1..][0] == key[1];
      assert (key[1..] + tail)[1..] == key[2..] + tail;
      var two := Step(one, key[1]).scan;
      assert two == s.(token := Token(line, ""), val := ['\\', key[1]]);
      t := RunBare(two, key[2..], tail);
      assert Raw(two) + key[2..] == key;
      assert key[1..][1..] == key[2..];
    } else {
      assert one == s.(token := Token(line, ""), val := [key[0]]);
      t := RunBare(one, key[1..], tail);
    }
  }

  lemma RunBareKey(key: string, end: string, line: int) returns (t: Scan)
    requires Bare(key) && Lexable(key) && EndsWord(end)
    ensures Run(Fresh(NO_TOKEN, line, 0), KeyText(key) + end) == Found(t, end[1..])
    ensures t.val == key && t.token.line == line && t.skippedLines == 0
    ensures t.line == if end[0] == '\n' then line + 1 else line
  {
    EndsEscapedParity(key);
    assert key == "\\" ==> TrailingBackslashes(key) == 1 + TrailingBackslashes("");
    var s := OpenWord(key, end, line);
    assert s.val == key;
    assert Step(s, end[0]).Emit?;
    t := Step(s, end[0]).scan;
  }

  lemma LexBare(key: string, end: string, line: int)
    requires Bare(key) && Lexable(key) && EndsWord(end)
    ensures Tokens(KeyText(key) + end, line, 0) == [Token(line, key)] + Tokens(end, line, 0)
  {
    var t := RunBareKey(key, end, line);
    FirstToken(KeyText(key) + end, line, t, end[1..]);
    hide Tokens, Run, Lexable;
    assert end == [end[0]] + end[1..];
    if end[0] == ' ' {
      SkipBlank(' ', end[1..], line);
    } else {
      SkipNewline(end[1..], line);
    }
  }

  /** A printed lexable key is read as one token, the key itself, and the reader stands behind it. */
  lemma LexKey(key: string, end: string, line: int)
    requires Lexable(key) && EndsWord(end)
    ensures Tokens(KeyText(key) + end, line, 0) == [Token(line, key)] + Tokens(end, line + Newlines(key), 0)
  {
    if InBackticks(key) {
      LexBackticks(key, end, line);
    } else {
      NoNewlines(key);
      if InQuotes(key) {
        LexQuotes(key, end, line);
      } else {
        LexBare(key, end, line);
      }
    }
  }

  lemma NoNewlines(s: string)
    requires '\n' !in s
    ensures Newlines(s) == 0
  {}
}
