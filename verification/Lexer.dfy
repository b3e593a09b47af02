/**
 The token machine of `caddyfile/lexer.go`.

 `Step` is the effect of one character on the variables of `next`, `Run` one call of `next`, and
 `Tokens` the calls that `allTokens` makes; the class does the same work in place.
 */
module Lexer {
  import opened Text

  datatype Token = Token(line: int, text: string)

  /** The variables of `next` and the fields of the lexer, apart from the reader. */
  datatype Scan = Scan(
    val: string, comment: bool, quoted: bool, btQuoted: bool, escaped: bool,
    token: Token, line: int, skippedLines: int)

  const NO_TOKEN := Token(0, "")

  /** The state in which `next` starts. */
  function Fresh(token: Token, line: int, skippedLines: int): Scan {
    Scan("", false, false, false, false, token, line, skippedLines)
  }

  datatype Outcome = Continue(scan: Scan) | Emit(scan: Scan)

  /** Counts the end of a line, together with the escaped line ends before it. */
  function EndLine(s: Scan): Scan {
    s.(line := s.line + 1 + s.skippedLines, skippedLines := 0)
  }

  function Step(s: Scan, ch: char): Outcome {
    if !s.escaped && !s.btQuoted && ch == '\\' then Continue(s.(escaped := true))
    else if s.quoted || s.btQuoted then StepQuoted(s, ch)
    else if IsSpace(ch) then StepSpace(s, ch)
    else StepPlain(s, ch)
  }

  function StepQuoted(s: Scan, ch: char): Outcome {
    var literal := s.quoted && s.escaped;
    if !literal && ((s.quoted && ch == '"') || (s.btQuoted && ch == '`')) then Emit(s)
    else
      var val := if literal && ch != '"' then s.val + ['\\'] else s.val;
      var t := if ch == '\n' then EndLine(s) else s;
      Continue(t.(val := val + [ch], escaped := s.escaped && !literal))
  }

  function StepSpace(s: Scan, ch: char): Outcome {
    if ch == '\r' then Continue(s)
    else
      var t :=
        if ch != '\n' then s
        else if s.escaped then s.(skippedLines := s.skippedLines + 1, escaped := false, comment := false)
        else EndLine(s).(comment := false);
      if t.val != [] then Emit(t) else Continue(t)
  }

  function StepPlain(s: Scan, ch: char): Outcome {
    var first := s.val == [];
    if s.comment || (ch == '#' && first) then Continue(s.(comment := true))
    else
      var t := if first then s.(token := Token(s.line, "")) else s;
      if first && ch == '"' then Continue(t.(quoted := true))
      else if first && ch == '`' then Continue(t.(btQuoted := true))
      else Continue(t.(val := (if s.escaped then s.val + ['\\'] else s.val) + [ch], escaped := false))
  }

  datatype Next = Found(scan: Scan, rest: string) | NotFound(scan: Scan)

  function Run(s: Scan, input: string): (r: Next)
    ensures r.Found? && input != [] ==> |r.rest| < |input|
    ensures input == [] && s.val == [] ==> r.NotFound?
    decreases |input|
  {
    if input == [] then
      if s.val != [] then Found(s, []) else NotFound(s)
    else
      match Step(s, input[0])
      case Continue(t) => Run(t, input[1..])
      case Emit(t) => Found(t, input[1..])
  }

  /** The tokens of the rest of the input. */
  function Tokens(input: string, line: int, skippedLines: int): seq<Token>
    decreases |input|
  {
    match Run(Fresh(NO_TOKEN, line, skippedLines), input)
    case NotFound(_) => []
    case Found(s, rest) => [Token(s.token.line, s.val)] + Tokens(rest, s.line, s.skippedLines)
  }

  /** What `load` leaves to be read; an empty input is an error. */
  function Load(input: string): (r: string)
    requires input != []
  {
    if input[0] == '\U{FEFF}' then input[1..] else input
  }

  /** A token left over from the previous call has no influence on the next one. */
  lemma {:induction false} StaleToken(s: Scan, t: Token, input: string)
    requires s.val == [] && !s.quoted && !s.btQuoted
    ensures Run(s, input).Found? ==> Run(s.(token := t), input) == Run(s, input)
    ensures Run(s, input).NotFound? ==> Run(s.(token := t), input).NotFound?
    decreases |input|
  {
    if input != [] && Step(s, input[0]).Continue? {
      var n := Step(s, input[0]).scan;
      assert Step(s.(token := t), input[0]).Continue?;
      if n.val == [] && !n.quoted && !n.btQuoted {
        StaleToken(n, t, input[1..]);
        assert Step(s.(token := t), input[0]).scan == n.(token := t);
      } else {
        assert Step(s.(token := t), input[0]).scan == n;
      }
    }
  }

  class Lexer {
    var reader: string
    var token: Token
    var line: int
    var skippedLines: int

    constructor ()
      ensures token == NO_TOKEN && skippedLines == 0
    {
      reader, token, line, skippedLines := "", NO_TOKEN, 0, 0;
    }

    /** Answers false, Go's `io.EOF`, on an empty input. */
    method LoadInput(input: string) returns (ok: bool)
      modifies this`reader, this`line
      ensures ok == (input != [])
      ensures line == 1
      ensures ok ==> reader == Load(input)
    {
      reader, line := input, 1;
      if reader == [] {
        return false;
      }
      var firstCh := reader[0];
      if firstCh == '\U{FEFF}' {
        reader := reader[1..];
      }
      return true;
    }

    method Next() returns (found: bool)
      modifies this
      ensures var r := Run(Fresh(old(token), old(line), old(skippedLines)), old(reader));
              && found == r.Found?
              && line == r.scan.line && skippedLines == r.scan.skippedLines
              && (found ==> reader == r.rest && token == Token(r.scan.token.line, r.scan.val))
    {
      var val := "";
      var comment, quoted, btQuoted, escaped := false, false, false, false;
      ghost var goal := Run(Fresh(token, line, skippedLines), reader);
      while true
        invariant goal == Run(Scan(val, comment, quoted, btQuoted, escaped, token, line, skippedLines), reader)
        decreases |reader|
      {
        if reader == [] {
          if |val| > 0 {
            token := token.(text := val);
            return true;
          }
          return false;
        }
        var ch := reader[0];
        ghost var step := Step(Scan(val, comment, quoted, btQuoted, escaped, token, line, skippedLines), ch);
        reader := reader[1..];
        assert goal == if step.Continue? then Run(step.scan, reader) else Found(step.scan, reader);

        if !escaped && !btQuoted && ch == '\\' {
          escaped := true;
          continue;
        }

        if quoted || btQuoted {
          if quoted && escaped {
            // everything is literal between quotes, except an escaped quote
            if ch != '"' {
              val := val + ['\\'];
            }
            escaped := false;
          } else {
            if quoted && ch == '"' {
              token := token.(text := val);
              return true;
            }
            if btQuoted && ch == '`' {
              token := token.(text := val);
              return true;
            }
          }
          if ch == '\n' {
            line := line + 1 + skippedLines;
            skippedLines := 0;
          }
          val := val + [ch];
          continue;
        }

        if IsSpace(ch) {
          if ch == '\r' {
            continue;
          }
          if ch == '\n' {
            if escaped {
              skippedLines := skippedLines + 1;
              escaped := false;
            } else {
              line := line + 1 + skippedLines;
              skippedLines := 0;
            }
            comment := false;
          }
          if |val| > 0 {
            token := token.(text := val);
            return true;
          }
          continue;
        }

        if ch == '#' && |val| == 0 {
          comment := true;
        }
        if comment {
          continue;
        }

        if |val| == 0 {
          token := Token(line, "");
          if ch == '"' {
            quoted := true;
            continue;
          }
          if ch == '`' {
            btQuoted := true;
            continue;
          }
        }

        if escaped {
          val := val + ['\\'];
          escaped := false;
        }

        val := val + [ch];
      }
    }
  }

  /** `allTokens`; no result is Go's error on an empty input. */
  method AllTokens(input: string) returns (ok: bool, tokens: seq<Token>)
    ensures ok == (input != [])
    ensures ok ==> tokens == Tokens(Load(input), 1, 0)
  {
    var l := new Lexer();
    ok := l.LoadInput(input);
    tokens := [];
    if !ok {
      return;
    }
    while true
      invariant fresh(l)
      invariant tokens + Tokens(l.reader, l.line, l.skippedLines) == Tokens(Load(input), 1, 0)
      decreases |l.reader|
    {
      StaleToken(Fresh(l.token, l.line, l.skippedLines), NO_TOKEN, l.reader);
      ghost var before := tokens;
      var found := l.Next();
      if !found {
        return;
      }
      tokens := tokens + [l.token];
    }
  }
}
