/** Strings as the program sees them: sequences of Unicode scalar values. */
module Text {

  /** Go's `unicode.IsSpace`: the Unicode White_Space property. */
  predicate IsSpace(c: char) {
    var n := c as int;
    || 0x09 <= n <= 0x0D
    || n == 0x20 || n == 0x85 || n == 0xA0 || n == 0x1680
    || 0x2000 <= n <= 0x200A
    || n == 0x2028 || n == 0x2029 || n == 0x202F || n == 0x205F || n == 0x3000
  }

  predicate HasPrefix(s: string, prefix: string) {
    |prefix| <= |s| && s[..|prefix|] == prefix
  }

  predicate HasSuffix(s: string, suffix: string) {
    |suffix| <= |s| && s[|s| - |suffix|..] == suffix
  }

  /** The number of line feeds in `s`. */
  function Newlines(s: string): nat {
    if s == [] then 0 else (if s[0] == '\n' then 1 else 0) + Newlines(s[1..])
  }

  lemma Associative<T>(a: seq<T>, b: seq<T>, c: seq<T>)
    ensures (a + b) + c == a + (b + c)
  {}

  lemma SplitAt<T>(s: seq<T>, i: nat)
    requires i < |s|
    ensures s == s[..i] + [s[i]] + s[i + 1..] == s[..i] + ([s[i]] + s[i + 1..])
  {}

  /** A sequence without its element at `p`. */
  function Without<T>(s: seq<T>, p: nat): (r: seq<T>)
    requires p < |s|
    ensures |r| + 1 == |s| && forall j :: 0 <= j < |r| ==> r[j] == s[if j < p then j else j + 1]
  {
    s[..p] + s[p + 1..]
  }

  lemma WithoutMultiset<T>(s: seq<T>, p: nat)
    requires p < |s|
    ensures multiset(s) == multiset(Without(s, p)) + multiset{s[p]}
  {
    assert s == s[..p] + [s[p]] + s[p + 1..];
  }

  /** `n` copies of `c`. */
  function Repeat(c: char, n: nat): (s: string)
    ensures |s| == n && forall i :: 0 <= i < n ==> s[i] == c
  {
    seq(n, _ => c)
  }

  lemma NewlinesConcat(s: string, t: string)
    ensures Newlines(s + t) == Newlines(s) + Newlines(t)
  {
    if s == [] {
      assert s + t == t;
    } else {
      assert (s + t)[1..] == s[1..] + t;
      NewlinesConcat(s[1..], t);
    }
  }

  /** Go's `strings.TrimSpace`. */
  function TrimLeft(s: string): string {
    if s != [] && IsSpace(s[0]) then TrimLeft(s[1..]) else s
  }

  function TrimRight(s: string): string {
    if s != [] && IsSpace(s[|s| - 1]) then TrimRight(s[..|s| - 1]) else s
  }

  function TrimSpace(s: string): string {
    TrimRight(TrimLeft(s))
  }

  /** Go's `strings.TrimSuffix`. */
  function TrimSuffix(s: string, suffix: string): string {
    if HasSuffix(s, suffix) then s[..|s| - |suffix|] else s
  }

  function LongestLength(words: seq<string>): nat {
    if words == [] then 0
    else if |words[0]| > LongestLength(words[1..]) then |words[0]| else LongestLength(words[1..])
  }

  /** A word that is longer than all of `words`. */
  function NewWord(words: seq<string>): string {
    Repeat('z', LongestLength(words) + 1)
  }

  lemma NewWordIsNew(words: seq<string>)
    ensures NewWord(words) !in words && NewWord(words) != [] && NewWord(words)[0] == 'z'
  {
    forall i | 0 <= i < |words| ensures |words[i]| <= LongestLength(words) {
      LengthAt(words, i);
    }
  }

  lemma LengthAt(words: seq<string>, i: nat)
    requires i < |words|
    ensures |words[i]| <= LongestLength(words)
  {
    if i > 0 {
      LengthAt(words[1..], i - 1);
    }
  }
}
