/** `parsePath` of `caddyfile/fromlabels.go`: how the path of a label is taken apart. */
module LabelPath {
  import opened Tree

  predicate IsDigit(c: char) {
    '0' <= c <= '9'
  }

  predicate AllDigits(s: string) {
    forall i :: 0 <= i < |s| ==> IsDigit(s[i])
  }

  /** The index of the last `.`, or -1. */
  function LastDot(path: string): (i: int)
    ensures -1 <= i < |path|
    ensures i >= 0 ==> path[i] == '.'
    ensures forall j :: i < j < |path| ==> path[j] != '.'
  {
    if path == [] then -1
    else if path[|path| - 1] == '.' then |path| - 1
    else LastDot(path[..|path| - 1])
  }

  function ParentPath(path: string): (parent: string)
    ensures path != "" ==> |parent| < |path|
  {
    if LastDot(path) < 0 then "" else path[..LastDot(path)]
  }

  /** The last part of a path: an order, a name and an index, the first and the last being optional. */
  function Segment(path: string): string {
    path[LastDot(path) + 1..]
  }

  function LeadingDigits(s: string): (n: nat)
    ensures n <= |s| && AllDigits(s[..n]) && (n < |s| ==> !IsDigit(s[n]))
  {
    if s == [] || !IsDigit(s[0]) then 0
    else
      var n := LeadingDigits(s[1..]);
      assert s[..n + 1] == [s[0]] + s[1..][..n];
      n + 1
  }

  function TrailingDigits(s: string): (n: nat)
    ensures n <= |s| && AllDigits(s[|s| - n..]) && (n < |s| ==> !IsDigit(s[|s| - n - 1]))
  {
    if s == [] || !IsDigit(s[|s| - 1]) then 0 else 1 + TrailingDigits(s[..|s| - 1])
  }

  /** The length of the order and the underscore behind it. */
  function OrderPart(segment: string): (n: nat)
    ensures n <= |segment|
  {
    var n := LeadingDigits(segment);
    if 0 < n && n + 1 < |segment| && segment[n] == '_' then n + 1 else 0
  }

  /** The length of the index and the underscore before it, in what follows the order. */
  function IndexPart(s: string): (n: nat)
    ensures n <= |s|
  {
    var n := TrailingDigits(s);
    if 0 < n && n + 1 < |s| && s[|s| - n - 1] == '_' then n + 1 else 0
  }

  function NameOf(path: string): string {
    var s := Segment(path)[OrderPart(Segment(path))..];
    s[..|s| - IndexPart(s)]
  }

  function Number(digits: string): nat
    requires AllDigits(digits)
  {
    if digits == [] then 0
    else 10 * Number(digits[..|digits| - 1]) + (digits[|digits| - 1] as int - '0' as int)
  }

  /** The largest `int`, which is what `strconv.Atoi` gives for a number that is too large. */
  const MAX_INT: int := 0x7FFF_FFFF_FFFF_FFFF

  function OrderOf(path: string): int {
    var n := OrderPart(Segment(path));
    if n == 0 then UNORDERED
    else
      assert n - 1 == LeadingDigits(Segment(path));
      var order := Number(Segment(path)[..n - 1]);
      if order > MAX_INT then MAX_INT else order
  }

  /**
   Paths that match the pattern at every level: no segment is empty, and there is no line feed above the
   last one.
   */
  ghost predicate WellFormed(path: string) {
    && path != "" && path[0] != '.' && path[|path| - 1] != '.'
    && (forall i, j :: 0 <= i < j < |path| && path[i] == '.' && path[j] == '.' ==> j != i + 1)
    && (forall i, j :: 0 <= i < j < |path| && path[i] == '\n' ==> path[j] != '.')
  }

  /** A path is well-formed when its last segment is not empty and what is above it is well-formed. */
  lemma ParentWellFormed(path: string)
    ensures WellFormed(path) <==>
      && Segment(path) != ""
      && (LastDot(path) >= 0 ==> '\n' !in ParentPath(path) && WellFormed(ParentPath(path)))
  {
    hide LastDot;
    var d := LastDot(path);
    if d >= 0 {
      assert forall i :: 0 <= i < d ==> ParentPath(path)[i] == path[i];
      assert Segment(path) != "" <==> d + 1 < |path|;
      if WellFormed(path) {
        assert d > 0 && ParentPath(path)[d - 1] == path[d - 1];
      }
    }
  }

  // ---------- the pattern ----------

  /** `(?:(\d+)_)?` */
  predicate OrderShape(s: string) {
    s == "" || (|s| >= 2 && AllDigits(s[..|s| - 1]) && s[|s| - 1] == '_')
  }

  /** `(?:_(\d+))?` */
  predicate IndexShape(s: string) {
    s == "" || (|s| >= 2 && s[0] == '_' && AllDigits(s[1..]))
  }

  /** The segment is an order, a name and an index. */
  predicate Matches(segment: string, order: string, name: string, index: string) {
    segment == order + name + index && OrderShape(order) && name != "" && IndexShape(index)
  }

  /** An order that can be taken off is taken off. */
  lemma OrderIsUnique(segment: string, order: string)
    requires OrderShape(order) && order != "" && |order| < |segment| && segment[..|order|] == order
    ensures OrderPart(segment) == |order|
  {}

  lemma IndexIsUnique(s: string, index: string)
    requires IndexShape(index) && index != "" && |index| < |s| && s[|s| - |index|..] == index
    ensures IndexPart(s) == |index|
  {}

  /** The parts that are taken off have the shape the pattern asks for. */
  lemma PartShapes(s: string)
    ensures OrderShape(s[..OrderPart(s)]) && IndexShape(s[|s| - IndexPart(s)..])
    ensures s != "" ==> OrderPart(s) < |s| && IndexPart(s) < |s|
  {}

  /** A match behind the same order does not have a shorter name. */
  lemma ShortestName(rest: string, name: string, index: string)
    requires rest == name + index && name != "" && IndexShape(index)
    ensures |rest| - IndexPart(rest) <= |name|
  {
    if index != "" {
      assert rest[|rest| - |index|..] == index;
      IndexIsUnique(rest, index);
    }
  }

  lemma CutTwice(s: string, n: nat, k: nat)
    requires n + k <= |s|
    ensures s == s[..n] + s[n..][..k] + s[n + k..]
  {}

  lemma AfterOrder(s: string, order: string, name: string, index: string)
    requires s == order + name + index
    ensures s[|order|..] == name + index
  {}

  /** No match takes off another order, or leaves a shorter name behind the same one. */
  lemma OtherMatch(s: string, order: string, name: string, index: string)
    requires Matches(s, order, name, index)
    ensures var n := OrderPart(s);
      && (order == "" || order == s[..n])
      && (order == s[..n] ==> |s[n..]| - IndexPart(s[n..]) <= |name|)
  {
    AfterOrder(s, order, name, index);
    hide OrderPart, IndexPart;
    assert s[..|order|] == order;
    if order != "" {
      OrderIsUnique(s, order);
    }
    if order == s[..OrderPart(s)] {
      ShortestName(s[OrderPart(s)..], name, index);
    }
  }

  lemma NameParts(path: string)
    ensures var s, n := Segment(path), OrderPart(Segment(path));
      && n + |NameOf(path)| <= |s| && NameOf(path) == s[n..][..|NameOf(path)|]
      && |NameOf(path)| == |s[n..]| - IndexPart(s[n..])
      && s[n + |NameOf(path)|..] == s[n..][|s[n..]| - IndexPart(s[n..])..]
  {}

  /**
   What is taken off a segment is what the pattern takes off it: the parts match, an order is taken off
   whenever there is one, and behind it no match has a shorter name.
   */
  lemma ParsePathMatches(path: string)
    requires Segment(path) != ""
    ensures var s, n := Segment(path), OrderPart(Segment(path));
      && n + |NameOf(path)| <= |s| && Matches(s, s[..n], NameOf(path), s[n + |NameOf(path)|..])
      && forall order, name, index :: Matches(s, order, name, index) ==>
        && (order == "" || order == s[..n])
        && (order == s[..n] ==> |NameOf(path)| <= |name|)
  {
    hide *;
    var s, n, name := Segment(path), OrderPart(Segment(path)), NameOf(path);
    NameParts(path);
    PartShapes(s);
    PartShapes(s[n..]);
    CutTwice(s, n, |name|);
    IsMatch(s, s[..n], name, s[n + |name|..]);
    forall order, other, index | Matches(s, order, other, index)
      ensures (order == "" || order == s[..n]) && (order == s[..n] ==> |name| <= |other|)
    {
      OtherMatch(s, order, other, index);
    }
  }

  lemma IsMatch(segment: string, order: string, name: string, index: string)
    requires segment == order + name + index && OrderShape(order) && name != "" && IndexShape(index)
    ensures Matches(segment, order, name, index)
  {}

  // ---------- the whole pattern ----------

  /** `(?:(.+)\.)?`, where `.` stands for any character but a line feed */
  predicate ParentShape(s: string) {
    s == "" || (|s| >= 2 && s[|s| - 1] == '.' && '\n' !in s)
  }

  /** The path is a parent with its dot, an order, a name without dots and an index. */
  predicate PathMatches(path: string, parent: string, order: string, name: string, index: string) {
    path == parent + (order + name + index) && ParentShape(parent) && '.' !in name
    && Matches(order + name + index, order, name, index)
  }

  /** The pattern matches the path. */
  ghost predicate HasMatch(path: string) {
    exists parent, order, name, index :: PathMatches(path, parent, order, name, index)
  }

  lemma LastDotIs(path: string, i: int)
    requires -1 <= i < |path| && (i >= 0 ==> path[i] == '.') && forall j :: i < j < |path| ==> path[j] != '.'
    ensures LastDot(path) == i
  {
    hide LastDot;
    var d := LastDot(path);
    assert !(i < d) && !(d < i);
  }

  lemma NoDotInside(order: string, name: string, index: string)
    requires OrderShape(order) && '.' !in name && IndexShape(index)
    ensures forall j :: 0 <= j < |order + name + index| ==> (order + name + index)[j] != '.'
  {
    assert forall j :: 0 <= j < |order| - 1 ==> IsDigit(order[..|order| - 1][j]) && order[j] == order[..|order| - 1][j];
    assert forall j :: 1 <= j < |index| ==> IsDigit(index[1..][j - 1]) && index[j] == index[1..][j - 1];
  }

  /** In every match the parent is what is above the last dot, and the rest is the last segment. */
  lemma ParentOfMatch(path: string, parent: string, order: string, name: string, index: string)
    requires PathMatches(path, parent, order, name, index)
    ensures parent == path[..LastDot(path) + 1] && order + name + index == Segment(path)
    ensures parent == "" <==> ParentPath(path) == ""
    ensures parent != "" ==> parent == ParentPath(path) + ['.']
  {
    hide LastDot;
    var rest := order + name + index;
    NoDotInside(order, name, index);
    assert forall j :: |parent| <= j < |path| ==> path[j] == rest[j - |parent|];
    LastDotIs(path, |parent| - 1);
    assert path[..|parent|] == parent && path[|parent|..] == rest;
  }

  lemma MatchedPath(path: string, parent: string, order: string, name: string, index: string)
    requires PathMatches(path, parent, order, name, index)
    ensures Segment(path) != "" && (LastDot(path) >= 0 ==> ParentPath(path) != "" && '\n' !in ParentPath(path))
  {
    ParentOfMatch(path, parent, order, name, index);
    MatchNotEmpty(order + name + index, order, name, index);
    hide LastDot, Matches;
    if LastDot(path) >= 0 {
      assert ParentPath(path) == parent[..|parent| - 1];
    }
  }

  lemma MatchOf(path: string)
    requires Segment(path) != "" && (LastDot(path) >= 0 ==> ParentPath(path) != "" && '\n' !in ParentPath(path))
    ensures HasMatch(path)
  {
    hide *;
    var order, name, index := SegmentSplit(path);
    WithDot(path);
    SegmentIs(path);
    MatchIs(path, path[..LastDot(path) + 1], order, name, index);
  }

  lemma SegmentSplit(path: string) returns (order: string, name: string, index: string)
    requires Segment(path) != ""
    ensures order + name + index == Segment(path) && '.' !in name && Matches(order + name + index, order, name, index)
  {
    SegmentMatches(path);
    var s, n := Segment(path), OrderPart(Segment(path));
    order, name, index := s[..n], NameOf(path), s[n + |NameOf(path)|..];
  }

  lemma SegmentIs(path: string)
    ensures path == path[..LastDot(path) + 1] + Segment(path)
  {
    hide LastDot;
  }

  lemma MatchIs(path: string, parent: string, order: string, name: string, index: string)
    requires path == parent + (order + name + index) && ParentShape(parent) && '.' !in name
    requires Matches(order + name + index, order, name, index)
    ensures HasMatch(path)
  {
    hide Matches, ParentShape;
    assert PathMatches(path, parent, order, name, index);
  }

  /** The pattern matches exactly the paths with a last segment and, above a dot, a parent on one line. */
  lemma MatchExists(path: string)
    ensures HasMatch(path) <==>
      Segment(path) != "" && (LastDot(path) >= 0 ==> ParentPath(path) != "" && '\n' !in ParentPath(path))
  {
    hide LastDot, Segment, PathMatches, ParentPath;
    if parent, order, name, index :| PathMatches(path, parent, order, name, index) {
      MatchedPath(path, parent, order, name, index);
    } else if Segment(path) != "" && (LastDot(path) >= 0 ==> ParentPath(path) != "" && '\n' !in ParentPath(path)) {
      MatchOf(path);
    }
  }

  lemma WithDot(path: string)
    requires LastDot(path) >= 0 ==> ParentPath(path) != "" && '\n' !in ParentPath(path)
    ensures ParentShape(path[..LastDot(path) + 1])
  {
    hide LastDot;
    if LastDot(path) >= 0 {
      assert path[..LastDot(path) + 1] == ParentPath(path) + ['.'];
    }
  }

  lemma MatchNotEmpty(segment: string, order: string, name: string, index: string)
    requires Matches(segment, order, name, index)
    ensures segment != ""
  {}

  lemma SegmentMatches(path: string)
    requires Segment(path) != ""
    ensures var s, n := Segment(path), OrderPart(Segment(path));
      && n + |NameOf(path)| <= |s| && '.' !in NameOf(path) && NameOf(path) == s[n..][..|NameOf(path)|]
      && Matches(s, s[..n], NameOf(path), s[n + |NameOf(path)|..])
  {
    ParsePathMatches(path);
    NameParts(path);
    hide LastDot, OrderPart, NameOf, Matches, IndexPart;
    assert forall j :: 0 <= j < |Segment(path)| ==> Segment(path)[j] != '.';
  }

  /** The pattern matches a path and everything above it, which `getOrCreateBlock` relies on. */
  ghost predicate MatchesAllTheWay(path: string)
    decreases |path|
  {
    HasMatch(path) && (path != "" && ParentPath(path) != "" ==> MatchesAllTheWay(ParentPath(path)))
  }

  /** The pattern matches at every level of exactly the well-formed paths. */
  lemma {:induction false} WellFormedExactly(path: string)
    ensures WellFormed(path) <==> MatchesAllTheWay(path)
    decreases |path|
  {
    ParentWellFormed(path);
    MatchExists(path);
    hide WellFormed, HasMatch, Segment, LastDot;
    if path != "" && LastDot(path) >= 0 {
      WellFormedExactly(ParentPath(path));
      NothingMatches();
    }
  }

  lemma NothingMatches()
    ensures !WellFormed("")
  {}
}
