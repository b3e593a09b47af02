/**
 The numbers in front of the names of labels: which order a path has, in decimal notation, and that siblings
 are printed in the order of their numbers.
 */
module LabelNumbers {
  import opened Text
  import opened Tree
  import opened BlockOrder
  import opened Printer
  import opened LabelPath
  import opened Labels

  // ---------- decimal notation ----------

  /** A number as it is usually written. */
  function Decimal(n: nat): (s: string)
    ensures s != "" && AllDigits(s)
  {
    (if n < 10 then "" else Decimal(n / 10)) + ["0123456789"[n % 10]]
  }

  /** The last segment of a path starts with a number, zeros in front of it or not, and has a name behind it. */
  ghost predicate Numbered(segment: string, n: nat) {
    exists zeros: nat, name: string :: NumberedAs(segment, zeros, n, name)
  }

  predicate NumberedAs(segment: string, zeros: nat, n: nat, name: string) {
    segment == Repeat('0', zeros) + Decimal(n) + "_" + name && name != ""
  }

  lemma NumberSnoc(digits: string, d: char)
    requires AllDigits(digits) && IsDigit(d)
    ensures Number(digits + [d]) == 10 * Number(digits) + (d as int - '0' as int)
  {
    assert (digits + [d])[..|digits|] == digits;
  }

  lemma {:induction false} NumberOfZeros(zeros: nat)
    ensures Number(Repeat('0', zeros)) == 0
  {
    if zeros > 0 {
      NumberOfZeros(zeros - 1);
      assert Repeat('0', zeros) == Repeat('0', zeros - 1) + ['0'];
      NumberSnoc(Repeat('0', zeros - 1), '0');
    }
  }

  /** Reading a decimal number gives the number, whatever zeros are in front of it. */
  lemma {:induction false} NumberOfDecimal(zeros: nat, n: nat)
    ensures Number(Repeat('0', zeros) + Decimal(n)) == n
  {
    var z, d := Repeat('0', zeros), "0123456789"[n % 10];
    if n < 10 {
      NumberOfZeros(zeros);
      assert z + Decimal(n) == z + [d];
      NumberSnoc(z, d);
    } else {
      NumberOfDecimal(zeros, n / 10);
      assert z + Decimal(n) == z + Decimal(n / 10) + [d];
      NumberSnoc(z + Decimal(n / 10), d);
    }
  }

  /** All digits are a decimal number with zeros in front of it. */
  lemma {:induction false} DecimalOfNumber(digits: string) returns (zeros: nat)
    requires AllDigits(digits) && digits != ""
    ensures digits == Repeat('0', zeros) + Decimal(Number(digits))
  {
    var init, last := digits[..|digits| - 1], digits[|digits| - 1];
    assert digits == init + [last];
    NumberSnoc(init, last);
    var n := Number(digits);
    LastDigit(n, Number(init), last);
    hide Number;
    if init == "" || Number(init) == 0 {
      assert Decimal(n) == [last];
      zeros := |init|;
      if init != "" {
        var k := DecimalOfNumber(init);
        assert Decimal(0) == "0";
        assert init == Repeat('0', |init|);
      }
    } else {
      zeros := DecimalOfNumber(init);
      assert Decimal(n) == Decimal(n / 10) + [last];
    }
  }

  lemma LastDigit(n: nat, rest: nat, d: char)
    requires IsDigit(d) && n == 10 * rest + (d as int - '0' as int)
    ensures "0123456789"[n % 10] == d && n / 10 == rest && (n < 10 <==> rest == 0)
  {}

  // ---------- the order of a path ----------

  lemma {:induction false} DigitsEnd(digits: string, rest: string)
    requires AllDigits(digits) && rest != "" && !IsDigit(rest[0])
    ensures LeadingDigits(digits + rest) == |digits|
  {
    if digits == "" {
      assert digits + rest == rest;
    } else {
      assert (digits + rest)[1..] == digits[1..] + rest;
      DigitsEnd(digits[1..], rest);
    }
  }

  lemma OrderPartOf(digits: string, name: string)
    requires AllDigits(digits) && digits != "" && name != ""
    ensures var s := digits + "_" + name;
      OrderPart(s) == |digits| + 1 && s[..|digits|] == digits
  {
    var s := digits + "_" + name;
    assert s == digits + ("_" + name);
    DigitsEnd(digits, "_" + name);
  }

  lemma PartIsNumber(segment: string)
    requires OrderPart(segment) != 0
    ensures Numbered(segment, Number(segment[..OrderPart(segment) - 1]))
  {
    var n := OrderPart(segment);
    assert n - 1 == LeadingDigits(segment) && segment[n - 1] == '_';
    var digits, name := segment[..n - 1], segment[n..];
    var zeros := DecimalOfNumber(digits);
    assert segment == digits + "_" + name;
    assert NumberedAs(segment, zeros, Number(digits), name);
  }

  /**
   The order of a path is the number in front of its name, or the largest `int` if that is smaller. Only a path
   without a number has the order of a block that nobody numbered.
   */
  lemma OrderExactly(path: string)
    ensures forall n: nat :: Numbered(Segment(path), n) ==>
      OrderOf(path) == if n <= 0x7FFF_FFFF_FFFF_FFFF then n else 0x7FFF_FFFF_FFFF_FFFF
    ensures !(exists n: nat :: Numbered(Segment(path), n)) ==> OrderOf(path) == 0x7FFF_FFFF
  {
    hide Segment, Number, Decimal, OrderPart, Repeat;
    var s := Segment(path);
    forall n: nat | Numbered(s, n) ensures OrderOf(path) == if n > MAX_INT then MAX_INT else n {
      var zeros: nat, name :| NumberedAs(s, zeros, n, name);
      NumberOfDecimal(zeros, n);
      OrderPartOf(Repeat('0', zeros) + Decimal(n), name);
    }
    if OrderPart(s) != 0 {
      PartIsNumber(s);
    }
  }

  lemma OrderIs(path: string, n: nat)
    requires Numbered(Segment(path), n) && n <= MAX_INT
    ensures OrderOf(path) == n
  {
    OrderExactly(path);
  }

  // ---------- how siblings are printed ----------

  /** The text of sorted siblings has the text of one block and, somewhere behind it, that of another one. */
  ghost predicate PrintedBefore(f: Forest, b: Block, c: Block, level: nat) {
    exists before, middle, after :: SortForest(f) == before + [SortBlock(b)] + middle + [SortBlock(c)] + after
      && ForestText(SortForest(f), level) == ForestText(before, level) + BlockText(SortBlock(b), level)
        + ForestText(middle, level) + BlockText(SortBlock(c), level) + ForestText(after, level)
  }

  lemma InSorted(f: Forest, i: nat) returns (k: nat)
    requires i < |f|
    ensures k < |SortForest(f)| && SortForest(f)[k] == SortBlock(f[i])
  {
    SortChildrenAt(f, i);
    var s := SortForest(f);
    assert multiset(s) == multiset(SortChildren(f));
    assert SortChildren(f)[i] in multiset(s);
    k :| 0 <= k < |s| && s[k] == SortBlock(f[i]);
  }

  lemma SortBlockKeeps(b: Block)
    ensures SortBlock(b).order == b.order && Rank(SortBlock(b)) == Rank(b)
  {}

  /** Of two siblings of one kind the one with the smaller order comes first. */
  lemma SmallerFirst(f: Forest, i: nat, j: nat, level: nat)
    requires i < |f| && j < |f| && Rank(f[i]) == Rank(f[j]) && f[i].order < f[j].order
    ensures PrintedBefore(f, f[i], f[j], level)
  {
    var b, c, s := SortBlock(f[i]), SortBlock(f[j]), SortForest(f);
    SortForestDeepSorted(f);
    hide *;
    SortBlockKeeps(f[i]);
    SortBlockKeeps(f[j]);
    ByOrder(b, c);
    var k := InSorted(f, i);
    var l := InSorted(f, j);
    SortedIs(s, k, l);
    CutAtTwo(s, k, l);
    TextInOrder(s[..k], b, s[k + 1..l], c, s[l + 1..], level);
    IsPrintedBefore(f, f[i], f[j], level, s[..k], s[k + 1..l], s[l + 1..]);
  }

  lemma IsPrintedBefore(f: Forest, b: Block, c: Block, level: nat, before: Forest, middle: Forest, after: Forest)
    requires SortForest(f) == before + [SortBlock(b)] + middle + [SortBlock(c)] + after
    requires ForestText(SortForest(f), level) == ForestText(before, level) + BlockText(SortBlock(b), level)
        + ForestText(middle, level) + BlockText(SortBlock(c), level) + ForestText(after, level)
    ensures PrintedBefore(f, b, c, level)
  {
    hide SortForest, SortBlock, ForestText, BlockText;
  }

  lemma SortedIs(s: Forest, k: nat, l: nat)
    requires DeepSorted(s) && k < |s| && l < |s| && Compare(s[k], s[l]) < 0
    ensures k < l
  {
    CompareAntisymmetric(s[k], s[l]);
  }

  lemma CutAtTwo(s: Forest, k: nat, l: nat)
    requires k < l < |s|
    ensures s == s[..k] + [s[k]] + s[k + 1..l] + [s[l]] + s[l + 1..]
  {}

  lemma ByOrder(b: Block, c: Block)
    requires Rank(b) == Rank(c) && b.order < c.order
    ensures Compare(b, c) < 0
  {
    CompareGoesBy(b, c, FirstDifference(b.keys, c.keys));
  }

  function FirstDifference(a: seq<string>, b: seq<string>): (i: nat)
    ensures i <= |a| && i <= |b| && a[..i] == b[..i] && (i < |a| && i < |b| ==> a[i] != b[i])
  {
    if a == [] || b == [] || a[0] != b[0] then 0
    else
      var i := FirstDifference(a[1..], b[1..]);
      assert a[..i + 1] == [a[0]] + a[1..][..i] && b[..i + 1] == [b[0]] + b[1..][..i];
      i + 1
  }

  lemma TextInOrder(before: Forest, b: Block, middle: Forest, c: Block, after: Forest, level: nat)
    ensures ForestText(before + [b] + middle + [c] + after, level)
         == ForestText(before, level) + BlockText(b, level) + ForestText(middle, level) + BlockText(c, level)
            + ForestText(after, level)
  {
    hide BlockText;
    ForestTextConcat(before + [b] + middle + [c], after, level);
    ForestTextConcat(before + [b] + middle, [c], level);
    ForestTextConcat(before + [b], middle, level);
    ForestTextConcat(before, [b], level);
    OneText(b, level);
    OneText(c, level);
  }

  lemma OneText(b: Block, level: nat)
    ensures ForestText([b], level) == BlockText(b, level)
  {
    hide BlockText;
    assert BlockText(b, level) + "" == BlockText(b, level);
  }

  /** The paths of the blocks next to the one of a path, and that path. */
  function Siblings(a: Arena, path: string): seq<string>
    requires ParentPath(path) == "" || ParentPath(path) in a.blocks
  {
    if ParentPath(path) == "" then a.roots else a.blocks[ParentPath(path)].kids
  }

  lemma SiblingsHave(a: Arena, args: map<string, seq<string>>, p: string)
    requires Shape(a, args) && p in a.blocks
    ensures ParentPath(p) == "" || ParentPath(p) in a.blocks
    ensures p in Siblings(a, p) && forall q :: q in Siblings(a, p) ==> q in a.blocks
  {
    assert Proper(a, args, p);
    assert ParentPath(p) == "" || Proper(a, args, ParentPath(p));
    hide WellFormed, LastDot, ParentPath, OrderOf, KeysFor;
  }

  /** The block of a path with everything next to it: the container, or the children of the block above it. */
  ghost function SiblingTrees(a: Arena, args: map<string, seq<string>>, p: string): Forest
    requires Shape(a, args) && p in a.blocks
  {
    ShapeGrounded(a, args);
    SiblingsHave(a, args, p);
    TreesOf(a, Siblings(a, p))
  }

  lemma SiblingAt(a: Arena, args: map<string, seq<string>>, p: string) returns (i: nat)
    requires Shape(a, args) && p in a.blocks
    ensures i < |SiblingTrees(a, args, p)| && Grounded(a) && SiblingTrees(a, args, p)[i] == TreeOf(a, p)
    ensures TreeOf(a, p).order == OrderOf(p)
  {
    ShapeGrounded(a, args);
    SiblingsHave(a, args, p);
    i :| 0 <= i < |Siblings(a, p)| && Siblings(a, p)[i] == p;
    TreeChildren(a, p);
    assert Proper(a, args, p);
    hide WellFormed, LastDot, ParentPath, OrderOf, KeysFor, TreeOf, Siblings, Shape, Grounded;
  }

  lemma SameSiblings(a: Arena, args: map<string, seq<string>>, p: string, q: string)
    requires Shape(a, args) && p in a.blocks && q in a.blocks && ParentPath(p) == ParentPath(q)
    ensures SiblingTrees(a, args, p) == SiblingTrees(a, args, q)
  {
    hide WellFormed, LastDot, ParentPath, OrderOf, KeysFor, TreeOf, Shape, Grounded, TreesOf;
  }

  /**
   Of two labels that stand side by side, at any level, and whose blocks are of one kind, the one with the
   smaller number is printed first.
   */
  lemma SmallerNumberFirst(a: Arena, args: map<string, seq<string>>, p: string, q: string, m: nat, n: nat, level: nat)
    requires Shape(a, args) && Grounded(a) && p in a.blocks && q in a.blocks && ParentPath(p) == ParentPath(q)
    requires Numbered(Segment(p), m) && Numbered(Segment(q), n) && m < n <= MAX_INT
    requires Rank(TreeOf(a, p)) == Rank(TreeOf(a, q))
    ensures PrintedBefore(SiblingTrees(a, args, p), TreeOf(a, p), TreeOf(a, q), level)
  {
    hide *;
    var i := SiblingAt(a, args, p);
    var j := SiblingAt(a, args, q);
    SameSiblings(a, args, p, q);
    OrderIs(p, m);
    OrderIs(q, n);
    SmallerFirst(SiblingTrees(a, args, p), i, j, level);
  }
}
