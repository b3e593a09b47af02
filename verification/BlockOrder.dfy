/**
 `compareBlocks` and `sort` of `caddyfile/marshal.go`.

 The comparison is a total order whose zero is equality of trees, so a list of siblings has one
 sorted arrangement, whatever stable or unstable algorithm sorts it.
 */
module BlockOrder {
  import opened Text
  import opened Tree

  // ---------- comparison ----------

  function CompareInts(a: int, b: int): int {
    if a < b then -1 else if a > b then 1 else 0
  }

  /** Says which of two blocks belongs to a class that is written first. */
  function CompareFlags(a: bool, b: bool): int {
    if a == b then 0 else if a then -1 else 1
  }

  /** Go's `<` on strings, as a three-way comparison. */
  function CompareStrings(a: string, b: string): int {
    if a == [] || b == [] then CompareInts(|a|, |b|)
    else if a[0] != b[0] then (if a[0] < b[0] then -1 else 1)
    else CompareStrings(a[1..], b[1..])
  }

  /** Common keys first, then the shorter list first. */
  function CompareKeys(a: seq<string>, b: seq<string>): int {
    if a == [] || b == [] then CompareInts(|a|, |b|)
    else if a[0] != b[0] then CompareStrings(a[0], b[0])
    else CompareKeys(a[1..], b[1..])
  }

  function Compare(a: Block, b: Block): int
    decreases a, 1
  {
    if a.IsGlobal() != b.IsGlobal() then CompareFlags(a.IsGlobal(), b.IsGlobal())
    else if a.IsSnippet() != b.IsSnippet() then CompareFlags(a.IsSnippet(), b.IsSnippet())
    else if a.IsMatcher() != b.IsMatcher() then CompareFlags(a.IsMatcher(), b.IsMatcher())
    else if a.order != b.order then CompareInts(a.order, b.order)
    else
      var keys := CompareKeys(a.keys, b.keys);
      if keys != 0 then keys else CompareForests(a.children, b.children)
  }

  /** Common children first, then the shorter list first. */
  function CompareForests(a: Forest, b: Forest): int
    decreases a, 0
  {
    if a == [] || b == [] then CompareInts(|a|, |b|)
    else
      var first := Compare(a[0], b[0]);
      if first != 0 then first else CompareForests(a[1..], b[1..])
  }

  // ---------- what the comparison goes by ----------

  /** Global options come first, then snippets, then named matchers, then everything else. */
  function Rank(b: Block): nat {
    if b.IsGlobal() then 0 else if b.IsSnippet() then 1 else if b.IsMatcher() then 2 else 3
  }

  /**
   Global options are blocks without keys, snippets have one key and that is in parentheses, and the first key of
   a named matcher starts with an at sign.
   */
  lemma RankExactly(b: Block)
    ensures Rank(b) == 0 <==> b.keys == []
    ensures Rank(b) == 1 <==> exists name :: b.keys == ["(" + name + ")"]
    ensures Rank(b) == 2 <==> exists name, more :: b.keys == ["@" + name] + more
    ensures Rank(b) <= 3
  {
    if |b.keys| == 1 && HasPrefix(b.keys[0], "(") && HasSuffix(b.keys[0], ")") {
      var key := b.keys[0];
      assert key[0] == '(' && key[|key| - 1] == ')';
      assert key == "(" + key[1..|key| - 1] + ")";
      assert b.keys == ["(" + key[1..|key| - 1] + ")"];
    }
    forall name: string | b.keys == ["(" + name + ")"] ensures b.IsSnippet() {
      assert b.keys[0] == "(" + name + ")";
    }
    if b.IsMatcher() {
      assert b.keys[0] == "@" + b.keys[0][1..];
      assert b.keys == ["@" + b.keys[0][1..]] + b.keys[1..];
    }
    forall name: string, more | b.keys == ["@" + name] + more ensures b.IsMatcher() && !b.IsSnippet() {
      assert b.keys[0] == "@" + name && b.keys[0][0] == '@';
    }
  }

  lemma {:induction false} StringsBehind(a: string, b: string, i: nat)
    requires i <= |a| && i <= |b| && a[..i] == b[..i]
    ensures CompareStrings(a, b) == CompareStrings(a[i..], b[i..])
    decreases i
  {
    if i > 0 {
      assert a[0] == a[..i][0] == b[..i][0] == b[0];
      assert a[1..][..i - 1] == a[..i][1..] == b[..i][1..] == b[1..][..i - 1];
      StringsBehind(a[1..], b[1..], i - 1);
      assert a[1..][i - 1..] == a[i..] && b[1..][i - 1..] == b[i..];
    } else {
      assert a[0..] == a && b[0..] == b;
    }
  }

  lemma {:induction false} KeysBehind(a: seq<string>, b: seq<string>, i: nat)
    requires i <= |a| && i <= |b| && a[..i] == b[..i]
    ensures CompareKeys(a, b) == CompareKeys(a[i..], b[i..])
    decreases i
  {
    if i > 0 {
      assert a[0] == a[..i][0] == b[..i][0] == b[0];
      assert a[1..][..i - 1] == a[..i][1..] == b[..i][1..] == b[1..][..i - 1];
      KeysBehind(a[1..], b[1..], i - 1);
      assert a[1..][i - 1..] == a[i..] && b[1..][i - 1..] == b[i..];
    } else {
      assert a[0..] == a && b[0..] == b;
    }
  }

  lemma {:induction false} ForestsBehind(a: Forest, b: Forest, i: nat)
    requires i <= |a| && i <= |b| && forall j :: 0 <= j < i ==> Compare(a[j], b[j]) == 0
    ensures CompareForests(a, b) == CompareForests(a[i..], b[i..])
    decreases i
  {
    hide Compare;
    if i > 0 {
      ForestsBehind(a[1..], b[1..], i - 1);
      assert a[1..][i - 1..] == a[i..] && b[1..][i - 1..] == b[i..];
    } else {
      assert a[0..] == a && b[0..] == b;
    }
  }

  /** Strings are compared by their first difference, and a proper beginning comes first. */
  lemma StringsByFirstDifference(a: string, b: string, i: nat)
    requires i <= |a| && i <= |b| && a[..i] == b[..i] && (i < |a| && i < |b| ==> a[i] != b[i])
    ensures CompareStrings(a, b) < 0 <==> i < |b| && (i == |a| || a[i] < b[i])
  {
    StringsBehind(a, b, i);
  }

  /**
   Blocks are compared by rank, then by order, then by their first different key or the number of keys,
   and then by their children.
   */
  lemma CompareGoesBy(a: Block, b: Block, i: nat)
    requires i <= |a.keys| && i <= |b.keys| && a.keys[..i] == b.keys[..i]
    requires i < |a.keys| && i < |b.keys| ==> a.keys[i] != b.keys[i]
    ensures Compare(a, b)
         == if Rank(a) != Rank(b) then CompareInts(Rank(a), Rank(b))
            else if a.order != b.order then CompareInts(a.order, b.order)
            else if i < |a.keys| && i < |b.keys| then CompareStrings(a.keys[i], b.keys[i])
            else if |a.keys| != |b.keys| then CompareInts(|a.keys|, |b.keys|)
            else CompareForests(a.children, b.children)
  {
    KeysBehind(a.keys, b.keys, i);
    hide CompareForests, CompareKeys;
    KeysFrom(a.keys[i..], b.keys[i..]);
    if i < |a.keys| && i < |b.keys| {
      StringsOrdered(a.keys[i], b.keys[i], []);
    }
  }

  lemma KeysFrom(a: seq<string>, b: seq<string>)
    ensures CompareKeys(a, b) == if a == [] || b == [] then CompareInts(|a|, |b|)
      else if a[0] != b[0] then CompareStrings(a[0], b[0]) else CompareKeys(a[1..], b[1..])
  {}

  /** Children are compared one by one, and fewer children come first. */
  lemma ForestsGoBy(a: Forest, b: Forest, i: nat)
    requires i <= |a| && i <= |b| && forall j :: 0 <= j < i ==> Compare(a[j], b[j]) == 0
    requires i < |a| && i < |b| ==> Compare(a[i], b[i]) != 0
    ensures CompareForests(a, b) == if i < |a| && i < |b| then Compare(a[i], b[i]) else CompareInts(|a|, |b|)
  {
    ForestsBehind(a, b, i);
    hide Compare;
  }

  // ---------- the comparison is a total order ----------

  lemma {:induction false} StringsOrdered(a: string, b: string, c: string)
    ensures CompareStrings(a, b) == -CompareStrings(b, a)
    ensures CompareStrings(a, b) == 0 <==> a == b
    ensures CompareStrings(a, b) <= 0 && CompareStrings(b, c) <= 0 ==> CompareStrings(a, c) <= 0
  {
    if a != [] && b != [] {
      StringsOrdered(a[1..], b[1..], if c == [] then [] else c[1..]);
    }
    assert a != [] && b != [] && a[0] == b[0] && a[1..] == b[1..] ==> a == [a[0]] + a[1..] == b;
  }

  lemma {:induction false} KeysOrdered(a: seq<string>, b: seq<string>, c: seq<string>)
    ensures CompareKeys(a, b) == -CompareKeys(b, a)
    ensures CompareKeys(a, b) == 0 <==> a == b
    ensures CompareKeys(a, b) <= 0 && CompareKeys(b, c) <= 0 ==> CompareKeys(a, c) <= 0
  {
    if a != [] && b != [] {
      StringsOrdered(a[0], b[0], if c == [] then "" else c[0]);
      if c != [] {
        StringsOrdered(b[0], c[0], a[0]);
        StringsOrdered(c[0], a[0], b[0]);
      }
      KeysOrdered(a[1..], b[1..], if c == [] then [] else c[1..]);
    }
    assert a != [] && b != [] && a[0] == b[0] && a[1..] == b[1..] ==> a == [a[0]] + a[1..] == b;
  }

  /** `compareBlocks` answers -1, 0 or 1, is antisymmetric, and says 0 of equal trees only. */
  lemma {:induction false} CompareAntisymmetric(a: Block, b: Block)
    ensures -1 <= Compare(a, b) <= 1
    ensures Compare(a, b) == -Compare(b, a)
    ensures Compare(a, b) == 0 <==> a == b
    decreases a, 1
  {
    KeysOrdered(a.keys, b.keys, []);
    KeysRange(a.keys, b.keys);
    ForestsAntisymmetric(a.children, b.children);
  }

  lemma {:induction false} ForestsAntisymmetric(a: Forest, b: Forest)
    ensures -1 <= CompareForests(a, b) <= 1
    ensures CompareForests(a, b) == -CompareForests(b, a)
    ensures CompareForests(a, b) == 0 <==> a == b
    decreases a, 0
  {
    if a != [] && b != [] {
      CompareAntisymmetric(a[0], b[0]);
      ForestsAntisymmetric(a[1..], b[1..]);
      assert a[0] == b[0] && a[1..] == b[1..] ==> a == [a[0]] + a[1..] == b;
    }
  }

  lemma StringsRange(a: string, b: string)
    ensures -1 <= CompareStrings(a, b) <= 1
  {}

  lemma KeysRange(a: seq<string>, b: seq<string>)
    ensures -1 <= CompareKeys(a, b) <= 1
  {
    if a != [] && b != [] {
      StringsRange(a[0], b[0]);
    }
  }

  /** `compareBlocks` is transitive. */
  lemma {:induction false} CompareTransitive(a: Block, b: Block, c: Block)
    requires Compare(a, b) <= 0 && Compare(b, c) <= 0
    ensures Compare(a, c) <= 0
    decreases a, 1
  {
    KeysOrdered(a.keys, b.keys, c.keys);
    KeysOrdered(b.keys, c.keys, a.keys);
    KeysOrdered(c.keys, a.keys, b.keys);
    if CompareForests(a.children, b.children) <= 0 && CompareForests(b.children, c.children) <= 0 {
      ForestsTransitive(a.children, b.children, c.children);
    }
  }

  lemma {:induction false} ForestsTransitive(a: Forest, b: Forest, c: Forest)
    requires CompareForests(a, b) <= 0 && CompareForests(b, c) <= 0
    ensures CompareForests(a, c) <= 0
    decreases a, 0
  {
    if a != [] && b != [] && c != [] {
      CompareTransitive(a[0], b[0], c[0]);
      CompareAntisymmetric(a[0], b[0]);
      CompareAntisymmetric(b[0], c[0]);
      CompareAntisymmetric(a[0], c[0]);
      if a[0] == b[0] == c[0] {
        ForestsTransitive(a[1..], b[1..], c[1..]);
      }
    }
  }

  // ---------- sorting ----------

  ghost predicate Sorted(f: Forest) {
    forall i, j :: 0 <= i < j < |f| ==> Compare(f[i], f[j]) <= 0
  }

  /** Sorted at every level. */
  ghost predicate DeepSorted(f: Forest) {
    Sorted(f) && forall i :: 0 <= i < |f| ==> DeepSorted(f[i].children)
  }

  /** Puts `x` behind everything that is not greater than it. */
  function Insert(f: Forest, x: Block): (r: Forest)
    ensures multiset(r) == multiset(f) + multiset{x}
    ensures |r| == |f| + 1
  {
    if f == [] || Compare(f[|f| - 1], x) <= 0 then f + [x]
    else
      assert f == f[..|f| - 1] + [f[|f| - 1]];
      Insert(f[..|f| - 1], x) + [f[|f| - 1]]
  }

  function InsertionSort(f: Forest): (r: Forest)
    ensures multiset(r) == multiset(f)
    ensures |r| == |f|
  {
    if f == [] then []
    else
      assert f == f[..|f| - 1] + [f[|f| - 1]];
      Insert(InsertionSort(f[..|f| - 1]), f[|f| - 1])
  }

  /** `sort`: children first, then the blocks themselves. */
  function SortForest(f: Forest): Forest
    decreases f, 1
  {
    InsertionSort(SortChildren(f))
  }

  function SortBlock(b: Block): Block {
    Block(b.order, b.keys, SortForest(b.children))
  }

  function SortChildren(f: Forest): (r: Forest)
    ensures |r| == |f|
    decreases f, 0
  {
    if f == [] then []
    else [SortBlock(f[0])] + SortChildren(f[1..])
  }

  lemma SortChildrenAt(f: Forest, i: nat)
    requires i < |f|
    ensures SortChildren(f)[i] == SortBlock(f[i])
  {
    if i > 0 {
      SortChildrenAt(f[1..], i - 1);
    }
  }

  lemma SortChildrenConcat(f: Forest, g: Forest)
    ensures SortChildren(f + g) == SortChildren(f) + SortChildren(g)
  {
    if f == [] {
      assert f + g == g;
    } else {
      assert (f + g)[1..] == f[1..] + g;
      SortChildrenConcat(f[1..], g);
    }
  }

  lemma {:induction false} InsertSorted(f: Forest, x: Block)
    requires Sorted(f)
    ensures Sorted(Insert(f, x))
  {
    if f != [] {
      var init, last := f[..|f| - 1], f[|f| - 1];
      CompareAntisymmetric(last, x);
      if Compare(last, x) <= 0 {
        forall i | 0 <= i < |f| ensures Compare(f[i], x) <= 0 {
          if i < |f| - 1 {
            CompareTransitive(f[i], last, x);
          }
        }
      } else {
        InsertSorted(init, x);
        var r := Insert(init, x);
        forall i | 0 <= i < |r| ensures Compare(r[i], last) <= 0 {
          assert r[i] in multiset(r);
          assert r[i] in multiset(init) || r[i] == x;
        }
      }
    }
  }

  lemma {:induction false} InsertionSortSorted(f: Forest)
    ensures Sorted(InsertionSort(f))
  {
    if f != [] {
      InsertionSortSorted(f[..|f| - 1]);
      InsertSorted(InsertionSort(f[..|f| - 1]), f[|f| - 1]);
    }
  }

  lemma HeadIsLeast(f: Forest, x: Block)
    requires Sorted(f) && x in f
    ensures Compare(f[0], x) <= 0
  {
    CompareAntisymmetric(x, x);
  }

  lemma TailMultiset(f: Forest)
    requires f != []
    ensures multiset(f) == multiset{f[0]} + multiset(f[1..])
    ensures multiset(f[1..]) == multiset(f) - multiset{f[0]}
  {
    assert f == [f[0]] + f[1..];
  }

  lemma SortedHeads(f: Forest, g: Forest)
    requires Sorted(f) && Sorted(g) && multiset(f) == multiset(g) && f != [] && g != []
    ensures f[0] == g[0]
  {
    assert f[0] in multiset(g) && g[0] in multiset(f);
    HeadIsLeast(f, g[0]);
    HeadIsLeast(g, f[0]);
    CompareAntisymmetric(f[0], g[0]);
  }

  /** A list of siblings has only one sorted arrangement. */
  lemma {:induction false} SortedUnique(f: Forest, g: Forest)
    requires Sorted(f) && Sorted(g) && multiset(f) == multiset(g)
    ensures f == g
  {
    assert |f| == |multiset(f)| == |multiset(g)| == |g|;
    if f != [] {
      SortedHeads(f, g);
      SortedUnique(f[1..], g[1..]) by {
        TailMultiset(f);
        TailMultiset(g);
      }
      assert f == [f[0]] + f[1..];
      assert g == [g[0]] + g[1..];
    }
  }

  lemma {:induction false} SortForestDeepSorted(f: Forest)
    ensures DeepSorted(SortForest(f))
  {
    var s := SortChildren(f);
    InsertionSortSorted(s);
    forall x | x in InsertionSort(s) ensures DeepSorted(x.children) {
      assert x in multiset(InsertionSort(s));
      assert x in s;
      var i :| 0 <= i < |s| && s[i] == x;
      SortChildrenAt(f, i);
      SortForestDeepSorted(f[i].children);
    }
  }

  lemma {:induction false} SortForestFixed(f: Forest)
    requires DeepSorted(f)
    ensures SortForest(f) == f
  {
    forall i | 0 <= i < |f| ensures SortChildren(f)[i] == f[i] {
      SortChildrenAt(f, i);
      SortForestFixed(f[i].children);
    }
    assert SortChildren(f) == f;
    InsertionSortSorted(f);
    SortedUnique(InsertionSort(f), f);
  }

  /** Sorting twice is sorting once. */
  lemma SortForestIdempotent(f: Forest)
    ensures SortForest(SortForest(f)) == SortForest(f)
  {
    SortForestDeepSorted(f);
    SortForestFixed(SortForest(f));
  }

  // ---------- permuting siblings ----------

  /** The trees differ at most in the arrangement of siblings, at any level. */
  ghost predicate SameBlock(a: Block, b: Block)
    decreases a, 1
  {
    a.order == b.order && a.keys == b.keys && SameForest(a.children, b.children)
  }

  ghost predicate SameForest(f: Forest, g: Forest)
    decreases f, 0
  {
    if f == [] then g == []
    else exists i :: 0 <= i < |g| && SameBlock(f[0], g[i]) && SameForest(f[1..], Without(g, i))
  }

  lemma {:induction false} SameBlockSorts(a: Block, b: Block)
    requires SameBlock(a, b)
    ensures SortBlock(a) == SortBlock(b)
    decreases a, 1
  {
    SameForestSorts(a.children, b.children);
  }

  lemma {:induction false} SameForestMultiset(f: Forest, g: Forest)
    requires SameForest(f, g)
    ensures multiset(SortChildren(f)) == multiset(SortChildren(g))
    decreases f, 0
  {
    if f != [] {
      var i :| 0 <= i < |g| && SameBlock(f[0], g[i]) && SameForest(f[1..], Without(g, i));
      SameBlockSorts(f[0], g[i]);
      SameForestMultiset(f[1..], Without(g, i));
      SortChildrenWithout(g, i);
      hide SameForest, SameBlock, SortBlock, SortForest;
      TailMultiset(SortChildren(f));
    }
  }

  lemma MultisetOfJoin(a: Forest, x: Block, b: Forest)
    ensures multiset(a + [x] + b) == multiset(a + b) + multiset{x}
  {}

  lemma SortChildrenJoin(before: Forest, x: Block, after: Forest)
    ensures SortChildren(before + [x] + after) == SortChildren(before) + [SortBlock(x)] + SortChildren(after)
  {
    SortChildrenConcat(before + [x], after);
    SortChildrenConcat(before, [x]);
    assert SortChildren([x]) == [SortBlock(x)];
  }

  lemma SortChildrenWithout(g: Forest, i: nat)
    requires i < |g|
    ensures multiset(SortChildren(g)) == multiset(SortChildren(Without(g, i))) + multiset{SortBlock(g[i])}
  {
    var before, after := g[..i], g[i + 1..];
    hide SortBlock, SortChildren;
    SplitAt(g, i);
    SortChildrenJoin(before, g[i], after);
    SortChildrenConcat(before, after);
    MultisetOfJoin(SortChildren(before), SortBlock(g[i]), SortChildren(after));
  }

  lemma {:induction false} SameForestSorts(f: Forest, g: Forest)
    requires SameForest(f, g)
    ensures SortForest(f) == SortForest(g)
    decreases f, 1
  {
    SameForestMultiset(f, g);
    SortChildrenPermuted(f, g);
  }

  lemma SortChildrenPermuted(f: Forest, g: Forest)
    requires multiset(SortChildren(f)) == multiset(SortChildren(g))
    ensures SortForest(f) == SortForest(g)
  {
    InsertionSortSorted(SortChildren(f));
    InsertionSortSorted(SortChildren(g));
    SortedUnique(SortForest(f), SortForest(g));
  }

  lemma FindSorted(g: Forest, b: Block) returns (i: nat)
    requires SortBlock(b) in multiset(SortChildren(g))
    ensures i < |g| && SortBlock(g[i]) == SortBlock(b)
  {
    i :| 0 <= i < |g| && SortChildren(g)[i] == SortBlock(b);
    SortChildrenAt(g, i);
  }

  lemma {:induction false} SortsSameForest(f: Forest, g: Forest)
    requires multiset(SortChildren(f)) == multiset(SortChildren(g))
    ensures SameForest(f, g)
    decreases f, 0
  {
    if f == [] {
      assert |g| == |multiset(SortChildren(g))| == 0;
    } else {
      var i := FindSorted(g, f[0]) by {
        assert SortChildren(f)[0] == SortBlock(f[0]);
        assert SortBlock(f[0]) in multiset(SortChildren(f));
      }
      SortsSameBlock(f[0], g[i]);
      SortsSameForest(f[1..], Without(g, i)) by {
        SortChildrenWithout(g, i);
        TailMultiset(SortChildren(f));
        RemoveSame(multiset(SortChildren(f[1..])), multiset(SortChildren(Without(g, i))), SortBlock(g[i]));
      }
    }
  }

  lemma RemoveSame(a: multiset<Block>, b: multiset<Block>, x: Block)
    requires a + multiset{x} == b + multiset{x}
    ensures a == b
  {
    assert a == (a + multiset{x}) - multiset{x};
    assert b == (b + multiset{x}) - multiset{x};
  }

  lemma {:induction false} SortsSameBlock(a: Block, b: Block)
    requires SortBlock(a) == SortBlock(b)
    ensures SameBlock(a, b)
    decreases a, 1
  {
    SortsSameForest(a.children, b.children) by {
      assert SortForest(a.children) == SortForest(b.children);
    }
  }

  /**
   `sort` gives the same result for two containers exactly when one is the other with siblings
   rearranged, at any level.
   */
  lemma SortCanonical(f: Forest, g: Forest)
    ensures SortForest(f) == SortForest(g) <==> SameForest(f, g)
  {
    if SameForest(f, g) {
      SameForestSorts(f, g);
    }
    if SortForest(f) == SortForest(g) {
      assert multiset(SortForest(f)) == multiset(SortChildren(f));
      SortsSameForest(f, g);
    }
  }

  lemma {:induction false} MultisetSorts(f: Forest, g: Forest)
    requires multiset(f) == multiset(g)
    ensures multiset(SortChildren(f)) == multiset(SortChildren(g))
    decreases |f|
  {
    if f == [] {
      assert |g| == |multiset(g)| == 0;
    } else {
      assert f[0] in multiset(g);
      var i :| 0 <= i < |g| && g[i] == f[0];
      TailMultiset(f);
      WithoutMultiset(g, i);
      RemoveSame(multiset(f[1..]), multiset(Without(g, i)), f[0]);
      MultisetSorts(f[1..], Without(g, i));
      SortChildrenWithout(g, i);
      TailMultiset(SortChildren(f));
    }
  }

  /** `sort` does not depend on the arrangement of the siblings. */
  lemma MultisetSorted(f: Forest, g: Forest)
    requires multiset(f) == multiset(g)
    ensures SortForest(f) == SortForest(g)
  {
    MultisetSorts(f, g);
    SortChildrenPermuted(f, g);
  }
}
