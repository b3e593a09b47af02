/**
 When merging is associative, and that merging what is already there changes nothing.
 */
module MergeLaws {
  import opened Text
  import opened Tree
  import opened Merging

  // ---------- lists of blocks ----------

  lemma MergeConcat(f: Forest, g: Forest, h: Forest)
    ensures Merge(f, g + h) == Merge(Merge(f, g), h)
    decreases g
  {
    if g == [] {
      assert g + h == h;
    } else {
      assert (g + h)[1..] == g[1..] + h;
      MergeConcat(MergeBlock(f, g[0]), g[1..], h);
    }
  }

  lemma MergeOne(f: Forest, b: Block)
    ensures Merge(f, [b]) == MergeBlock(f, b)
  {
    assert [b][1..] == [];
  }

  lemma OrdinaryParts(f: Forest, i: nat)
    requires i < |f| && Ordinary(f)
    ensures Ordinary(f[..i]) && Ordinary(f[i + 1..]) && OrdinaryBlock(f[i])
  {}

  ghost predicate HasKey(f: Forest, k: MergeKey) {
    exists i :: 0 <= i < |f| && KeyOf(f[i]) == k
  }

  /** `FindFirst` goes by merge keys. */
  lemma FindFirstIs(f: Forest, b: Block)
    ensures var i := FindFirst(f, b);
      && (forall j :: 0 <= j < i ==> KeyOf(f[j]) != KeyOf(b))
      && (i < |f| ==> KeyOf(f[i]) == KeyOf(b))
    ensures FindFirst(f, b) < |f| <==> HasKey(f, KeyOf(b))
  {
    hide KeyOf, Absorbs;
    forall j | 0 <= j < |f| ensures Absorbs(f[j], b) <==> KeyOf(f[j]) == KeyOf(b) {
      AbsorbsSameKey(f[j], b);
    }
  }

  // ---------- what is there already ----------

  /** Everything in the block is there already: each block below it has a place and no upstream. */
  predicate Contains(f: Forest, b: Block)
    decreases b
  {
    var i := FindFirst(f, b);
    && i < |f|
    && (ProxyLike(b.FirstKey()) ==> Upstreams(b.keys) == [])
    && forall k :: 0 <= k < |b.children| ==> Contains(f[i].children, b.children[k])
  }

  predicate ContainsAll(f: Forest, g: Forest) {
    forall k :: 0 <= k < |g| ==> Contains(f, g[k])
  }

  /** The keys and the blocks of a forest. */
  function Weight(f: Forest): nat
    decreases f, 0
  {
    if f == [] then 0 else BlockWeight(f[0]) + Weight(f[1..])
  }

  function BlockWeight(b: Block): nat
    decreases b, 1
  {
    1 + |b.keys| + Weight(b.children)
  }

  lemma {:induction false} WeightConcat(f: Forest, g: Forest)
    ensures Weight(f + g) == Weight(f) + Weight(g)
  {
    hide BlockWeight;
    if f == [] {
      assert f + g == g;
    } else {
      assert (f + g)[1..] == f[1..] + g;
      WeightConcat(f[1..], g);
    }
  }

  lemma WeightSplit(f: Forest, i: nat)
    requires i < |f|
    ensures Weight(f) == Weight(f[..i]) + BlockWeight(f[i]) + Weight(f[i + 1..])
  {
    hide BlockWeight;
    assert f == f[..i] + ([f[i]] + f[i + 1..]);
    WeightConcat(f[..i], [f[i]] + f[i + 1..]);
    assert ([f[i]] + f[i + 1..])[1..] == f[i + 1..];
  }

  lemma {:induction false} WeightMergeBlock(f: Forest, b: Block)
    ensures Weight(f) <= Weight(MergeBlock(f, b))
    ensures Weight(f) == Weight(MergeBlock(f, b)) ==> Contains(f, b)
    ensures Contains(f, b) ==> MergeBlock(f, b) == f
    decreases b, 1
  {
    var i := FindFirst(f, b);
    if i == |f| {
      WeightConcat(f, [b]);
      assert [b][1..] == [];
    } else {
      var g := f[i := Combine(f[i], b)];
      WeightSplit(f, i);
      WeightSplit(g, i);
      assert g[..i] == f[..i] && g[i + 1..] == f[i + 1..];
      WeightMerge(f[i].children, b.children);
      hide Weight, Merge, Absorbs;
      if Contains(f, b) {
        assert Combine(f[i], b) == f[i];
      }
    }
  }

  lemma {:induction false} WeightMerge(f: Forest, g: Forest)
    ensures Weight(f) <= Weight(Merge(f, g))
    ensures Weight(f) == Weight(Merge(f, g)) ==> ContainsAll(f, g)
    ensures ContainsAll(f, g) ==> Merge(f, g) == f
    decreases g, 0
  {
    if g != [] {
      WeightMergeBlock(f, g[0]);
      WeightMerge(MergeBlock(f, g[0]), g[1..]);
      hide Contains, MergeBlock, Weight;
      if Weight(f) == Weight(Merge(f, g)) {
        assert ContainsAll(f, g[1..]);
        forall k | 0 <= k < |g| ensures Contains(f, g[k]) {
          assert k > 0 ==> g[k] == g[1..][k - 1];
        }
      }
    }
  }

  /** A merge changes nothing exactly when everything is there already. */
  lemma ContainsExact(f: Forest, g: Forest)
    ensures Merge(f, g) == f <==> ContainsAll(f, g)
  {
    WeightMerge(f, g);
  }

  lemma ContainsBlock(f: Forest, b: Block)
    ensures MergeBlock(f, b) == f <==> Contains(f, b)
  {
    WeightMergeBlock(f, b);
  }

  /** What is there stays there. */
  lemma {:induction false} ContainsStays(f: Forest, e: Block, b: Block)
    requires Contains(f, b) && OrdinaryBlock(e)
    ensures Contains(MergeBlock(f, e), b)
    decreases b, 0, 0
  {
    var i, j := FindFirst(f, b), FindFirst(f, e);
    FindFirstIs(f, b);
    FindFirstIs(f, e);
    if j < |f| {
      CombineOrdinary(f[j], e);
    }
    FindFirstKey(MergeBlock(f, e), b, i);
    if j == i {
      forall k | 0 <= k < |b.children| ensures Contains(Merge(f[i].children, e.children), b.children[k]) {
        ContainsStaysAll(f[i].children, e.children, b.children[k]);
      }
    }
  }

  lemma {:induction false} ContainsStaysAll(f: Forest, g: Forest, b: Block)
    requires Contains(f, b) && Ordinary(g)
    ensures Contains(Merge(f, g), b)
    decreases b, 1, |g|
  {
    if g != [] {
      OrdinaryParts(g, 0);
      ContainsStays(f, g[0], b);
      ContainsStaysAll(MergeBlock(f, g[0]), g[1..], b);
    }
  }

  /** What a block brings is there after it has been merged, and so is what was in it. */
  lemma {:induction false} ContainsBelow(f: Forest, e: Block, b: Block)
    requires OrdinaryBlock(e) && KeyOf(e) == KeyOf(b) && Contains([e], b)
    ensures Contains(MergeBlock(f, e), b)
    decreases b, 0
  {
    var i := FindFirst(f, e);
    var g := MergeBlock(f, e);
    FindFirstIs(f, e);
    FindFirstKey([e], b, 0);
    if i < |f| {
      CombineOrdinary(f[i], e);
    }
    FindFirstKey(g, b, i);
    if i < |f| {
      forall k | 0 <= k < |b.children| ensures Contains(g[i].children, b.children[k]) {
        ContainsBelowAll(f[i].children, e.children, b.children[k]);
      }
    }
  }

  lemma ContainsAlone(g: Forest, b: Block) returns (i: nat)
    requires Contains(g, b)
    ensures i < |g| && KeyOf(g[i]) == KeyOf(b) && Contains([g[i]], b)
  {
    i := FindFirst(g, b);
    FindFirstIs(g, b);
    FindFirstKey([g[i]], b, 0);
    hide KeyOf, FindFirst;
  }

  /** What is in the second tree is in the merged tree. */
  lemma {:induction false} ContainsBelowAll(f: Forest, g: Forest, b: Block)
    requires Contains(g, b) && Ordinary(g)
    ensures Contains(Merge(f, g), b)
    decreases b, 1
  {
    hide *;
    var i := ContainsAlone(g, b);
    OrdinaryParts(g, i);
    var before := Merge(f, g[..i]);
    ContainsBelow(before, g[i], b);
    ContainsStaysAll(MergeBlock(before, g[i]), g[i + 1..], b);
    assert g == g[..i] + [g[i]] + g[i + 1..];
    MergeAround(f, g[..i], g[i], g[i + 1..]);
  }

  lemma MergeAround(f: Forest, before: Forest, b: Block, after: Forest)
    ensures Merge(f, before + [b] + after) == Merge(MergeBlock(Merge(f, before), b), after)
  {
    MergeConcat(f, before + [b], after);
    MergeSnoc(f, before, b);
  }

  // ---------- associativity ----------

  /**
   At every level, a sibling that would be merged into an earlier one adds nothing to it. Only the
   first sibling with its merge key counts further down.
   */
  predicate Settled(f: Forest)
    decreases f, 1
  {
    forall j :: 0 <= j < |f| ==> SettledHere(f, j)
  }

  predicate SettledHere(f: Forest, j: nat)
    requires j < |f|
    decreases f, 0
  {
    if FindFirst(f[..j], f[j]) < j then MergeBlock(f[..j], f[j]) == f[..j] else Settled(f[j].children)
  }

  lemma {:induction false} NormalSettled(f: Forest)
    requires Normal(f)
    ensures Settled(f)
  {
    forall j | 0 <= j < |f| ensures SettledHere(f, j) {
      FindFirstIs(f[..j], f[j]);
      NormalSettled(f[j].children);
    }
  }

  lemma SameHasKey(f: Forest, g: Forest, k: MergeKey)
    requires |f| == |g| && forall x :: 0 <= x < |f| ==> KeyOf(f[x]) == KeyOf(g[x])
    ensures HasKey(f, k) <==> HasKey(g, k)
  {}

  lemma HereIs(f: Forest, j: nat)
    requires j < |f|
    ensures SettledHere(f, j) <==>
      if HasKey(f[..j], KeyOf(f[j])) then Contains(f[..j], f[j]) else Settled(f[j].children)
  {
    hide KeyOf, MergeBlock, Contains, FindFirst, Settled;
    FindFirstIs(f[..j], f[j]);
    ContainsBlock(f[..j], f[j]);
  }

  lemma SettledAt(f: Forest, j: nat)
    requires Settled(f) && j < |f|
    ensures HasKey(f[..j], KeyOf(f[j])) ==> Contains(f[..j], f[j])
    ensures !HasKey(f[..j], KeyOf(f[j])) ==> Settled(f[j].children)
  {
    assert SettledHere(f, j);
    hide KeyOf, Contains, Settled, SettledHere;
    HereIs(f, j);
  }

  /** Merging a block changes no merge key; it is added or changes one block. */
  lemma KeysKept(f: Forest, b: Block)
    requires OrdinaryKeys(b.keys)
    ensures var r, i := MergeBlock(f, b), FindFirst(f, b);
      && |f| <= |r|
      && (forall x :: 0 <= x < |f| ==> KeyOf(r[x]) == KeyOf(f[x]))
      && (i == |f| ==> r == f + [b])
      && (i < |f| ==> |r| == |f| && r[i].children == Merge(f[i].children, b.children))
      && (forall x :: 0 <= x < |f| && x != i ==> r[x] == f[x])
  {
    var i := FindFirst(f, b);
    FindFirstIs(f, b);
    if i < |f| {
      CombineOrdinary(f[i], b);
    }
    hide KeyOf, Merge;
  }

  /** Merging a block into a settled tree. */
  lemma {:induction false} SettledMergeBlock(g: Forest, c: Block)
    requires Settled(g) && Settled(c.children) && OrdinaryBlock(c)
    ensures Settled(MergeBlock(g, c))
    decreases c, 0
  {
    var r, i := MergeBlock(g, c), FindFirst(g, c);
    FindFirstIs(g, c);
    KeysKept(g, c);
    forall j | 0 <= j < |r| ensures SettledHere(r, j) {
      if i < |g| && j == i {
        FirstHasNoEarlier(g, c);
        SettledAt(g, j);
        SettledMerge(g[i].children, c.children);
      }
      hide Settled, MergeBlock, KeyOf, Merge, Contains, FindFirst;
      SettledThere(g, c, j);
    }
  }

  lemma OrdinaryBlockKeys(b: Block)
    requires OrdinaryBlock(b)
    ensures OrdinaryKeys(b.keys) && Ordinary(b.children)
  {}

  lemma SettledThere(g: Forest, c: Block, j: nat)
    requires j < |MergeBlock(g, c)| && OrdinaryBlock(c)
    requires j < |g| ==> SettledHere(g, j)
    requires j == |g| ==> Settled(c.children)
    requires j == FindFirst(g, c) < |g| ==> Settled(MergeBlock(g, c)[j].children)
    ensures SettledHere(MergeBlock(g, c), j)
  {
    hide *;
    var r, i := MergeBlock(g, c), FindFirst(g, c);
    OrdinaryBlockKeys(c);
    FindFirstIs(g, c);
    KeysKept(g, c);
    HereIs(r, j);
    if j == |g| {
      assert r == g + [c] && r[..j] == g;
    } else {
      HereIs(g, j);
      SameHasKey(r[..j], g[..j], KeyOf(g[j]));
      if j > i {
        PrefixMerged(g, c, j);
        if HasKey(g[..j], KeyOf(g[j])) {
          ContainsStays(g[..j], c, g[j]);
        }
      } else {
        assert r[..j] == g[..j];
        if j == i {
          FirstHasNoEarlier(g, c);
        }
      }
    }
  }

  lemma FirstHasNoEarlier(g: Forest, c: Block)
    requires FindFirst(g, c) < |g|
    ensures !HasKey(g[..FindFirst(g, c)], KeyOf(g[FindFirst(g, c)]))
  {
    FindFirstIs(g, c);
  }

  lemma PrefixMerged(g: Forest, c: Block, j: nat)
    requires FindFirst(g, c) < j <= |g|
    ensures MergeBlock(g, c)[..j] == MergeBlock(g[..j], c)
  {
    var i := FindFirst(g, c);
    FindFirstIs(g, c);
    FindFirstKey(g[..j], c, i);
    hide KeyOf, Combine;
    assert g[..j][i] == g[i];
    assert g[i := Combine(g[i], c)][..j] == g[..j][i := Combine(g[i], c)];
  }

  /** Merging settled trees gives a settled tree. */
  lemma {:induction false} SettledMerge(g: Forest, h: Forest)
    requires Settled(g) && Settled(h) && Ordinary(h)
    ensures Settled(Merge(g, h))
    decreases h, 1
  {
    if h != [] {
      var k := |h| - 1;
      var init, c := h[..k], h[k];
      assert h == init + [c];
      SettledPrefix(h, k);
      SettledAt(h, k);
      OrdinaryParts(h, k);
      SettledMerge(g, init);
      MergeSnoc(g, init, c);
      if HasKey(init, KeyOf(c)) {
        ContainsBelowAll(g, init, c);
        ContainsBlock(Merge(g, init), c);
      } else {
        SettledMergeBlock(Merge(g, init), c);
      }
    }
  }

  lemma SettledPrefix(h: Forest, k: nat)
    requires Settled(h) && k <= |h|
    ensures Settled(h[..k])
  {
    hide MergeBlock, FindFirst;
    forall j | 0 <= j < k ensures SettledHere(h[..k], j) {
      assert h[..k][..j] == h[..j];
      assert SettledHere(h, j);
    }
  }

  lemma CombineKeysAssociative(a: Block, b: Block, c: Block)
    requires KeyOf(a) == KeyOf(b) == KeyOf(c)
    requires OrdinaryKeys(b.keys) && OrdinaryKeys(c.keys)
    ensures CombineKeys(a.keys, CombineKeys(b.keys, c.keys)) == CombineKeys(CombineKeys(a.keys, b.keys), c.keys)
  {
    CombineOrdinary(b, c);
    assert Combine(b, c).keys == CombineKeys(b.keys, c.keys);
    if ProxyLike(a.FirstKey()) {
      assert a.keys + (Upstreams(b.keys) + Upstreams(c.keys)) == (a.keys + Upstreams(b.keys)) + Upstreams(c.keys);
    }
  }

  lemma {:induction false} CombineAssociative(a: Block, b: Block, c: Block)
    requires KeyOf(a) == KeyOf(b) == KeyOf(c)
    requires OrdinaryBlock(b) && OrdinaryBlock(c) && Settled(b.children) && Settled(c.children)
    ensures Combine(a, Combine(b, c)) == Combine(Combine(a, b), c)
    decreases c, 0
  {
    CombineKeysAssociative(a, b, c);
    MergeAssociative(a.children, b.children, c.children);
  }

  /** Merging two blocks with the same merge key into a forest, together or one after the other. */
  lemma {:induction false} MergeTwice(f: Forest, b: Block, c: Block)
    requires KeyOf(b) == KeyOf(c)
    requires OrdinaryBlock(b) && OrdinaryBlock(c) && Settled(b.children) && Settled(c.children)
    ensures MergeBlock(f, Combine(b, c)) == MergeBlock(MergeBlock(f, b), c)
    decreases c, 1
  {
    hide *;
    OrdinaryBlockKeys(b);
    OrdinaryBlockKeys(c);
    CombineOrdinary(b, c);
    var i, bc := FindFirst(f, b), Combine(b, c);
    FindFirstIs(f, b);
    FindFirstKey(f, bc, i);
    MergeBlockIs(f, b);
    MergeBlockIs(f, bc);
    if i == |f| {
      var g := f + [b];
      assert g[i] == b && forall j :: 0 <= j < i ==> g[j] == f[j];
      FindFirstKey(g, c, i);
      MergeBlockIs(g, c);
      assert g[i := bc] == f + [bc];
    } else {
      CombineOrdinary(f[i], b);
      CombineAssociative(f[i], b, c);
      var g := f[i := Combine(f[i], b)];
      assert forall j :: 0 <= j < i ==> g[j] == f[j];
      FindFirstKey(g, c, i);
      MergeBlockIs(g, c);
    }
  }

  /** Merging a block that finds its place commutes with merging one of another merge key. */
  lemma {:induction false} MergeCommutes(f: Forest, b: Block, c: Block)
    requires KeyOf(b) != KeyOf(c) && HasKey(f, KeyOf(c))
    requires OrdinaryKeys(b.keys) && OrdinaryKeys(c.keys)
    ensures MergeBlock(MergeBlock(f, c), b) == MergeBlock(MergeBlock(f, b), c)
  {
    hide Combine, Merge, KeyOf, Absorbs, FindFirst, OrdinaryKeys;
    var i, j := FindFirst(f, b), FindFirst(f, c);
    FindFirstIs(f, b);
    FindFirstIs(f, c);
    CombineOrdinary(f[j], c);
    FindFirstKey(f[j := Combine(f[j], c)], b, i);
    if i == |f| {
      FindFirstKey(f + [b], c, j);
      assert (f + [b])[j := Combine(f[j], c)] == f[j := Combine(f[j], c)] + [b];
    } else {
      CombineOrdinary(f[i], b);
      FindFirstKey(f[i := Combine(f[i], b)], c, j);
    }
  }

  lemma HasKeyKept(f: Forest, b: Block, k: MergeKey)
    requires OrdinaryKeys(b.keys)
    ensures HasKey(MergeBlock(f, b), k) <==> HasKey(f, k) || KeyOf(b) == k
  {
    hide KeyOf, MergeBlock;
    var r := MergeBlock(f, b);
    FindFirstIs(f, b);
    KeysKept(f, b);
    if HasKey(f, k) {
      var i :| 0 <= i < |f| && KeyOf(f[i]) == k;
      assert KeyOf(r[i]) == k;
    }
    assert KeyOf(r[FindFirst(f, b)]) == KeyOf(b);
  }

  lemma {:induction false} HasKeyMerged(f: Forest, g: Forest, k: MergeKey)
    requires Ordinary(g)
    ensures HasKey(Merge(f, g), k) <==> HasKey(f, k) || HasKey(g, k)
    decreases g
  {
    hide KeyOf, OrdinaryKeys, MergeBlock;
    if g != [] {
      OrdinaryParts(g, 0);
      HasKeyKept(f, g[0], k);
      HasKeyMerged(MergeBlock(f, g[0]), g[1..], k);
      HasKeyTail(g, k);
    }
  }

  lemma HasKeyTail(g: Forest, k: MergeKey)
    requires g != []
    ensures HasKey(g, k) <==> KeyOf(g[0]) == k || HasKey(g[1..], k)
  {
    hide KeyOf;
    if HasKey(g[1..], k) {
      var i :| 0 <= i < |g[1..]| && KeyOf(g[1..][i]) == k;
      assert KeyOf(g[i + 1]) == k;
    }
    if HasKey(g, k) && KeyOf(g[0]) != k {
      var i :| 0 <= i < |g| && KeyOf(g[i]) == k;
      assert KeyOf(g[1..][i - 1]) == k;
    }
  }

  /** A block that finds its place in the first blocks of `g` can be merged before or after the others. */
  lemma {:induction false} MergeLater(f: Forest, g: Forest, c: Block, i: nat, j: nat)
    requires i < j <= |g| && KeyOf(g[i]) == KeyOf(c)
    requires Ordinary(g) && OrdinaryBlock(c) && Settled(g)
    ensures Merge(MergeBlock(Merge(f, g[..i + 1]), c), g[i + 1..j]) == MergeBlock(Merge(f, g[..j]), c)
    decreases j
  {
    hide *;
    if j == i + 1 {
      assert g[i + 1..j] == [];
      MergeNothing(MergeBlock(Merge(f, g[..i + 1]), c));
    } else {
      var k := j - 1;
      var d, y := g[k], Merge(f, g[..k]);
      MergeLater(f, g, c, i, k);
      assert g[..j] == g[..k] + [d] && g[i + 1..j] == g[i + 1..k] + [d];
      MergeSnoc(f, g[..k], d);
      MergeSnoc(MergeBlock(Merge(f, g[..i + 1]), c), g[i + 1..k], d);
      OrdinaryParts(g, k);
      OrdinaryBlockKeys(d);
      OrdinaryBlockKeys(c);
      HasEarlier(g, i, k);
      if KeyOf(d) == KeyOf(c) {
        SettledAt(g, k);
        ContainsBelowAll(f, g[..k], d);
        ContainsStays(y, c, d);
        ContainsBlock(y, d);
        ContainsBlock(MergeBlock(y, c), d);
      } else {
        HasKeyMerged(f, g[..k], KeyOf(c));
        MergeCommutes(y, d, c);
      }
    }
  }

  lemma MergeBlockParts(g: Forest, c: Block)
    ensures var i := FindFirst(g, c);
      MergeBlock(g, c) == if i == |g| then g + [c] else g[..i] + [Combine(g[i], c)] + g[i + 1..]
  {}

  lemma HasEarlier(g: Forest, i: nat, k: nat)
    requires i < k <= |g|
    ensures HasKey(g[..k], KeyOf(g[i]))
  {
    hide KeyOf;
    assert KeyOf(g[..k][i]) == KeyOf(g[i]);
  }

  lemma {:induction false} MergeBlockAssociative(f: Forest, g: Forest, c: Block)
    requires Ordinary(g) && OrdinaryBlock(c) && Settled(g) && Settled(c.children)
    ensures MergeBlock(Merge(f, g), c) == Merge(f, MergeBlock(g, c))
    decreases c, 2
  {
    hide *;
    var i := FindFirst(g, c);
    FindFirstIs(g, c);
    MergeBlockParts(g, c);
    if i == |g| {
      MergeSnoc(f, g, c);
    } else {
      var before, b, after := g[..i], g[i], g[i + 1..];
      assert g == before + [b] + after && g[..i + 1] == before + [b] && g[i + 1..|g|] == after && g[..|g|] == g;
      FirstHasNoEarlier(g, c);
      SettledAt(g, i);
      OrdinaryParts(g, i);
      MergeTwice(Merge(f, before), b, c);
      MergeLater(f, g, c, i, |g|);
      MergeSnoc(f, before, b);
      MergeAround(f, before, b, after);
      MergeAround(f, before, Combine(b, c), after);
    }
  }

  /**
   Merging is associative, keys and orders included, when the second and the third tree are settled,
   whatever the first tree is.
   */
  lemma {:induction false} MergeAssociative(f: Forest, g: Forest, h: Forest)
    requires Ordinary(g) && Ordinary(h) && Settled(g) && Settled(h)
    ensures Merge(Merge(f, g), h) == Merge(f, Merge(g, h))
    decreases h, 3
  {
    if h != [] {
      var k := |h| - 1;
      var init, c := h[..k], h[k];
      assert h == init + [c];
      hide *;
      SettledPrefix(h, k);
      SettledAt(h, k);
      OrdinaryParts(h, k);
      MergeAssociative(f, g, init);
      MergeSnoc(Merge(f, g), init, c);
      MergeSnoc(g, init, c);
      if HasKey(init, KeyOf(c)) {
        ContainsBelowAll(g, init, c);
        ContainsBlock(Merge(g, init), c);
        ContainsBelowAll(Merge(f, g), init, c);
        ContainsBlock(Merge(Merge(f, g), init), c);
      } else {
        OrdinaryMerge(g, init);
        SettledMerge(g, init);
        MergeBlockAssociative(f, Merge(g, init), c);
      }
    }
  }

  // ---------- what is merged into one block ----------

  /** The children, and the upstreams, of all blocks with a merge key. */
  function Gather(g: Forest, k: MergeKey): Forest {
    if g == [] then [] else (if KeyOf(g[0]) == k then g[0].children else []) + Gather(g[1..], k)
  }

  function GatherUpstreams(g: Forest, k: MergeKey): seq<string> {
    if g == [] || k.Plain? then []
    else (if KeyOf(g[0]) == k then Upstreams(g[0].keys) else []) + GatherUpstreams(g[1..], k)
  }

  lemma {:induction false} GatherOrdinary(g: Forest, k: MergeKey)
    requires Ordinary(g)
    ensures Ordinary(Gather(g, k))
  {
    if g != [] {
      GatherOrdinary(g[1..], k);
    }
  }

  lemma SizeConcat(f: Forest, g: Forest)
    ensures Size(f + g) == Size(f) + Size(g)
  {
    if f == [] {
      assert f + g == g;
    } else {
      assert (f + g)[1..] == f[1..] + g;
      SizeConcat(f[1..], g);
    }
  }

  lemma {:induction false} GatherSize(g: Forest, k: MergeKey)
    ensures Size(Gather(g, k)) <= Size(g) && (HasKey(g, k) ==> Size(Gather(g, k)) < Size(g))
  {
    if g != [] {
      GatherSize(g[1..], k);
      HasKeyTail(g, k);
      SizeConcat(if KeyOf(g[0]) == k then g[0].children else [], Gather(g[1..], k));
    }
  }

  lemma {:induction false} GatherHas(g: Forest, q: nat)
    requires q < |g|
    ensures var k := KeyOf(g[q]);
      && (forall c :: c in g[q].children ==> c in Gather(g, k))
      && (k.Proxy? && Upstreams(g[q].keys) != [] ==> GatherUpstreams(g, k) != [])
  {
    if q > 0 {
      GatherHas(g[1..], q - 1);
      assert g[1..][q - 1] == g[q];
    }
  }

  lemma {:induction false} GatherFrom(g: Forest, k: MergeKey, c: Block) returns (q: nat)
    requires c in Gather(g, k)
    ensures q < |g| && KeyOf(g[q]) == k && c in g[q].children
  {
    hide KeyOf;
    if KeyOf(g[0]) == k && c in g[0].children {
      q := 0;
    } else {
      q := GatherFrom(g[1..], k, c);
      q := q + 1;
    }
  }

  lemma {:induction false} GatherConcat(f: Forest, g: Forest, k: MergeKey)
    ensures Gather(f + g, k) == Gather(f, k) + Gather(g, k)
  {
    if f == [] {
      assert f + g == g;
    } else {
      assert (f + g)[1..] == f[1..] + g;
      hide KeyOf;
      GatherConcat(f[1..], g, k);
      Associative(if KeyOf(f[0]) == k then f[0].children else [], Gather(f[1..], k), Gather(g, k));
    }
  }

  lemma {:induction false} GatherNone(g: Forest, k: MergeKey)
    requires !HasKey(g, k)
    ensures Gather(g, k) == []
  {
    if g != [] {
      HasKeyTail(g, k);
      GatherNone(g[1..], k);
    }
  }

  /** Block `m` is the first one with its merge key. */
  ghost predicate FirstOfKey(f: Forest, m: nat) {
    m < |f| && !HasKey(f[..m], KeyOf(f[m]))
  }

  lemma FirstFound(f: Forest, m: nat, b: Block)
    requires FirstOfKey(f, m) && KeyOf(b) == KeyOf(f[m])
    ensures FindFirst(f, b) == m
  {
    hide KeyOf;
    forall j | 0 <= j < m ensures KeyOf(f[j]) != KeyOf(b) {
      assert KeyOf(f[..m][j]) == KeyOf(f[j]);
    }
    FindFirstKey(f, b, m);
  }

  lemma FirstKept(f: Forest, m: nat, b: Block)
    requires FirstOfKey(f, m) && OrdinaryKeys(b.keys)
    ensures var r := MergeBlock(f, b);
      && FirstOfKey(r, m) && KeyOf(r[m]) == KeyOf(f[m])
      && r[m].children == Merge(f[m].children, if KeyOf(b) == KeyOf(f[m]) then b.children else [])
      && r[m].keys == f[m].keys + (if KeyOf(b) == KeyOf(f[m]) && KeyOf(b).Proxy? then Upstreams(b.keys) else [])
  {
    var r := MergeBlock(f, b);
    KeysKept(f, b);
    SameHasKey(r[..m], f[..m], KeyOf(f[m]));
    MergeNothing(f[m].children);
    if KeyOf(b) == KeyOf(f[m]) {
      FirstFound(f, m, b);
      assert r[m] == Combine(f[m], b);
    } else {
      FindFirstIs(f, b);
      assert r[m] == f[m];
    }
  }

  /** What the first block with its merge key becomes. */
  lemma {:induction false} BlockAt(f: Forest, g: Forest, m: nat)
    requires FirstOfKey(f, m) && Ordinary(g)
    ensures var r, k := Merge(f, g), KeyOf(f[m]);
      && FirstOfKey(r, m) && KeyOf(r[m]) == k
      && r[m].children == Merge(f[m].children, Gather(g, k))
      && r[m].keys == f[m].keys + GatherUpstreams(g, k)
    decreases g
  {
    if g != [] {
      hide FirstOfKey, KeyOf, MergeBlock, Upstreams, OrdinaryKeys;
      var k, b := KeyOf(f[m]), g[0];
      OrdinaryParts(g, 0);
      FirstKept(f, m, b);
      var next := MergeBlock(f, b);
      BlockAt(next, g[1..], m);
      var mine := if KeyOf(b) == k then b.children else [];
      MergeConcat(f[m].children, mine, Gather(g[1..], k));
      Associative(f[m].keys, if KeyOf(b) == k && k.Proxy? then Upstreams(b.keys) else [], GatherUpstreams(g[1..], k));
    }
  }

  // ---------- trees that are not settled ----------

  /** Keys with merge key `k`. */
  function KeysFor(k: MergeKey): seq<string> {
    match k
    case Plain(keys) => keys
    case Proxy(directive, matcher) => [directive, matcher]
  }

  lemma NameKey(b: Block, upstreams: seq<string>, children: Forest) returns (t: Block)
    requires upstreams == [] || (KeyOf(b).Proxy? && |upstreams| == 1 && !MatcherShaped(upstreams[0]))
    requires Ordinary(children) && Normal(children)
    ensures t == Block(0, KeysFor(KeyOf(b)) + upstreams, children)
    ensures KeyOf(t) == KeyOf(b) && OrdinaryBlock(t) && Normal([t])
    ensures KeyOf(b).Proxy? ==> Upstreams(t.keys) == upstreams
  {
    t := Block(0, KeysFor(KeyOf(b)) + upstreams, children);
    if KeyOf(b).Plain? {
      assert t.keys == b.keys;
    }
    assert [t][0] == t;
  }

  /** A block without children whose merge key is not in the forest. */
  lemma NewLeaf(f: Forest) returns (t: Block)
    ensures !HasKey(f, KeyOf(t)) && t.children == [] && OrdinaryBlock(t) && Normal([t])
  {
    var z := NewWord(AllKeys(f));
    NewWordIsNew(AllKeys(f));
    t := Block(0, [z], []);
    assert KeyOf(t) == Plain([z]);
    forall i | 0 <= i < |f| ensures KeyOf(f[i]) != KeyOf(t) {
      KeysOfBlock(f, i);
      assert f[i].keys != [] ==> f[i].keys[0] != z;
    }
  }

  lemma {:induction false} KeysKeptAll(f: Forest, g: Forest)
    requires Ordinary(g)
    ensures var r := Merge(f, g); |f| <= |r| && forall x :: 0 <= x < |f| ==> KeyOf(r[x]) == KeyOf(f[x])
    decreases g
  {
    if g != [] {
      hide KeyOf, MergeBlock;
      OrdinaryParts(g, 0);
      KeysKept(f, g[0]);
      KeysKeptAll(MergeBlock(f, g[0]), g[1..]);
    }
  }

  /** A block that the forest has no place for is added at another place when a new leaf is merged first. */
  lemma DistinguishNew(f: Forest, g: Forest) returns (t: Block)
    requires g != [] && Ordinary(g) && !HasKey(f, KeyOf(g[0]))
    ensures OrdinaryBlock(t) && Normal([t])
    ensures MergeBlock(Merge(f, g), t) != Merge(MergeBlock(f, t), g)
  {
    var d := g[0];
    OrdinaryParts(g, 0);
    t := NewLeaf(f + [d]);
    assert KeyOf((f + [d])[|f|]) != KeyOf(t);
    assert !HasKey(f, KeyOf(t)) by {
      assert forall i :: 0 <= i < |f| ==> (f + [d])[i] == f[i];
    }
    FindFirstIs(f, d);
    FindFirstIs(f, t);
    assert MergeBlock(f, d) == f + [d] && MergeBlock(f, t) == f + [t];
    assert Merge(f, g) == Merge(f + [d], g[1..]);
    hide KeyOf, MergeBlock, Merge, Ordinary;
    KeysKeptAll(f + [d], g[1..]);
    OrdinaryBlockKeys(t);
    KeysKept(Merge(f, g), t);
    KeysKeptAll(f + [t], g);
    assert KeyOf(MergeBlock(Merge(f, g), t)[|f|]) == KeyOf(d);
    assert KeyOf(Merge(f + [t], g)[|f|]) == KeyOf(t);
  }

  /** Merging `t` into the first block with its merge key, before and after the blocks of `g`. */
  lemma BothWays(f: Forest, g: Forest, m: nat, t: Block)
    requires FirstOfKey(f, m) && Ordinary(g) && OrdinaryKeys(t.keys) && KeyOf(t) == KeyOf(f[m])
    ensures var x, y, k := MergeBlock(Merge(f, g), t), Merge(MergeBlock(f, t), g), KeyOf(t);
      var u := if k.Proxy? then Upstreams(t.keys) else [];
      && m < |x| && m < |y|
      && x[m].children == Merge(Merge(f[m].children, Gather(g, k)), t.children)
      && y[m].children == Merge(Merge(f[m].children, t.children), Gather(g, k))
      && x[m].keys == f[m].keys + GatherUpstreams(g, k) + u
      && y[m].keys == f[m].keys + u + GatherUpstreams(g, k)
  {
    hide *;
    BlockAt(f, g, m);
    FirstKept(Merge(f, g), m, t);
    FirstKept(f, m, t);
    BlockAt(MergeBlock(f, t), g, m);
    FirstIn(MergeBlock(Merge(f, g), t), m);
    FirstIn(Merge(MergeBlock(f, t), g), m);
  }

  lemma FirstIn(f: Forest, m: nat)
    requires FirstOfKey(f, m)
    ensures m < |f|
  {}

  lemma Swapped(a: seq<string>, b: seq<string>, u: string)
    requires b != [] && b[0] != u
    ensures a + b + [u] != a + [u] + b
  {
    assert (a + b + [u])[|a|] == b[0] && (a + [u] + b)[|a|] == u;
  }

  /** If `g` changes the first block with a merge key, some block with that merge key shows it. */
  lemma {:induction false} DistinguishAt(f: Forest, g: Forest, m: nat) returns (t: Block)
    requires FirstOfKey(f, m) && Ordinary(g)
    requires var k := KeyOf(f[m]);
      GatherUpstreams(g, k) != [] || Merge(f[m].children, Gather(g, k)) != f[m].children
    ensures KeyOf(t) == KeyOf(f[m]) && OrdinaryBlock(t) && Normal([t])
    ensures MergeBlock(Merge(f, g), t) != Merge(MergeBlock(f, t), g)
    decreases Size(g), 0
  {
    hide KeyOf, MergeBlock, Merge, Ordinary, FirstOfKey, OrdinaryBlock, Normal, KeysFor;
    FirstIn(f, m);
    var k := KeyOf(f[m]);
    var ups := GatherUpstreams(g, k);
    if ups != [] {
      assert k.Proxy?;
      var u := if ups[0] == "u" then "v" else "u";
      NothingIsFine();
      t := NameKey(f[m], [u], []);
      Swapped(f[m].keys, ups, u);
    } else {
      var inner := Gather(g, k);
      GatherOrdinary(g, k);
      GatherSize(g, k);
      MergeNothing(f[m].children);
      if !HasKey(g, k) {
        GatherNone(g, k);
      }
      var below := Distinguish(f[m].children, inner);
      OneIsFine(below);
      t := NameKey(f[m], [], [below]);
      MergeOne(Merge(f[m].children, inner), below);
      MergeOne(f[m].children, below);
    }
    OrdinaryBlockKeys(t);
    BothWays(f, g, m, t);
  }

  lemma NothingIsFine()
    ensures Ordinary([]) && Normal([])
  {}

  lemma OneIsFine(b: Block)
    requires OrdinaryBlock(b)
    ensures Ordinary([b])
  {}

  /** If `g` changes `f`, merging some block before `g` is not the same as merging it after `g`. */
  lemma {:induction false} Distinguish(f: Forest, g: Forest) returns (t: Block)
    requires Ordinary(g) && Merge(f, g) != f
    ensures OrdinaryBlock(t) && Normal([t])
    ensures MergeBlock(Merge(f, g), t) != Merge(MergeBlock(f, t), g)
    decreases Size(g), 1
  {
    MergeNothing(f);
    var d := g[0];
    assert Merge(f, g) == Merge(MergeBlock(f, d), g[1..]);
    assert Size(g[1..]) < Size(g);
    OrdinaryParts(g, 0);
    FindFirstIs(f, d);
    ContainsBlock(f, d);
    if Contains(f, d) {
      t := Distinguish(f, g[1..]);
      ContainsStays(f, t, d);
      ContainsBlock(MergeBlock(f, t), d);
    } else if !HasKey(f, KeyOf(d)) {
      t := DistinguishNew(f, g);
    } else {
      var m := FindFirst(f, d);
      NotContained(f, g, 0, m);
      t := DistinguishAt(f, g, m);
    }
  }

  /** A block that is not there already changes the first block with its merge key. */
  lemma NotContained(f: Forest, g: Forest, q: nat, m: nat)
    requires q < |g| && m == FindFirst(f, g[q]) < |f| && !Contains(f, g[q])
    ensures FirstOfKey(f, m) && KeyOf(f[m]) == KeyOf(g[q])
    ensures var k := KeyOf(f[m]);
      GatherUpstreams(g, k) != [] || Merge(f[m].children, Gather(g, k)) != f[m].children
  {
    var d := g[q];
    FindFirstIs(f, d);
    FirstHasNoEarlier(f, d);
    GatherHas(g, q);
    assert ProxyLike(d.FirstKey()) <==> KeyOf(d).Proxy?;
    if !(KeyOf(d).Proxy? && Upstreams(d.keys) != []) {
      var i :| 0 <= i < |d.children| && !Contains(f[m].children, d.children[i]);
      var inner := Gather(g, KeyOf(d));
      assert d.children[i] in inner;
      var j :| 0 <= j < |inner| && inner[j] == d.children[i];
      hide Contains, Merge, Gather, KeyOf;
      ContainsExact(f[m].children, inner);
    }
  }

  /** A sibling adds something to an earlier one. */
  ghost predicate Twin(g: Forest, j: nat) {
    j < |g| && HasKey(g[..j], KeyOf(g[j])) && !Contains(g[..j], g[j])
  }

  lemma NotSettled(g: Forest) returns (j: nat)
    requires !Settled(g)
    ensures j < |g|
    ensures Twin(g, j) || (!HasKey(g[..j], KeyOf(g[j])) && !Settled(g[j].children))
  {
    j :| 0 <= j < |g| && !SettledHere(g, j);
    HereIs(g, j);
  }

  lemma PrefixFind(g: Forest, j: nat)
    requires j < |g| && HasKey(g[..j], KeyOf(g[j]))
    ensures var i := FindFirst(g[..j], g[j]);
      i < j && FindFirst(g, g[j]) == i && KeyOf(g[i]) == KeyOf(g[j]) && !HasKey(g[..i], KeyOf(g[j]))
  {
    hide KeyOf, FindFirst;
    var i := FindFirst(g[..j], g[j]);
    FindFirstIs(g[..j], g[j]);
    assert forall x :: 0 <= x < i ==> g[..j][x] == g[x] == g[..i][x];
    assert g[..j][i] == g[i];
    FindFirstKey(g, g[j], i);
  }

  /** Merging a block with a new merge key, and what follows it, into the empty tree. */
  lemma MergeFromNothing(before: Forest, b: Block, after: Forest)
    requires Ordinary(before) && !HasKey(before, KeyOf(b))
    ensures var start := Merge([], before);
      && Merge([], before + [b] + after) == Merge(start + [b], after)
      && FirstOfKey(start + [b], |start|) && (start + [b])[|start|] == b
  {
    hide *;
    var start := Merge([], before);
    HasKeyMerged([], before, KeyOf(b));
    EmptyHasNoKey(KeyOf(b));
    FindFirstIs(start, b);
    MergeBlockParts(start, b);
    MergeAround([], before, b, after);
    FirstOfEnd(start, b);
  }

  lemma MergeIntoFirst(before: Forest, b: Block, after: Forest, t: Block)
    requires !HasKey(before, KeyOf(b)) && KeyOf(t) == KeyOf(b)
    ensures MergeBlock(before + [b] + after, t) == before + [Combine(b, t)] + after
  {
    hide KeyOf;
    var g := before + [b] + after;
    assert g[..|before|] == before && g[|before|] == b && g[|before| + 1..] == after;
    FirstFound(g, |before|, t);
    MergeBlockParts(g, t);
  }

  /** Twins that add something: merging into the empty tree is enough. */
  lemma TwinBreaks(g: Forest, j: nat) returns (t: Block)
    requires Ordinary(g) && Twin(g, j)
    ensures OrdinaryBlock(t) && Normal([t])
    ensures MergeBlock(Merge([], g), t) != Merge([], MergeBlock(g, t))
  {
    TwinParts(g, j);
    var i := FindFirst(g, g[j]);
    var before, b, after := g[..i], g[i], g[i + 1..];
    hide *;
    var start := Merge([], before);
    var f := start + [b];
    OrdinaryParts(g, i);
    MergeFromNothing(before, b, after);
    NotContainedThere(g, j, f, |start|);
    NotContained(f, after, j - i - 1, |start|);
    t := DistinguishAt(f, after, |start|);
    OrdinaryBlockKeys(t);
    CombineOrdinary(b, t);
    MergeIntoFirst(before, b, after, t);
    MergeFromNothing(before, Combine(b, t), after);
    FirstOfLast(start, b);
    MergeIntoFirst(start, b, [], t);
    assert f + [] == f && start + [Combine(b, t)] + [] == start + [Combine(b, t)];
  }

  lemma FirstOfLast(f: Forest, b: Block)
    requires FirstOfKey(f + [b], |f|)
    ensures !HasKey(f, KeyOf(b))
  {
    assert (f + [b])[..|f|] == f;
  }

  lemma TwinParts(g: Forest, j: nat)
    requires Twin(g, j)
    ensures var i := FindFirst(g, g[j]);
      && i < j < |g| && g == g[..i] + [g[i]] + g[i + 1..] && g[i + 1..][j - i - 1] == g[j]
      && !HasKey(g[..i], KeyOf(g[i])) && KeyOf(g[i]) == KeyOf(g[j])
  {
    assert j < |g| && HasKey(g[..j], KeyOf(g[j]));
    hide *;
    PrefixFind(g, j);
    SplitAt(g, FindFirst(g, g[j]));
  }

  lemma EmptyHasNoKey(k: MergeKey)
    ensures !HasKey([], k)
  {}

  lemma FirstOfEnd(f: Forest, b: Block)
    requires !HasKey(f, KeyOf(b))
    ensures FirstOfKey(f + [b], |f|) && (f + [b])[|f|] == b
  {
    assert (f + [b])[..|f|] == f;
  }

  /** Whether a block is there depends on the first block with its merge key alone. */
  lemma NotContainedThere(g: Forest, j: nat, f: Forest, m: nat)
    requires Twin(g, j) && FirstOfKey(f, m) && f[m] == g[FindFirst(g, g[j])]
    requires KeyOf(f[m]) == KeyOf(g[j])
    ensures FindFirst(f, g[j]) == m && !Contains(f, g[j])
  {
    PrefixFind(g, j);
    FirstFound(f, m, g[j]);
    var i := FindFirst(g, g[j]);
    assert g[..j][i] == g[i];
  }

  /** Without such twins, all that later siblings bring is in the first one with their merge key. */
  lemma TwinsContained(g: Forest, j: nat)
    requires j < |g| && !HasKey(g[..j], KeyOf(g[j])) && forall q :: !Twin(g, q)
    ensures ContainsAll(g[j].children, Gather(g[j + 1..], KeyOf(g[j])))
  {
    var k, after := KeyOf(g[j]), g[j + 1..];
    var inner := Gather(after, k);
    forall i | 0 <= i < |inner| ensures Contains(g[j].children, inner[i]) {
      var q := GatherFrom(after, k, inner[i]);
      var p := j + 1 + q;
      assert after[q] == g[p];
      LaterTwin(g, j, p);
      var x :| 0 <= x < |g[p].children| && g[p].children[x] == inner[i];
    }
  }

  lemma LaterTwin(g: Forest, j: nat, p: nat)
    requires j < p < |g| && KeyOf(g[j]) == KeyOf(g[p]) && !HasKey(g[..j], KeyOf(g[j])) && !Twin(g, p)
    ensures forall x :: 0 <= x < |g[p].children| ==> Contains(g[j].children, g[p].children[x])
  {
    HasEarlier(g, j, p);
    assert FirstOfKey(g[..p], j) by {
      assert g[..p][..j] == g[..j];
    }
    FirstFound(g[..p], j, g[p]);
    assert Contains(g[..p], g[p]);
  }

  lemma {:induction false} ContainsAllKept(f: Forest, g: Forest, c: Block, d: Forest)
    requires ContainsAll(g, d) && Ordinary(g) && OrdinaryBlock(c)
    ensures Merge(Merge(f, g), d) == Merge(f, g)
    ensures Merge(Merge(f, MergeBlock(g, c)), d) == Merge(f, MergeBlock(g, c))
  {
    OrdinaryMergeBlock(g, c);
    forall i | 0 <= i < |d|
      ensures Contains(Merge(f, g), d[i]) && Contains(Merge(f, MergeBlock(g, c)), d[i])
    {
      ContainsBelowAll(f, g, d[i]);
      ContainsStays(g, c, d[i]);
      ContainsBelowAll(f, MergeBlock(g, c), d[i]);
    }
    hide Contains, Merge, MergeBlock;
    ContainsExact(Merge(f, g), d);
    ContainsExact(Merge(f, MergeBlock(g, c)), d);
  }

  /** A tree that breaks associativity below a block does so above it. */
  lemma BreaksAbove(g: Forest, j: nat, f: Forest, c: Block) returns (p: Block, t: Block)
    requires Ordinary(g) && j < |g| && !HasKey(g[..j], KeyOf(g[j])) && forall q :: !Twin(g, q)
    requires OrdinaryBlock(c) && Normal([c]) && Normal(f) && Ordinary(f)
    requires MergeBlock(Merge(f, g[j].children), c) != Merge(f, MergeBlock(g[j].children, c))
    ensures OrdinaryBlock(p) && Normal([p]) && OrdinaryBlock(t) && Normal([t])
    ensures MergeBlock(Merge([p], g), t) != Merge([p], MergeBlock(g, t))
  {
    hide *;
    TwinsContained(g, j);
    var b := g[j];
    OrdinaryParts(g, j);
    OrdinaryBlockKeys(b);
    OneIsFine(c);
    p := NameKey(b, [], f);
    t := NameKey(b, [], [c]);
    OrdinaryBlockKeys(t);
    OrdinaryMergeBlock(g, t);
    assert g == g[..j] + [b] + g[j + 1..];
    MergeIntoFirst(g[..j], b, g[j + 1..], t);
    CombineOrdinary(b, t);
    CombineIs(b, t);
    MergeOne(b.children, c);
    BelowOne(p, g[..j], b, g[j + 1..], b.children);
    BelowOne(p, g[..j], Combine(b, t), g[j + 1..], MergeBlock(b.children, c));
    BelowOneMore(p, g, t);
    ContainsAllKept(f, b.children, c, Gather(g[j + 1..], KeyOf(b)));
    MergeOne(Merge(f, b.children), c);
  }

  /** The children of the one block of the first tree. */
  lemma BelowOne(p: Block, before: Forest, b: Block, after: Forest, inner: Forest)
    requires Ordinary(before + [b] + after) && !HasKey(before, KeyOf(b)) && KeyOf(p) == KeyOf(b) && b.children == inner
    ensures var r := Merge([p], before + [b] + after);
      && FirstOfKey(r, 0) && |r| > 0 && KeyOf(r[0]) == KeyOf(p)
      && r[0].children == Merge(Merge(p.children, inner), Gather(after, KeyOf(b)))
  {
    hide *;
    FirstAlone(p);
    BlockAt([p], before + [b] + after, 0);
    FirstIn(Merge([p], before + [b] + after), 0);
    GatherAround(before, b, after, KeyOf(b));
    MergeConcat(p.children, inner, Gather(after, KeyOf(b)));
  }

  lemma BelowOneMore(p: Block, g: Forest, t: Block)
    requires FirstOfKey(Merge([p], g), 0) && OrdinaryKeys(t.keys)
    requires |Merge([p], g)| > 0 && KeyOf(t) == KeyOf(Merge([p], g)[0])
    ensures var r := MergeBlock(Merge([p], g), t);
      |r| > 0 && r[0].children == Merge(Merge([p], g)[0].children, t.children)
  {
    hide *;
    FirstKept(Merge([p], g), 0, t);
    FirstIn(MergeBlock(Merge([p], g), t), 0);
  }

  lemma FirstAlone(b: Block)
    ensures FirstOfKey([b], 0) && [b][0] == b
  {}

  lemma CombineIs(a: Block, b: Block)
    ensures Combine(a, b).children == Merge(a.children, b.children)
  {}

  lemma GatherAround(before: Forest, b: Block, after: Forest, k: MergeKey)
    requires !HasKey(before, k) && KeyOf(b) == k
    ensures Gather(before + [b] + after, k) == b.children + Gather(after, k)
  {
    hide KeyOf;
    GatherConcat(before + [b], after, k);
    GatherConcat(before, [b], k);
    GatherNone(before, k);
    assert [b][1..] == [] && Gather([b], k) == b.children;
  }

  /** A tree that is not settled breaks associativity, together with some trees in normal form. */
  lemma {:induction false} UnsettledBreaks(g: Forest) returns (f: Forest, t: Block)
    requires Ordinary(g) && !Settled(g)
    ensures Ordinary(f) && Normal(f) && OrdinaryBlock(t) && Normal([t])
    ensures MergeBlock(Merge(f, g), t) != Merge(f, MergeBlock(g, t))
    decreases g
  {
    hide Settled, KeyOf, Merge, MergeBlock, Contains, OrdinaryBlock;
    if j :| Twin(g, j) {
      f := [];
      NothingIsFine();
      t := TwinBreaks(g, j);
    } else {
      var j := NotSettled(g);
      OrdinaryParts(g, j);
      OrdinaryBlockKeys(g[j]);
      var inner, c := UnsettledBreaks(g[j].children);
      var p;
      p, t := BreaksAbove(g, j, inner, c);
      f := [p];
      OneIsFine(p);
    }
  }

  /** Merging `f`, `g` and `h` from the left is merging them from the right. */
  predicate Associates(f: Forest, g: Forest, h: Forest) {
    Merge(Merge(f, g), h) == Merge(f, Merge(g, h))
  }

  /**
   A tree can stand in the middle exactly when it is settled: siblings that are merged with each other
   are harmless only if the later ones add nothing.
   */
  lemma AssociativeExactly(g: Forest)
    requires Ordinary(g)
    ensures (forall f, h | Ordinary(h) && Settled(h) :: Associates(f, g, h)) <==> Settled(g)
    ensures (forall f, h | Ordinary(f) && Normal(f) && Ordinary(h) && Normal(h) :: Associates(f, g, h)) <==> Settled(g)
  {
    if Settled(g) {
      forall f, h | Ordinary(h) && Settled(h) ensures Associates(f, g, h) {
        MergeAssociative(f, g, h);
      }
      forall h | Normal(h) ensures Settled(h) {
        NormalSettled(h);
      }
    } else {
      var f, t := UnsettledBreaks(g);
      NormalSettled([t]);
      MergeOne(Merge(f, g), t);
      MergeOne(g, t);
      assert Ordinary([t]) by { OneIsFine(t); }
      assert !Associates(f, g, [t]);
    }
  }

  lemma MergeSame(a: Block, b: Block)
    requires a.keys == b.keys && (a.keys == [] || !ProxyLike(a.keys[0]))
    ensures MergeBlock([a], b) == [Block(a.order, a.keys, Merge(a.children, b.children))]
  {}

  lemma MergeTwo(f: Forest, a: Block, b: Block)
    ensures Merge(f, [a, b]) == MergeBlock(MergeBlock(f, a), b)
  {
    assert [a, b] == [a] + [b];
    MergeConcat(f, [a], [b]);
    MergeOne(f, a);
    MergeOne(MergeBlock(f, a), b);
  }

  /**
   The third tree matters as well: every tree that is not settled, in the first of two siblings with the
   same merge key, breaks associativity there, even with nothing in the middle.
   */
  lemma ThirdTreeMatters(k: string, g: Forest)
    requires Ordinary(g) && !Settled(g) && !ProxyLike(k)
    ensures exists f, t :: Ordinary(f) && Ordinary([t]) && !Associates(f, [], [Block(0, [k], g), Block(0, [k], [t])])
  {
    var inner, t := UnsettledBreaks(g);
    hide Settled, Ordinary, Merge, MergeBlock, Normal;
    var x, y, p := Block(0, [k], g), Block(0, [k], [t]), Block(0, [k], inner);
    MergeNothing([p]);
    MergeTwo([p], x, y);
    MergeSame(p, x);
    MergeSame(Block(0, [k], Merge(inner, g)), y);
    MergeTwo([], x, y);
    MergeIntoNothing(x);
    MergeSame(x, y);
    MergeOne([p], Block(0, [k], Merge(g, [t])));
    MergeSame(p, Block(0, [k], Merge(g, [t])));
    MergeOne(Merge(inner, g), t);
    MergeOne(g, t);
    assert Ordinary([p]) by { PlainOrdinary(k, inner); }
    assert Ordinary([t]) by { OneIsFine(t); }
    assert !Associates([p], [], [x, y]);
  }

  lemma MergeIntoNothing(b: Block)
    ensures MergeBlock([], b) == [b]
  {}

  lemma PlainOrdinary(k: string, f: Forest)
    requires Ordinary(f)
    ensures Ordinary([Block(0, [k], f)])
  {}

  /** So does a second matcher in the middle, although every one of the three trees is settled. */
  lemma SecondMatcherBreaks(k: string)
    requires ProxyLike(k)
    ensures var f, g, h := [Block(0, [k], [])], [Block(0, [k, "*", "/x"], [])], [Block(0, [k, "u"], [])];
      Settled(f) && Settled(g) && Settled(h) && !Associates(f, g, h)
  {
    var a, b, c := Block(0, [k], []), Block(0, [k, "*", "/x"], []), Block(0, [k, "u"], []);
    var ab, bc := Block(0, [k, "/x"], []), Block(0, [k, "*", "/x", "u"], []);
    assert b.keys[2..] == ["/x"] && c.keys[1..] == ["u"] && bc.keys[2..] == ["/x", "u"];
    assert MatcherShaped("/x") && MatcherShaped("*") && !MatcherShaped("u");
    FindFirstKey([a], b, 0);
    FindFirstKey([ab], c, 1);
    FindFirstKey([b], c, 0);
    assert Upstreams(b.keys) == ["/x"] && Upstreams(c.keys) == ["u"] && Upstreams(bc.keys) == ["/x", "u"];
    assert a.keys + ["/x"] == ab.keys && b.keys + ["u"] == bc.keys;
    MergeNothing([]);
    hide Upstreams, Merge, Settled;
    assert Combine(a, b) == ab && Combine(b, c) == bc;
    assert MergeBlock([a], b) == [ab] && MergeBlock([ab], c) == [ab, c] && MergeBlock([b], c) == [bc];
    MergeOne([a], b);
    MergeOne([ab], c);
    MergeOne([b], c);
    MergeOne([a], bc);
    assert |MergeBlock([a], bc)| == 1;
    LeafSettled(a);
    LeafSettled(b);
    LeafSettled(c);
  }

  lemma LeafSettled(b: Block)
    requires b.children == []
    ensures Settled([b])
  {
    NormalSettled([b]);
  }

  // ---------- absorption ----------

  ghost predicate NoProxies(f: Forest)
    decreases f
  {
    forall i :: 0 <= i < |f| ==> !ProxyLike(f[i].FirstKey()) && NoProxies(f[i].children)
  }

  lemma NoProxiesOrdinary(f: Forest)
    requires NoProxies(f)
    ensures Ordinary(f)
    decreases f
  {}

  lemma PathFound(f: Forest, p: Path) returns (i: nat)
    requires p in Paths(f)
    ensures i < |f| && p != [] && p[0] == KeyOf(f[i])
    ensures |p| > 1 ==> p[1..] in Paths(f[i].children)
  {
    if p in BlockPaths(f[0]) {
      i := 0;
      if p != [KeyOf(f[0])] {
        var q :| q in Paths(f[0].children) && p == [KeyOf(f[0])] + q;
        assert p[1..] == q;
      }
    } else {
      i := PathFound(f[1..], p);
      i := i + 1;
    }
  }

  lemma PathNotEmpty(f: Forest)
    ensures [] !in Paths(f)
  {}

  lemma {:induction false} BlockAbsorbed(f: Forest, b: Block)
    requires Normal(f) && NoProxies(f) && NoProxies([b]) && BlockPaths(b) <= Paths(f)
    ensures MergeBlock(f, b) == f
    decreases b, 1
  {
    assert b == [b][0];
    var k := KeyOf(b);
    var i := PathFound(f, [k]);
    AbsorbsSameKey(f[i], b);
    FindFirstKey(f, b, i);
    forall p | p in Paths(b.children) ensures p in Paths(f[i].children) {
      assert [k] + p in BlockPaths(b);
      var j := PathFound(f, [k] + p);
      PathNotEmpty(b.children);
      assert j == i;
      assert ([k] + p)[1..] == p;
    }
    Absorption(f[i].children, b.children);
  }

  /** Merging a tree whose paths are all there already changes nothing. */
  lemma {:induction false} Absorption(f: Forest, g: Forest)
    requires Normal(f) && NoProxies(f) && NoProxies(g) && Paths(g) <= Paths(f)
    ensures Merge(f, g) == f
    decreases g, 0
  {
    if g != [] {
      assert NoProxies([g[0]]);
      BlockAbsorbed(f, g[0]);
      Absorption(f, g[1..]);
    }
  }

  lemma NoProxiesMerge(f: Forest, g: Forest)
    requires NoProxies(f) && NoProxies(g)
    ensures NoProxies(Merge(f, g))
    decreases g, 0
  {
    if g != [] {
      NoProxiesMergeBlock(f, g[0]);
      NoProxiesMerge(MergeBlock(f, g[0]), g[1..]);
    }
  }

  lemma NoProxiesMergeBlock(f: Forest, b: Block)
    requires NoProxies(f) && !ProxyLike(b.FirstKey()) && NoProxies(b.children)
    ensures NoProxies(MergeBlock(f, b))
    decreases b, 1
  {
    var i := FindFirst(f, b);
    if i < |f| {
      NoProxiesMerge(f[i].children, b.children);
    }
  }

  /** Merging the same container twice is merging it once. */
  lemma MergeIdempotent(f: Forest, g: Forest)
    requires Normal(f) && Normal(g) && NoProxies(f) && NoProxies(g)
    ensures Merge(Merge(f, g), g) == Merge(f, g)
  {
    NoProxiesOrdinary(f);
    NoProxiesOrdinary(g);
    OrdinaryClean(f, g);
    PathsMerge(f, g);
    NormalMerge(f, g);
    NoProxiesMerge(f, g);
    Absorption(Merge(f, g), g);
  }
}
