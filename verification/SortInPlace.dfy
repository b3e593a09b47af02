/** `sort`, `Marshal` and `Remove` on nodes: siblings are rearranged in place. */
module SortInPlace {
  import opened Text
  import opened Tree
  import opened BlockOrder
  import opened Printer
  import opened Nodes

  // ---------- rearranging siblings ----------

  /** The same nodes in another order. */
  ghost predicate Rearranged(s: seq<Node>, t: seq<Node>) {
    multiset(s) == multiset(t)
  }

  lemma RearrangedMember(s: seq<Node>, t: seq<Node>, n: Node)
    requires Rearranged(s, t)
    ensures n in s <==> n in t
  {
    assert n in multiset(s) <==> n in multiset(t);
  }

  lemma Twice(s: seq<Node>, i: nat, j: nat)
    requires i < j < |s| && s[i] == s[j]
    ensures multiset(s)[s[i]] >= 2
  {
    assert s == s[..j] + [s[j]] + s[j + 1..];
    assert s[i] in s[..j];
    assert s[i] in multiset(s[..j]);
  }

  lemma FindTwice(s: seq<Node>, n: Node) returns (i: nat, j: nat)
    requires multiset(s)[n] >= 2
    ensures i < j < |s| && s[i] == s[j] == n
  {
    assert n in multiset(s);
    i :| 0 <= i < |s| && s[i] == n;
    var rest := s[..i] + s[i + 1..];
    assert s == s[..i] + [n] + s[i + 1..];
    assert multiset(s) == multiset(rest) + multiset{n};
    assert n in multiset(rest);
    var k :| 0 <= k < |rest| && rest[k] == n;
    if k < i {
      i, j := k, i;
    } else {
      j := k + 1;
    }
  }

  lemma ApartRearranged(s: seq<Node>, t: seq<Node>)
    requires Rearranged(s, t) && Apart(s) && forall n :: n in s ==> n in n.footprint
    ensures Apart(t)
  {
    forall i, j | 0 <= i < j < |t| ensures t[i].footprint !! t[j].footprint {
      RearrangedMember(s, t, t[i]);
      RearrangedMember(s, t, t[j]);
      if t[i] == t[j] {
        Twice(t, i, j);
        var x, y := FindTwice(s, t[i]);
      }
    }
  }

  // ---------- sorting ----------

  lemma InsertBefore(f: Forest, b: Block)
    requires f != [] && Compare(f[|f| - 1], b) > 0
    ensures Insert(f, b) == Insert(f[..|f| - 1], b) + [f[|f| - 1]]
  {}

  lemma InsertLast(f: Forest, b: Block)
    requires f == [] || Compare(f[|f| - 1], b) <= 0
    ensures Insert(f, b) == f + [b]
  {}

  lemma {:induction false} InsertAt(f: Forest, b: Block, k: nat)
    requires k <= |f| && (k == 0 || Compare(f[k - 1], b) <= 0)
    requires forall j :: k <= j < |f| ==> Compare(f[j], b) > 0
    ensures Insert(f, b) == f[..k] + [b] + f[k..]
  {
    hide Insert, Compare;
    if k == |f| {
      InsertLast(f, b);
      assert f[..k] == f && f[k..] == [];
    } else {
      var init, last := f[..|f| - 1], f[|f| - 1];
      InsertBefore(f, b);
      InsertAt(init, b, k);
      assert init[..k] == f[..k] && init[k..] + [last] == f[k..];
      Associative(f[..k] + [b], init[k..], [last]);
    }
  }

  lemma ValuesWith(s: seq<Node>, k: nat, x: Node)
    requires AllValid(s) && x.Valid() && k <= |s|
    ensures AllValid(s[..k] + [x] + s[k..])
    ensures Values(s[..k] + [x] + s[k..]) == Values(s)[..k] + [x.Value()] + Values(s)[k..]
  {}

  lemma NothingRearranged(s: seq<Node>)
    ensures Rearranged(s[..0], [])
  {}

  lemma RearrangedWith(s: seq<Node>, i: nat, r: seq<Node>, k: nat)
    requires i < |s| && k <= |r| && Rearranged(s[..i], r)
    ensures Rearranged(s[..i + 1], r[..k] + [s[i]] + r[k..])
  {
    assert s[..i + 1] == s[..i] + [s[i]];
    assert r == r[..k] + r[k..];
  }

  function Min(a: nat, b: nat): (m: nat)
    ensures m <= a && m <= b && (m == a || m == b)
  {
    if a < b then a else b
  }

  /** What a node is compared by before its children. */
  function Head(n: Node): Block
    reads n
  {
    Block(n.order, n.keys, [])
  }

  /** The loop of `compareBlocks` over the keys. */
  method CompareKeyLists(a: seq<string>, b: seq<string>) returns (r: int)
    ensures r == CompareKeys(a, b)
  {
    for i := 0 to Min(|a|, |b|)
      invariant a[..i] == b[..i]
    {
      if a[i] != b[i] {
        KeysBehind(a, b, i);
        StringsRange(a[i], b[i]);
        StringsOrdered(a[i], b[i], []);
        return if CompareStrings(a[i], b[i]) < 0 then -1 else 1;
      }
      assert a[..i + 1] == a[..i] + [a[i]] && b[..i + 1] == b[..i] + [b[i]];
    }
    KeysBehind(a, b, Min(|a|, |b|));
    return if |a| == |b| then 0 else if |a| < |b| then -1 else 1;
  }

  lemma ChildParts(n: Node)
    requires n.Valid()
    ensures AllValid(n.children) && n.Value().children == Values(n.children)
    ensures forall j :: 0 <= j < |n.children| ==>
      n.children[j].Valid() && n.children[j].footprint < n.footprint && n.children[j].Value() == Values(n.children)[j]
  {
    PartsOf(n);
  }

  /** The loop of `compareBlocks` over the children. */
  method CompareChildren(blockA: Node, blockB: Node) returns (r: int)
    requires blockA.Valid() && blockB.Valid()
    ensures r == CompareForests(blockA.Value().children, blockB.Value().children)
    decreases blockA.footprint, 0
  {
    hide *;
    ChildParts(blockA);
    ChildParts(blockB);
    var a, b := blockA.children, blockB.children;
    ghost var f, g := Values(a), Values(b);
    for c := 0 to Min(|a|, |b|)
      invariant forall j :: 0 <= j < c ==> Compare(f[j], g[j]) == 0
    {
      var comparison := CompareBlocks(a[c], b[c]);
      if comparison != 0 {
        ForestsGoBy(f, g, c);
        return comparison;
      }
    }
    ForestsGoBy(f, g, Min(|a|, |b|));
    return CompareInts(|a|, |b|);
  }

  lemma ComparesAs(a: Block, b: Block)
    ensures Compare(a, b)
         == if a.IsGlobal() != b.IsGlobal() then CompareFlags(a.IsGlobal(), b.IsGlobal())
            else if a.IsSnippet() != b.IsSnippet() then CompareFlags(a.IsSnippet(), b.IsSnippet())
            else if a.IsMatcher() != b.IsMatcher() then CompareFlags(a.IsMatcher(), b.IsMatcher())
            else if a.order != b.order then CompareInts(a.order, b.order)
            else if CompareKeys(a.keys, b.keys) != 0 then CompareKeys(a.keys, b.keys)
            else CompareForests(a.children, b.children)
  {}

  /** `compareBlocks`. */
  method CompareBlocks(blockA: Node, blockB: Node) returns (r: int)
    requires blockA.Valid() && blockB.Valid()
    ensures r == Compare(blockA.Value(), blockB.Value())
    decreases blockA.footprint, 1
  {
    hide *;
    HeadOf(blockA);
    HeadOf(blockB);
    ComparesAs(blockA.Value(), blockB.Value());
    var a, b := Head(blockA), Head(blockB);
    if a.IsGlobal() != b.IsGlobal() {
      return CompareFlags(a.IsGlobal(), b.IsGlobal());
    }
    if a.IsSnippet() != b.IsSnippet() {
      return CompareFlags(a.IsSnippet(), b.IsSnippet());
    }
    if a.IsMatcher() != b.IsMatcher() {
      return CompareFlags(a.IsMatcher(), b.IsMatcher());
    }
    if a.order != b.order {
      return CompareInts(a.order, b.order);
    }
    r := CompareKeyLists(blockA.keys, blockB.keys);
    if r == 0 {
      r := CompareChildren(blockA, blockB);
    }
  }

  lemma HeadOf(n: Node)
    requires n.Valid()
    ensures var b := n.Value();
      && b.order == n.order && b.keys == n.keys && Head(n).keys == n.keys && Head(n).order == n.order
      && b.IsGlobal() == Head(n).IsGlobal() && b.IsSnippet() == Head(n).IsSnippet()
      && b.IsMatcher() == Head(n).IsMatcher()
  {}

  /** The place of `x` behind everything that is not greater, found from the end. */
  method FindPlace(s: seq<Node>, x: Node, ghost f: Forest, ghost b: Block) returns (k: nat)
    requires AllValid(s) && Values(s) == f && x.Valid() && x.Value() == b
    ensures AllValid(s) && Values(s) == f && x.Valid() && x.Value() == b
    ensures k <= |s| && (k > 0 ==> Compare(f[k - 1], b) <= 0)
    ensures forall j :: k <= j < |s| ==> Compare(f[j], b) > 0
  {
    hide Compare, Node.Value, Node.Valid, Region;
    k := |s|;
    while k > 0
      invariant k <= |s|
      invariant forall j :: k <= j < |s| ==> Compare(f[j], b) > 0
    {
      assert s[k - 1] in s;
      var comparison := CompareBlocks(s[k - 1], x);
      if comparison <= 0 {
        return;
      }
      k := k - 1;
    }
  }

  /** One round of the insertion. */
  method InsertNode(s: seq<Node>, x: Node, ghost f: Forest, ghost b: Block) returns (r: seq<Node>, ghost k: nat)
    requires AllValid(s) && Values(s) == f && x.Valid() && x.Value() == b
    ensures k <= |s| && r == s[..k] + [x] + s[k..]
    ensures AllValid(r) && Values(r) == Insert(f, b)
  {
    hide *;
    var place := FindPlace(s, x, f, b);
    k := place;
    InsertAt(f, b, k);
    ValuesWith(s, k, x);
    r := s[..place] + [x] + s[place..];
  }

  /** `sort.SliceStable` by `compareBlocks`; the values of the nodes are `f`. */
  method SortSiblings(s: seq<Node>, ghost f: Forest) returns (r: seq<Node>)
    requires AllValid(s) && Values(s) == f
    ensures Rearranged(s, r) && AllValid(r)
    ensures Values(r) == InsertionSort(f)
  {
    EachValid(s);
    hide *;
    r := [];
    NothingToSort();
    NothingRearranged(s);
    NothingValid();
    assert f[..0] == [] && f[..|f|] == f && s[..|s|] == s;
    for i := 0 to |s|
      invariant Rearranged(s[..i], r) && AllValid(r)
      invariant Values(r) == InsertionSort(f[..i])
    {
      ghost var k, before := 0, r;
      r, k := InsertNode(r, s[i], Values(r), f[i]);
      SortOneMore(f, i);
      RearrangedWith(s, i, before, k);
    }
  }

  lemma EachValid(s: seq<Node>)
    requires AllValid(s)
    ensures forall i :: 0 <= i < |s| ==> s[i].Valid() && s[i].Value() == Values(s)[i]
  {
    assert forall i :: 0 <= i < |s| ==> s[i] in s;
  }

  lemma NothingValid()
    ensures AllValid([]) && Values([]) == []
  {}

  lemma NothingToSort()
    ensures InsertionSort([]) == []
  {}

  lemma SortOneMore(f: Forest, i: nat)
    requires i < |f|
    ensures InsertionSort(f[..i + 1]) == Insert(InsertionSort(f[..i]), f[i])
  {
    assert f[..i + 1][..i] == f[..i];
  }

  lemma ChildrenApart(n: Node)
    requires n.Valid()
    ensures n in n.footprint && AllValid(n.children) && |Values(n.children)| == |n.children|
    ensures n.Value() == Block(n.order, n.keys, Values(n.children))
    ensures Disjoint(Footprints(n.children))
    ensures forall j :: 0 <= j < |n.children| ==>
      && n.children[j].Valid() && n.children[j].Value() == Values(n.children)[j]
      && n.children[j].footprint == Footprints(n.children)[j] && n.children[j].footprint < n.footprint
      && n.children[j].footprint <= n.footprint - {n}
    ensures forall i, j :: 0 <= i < |n.children| && 0 <= j < |n.children| && i != j ==>
      n.children[i].footprint !! n.children[j].footprint
  {
    PartsOf(n);
    assert forall i :: 0 <= i < |n.children| ==> n.children[i] in n.children;
  }

  /** Sorts one of the children. */
  method SortChild(n: Node, i: nat)
    requires n.Valid() && i < |n.children|
    modifies n.children[i].footprint
    ensures n.Valid() && n.footprint == old(n.footprint) && n.children == old(n.children)
    ensures |old(n.Value()).children| == |n.children|
    ensures n.Value() == old(n.Value()).(children :=
      old(n.Value()).children[i := SortBlock(old(n.Value()).children[i])])
    ensures Footprints(n.children) == old(Footprints(n.children))
    decreases n.footprint, 0
  {
    hide *;
    ChildrenApart(n);
    ghost var children, f, prints := n.children, Values(n.children), Footprints(n.children);
    ghost var sorted := SortBlock(f[i]);
    SortNode(n.children[i]);
    forall j | 0 <= j < |children|
      ensures children[j].Valid() && children[j].footprint == prints[j] && children[j].Value() == f[i := sorted][j]
    {
      if j != i {
        assert children[j].footprint == prints[j];
      }
    }
    Assemble(n, f[i := sorted], prints);
  }

  /** The loop of `sort` over the children. */
  method SortEach(n: Node)
    requires n.Valid()
    modifies n.footprint
    ensures n.Valid() && n.footprint == old(n.footprint) && n.children == old(n.children)
    ensures n.Value() == old(n.Value()).(children := SortChildren(old(n.Value()).children))
    ensures Footprints(n.children) == old(Footprints(n.children))
    decreases n.footprint, 1
  {
    hide *;
    ChildrenApart(n);
    ghost var f := n.Value().children;
    ghost var g := SortChildren(f);
    for i := 0 to |n.children|
      invariant n.Valid() && n.footprint == old(n.footprint) && n.children == old(n.children)
      invariant n.Value() == old(n.Value()).(children := n.Value().children)
      invariant n.Value().children == g[..i] + f[i..]
      invariant Footprints(n.children) == old(Footprints(n.children))
    {
      ChildrenApart(n);
      SortChildrenAt(f, i);
      SortChild(n, i);
      assert (g[..i] + f[i..])[i := g[i]] == g[..i + 1] + f[i + 1..];
    }
  }

  /** Sorts the list of children. */
  method SortList(n: Node)
    requires n.Valid()
    modifies n`children
    ensures n.Valid() && Rearranged(old(n.children), n.children)
    ensures forall c :: c in n.children <==> c in old(n.children)
    ensures n.Value() == old(n.Value()).(children := InsertionSort(old(n.Value()).children))
  {
    hide *;
    ChildrenApart(n);
    ghost var before, f := n.children, Values(n.children);
    var sorted := SortSiblings(n.children, f);
    forall c ensures c in sorted <==> c in before {
      RearrangedMember(before, sorted, c);
    }
    ghost var prints := Footprints(sorted);
    SortedApart(n, before, sorted);
    EachValid(sorted);
    assert forall j :: 0 <= j < |sorted| ==> n !in sorted[j].footprint;
    n.children := sorted;
    Assemble(n, InsertionSort(f), prints);
  }

  lemma SortedApart(n: Node, before: seq<Node>, sorted: seq<Node>)
    requires n.Valid() && n.children == before && Rearranged(before, sorted)
    requires forall c :: c in sorted <==> c in before
    ensures Disjoint(Footprints(sorted))
    ensures forall j :: 0 <= j < |sorted| ==> sorted[j].footprint <= n.footprint - {n}
  {
    hide Node.Value;
    ApartRearranged(before, sorted);
    forall j | 0 <= j < |sorted| ensures sorted[j].footprint <= n.footprint - {n} {
      assert sorted[j] in before;
    }
  }

  /** `sort`: the tree is sorted, and the children are the same nodes as before. */
  method SortNode(n: Node)
    requires n.Valid()
    modifies n.footprint
    ensures n.Valid() && n.footprint == old(n.footprint)
    ensures n.order == old(n.order) && n.keys == old(n.keys)
    ensures Rearranged(old(n.children), n.children)
    ensures forall c :: c in n.children ==> c in old(n.children)
    ensures forall c :: c in n.children ==> c.footprint == old(c.footprint) && c.Value() == SortBlock(old(c.Value()))
    ensures n.Value() == SortBlock(old(n.Value()))
    decreases n.footprint, 2
  {
    hide *;
    ChildrenApart(n);
    ghost var children, f := n.children, Values(n.children);
    SortEach(n);
    ChildrenApart(n);
    SortsTo(n.order, n.keys, f);
    forall j | 0 <= j < |children|
      ensures children[j].footprint == old(children[j].footprint) && children[j].Value() == SortBlock(f[j])
    {
      SortChildrenAt(f, j);
      assert Footprints(children)[j] == old(Footprints(children))[j];
    }
    SortList(n);
  }

  lemma SortsTo(order: int, keys: seq<string>, f: Forest)
    ensures SortBlock(Block(order, keys, f)) == Block(order, keys, InsertionSort(SortChildren(f)))
  {}

  // ---------- printing and removing ----------

  /** `Container.Marshal`. */
  method MarshalNode(n: Node) returns (text: string)
    requires n.Valid()
    modifies n.footprint
    ensures n.Valid() && n.footprint == old(n.footprint)
    ensures n.order == old(n.order) && n.keys == old(n.keys)
    ensures Rearranged(old(n.children), n.children)
    ensures forall c :: c in n.children ==> c in old(n.children)
    ensures forall c :: c in n.children ==> c.footprint == old(c.footprint) && c.Value() == SortBlock(old(c.Value()))
    ensures n.Value() == SortBlock(old(n.Value()))
    ensures text == Marshal(old(n.Value()).children)
  {
    SortNode(n);
    var f := n.Value().children;
    var buffer := new Buffer();
    WriteForest(buffer, f, 0);
    text := buffer.contents;
  }

  /** `Block.Marshal`. */
  method MarshalBlock(n: Node) returns (text: string)
    requires n.Valid()
    modifies n.footprint
    ensures n.Valid() && n.footprint == old(n.footprint)
    ensures n.Value() == SortBlock(old(n.Value()))
    ensures text == BlockText(SortBlock(old(n.Value())), 0)
  {
    SortNode(n);
    var b := n.Value();
    var buffer := new Buffer();
    WriteBlock(buffer, b, 0);
    text := buffer.contents;
  }

  /** The loop of `Remove`; `p` is where the block was found. */
  method WithoutNode(s: seq<Node>, block: Node) returns (newItems: seq<Node>, ghost p: nat)
    requires forall i, j :: 0 <= i < j < |s| ==> s[i] != s[j]
    ensures block !in s ==> newItems == s
    ensures block in s ==> p < |s| && s[p] == block && newItems == s[..p] + s[p + 1..]
  {
    newItems, p := [], 0;
    for i := 0 to |s|
      invariant block !in s[..i] ==> newItems == s[..i]
      invariant block in s[..i] ==> p < i && s[p] == block && newItems == s[..p] + s[p + 1..i]
    {
      assert s[..i + 1] == s[..i] + [s[i]];
      if s[i] != block {
        newItems := newItems + [s[i]];
      } else {
        p := i;
      }
    }
    assert s[..|s|] == s;
  }

  lemma ChildrenDiffer(n: Node)
    requires n.Valid()
    ensures forall i, j :: 0 <= i < j < |n.children| ==> n.children[i] != n.children[j]
  {}

  /** `Remove`. */
  method RemoveNode(n: Node, block: Node) returns (ghost p: nat)
    requires n.Valid()
    modifies n`children, n`footprint
    ensures n.Valid() && n.footprint <= old(n.footprint)
    ensures block !in old(n.children) ==> n.children == old(n.children) && n.Value() == old(n.Value())
    ensures block in old(n.children) ==>
      && p < |old(n.children)| && old(n.children)[p] == block && block.footprint !! n.footprint
      && n.children == old(n.children)[..p] + old(n.children)[p + 1..]
      && n.Value() == old(n.Value()).(children := old(Values(n.children))[..p] + old(Values(n.children))[p + 1..])
  {
    ghost var children, f, prints := n.children, Values(n.children), Footprints(n.children);
    PartsOf(n);
    ChildrenDiffer(n);
    hide Node.Valid, Node.Value, Region;
    var newItems;
    newItems, p := WithoutNode(n.children, block);
    ghost var g, nodes := f, prints;
    if block in children {
      g, nodes := f[..p] + f[p + 1..], prints[..p] + prints[p + 1..];
      DisjointWithout(prints, p, n.footprint - {n});
      n.footprint := n.footprint - prints[p];
    }
    n.children := newItems;
    forall i | 0 <= i < |newItems|
      ensures newItems[i].Valid() && newItems[i].footprint == nodes[i] && newItems[i].Value() == g[i]
    {
      ghost var j := if block in children && i >= p then i + 1 else i;
      assert newItems[i] == children[j] && nodes[i] == prints[j] && g[i] == f[j];
    }
    Assemble(n, g, nodes);
  }

  lemma DisjointWithout(prints: seq<set<Node>>, p: nat, all: set<Node>)
    requires Disjoint(prints) && p < |prints| && forall i :: 0 <= i < |prints| ==> prints[i] <= all
    ensures var rest := prints[..p] + prints[p + 1..];
            Disjoint(rest) && forall i :: 0 <= i < |rest| ==> rest[i] <= all - prints[p]
  {}
}
