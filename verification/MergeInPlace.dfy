/**
 `Container.Merge` of `caddyfile/merge.go` as it happens: nodes of the second container are moved into
 the first one, and nodes of the first are changed in place.
 */
module MergeInPlace {
  import opened Tree
  import opened Merging
  import opened Nodes

  function FirstKey(n: Node): string
    reads n
  {
    if n.keys == [] then "" else n.keys[0]
  }

  /** `blocksAreEqual`. */
  method BlocksAreEqual(blockA: Node, blockB: Node) returns (equal: bool)
    ensures equal == (blockA.keys == blockB.keys)
  {
    if |blockA.keys| != |blockB.keys| {
      return false;
    }
    for i := 0 to |blockA.keys|
      invariant blockA.keys[..i] == blockB.keys[..i]
    {
      if blockA.keys[i] != blockB.keys[i] {
        return false;
      }
      assert blockA.keys[..i + 1] == blockA.keys[..i] + [blockA.keys[i]];
      assert blockB.keys[..i + 1] == blockB.keys[..i] + [blockB.keys[i]];
    }
    assert blockA.keys == blockA.keys[..|blockA.keys|];
    return true;
  }

  /** The loop of `mergeReverseProxyLike` over the keys of the second block. */
  method AddUpstreams(blockA: Node, keys: seq<string>)
    requires blockA.Valid() && keys != []
    modifies blockA`keys
    ensures blockA.Valid() && blockA.keys == old(blockA.keys) + Upstreams(keys)
    ensures blockA.Value() == old(blockA.Value()).(keys := blockA.keys)
  {
    var rest := keys[1..];
    for index := 0 to |rest|
      invariant blockA.Valid() && blockA.Value() == old(blockA.Value()).(keys := blockA.keys)
      invariant blockA.keys == old(blockA.keys)
        + if index == 0 then [] else if MatcherShaped(rest[0]) then rest[1..index] else rest[..index]
    {
      if index > 0 || !MatcherShaped(rest[index]) {
        ghost var before := blockA.keys;
        blockA.AddKeys([rest[index]]);
        assert rest[..index + 1] == rest[..index] + [rest[index]];
        assert index > 0 ==> rest[1..index + 1] == rest[1..index] + [rest[index]];
      }
    }
    assert |rest| > 0 ==> rest[1..|rest|] == keys[2..];
  }

  /** `Absorbs` as `Merge` tests it, on nodes with the given blocks. */
  method TestAbsorbs(blockA: Node, blockB: Node, ghost a: Block, ghost b: Block) returns (absorbs: bool)
    requires blockA.keys == a.keys && blockB.keys == b.keys
    ensures absorbs == Absorbs(a, b)
  {
    var firstKey := FirstKey(blockB);
    if FirstKey(blockA) != firstKey {
      return false;
    }
    if ProxyLike(firstKey) && GetMatcher(blockA.keys) == GetMatcher(blockB.keys) {
      return true;
    }
    absorbs := BlocksAreEqual(blockA, blockB);
  }

  lemma KeysOf(a: Node, n: Node)
    requires a.Valid() && n.Valid()
    ensures AllValid(a.children) && n.Value().keys == n.keys
    ensures forall j :: 0 <= j < |a.children| ==> Values(a.children)[j].keys == a.children[j].keys
  {}

  /** The node that absorbs a block, if there is one. */
  method FindNode(a: Node, blockB: Node) returns (i: nat)
    requires a.Valid() && blockB.Valid()
    ensures i == FindFirst(Values(a.children), blockB.Value())
  {
    hide *;
    KeysOf(a, blockB);
    ghost var f, b := Values(a.children), blockB.Value();
    for k := 0 to |a.children|
      invariant forall j :: 0 <= j < k ==> !Absorbs(f[j], b)
    {
      var absorbs := TestAbsorbs(a.children[k], blockB, f[k], b);
      if absorbs {
        return k;
      }
    }
    return |a.children|;
  }

  /** `mergeReverseProxyLike`. */
  method MergeReverseProxyLike(blockA: Node, blockB: Node)
    requires blockA.Valid() && blockB.Valid() && blockA.footprint !! blockB.footprint && blockB.keys != []
    modifies blockA.footprint, blockB.footprint
    ensures blockA.Valid() && blockA.footprint <= old(blockA.footprint + blockB.footprint)
    ensures blockA.Value() == Block(old(blockA.order), old(blockA.keys) + Upstreams(old(blockB.keys)),
      Merge(old(blockA.Value()).children, old(blockB.Value()).children))
    decreases blockB.footprint, 1
  {
    hide Merge, Upstreams;
    ValueOfNode(blockA);
    ghost var f := Values(blockA.children);
    AddUpstreams(blockA, blockB.keys);
    ValueOfNode(blockA);
    assert blockA.Value().children == f;
    MergeNode(blockA, blockB);
  }

  /** Merges a block into the one that absorbs it. */
  method MergeInto(blockA: Node, blockB: Node)
    requires blockA.Valid() && blockB.Valid() && blockA.footprint !! blockB.footprint
    requires Absorbs(blockA.Value(), blockB.Value())
    modifies blockA.footprint, blockB.footprint
    ensures blockA.Valid() && blockA.footprint <= old(blockA.footprint + blockB.footprint)
    ensures blockA.Value() == Combine(old(blockA.Value()), old(blockB.Value()))
    decreases blockB.footprint, 2
  {
    hide Merge, Upstreams;
    ValueOfNode(blockA);
    ValueOfNode(blockB);
    if ProxyLike(FirstKey(blockB)) && GetMatcher(blockA.keys) == GetMatcher(blockB.keys) {
      MergeReverseProxyLike(blockA, blockB);
    } else {
      MergeNode(blockA, blockB);
    }
  }

  /** Merges a block into the child that absorbs it. */
  method MergeAt(a: Node, i: nat, blockB: Node)
    requires a.Valid() && blockB.Valid() && a.footprint !! blockB.footprint
    requires i < |a.children| && Absorbs(a.children[i].Value(), blockB.Value())
    modifies a.footprint, blockB.footprint
    ensures a.Valid() && a.footprint <= old(a.footprint + blockB.footprint)
    ensures a.Value() == Block(old(a.order), old(a.keys),
      old(Values(a.children))[i := Combine(old(a.children[i].Value()), old(blockB.Value()))])
    ensures a.children == old(a.children)
    decreases blockB.footprint, 3
  {
    hide Combine, FindFirst, Absorbs, Node.Value, Region;
    ghost var extra, children, f := blockB.footprint, a.children, Values(a.children);
    ghost var prints := Footprints(children);
    ghost var nodes := prints[i := prints[i] + extra];
    FootprintsApart(a, i, extra);
    ghost var combined := Combine(f[i], blockB.Value());
    MergeInto(a.children[i], blockB);
    assert a.children == children && a.order == old(a.order) && a.keys == old(a.keys);
    forall j | 0 <= j < |children|
      ensures children[j].Valid() && children[j].footprint <= nodes[j]
      ensures children[j].Value() == f[i := combined][j]
    {
      if j != i {
        assert children[j].footprint == prints[j];
      }
    }
    a.footprint := a.footprint + extra;
    Assemble(a, f[i := combined], nodes);
  }

  /** One round of the outer loop of `Merge`: merges or adds one block. */
  method MergeOne(a: Node, blockB: Node)
    requires a.Valid() && blockB.Valid() && a.footprint !! blockB.footprint
    modifies a.footprint, blockB.footprint
    ensures a.Valid() && a.footprint <= old(a.footprint + blockB.footprint)
    ensures a.Value() == old(a.Value()).(children := MergeBlock(old(a.Value()).children, old(blockB.Value())))
    ensures a.children == old(a.children) || a.children == old(a.children) + [blockB]
    decreases blockB.footprint, 4
  {
    hide *;
    OwnFootprint(a);
    ValueOfNode(a);
    MergeBlockIs(Values(a.children), blockB.Value());
    var i := FindNode(a, blockB);
    if i == |a.children| {
      a.AddBlock(blockB);
    } else {
      MergeAt(a, i, blockB);
    }
  }

  /** One round of the outer loop of `Merge` leaves the later blocks alone. */
  method MergeNext(a: Node, blocks: seq<Node>, i: nat, ghost g: Forest, ghost prints: seq<set<Node>>,
      ghost used: set<Node>)
    requires a.Valid() && a.footprint <= used && i < |blocks| && Waiting(blocks, i, g, prints, used)
    modifies a.footprint, prints[i]
    ensures a.Valid() && a.footprint <= used + prints[i] && Waiting(blocks, i + 1, g, prints, used + prints[i])
    ensures a.Value() == old(a.Value()).(children := MergeBlock(old(a.Value()).children, g[i]))
    ensures a.children == old(a.children) || a.children == old(a.children) + [blocks[i]]
    decreases prints[i], 5
  {
    hide Node.Valid, Node.Value, Region, MergeBlock;
    MergeOne(a, blocks[i]);
  }

  /** The first nodes, and then some of the others in their order. */
  ghost predicate Extends(nodes: seq<Node>, first: seq<Node>, others: seq<Node>) {
    if others == [] then nodes == first
    else
      var init, last := others[..|others| - 1], others[|others| - 1];
      || Extends(nodes, first, init)
      || (nodes != [] && nodes[|nodes| - 1] == last && Extends(nodes[..|nodes| - 1], first, init))
  }

  lemma ExtendsNothing(first: seq<Node>)
    ensures Extends(first, first, [])
  {}

  lemma ExtendsMore(nodes: seq<Node>, first: seq<Node>, others: seq<Node>, b: Node)
    requires Extends(nodes, first, others)
    ensures Extends(nodes, first, others + [b]) && Extends(nodes + [b], first, others + [b])
  {
    assert (others + [b])[..|others|] == others && (nodes + [b])[..|nodes|] == nodes;
  }

  /**
   `Merge`: after it, the first container holds the merged tree. Its blocks come first, and blocks of the
   second container that found no place follow as they are; the second container still lists its blocks,
   so that it shares these with the first one.
   */
  method MergeNode(a: Node, b: Node)
    requires a.Valid() && b.Valid() && a.footprint !! b.footprint
    modifies a.footprint, b.footprint
    ensures a.Valid() && a.footprint <= old(a.footprint + (b.footprint - {b}))
    ensures a.Value() == old(a.Value()).(children := Merge(old(a.Value()).children, old(b.Value()).children))
    ensures b.children == old(b.children) && Extends(a.children, old(a.children), b.children)
    decreases b.footprint, 0
  {
    hide *;
    AllWaiting(b, a.footprint);
    OwnFootprint(b);
    var blocks := b.children;
    ghost var f, g, prints, used := a.Value().children, Values(blocks), Footprints(blocks), a.footprint;
    ghost var all := a.footprint + (b.footprint - {b});
    assert g[..0] == [] && g[..|g|] == g;
    MergeNothing(f);
    ExtendsNothing(a.children);
    assert blocks[..0] == [] && blocks[..|blocks|] == blocks;
    for i := 0 to |blocks|
      invariant a.Valid() && a.footprint <= used <= all
      invariant |prints| == |g| == |blocks| && Waiting(blocks, i, g, prints, used)
      invariant a.Value() == old(a.Value()).(children := Merge(f, g[..i]))
      invariant b.children == blocks && Extends(a.children, old(a.children), blocks[..i])
    {
      MergeSnoc(f, g[..i], g[i]);
      assert g[..i + 1] == g[..i] + [g[i]];
      assert prints[i] in prints;
      ExtendsMore(a.children, old(a.children), blocks[..i], blocks[i]);
      assert blocks[..i + 1] == blocks[..i] + [blocks[i]];
      MergeNext(a, blocks, i, g, prints, used);
      used := used + prints[i];
    }
  }
}
