/**
 The blocks and containers of `caddyfile/caddyfile.go` as objects that are changed in place.

 A `Node` is a block together with the container it embeds; a container that is not part of a block
 is a node without keys. The nodes of a tree are not shared, and `Value` is the tree they stand for.
 */
module Nodes {
  import opened Tree

  class Node {
    var order: int
    var keys: seq<string>
    var children: seq<Node>
    ghost var footprint: set<Node>

    ghost predicate Valid()
      reads this, footprint
      decreases footprint
    {
      && this in footprint
      && (forall c :: c in children ==>
          c in footprint && c.footprint <= footprint - {this} && c in c.footprint && c.Valid())
      && Apart(children)
    }

    /** `CreateBlock`. */
    constructor ()
      ensures Valid() && fresh(footprint) && footprint == {this}
      ensures order == UNORDERED && keys == [] && children == []
    {
      order, keys, children := UNORDERED, [], [];
      footprint := {this};
    }

    function Value(): Block
      requires Valid()
      reads this, footprint
      decreases footprint
    {
      Block(order, keys,
        seq(|children|, i requires 0 <= i < |children| && Valid() reads this, footprint => children[i].Value()))
    }

    method SetKeys(newKeys: seq<string>)
      requires Valid()
      modifies this`keys
      ensures Valid() && keys == newKeys && Value() == old(Value()).(keys := newKeys)
    {
      ghost var f, prints := Values(children), Footprints(children);
      PartsOf(this);
      hide Valid, Value;
      keys := newKeys;
      assert forall i :: 0 <= i < |children| ==>
        children[i].Valid() && children[i].footprint == prints[i] && children[i].Value() == f[i];
      Assemble(this, f, prints);
    }

    method AddKeys(more: seq<string>)
      requires Valid()
      modifies this`keys
      ensures Valid() && keys == old(keys) + more && Value() == old(Value()).(keys := keys)
    {
      SetKeys(keys + more);
    }

    method AddBlock(block: Node)
      requires Valid() && block.Valid() && footprint !! block.footprint
      modifies this`children, this`footprint
      ensures Valid() && footprint == old(footprint) + block.footprint && children == old(children) + [block]
      ensures Value() == old(Value()).(children := old(Value()).children + [block.Value()])
    {
      ghost var f, prints := Values(children), Footprints(children);
      ghost var b, own := block.Value(), block.footprint;
      PartsOf(this);
      hide Valid, Value;
      assert this !in own;
      children := children + [block];
      footprint := footprint + own;
      assert forall i :: 0 <= i < |f| ==>
        children[i].Valid() && children[i].footprint == prints[i] && children[i].Value() == f[i];
      Assemble(this, f + [b], prints + [own]);
    }
  }

  /** Siblings do not share nodes. */
  ghost predicate Apart(s: seq<Node>)
    reads s
  {
    forall i, j :: 0 <= i < j < |s| ==> s[i].footprint !! s[j].footprint
  }

  /** All nodes of some trees. */
  ghost function Region(s: seq<Node>): (r: set<Node>)
    reads s
    ensures forall n :: n in s ==> n.footprint <= r
  {
    set n, o | n in s && o in n.footprint :: o
  }

  ghost predicate AllValid(s: seq<Node>)
    reads s, Region(s)
  {
    forall n :: n in s ==> n in n.footprint && n.Valid()
  }

  function Values(s: seq<Node>): (f: Forest)
    requires AllValid(s)
    reads s, Region(s)
    ensures |f| == |s| && forall i :: 0 <= i < |s| ==> f[i] == s[i].Value()
  {
    seq(|s|, i requires 0 <= i < |s| && AllValid(s) reads s, Region(s) => s[i].Value())
  }

  lemma ValueOfNode(n: Node)
    requires n.Valid()
    ensures AllValid(n.children) && n.Value() == Block(n.order, n.keys, Values(n.children))
  {}

  lemma OwnFootprint(n: Node)
    requires n.Valid()
    ensures n in n.footprint
  {}

  // ---------- putting a node together ----------

  ghost function Footprints(s: seq<Node>): (r: seq<set<Node>>)
    reads s
    ensures |r| == |s| && forall i :: 0 <= i < |s| ==> r[i] == s[i].footprint
  {
    seq(|s|, i requires 0 <= i < |s| reads s => s[i].footprint)
  }

  ghost predicate Disjoint(prints: seq<set<Node>>) {
    forall i, j :: 0 <= i < j < |prints| ==> prints[i] !! prints[j]
  }

  lemma PartsOf(n: Node)
    requires n.Valid()
    ensures n in n.footprint && AllValid(n.children) && Apart(n.children)
    ensures n.Value() == Block(n.order, n.keys, Values(n.children))
    ensures var prints := Footprints(n.children);
            Disjoint(prints) && forall i :: 0 <= i < |prints| ==> prints[i] <= n.footprint - {n}
  {}

  /** The footprints of children stay disjoint when one of them takes in nodes from elsewhere. */
  lemma FootprintsApart(n: Node, i: nat, extra: set<Node>)
    requires n.Valid() && i < |n.children| && extra !! n.footprint
    ensures var prints := Footprints(n.children);
            var nodes := prints[i := prints[i] + extra];
            && Disjoint(nodes)
            && forall j :: 0 <= j < |nodes| ==> nodes[j] <= n.footprint + extra - {n}
    ensures forall j :: 0 <= j < |n.children| && j != i ==> n.children[j].footprint !! n.children[i].footprint + extra
  {}

  /** A node is valid when its children are valid and apart, and its value consists of theirs. */
  lemma Assemble(n: Node, f: Forest, nodes: seq<set<Node>>)
    requires n in n.footprint && Disjoint(nodes) && |f| == |nodes| == |n.children|
    requires forall i :: 0 <= i < |f| ==> nodes[i] <= n.footprint - {n}
    requires forall i :: 0 <= i < |f| ==> n.children[i].Valid() && n.children[i].footprint <= nodes[i]
    requires forall i :: 0 <= i < |f| ==> n.children[i].Value() == f[i]
    ensures n.Valid() && n.Value() == Block(n.order, n.keys, f)
  {}

  // ---------- taking nodes one by one ----------

  /** The nodes from `i` on still hold the blocks `f`, and share nothing with `used`. */
  ghost predicate Waiting(nodes: seq<Node>, i: nat, f: Forest, prints: seq<set<Node>>, used: set<Node>)
    reads nodes, Region(nodes)
  {
    && |nodes| == |f| == |prints| && Disjoint(prints)
    && forall j :: i <= j < |nodes| ==>
        && nodes[j] in nodes[j].footprint && nodes[j].Valid()
        && nodes[j].footprint == prints[j] && nodes[j].Value() == f[j]
        && used !! prints[j]
  }

  lemma AllWaiting(n: Node, used: set<Node>)
    requires n.Valid() && used !! n.footprint
    ensures AllValid(n.children) && n.Value() == Block(n.order, n.keys, Values(n.children))
    ensures Waiting(n.children, 0, Values(n.children), Footprints(n.children), used)
    ensures forall p :: p in Footprints(n.children) ==> p <= n.footprint - {n}
  {}
}
