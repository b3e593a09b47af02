/** `mergeCaddyfile` of `generator/generator.go` as it happens: on the nodes of the base container. */
module SitesInPlace {
  import opened Text
  import opened Tree
  import opened Merging
  import opened Sites
  import opened Nodes
  import opened MergeInPlace
  import opened SortInPlace

  /** `isSiteBlock`. */
  function IsSiteNode(n: Node): (site: bool)
    requires n.Valid()
    reads n, n.footprint
    ensures site == IsSite(n.Value())
  {
    IsSite(Block(n.order, n.keys, []))
  }

  lemma SharedKeysSnoc(a: seq<string>, b: seq<string>, k: string)
    ensures SharedKeys(a, b + [k]) == SharedKeys(a, b) + (if k in a then [k] else [])
  {
    if b == [] {
      assert [k][1..] == [];
    } else {
      assert (b + [k])[1..] == b[1..] + [k];
      SharedKeysSnoc(a, b[1..], k);
    }
  }

  /** Fills a map with the keys of a block. */
  method KeySet(keys: seq<string>) returns (seen: set<string>)
    ensures seen == set k | k in keys
  {
    seen := {};
    for i := 0 to |keys|
      invariant seen == set j | 0 <= j < i :: keys[j]
    {
      seen := seen + {keys[i]};
    }
  }

  /** `sharedKeys`. */
  method FindSharedKeys(a: Node, b: Node) returns (overlap: seq<string>)
    ensures overlap == SharedKeys(a.keys, b.keys)
  {
    var seen := KeySet(a.keys);
    overlap := [];
    for i := 0 to |b.keys|
      invariant overlap == SharedKeys(a.keys, b.keys[..i])
    {
      SharedKeysSnoc(a.keys, b.keys[..i], b.keys[i]);
      assert b.keys[..i + 1] == b.keys[..i] + [b.keys[i]];
      if b.keys[i] in seen {
        overlap := overlap + [b.keys[i]];
      }
    }
    assert b.keys[..|b.keys|] == b.keys;
  }

  /** The nodes among the given ones whose blocks overlap the incoming block. */
  function Matching(nodes: seq<Node>, f: Forest, incoming: Block): seq<Node>
    requires |nodes| == |f|
  {
    if nodes == [] then []
    else (if Overlaps(f[0], incoming) then [nodes[0]] else []) + Matching(nodes[1..], f[1..], incoming)
  }

  lemma MatchingConcat(nodes: seq<Node>, f: Forest, more: seq<Node>, g: Forest, incoming: Block)
    requires |nodes| == |f| && |more| == |g|
    ensures Matching(nodes + more, f + g, incoming) == Matching(nodes, f, incoming) + Matching(more, g, incoming)
  {
    if nodes == [] {
      assert nodes + more == more && f + g == g;
    } else {
      assert (nodes + more)[1..] == nodes[1..] + more && (f + g)[1..] == f[1..] + g;
      MatchingConcat(nodes[1..], f[1..], more, g, incoming);
    }
  }

  lemma MatchingOne(n: Node, b: Block, incoming: Block)
    ensures Matching([n], [b], incoming) == if Overlaps(b, incoming) then [n] else []
  {}

  /** `findOverlappingSiteBlocks`. */
  method FindOverlappingSiteBlocks(container: Node, incoming: Node) returns (matches: seq<Node>)
    requires container.Valid() && incoming.Valid()
    ensures matches == Matching(container.children, container.Value().children, incoming.Value())
  {
    var nodes := container.children;
    ghost var f, b := Values(nodes), incoming.Value();
    ValueOfNode(container);
    ValueOfNode(incoming);
    hide Node.Valid, Node.Value, SharedKeys, IsSite;
    matches := [];
    for i := 0 to |nodes|
      invariant matches == Matching(nodes[..i], f[..i], b)
    {
      var existing := nodes[i];
      ValueOfNode(existing);
      MatchingConcat(nodes[..i], f[..i], [existing], [f[i]], b);
      MatchingOne(existing, f[i], b);
      assert nodes[..i + 1] == nodes[..i] + [existing] && f[..i + 1] == f[..i] + [f[i]];
      if IsSiteNode(existing) {
        var shared := FindSharedKeys(existing, incoming);
        if |shared| > 0 {
          matches := matches + [existing];
        }
      }
    }
    assert nodes[..|nodes|] == nodes && f[..|f|] == f;
  }

  lemma AddMissingSnoc(keys: seq<string>, more: seq<string>, k: string)
    ensures AddMissing(keys, more + [k])
         == if k in AddMissing(keys, more) then AddMissing(keys, more) else AddMissing(keys, more) + [k]
    decreases |more|
  {
    if more == [] {
      assert [k][1..] == [];
    } else {
      assert (more + [k])[1..] == more[1..] + [k];
      AddMissingSnoc(if more[0] in keys then keys else keys + [more[0]], more[1..], k);
    }
  }

  /** The loops of `mergeSiteBlocks` over keys. */
  method AddMissingKeysTo(target: Node, keys: seq<string>)
    requires target.Valid()
    modifies target`keys
    ensures target.Valid() && target.Value() == old(target.Value()).(keys := AddMissing(old(target.keys), keys))
  {
    var existing := KeySet(target.keys);
    hide Node.Valid;
    for i := 0 to |keys|
      invariant target.Valid() && existing == set k | k in target.keys
      invariant target.keys == AddMissing(old(target.keys), keys[..i])
      invariant target.Value() == old(target.Value()).(keys := target.keys)
    {
      var key := keys[i];
      AddMissingSnoc(old(target.keys), keys[..i], key);
      assert keys[..i + 1] == keys[..i] + [key];
      if key in existing {
        continue;
      }
      target.AddKeys([key]);
      existing := existing + {key};
    }
    assert keys[..|keys|] == keys;
  }

  /** `mergeSiteBlocks`. */
  method MergeSiteBlocks(target: Node, incoming: Node)
    requires target.Valid() && incoming.Valid() && target.footprint !! incoming.footprint
    modifies target.footprint, incoming.footprint
    ensures target.Valid() && target.footprint <= old(target.footprint + incoming.footprint)
    ensures target.Value() == MergeSite(old(target.Value()), old(incoming.Value()))
  {
    ValueOfNode(target);
    ValueOfNode(incoming);
    hide Merge, AddMissing;
    ghost var t, b := target.Value(), incoming.Value();
    AddMissingKeysTo(target, incoming.keys);
    MergeNode(target, incoming);
  }

  // ---------- the sites an incoming block overlaps ----------

  lemma NoneMatching(nodes: seq<Node>, f: Forest, t: Block, incoming: Block)
    requires |nodes| == |f| && Matching(nodes, f, incoming) == []
    ensures MergeExtras(t, f, incoming) == t && Others(f, incoming) == f
  {}

  lemma AllMissed(f: Forest, incoming: Block)
    requires Others(f, incoming) == f
    ensures FirstOverlap(f, incoming) == |f|
  {
    OthersMember(f, incoming);
    assert forall c :: c in f ==> !Overlaps(c, incoming);
  }

  lemma MergeSitesSnoc(f: Forest, g: Forest, b: Block)
    ensures MergeSites(f, g + [b]) == Absorb(MergeSites(f, g), b)
    decreases |g|
  {
    if g == [] {
      assert (g + [b])[1..] == [];
    } else {
      assert (g + [b])[1..] == g[1..] + [b];
      MergeSitesSnoc(Absorb(f, g[0]), g[1..], b);
    }
  }

  lemma FirstMatching(nodes: seq<Node>, f: Forest, incoming: Block)
    requires |nodes| == |f| && Matching(nodes, f, incoming) != []
    ensures var p := FirstOverlap(f, incoming);
      && p < |f| && Matching(nodes, f, incoming)[0] == nodes[p]
      && Matching(nodes, f, incoming)[1..] == Matching(nodes[p + 1..], f[p + 1..], incoming)
  {
    hide Overlaps;
    if !Overlaps(f[0], incoming) {
      FirstMatching(nodes[1..], f[1..], incoming);
      assert [] + Matching(nodes[1..], f[1..], incoming) == Matching(nodes[1..], f[1..], incoming);
    }
  }

  lemma NoMatchBefore(nodes: seq<Node>, f: Forest, incoming: Block)
    requires |nodes| == |f| && forall j :: 0 <= j < |f| ==> !Overlaps(f[j], incoming)
    ensures Matching(nodes, f, incoming) == []
  {}

  /** Taking the first match out leaves the other matches. */
  lemma NextMatching(nodes: seq<Node>, f: Forest, incoming: Block)
    requires |nodes| == |f| && Matching(nodes, f, incoming) != []
    ensures var p := FirstOverlap(f, incoming);
      && p < |f| && Matching(nodes, f, incoming)[0] == nodes[p]
      && Matching(Without(nodes, p), Without(f, p), incoming) == Matching(nodes, f, incoming)[1..]
  {
    FirstMatching(nodes, f, incoming);
    var p := FirstOverlap(f, incoming);
    hide Overlaps;
    NoMatchBefore(nodes[..p], f[..p], incoming);
    MatchingConcat(nodes[..p], f[..p], nodes[p + 1..], f[p + 1..], incoming);
  }

  /** Merging the first extra site and taking it out does not change the outcome. */
  lemma ExtrasStep(t: Block, f: Forest, incoming: Block)
    requires FirstOverlap(f, incoming) < |f|
    ensures var p := FirstOverlap(f, incoming);
      && MergeExtras(t, f, incoming) == MergeExtras(MergeSite(t, f[p]), Without(f, p), incoming)
      && Others(f, incoming) == Others(Without(f, p), incoming)
    decreases |f|
  {
    hide Overlaps, MergeSite;
    var p := FirstOverlap(f, incoming);
    if p == 0 {
      assert Without(f, 0) == f[1..];
    } else {
      ExtrasStep(t, f[1..], incoming);
      assert Without(f, p)[1..] == Without(f[1..], p - 1);
    }
  }

  // ---------- one round ----------

  /** Merges an incoming site into a site of the container. */
  method MergeSiteAt(base: Node, target: Node, ghost i: nat, incoming: Node)
    requires base.Valid() && incoming.Valid() && base.footprint !! incoming.footprint
    requires i < |base.children| && base.children[i] == target
    modifies base.footprint, incoming.footprint
    ensures base.Valid() && base.footprint <= old(base.footprint + incoming.footprint)
    ensures base.children == old(base.children)
    ensures var f := old(base.Value()).children;
      && |f| == |base.children|
      && base.Value() == old(base.Value()).(children := f[i := MergeSite(f[i], old(incoming.Value()))])
  {
    hide MergeSite, Node.Value, Region;
    ghost var extra, children, f := incoming.footprint, base.children, Values(base.children);
    ghost var prints := Footprints(children);
    ghost var nodes := prints[i := prints[i] + extra];
    ghost var merged := MergeSite(f[i], incoming.Value());
    FootprintsApart(base, i, extra);
    PartsOf(base);
    MergeSiteBlocks(target, incoming);
    forall j | 0 <= j < |children|
      ensures children[j].Valid() && children[j].footprint <= nodes[j] && children[j].Value() == f[i := merged][j]
    {
      if j != i {
        assert children[j].footprint == prints[j];
      }
    }
    base.footprint := base.footprint + extra;
    Assemble(base, f[i := merged], nodes);
  }

  /** Two children share their footprints with one of them, which leaves the other one out. */
  lemma JoinedPrints(prints: seq<set<Node>>, i: nat, p: nat, all: set<Node>)
    requires i < p < |prints| && Disjoint(prints) && forall j :: 0 <= j < |prints| ==> prints[j] <= all
    ensures var nodes := Without(prints[i := prints[i] + prints[p]], p);
            Disjoint(nodes) && forall j :: 0 <= j < |nodes| ==> nodes[j] <= all
  {}

  lemma AssembleWithout(n: Node, children: seq<Node>, p: nat, f: Forest, nodes: seq<set<Node>>)
    requires n in n.footprint && p < |children| == |f| == |nodes| && n.children == Without(children, p)
    requires Disjoint(Without(nodes, p))
    requires forall j :: 0 <= j < |Without(nodes, p)| ==> Without(nodes, p)[j] <= n.footprint - {n}
    requires forall j :: 0 <= j < |children| && j != p ==>
      children[j].Valid() && children[j].footprint <= nodes[j] && children[j].Value() == f[j]
    ensures n.Valid() && n.Value() == Block(n.order, n.keys, Without(f, p))
  {
    hide Node.Valid, Node.Value, Disjoint;
    var rest, restNodes := Without(f, p), Without(nodes, p);
    forall j | 0 <= j < |n.children|
      ensures n.children[j].Valid() && n.children[j].footprint <= restNodes[j] && n.children[j].Value() == rest[j]
    {
      assert n.children[j] == children[if j < p then j else j + 1];
    }
    Assemble(n, rest, restNodes);
  }

  lemma ExtraParts(base: Node, i: nat, p: nat)
    requires base.Valid() && i < p < |base.children|
    ensures base in base.footprint && AllValid(base.children)
    ensures base.Value() == Block(base.order, base.keys, Values(base.children))
    ensures forall j :: 0 <= j < |base.children| ==> base.children[j].Valid()
    ensures forall j, k :: 0 <= j < k < |base.children| ==> base.children[j] != base.children[k]
    ensures var prints := Footprints(base.children);
      && prints[i] !! prints[p] && prints[i] + prints[p] <= base.footprint
      && (forall j :: 0 <= j < |prints| ==> base !in prints[j])
      && (forall j :: 0 <= j < |prints| && j != i && j != p ==> prints[j] !! prints[i] + prints[p])
      && var nodes := Without(prints[i := prints[i] + prints[p]], p);
        Disjoint(nodes) && forall j :: 0 <= j < |nodes| ==> nodes[j] <= base.footprint - {base}
  {
    PartsOf(base);
    ChildrenDiffer(base);
    JoinedPrints(Footprints(base.children), i, p, base.footprint - {base});
  }

  /** Merges one site of the container into an earlier one, and removes it. */
  method AbsorbExtra(base: Node, target: Node, ghost i: nat, extra: Node, ghost p: nat)
    requires base.Valid() && i < p < |base.children| && base.children[i] == target && base.children[p] == extra
    modifies base.footprint
    ensures base.Valid() && base.footprint <= old(base.footprint)
    ensures base.children == Without(old(base.children), p)
    ensures var f := old(base.Value()).children;
      && |f| == |old(base.children)|
      && base.Value() == old(base.Value()).(children := Without(f[i := MergeSite(f[i], f[p])], p))
  {
    hide *;
    ExtraParts(base, i, p);
    ghost var children, f, prints := base.children, Values(base.children), Footprints(base.children);
    ghost var merged := MergeSite(f[i], f[p]);
    MergeSiteBlocks(target, extra);
    ghost var h, nodes := f[i := merged], prints[i := prints[i] + prints[p]];
    forall j | 0 <= j < |children| && j != p
      ensures children[j].Valid() && children[j].footprint <= nodes[j] && children[j].Value() == h[j]
    {
      if j != i {
        assert children[j].footprint == prints[j];
      }
    }
    var newItems, q := WithoutNode(base.children, extra);
    assert newItems == Without(children, p);
    base.children := newItems;
    AssembleWithout(base, children, p, h, nodes);
  }

  /** The children of the container while the extra sites are merged into the one at `i`. */
  ghost predicate Joining(children: seq<Node>, f: Forest, target: Node, i: nat, matches: seq<Node>, b: Block,
      all: Block, others: Forest)
  {
    && |children| == |f| && i < |f| && children[i] == target
    && MergeExtras(f[i], f[i + 1..], b) == all && Others(f[i + 1..], b) == others
    && matches == Matching(children[i + 1..], f[i + 1..], b)
  }

  /** The next extra site in the container. */
  lemma JoiningNext(children: seq<Node>, f: Forest, target: Node, i: nat, matches: seq<Node>, b: Block,
      all: Block, others: Forest)
    returns (p: nat)
    requires Joining(children, f, target, i, matches, b, all, others) && matches != []
    ensures i < p < |f| && children[p] == matches[0]
    ensures var g := Without(f[i := MergeSite(f[i], f[p])], p);
      Joining(Without(children, p), g, target, i, matches[1..], b, all, others) && g[..i] == f[..i]
  {
    hide MergeExtras, MergeSite, Others, Overlaps, Matching;
    NextMatching(children[i + 1..], f[i + 1..], b);
    ExtrasStep(f[i], f[i + 1..], b);
    var q := FirstOverlap(f[i + 1..], b);
    p := i + 1 + q;
    var g := Without(f[i := MergeSite(f[i], f[p])], p);
    assert Without(children, p)[i + 1..] == Without(children[i + 1..], q);
    assert g[i + 1..] == Without(f[i + 1..], q);
  }

  lemma JoiningStarts(children: seq<Node>, f: Forest, b: Block)
    requires |children| == |f| && Matching(children, f, b) != []
    ensures var i, matches := FirstOverlap(f, b), Matching(children, f, b);
      && i < |f| && children[i] == matches[0]
      && var all := MergeSite(f[i], b);
        Joining(children, f[i := all], matches[0], i, matches[1..], b,
          MergeExtras(all, f[i + 1..], b), Others(f[i + 1..], b))
  {
    hide MergeExtras, MergeSite, Others, Overlaps;
    FirstMatching(children, f, b);
    var i := FirstOverlap(f, b);
    assert f[i := MergeSite(f[i], b)][i + 1..] == f[i + 1..];
  }

  lemma JoiningEnds(children: seq<Node>, f: Forest, target: Node, i: nat, b: Block, all: Block, others: Forest)
    requires Joining(children, f, target, i, [], b, all, others)
    ensures f == f[..i] + [all] + others
  {
    NoneMatching(children[i + 1..], f[i + 1..], f[i], b);
  }

  /** What happens when an incoming site overlaps sites of the container. */
  method JoinSites(base: Node, block: Node, matches: seq<Node>)
    requires base.Valid() && block.Valid() && base.footprint !! block.footprint
    requires matches == Matching(base.children, base.Value().children, block.Value()) && matches != []
    requires IsSite(block.Value())
    modifies base.footprint, block.footprint
    ensures base.Valid() && base.footprint <= old(base.footprint + block.footprint)
    ensures base.Value() == old(base.Value()).(children := Absorb(old(base.Value()).children, old(block.Value())))
  {
    ghost var f, b := base.Value().children, block.Value();
    ValueOfNode(base);
    JoiningStarts(base.children, f, b);
    ghost var i := FirstOverlap(f, b);
    ghost var rest := f[i + 1..];
    ghost var all, others := MergeExtras(MergeSite(f[i], b), rest, b), Others(rest, b);
    ghost var result := Absorb(f, b);
    assert result == f[..i] + [all] + others;
    hide Node.Value, Node.Valid, Joining, IsSite, Absorb, Matching, MergeExtras, MergeSite, Others, FirstOverlap;
    MergeSiteAt(base, matches[0], i, block);
    for k := 1 to |matches|
      invariant base.Valid() && base.footprint <= old(base.footprint + block.footprint)
      invariant base.Value() == old(base.Value()).(children := base.Value().children)
      invariant Joining(base.children, base.Value().children, matches[0], i, matches[k..], b, all, others)
      invariant i <= |base.Value().children| && base.Value().children[..i] == f[..i]
    {
      ghost var p := JoiningNext(base.children, base.Value().children, matches[0], i, matches[k..], b, all, others);
      AbsorbExtra(base, matches[0], i, matches[k], p);
      assert matches[k..][1..] == matches[k + 1..];
    }
    assert matches[|matches|..] == [];
    JoiningEnds(base.children, base.Value().children, matches[0], i, b, all, others);
  }

  /** Merges a container that holds just one block. */
  method MergeOnly(base: Node, block: Node)
    requires base.Valid() && block.Valid() && base.footprint !! block.footprint
    modifies base.footprint, block.footprint
    ensures base.Valid() && base.footprint <= old(base.footprint + block.footprint)
    ensures base.Value() == old(base.Value()).(children := Merge(old(base.Value()).children, [old(block.Value())]))
  {
    hide Node.Value, Node.Valid, Merge;
    var one := new Node();
    ValueOfNode(one);
    assert one.Value().children == [];
    one.AddBlock(block);
    assert one.Value().children == [block.Value()];
    MergeNode(base, one);
  }

  lemma AbsorbAlone(f: Forest, b: Block)
    ensures !IsSite(b) || FirstOverlap(f, b) == |f| ==> Absorb(f, b) == Merge(f, [b])
  {}

  /** One round of `mergeCaddyfile` with `MergeSites` on. */
  method AbsorbNode(base: Node, block: Node)
    requires base.Valid() && block.Valid() && base.footprint !! block.footprint
    modifies base.footprint, block.footprint
    ensures base.Valid() && base.footprint <= old(base.footprint + block.footprint)
    ensures base.Value() == old(base.Value()).(children := Absorb(old(base.Value()).children, old(block.Value())))
  {
    hide *;
    ValueOfNode(base);
    ghost var f, b := base.Value().children, block.Value();
    AbsorbAlone(f, b);
    if IsSiteNode(block) {
      var matches := FindOverlappingSiteBlocks(base, block);
      if |matches| > 0 {
        JoinSites(base, block, matches);
        return;
      }
      NoneMatching(base.children, f, b, b);
      AllMissed(f, b);
    }
    MergeOnly(base, block);
  }

  /** One round of `mergeCaddyfile` leaves the later blocks alone. */
  method AbsorbNext(base: Node, blocks: seq<Node>, i: nat, ghost g: Forest, ghost prints: seq<set<Node>>,
      ghost used: set<Node>)
    requires base.Valid() && base.footprint <= used && i < |blocks| && Waiting(blocks, i, g, prints, used)
    modifies base.footprint, prints[i]
    ensures base.Valid() && base.footprint <= used + prints[i] && Waiting(blocks, i + 1, g, prints, used + prints[i])
    ensures base.Value() == old(base.Value()).(children := Absorb(old(base.Value()).children, g[i]))
  {
    hide Node.Valid, Node.Value, Region, Absorb;
    AbsorbNode(base, blocks[i]);
  }

  /** The loop of `mergeCaddyfile` with `MergeSites` on. */
  method AbsorbEach(base: Node, incoming: Node)
    requires base.Valid() && incoming.Valid() && base.footprint !! incoming.footprint
    modifies base.footprint, incoming.footprint
    ensures base.Valid() && base.footprint <= old(base.footprint + incoming.footprint)
    ensures base.Value()
         == old(base.Value()).(children := MergeSites(old(base.Value()).children, old(incoming.Value()).children))
  {
    hide *;
    AllWaiting(incoming, base.footprint);
    var blocks := incoming.children;
    ghost var f, g, prints, used := base.Value().children, Values(blocks), Footprints(blocks), base.footprint;
    ghost var all := base.footprint + incoming.footprint;
    assert g[..0] == [] && g[..|g|] == g;
    NoIncoming(f);
    for i := 0 to |blocks|
      invariant base.Valid() && base.footprint <= used <= all
      invariant |prints| == |g| == |blocks| && Waiting(blocks, i, g, prints, used)
      invariant base.Value() == old(base.Value()).(children := MergeSites(f, g[..i]))
    {
      MergeSitesSnoc(f, g[..i], g[i]);
      assert g[..i + 1] == g[..i] + [g[i]];
      assert prints[i] in prints;
      AbsorbNext(base, blocks, i, g, prints, used);
      used := used + prints[i];
    }
  }

  lemma NoIncoming(f: Forest)
    ensures MergeSites(f, []) == f
  {}

  /** `mergeCaddyfile`. */
  method MergeCaddyfile(base: Node, incoming: Node, mergeSites: bool)
    requires base.Valid() && incoming.Valid() && base.footprint !! incoming.footprint
    modifies base.footprint, incoming.footprint
    ensures base.Valid() && base.footprint <= old(base.footprint + incoming.footprint)
    ensures base.Value() == old(base.Value()).(children :=
      if mergeSites then MergeSites(old(base.Value()).children, old(incoming.Value()).children)
      else Merge(old(base.Value()).children, old(incoming.Value()).children))
  {
    hide MergeSites, Merge, Node.Value;
    if !mergeSites {
      MergeNode(base, incoming);
    } else {
      AbsorbEach(base, incoming);
    }
  }
}
