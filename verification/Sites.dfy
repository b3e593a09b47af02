/** `mergeCaddyfile` of `generator/generator.go` with `MergeSites` on, on values. */
module Sites {
  import opened Text
  import opened Tree
  import opened BlockOrder
  import opened Merging
  import opened Components

  // ---------- merging sites ----------

  predicate IsSite(b: Block) {
    !b.IsGlobal() && !b.IsSnippet() && !b.IsMatcher()
  }

  /** The keys of `b` that `a` has as well. */
  function SharedKeys(a: seq<string>, b: seq<string>): seq<string> {
    if b == [] then [] else (if b[0] in a then [b[0]] else []) + SharedKeys(a, b[1..])
  }

  /** An existing site that has an address of the incoming block. */
  predicate Overlaps(existing: Block, incoming: Block) {
    IsSite(existing) && SharedKeys(existing.keys, incoming.keys) != []
  }

  /** `keys`, and those of `more` that are not there yet. */
  function AddMissing(keys: seq<string>, more: seq<string>): seq<string>
    decreases |more|
  {
    if more == [] then keys
    else AddMissing(if more[0] in keys then keys else keys + [more[0]], more[1..])
  }

  function MergeSite(target: Block, b: Block): Block {
    Block(target.order, AddMissing(target.keys, b.keys), Merge(target.children, b.children))
  }

  /** The target with all sites of `rest` that overlap the incoming block. */
  function MergeExtras(target: Block, rest: Forest, incoming: Block): Block
    decreases |rest|
  {
    if rest == [] then target
    else MergeExtras(if Overlaps(rest[0], incoming) then MergeSite(target, rest[0]) else target, rest[1..], incoming)
  }

  /** The blocks that do not overlap the incoming block. */
  function Others(f: Forest, incoming: Block): Forest {
    if f == [] then [] else (if Overlaps(f[0], incoming) then [] else [f[0]]) + Others(f[1..], incoming)
  }

  function FirstOverlap(f: Forest, incoming: Block): (i: nat)
    ensures i <= |f|
    ensures i < |f| ==> Overlaps(f[i], incoming)
    ensures forall j :: 0 <= j < i ==> !Overlaps(f[j], incoming)
  {
    if f == [] || Overlaps(f[0], incoming) then 0 else 1 + FirstOverlap(f[1..], incoming)
  }

  /** One round of `mergeCaddyfile`. */
  function Absorb(f: Forest, b: Block): Forest {
    var i := FirstOverlap(f, b);
    if !IsSite(b) || i == |f| then Merge(f, [b])
    else f[..i] + [MergeExtras(MergeSite(f[i], b), f[i + 1..], b)] + Others(f[i + 1..], b)
  }

  function MergeSites(f: Forest, g: Forest): Forest
    decreases |g|
  {
    if g == [] then f else MergeSites(Absorb(f, g[0]), g[1..])
  }

  // ---------- the addresses of the sites ----------

  ghost function AddressesOf(b: Block): Addresses {
    set k | k in b.keys
  }

  /** The address sets of the sites. */
  ghost function Groups(f: Forest): set<Addresses> {
    if f == [] then {} else (if IsSite(f[0]) then {AddressesOf(f[0])} else {}) + Groups(f[1..])
  }

  /** No two sites have an address in common. */
  ghost predicate SitesApart(f: Forest) {
    forall i, j :: 0 <= i < j < |f| && IsSite(f[i]) && IsSite(f[j]) ==> AddressesOf(f[i]) * AddressesOf(f[j]) == {}
  }

  lemma SharedKeysMember(a: seq<string>, b: seq<string>)
    ensures forall k :: k in SharedKeys(a, b) <==> k in a && k in b
  {}

  lemma OverlapsMeet(a: Block, b: Block)
    ensures Overlaps(a, b) <==> IsSite(a) && AddressesOf(a) * AddressesOf(b) != {}
  {
    SharedKeysMember(a.keys, b.keys);
    if SharedKeys(a.keys, b.keys) != [] {
      assert SharedKeys(a.keys, b.keys)[0] in AddressesOf(a) * AddressesOf(b);
    }
  }

  lemma AddMissingKeys(keys: seq<string>, more: seq<string>)
    ensures forall k :: k in AddMissing(keys, more) <==> k in keys || k in more
    ensures keys <= AddMissing(keys, more)
    decreases |more|
  {}

  /**
   A site that takes in another one keeps its order and its keys, in front; the keys that it did not have come
   behind them, each once, in the order in which they first appear.
   */
  lemma MergeSiteKeeps(target: Block, b: Block) returns (added: seq<string>)
    ensures MergeSite(target, b).order == target.order
    ensures MergeSite(target, b).keys == target.keys + added
    ensures forall k :: k in added <==> k in b.keys && k !in target.keys
    ensures forall i, j :: 0 <= i < j < |added| ==> FirstIndex(b.keys, added[i]) < FirstIndex(b.keys, added[j])
  {
    added := AddMissingAdds(target.keys, b.keys);
  }

  /** The first index of `k`, or the length. */
  function FirstIndex(keys: seq<string>, k: string): (i: nat)
    ensures i <= |keys| && (i < |keys| ==> keys[i] == k) && k !in keys[..i]
  {
    if keys == [] || keys[0] == k then 0
    else
      var i := FirstIndex(keys[1..], k);
      assert keys[..i + 1] == [keys[0]] + keys[1..][..i];
      i + 1
  }

  lemma {:induction false} AddMissingAdds(keys: seq<string>, more: seq<string>) returns (added: seq<string>)
    ensures AddMissing(keys, more) == keys + added
    ensures forall k :: k in added <==> k in more && k !in keys
    ensures forall i, j :: 0 <= i < j < |added| ==> FirstIndex(more, added[i]) < FirstIndex(more, added[j])
    decreases |more|
  {
    hide FirstIndex;
    if more == [] {
      added := [];
      assert keys + [] == keys;
    } else {
      var isNew := more[0] !in keys;
      var next := if isNew then keys + [more[0]] else keys;
      var rest := AddMissingAdds(next, more[1..]);
      added := (if isNew then [more[0]] else []) + rest;
      hide AddMissing;
      assert keys + [] == keys;
      Associative(keys, if isNew then [more[0]] else [], rest);
      assert more == [more[0]] + more[1..];
      forall i | 0 <= i < |rest| ensures rest[i] != more[0] {
        assert rest[i] in rest;
      }
      forall i | 0 <= i < |rest| ensures FirstIndex(more, rest[i]) == FirstIndex(more[1..], rest[i]) + 1 {
        FirstIndexTail(more, rest[i]);
      }
      FirstIndexHead(more);
    }
  }

  lemma FirstIndexTail(keys: seq<string>, k: string)
    requires keys != [] && keys[0] != k
    ensures FirstIndex(keys, k) == FirstIndex(keys[1..], k) + 1
  {}

  lemma FirstIndexHead(keys: seq<string>)
    requires keys != []
    ensures FirstIndex(keys, keys[0]) == 0
  {}

  /** Sites are the blocks that are no global options, snippets or named matchers. */
  lemma SitesRankLast(b: Block)
    ensures IsSite(b) <==> Rank(b) == 3
  {}

  lemma MergeSiteKeys(target: Block, b: Block)
    requires IsSite(target)
    ensures AddressesOf(MergeSite(target, b)) == AddressesOf(target) + AddressesOf(b)
    ensures IsSite(MergeSite(target, b))
  {
    AddMissingKeys(target.keys, b.keys);
  }

  lemma GroupsConcat(f: Forest, g: Forest)
    ensures Groups(f + g) == Groups(f) + Groups(g)
  {
    if f == [] {
      assert f + g == g;
    } else {
      assert (f + g)[1..] == f[1..] + g;
      GroupsConcat(f[1..], g);
    }
  }

  lemma GroupsMember(f: Forest)
    ensures forall e :: e in Groups(f) <==> exists b :: b in f && IsSite(b) && e == AddressesOf(b)
    ensures {} !in Groups(f)
  {
    if f != [] {
      GroupsMember(f[1..]);
      assert IsSite(f[0]) ==> f[0].keys[0] in AddressesOf(f[0]);
      assert forall b :: b in f <==> b == f[0] || b in f[1..];
    }
  }

  /** What the extra sites add to the target, and what is left of them. */
  lemma {:induction false} MergeExtrasGroups(target: Block, rest: Forest, b: Block)
    requires IsSite(target)
    ensures IsSite(MergeExtras(target, rest, b))
    ensures AddressesOf(MergeExtras(target, rest, b)) == AddressesOf(target) + Hit(Groups(rest), AddressesOf(b))
    ensures Groups(Others(rest, b)) == Missed(Groups(rest), AddressesOf(b))
    decreases |rest|
  {
    if rest != [] {
      var s := AddressesOf(b);
      OverlapsMeet(rest[0], b);
      if Overlaps(rest[0], b) {
        MergeSiteKeys(target, rest[0]);
        MergeExtrasGroups(MergeSite(target, rest[0]), rest[1..], b);
        assert Hit(Groups(rest), s) == AddressesOf(rest[0]) + Hit(Groups(rest[1..]), s);
        assert Others(rest, b) == Others(rest[1..], b);
      } else {
        MergeExtrasGroups(target, rest[1..], b);
        assert Others(rest, b) == [rest[0]] + Others(rest[1..], b);
        GroupsConcat([rest[0]], Others(rest[1..], b));
      }
    }
  }

  lemma MissedAll(f: Forest, b: Block)
    requires forall i :: 0 <= i < |f| ==> !Overlaps(f[i], b)
    ensures Missed(Groups(f), AddressesOf(b)) == Groups(f) && Hit(Groups(f), AddressesOf(b)) == {}
  {
    GroupsMember(f);
    forall e | e in Groups(f) ensures e * AddressesOf(b) == {} {
      var c :| c in f && IsSite(c) && e == AddressesOf(c);
      OverlapsMeet(c, b);
    }
  }

  lemma GroupsSplit(f: Forest, i: nat)
    requires i < |f|
    ensures Groups(f) == Groups(f[..i]) + Groups([f[i]]) + Groups(f[i + 1..])
  {
    hide Groups;
    assert f == f[..i] + ([f[i]] + f[i + 1..]);
    GroupsConcat(f[..i], [f[i]] + f[i + 1..]);
    GroupsConcat([f[i]], f[i + 1..]);
  }

  /** A site that overlaps no other one is added as it is; another block changes no site. */
  lemma MergeAlone(f: Forest, b: Block)
    requires IsSite(b) ==> FirstOverlap(f, b) == |f|
    ensures IsSite(b) ==> Merge(f, [b]) == f + [b]
    ensures !IsSite(b) ==>
      var i := FindFirst(f, b);
      && (i == |f| ==> Merge(f, [b]) == f + [b])
      && (i < |f| ==> !IsSite(f[i]) && !IsSite(Combine(f[i], b)) && Merge(f, [b]) == f[i := Combine(f[i], b)])
  {}

  lemma GroupsOfOne(b: Block)
    ensures Groups([b]) == if IsSite(b) then {AddressesOf(b)} else {}
  {
    assert [b][1..] == [];
  }

  lemma AloneGroups(f: Forest, b: Block)
    requires IsSite(b) ==> FirstOverlap(f, b) == |f|
    ensures Groups(Merge(f, [b])) == if IsSite(b) then Groups(f) + {AddressesOf(b)} else Groups(f)
  {
    MergeAlone(f, b);
    GroupsConcat(f, [b]);
    var k, g := FindFirst(f, b), Merge(f, [b]);
    GroupsOfOne(b);
    hide FirstOverlap, Groups, Merge, Combine, IsSite, AddressesOf;
    if !IsSite(b) && k < |f| {
      GroupsOfOne(f[k]);
      GroupsOfOne(Combine(f[k], b));
      GroupsSplit(f, k);
      GroupsSplit(g, k);
      assert g[..k] == f[..k] && g[k + 1..] == f[k + 1..];
    }
  }

  /** On address sets, a round of `mergeCaddyfile` joins the sets that meet the incoming one. */
  lemma AbsorbGroups(f: Forest, b: Block)
    ensures Groups(Absorb(f, b)) == if IsSite(b) then Join(Groups(f), AddressesOf(b)) else Groups(f)
  {
    var i, s := FirstOverlap(f, b), AddressesOf(b);
    if !IsSite(b) || i == |f| {
      AloneGroups(f, b);
      if i == |f| {
        MissedAll(f, b);
        assert s + {} == s;
      }
    } else {
      var target, rest := MergeSite(f[i], b), f[i + 1..];
      OverlapsMeet(f[i], b);
      MergeSiteKeys(f[i], b);
      MergeExtrasGroups(target, rest, b);
      MissedAll(f[..i], b);
      GroupsSplit(f, i);
      var all := MergeExtras(target, rest, b);
      AbsorbedGroups(f[..i], all, Others(rest, b));
      assert AddressesOf(all) == s + Hit(Groups(f), s);
    }
  }

  lemma AbsorbedGroups(before: Forest, b: Block, after: Forest)
    requires IsSite(b)
    ensures Groups(before + [b] + after) == Groups(before) + {AddressesOf(b)} + Groups(after)
  {
    GroupsConcat(before + [b], after);
    GroupsConcat(before, [b]);
    assert Groups([b]) == {AddressesOf(b)} + Groups([b][1..]);
  }

  // ---------- sites stay apart ----------

  /** No site of `f` has an address in common with one of `g`. */
  ghost predicate AllApart(f: Forest, g: Forest) {
    forall a, b :: a in f && b in g && IsSite(a) && IsSite(b) ==> AddressesOf(a) * AddressesOf(b) == {}
  }

  lemma AllApartConcat(f: Forest, g: Forest, h: Forest)
    ensures AllApart(f, g + h) <==> AllApart(f, g) && AllApart(f, h)
    ensures AllApart(f + g, h) <==> AllApart(f, h) && AllApart(g, h)
  {}

  lemma ApartConcat(f: Forest, g: Forest)
    ensures SitesApart(f + g) <==> SitesApart(f) && SitesApart(g) && AllApart(f, g)
  {
    hide IsSite, AddressesOf;
    if SitesApart(f + g) {
      forall i, j | 0 <= i < j < |f| && IsSite(f[i]) && IsSite(f[j])
        ensures AddressesOf(f[i]) * AddressesOf(f[j]) == {}
      {
        assert (f + g)[i] == f[i] && (f + g)[j] == f[j];
      }
      forall i, j | 0 <= i < j < |g| && IsSite(g[i]) && IsSite(g[j])
        ensures AddressesOf(g[i]) * AddressesOf(g[j]) == {}
      {
        assert (f + g)[|f| + i] == g[i] && (f + g)[|f| + j] == g[j];
      }
      forall i, j | 0 <= i < |f| && 0 <= j < |g| && IsSite(f[i]) && IsSite(g[j])
        ensures AddressesOf(f[i]) * AddressesOf(g[j]) == {}
      {
        assert (f + g)[i] == f[i] && (f + g)[|f| + j] == g[j];
      }
    }
  }

  lemma OthersMember(f: Forest, b: Block)
    ensures forall c :: c in Others(f, b) <==> c in f && !Overlaps(c, b)
  {}

  lemma OthersApart(f: Forest, b: Block)
    requires SitesApart(f)
    ensures SitesApart(Others(f, b))
  {
    if f != [] {
      assert f == [f[0]] + f[1..];
      ApartConcat([f[0]], f[1..]);
      OthersApart(f[1..], b);
      OthersMember(f[1..], b);
      ApartConcat([f[0]], Others(f[1..], b));
    }
  }

  /** Sites that share an address are the same one. */
  lemma SameSite(f: Forest, a: Block, b: Block, x: string)
    requires SitesApart(f) && a in f && b in f && IsSite(a) && IsSite(b) && x in a.keys && x in b.keys
    ensures a == b
  {
    assert x in AddressesOf(a) * AddressesOf(b);
    var i :| 0 <= i < |f| && f[i] == a;
    var j :| 0 <= j < |f| && f[j] == b;
    assert !(i < j) && !(j < i);
  }

  lemma HitMember(f: Forest, b: Block, x: string) returns (c: Block)
    requires x in Hit(Groups(f), AddressesOf(b))
    ensures c in f && Overlaps(c, b) && x in c.keys
  {
    var e :| e in Groups(f) && e * AddressesOf(b) != {} && x in e;
    GroupsMember(f);
    c :| c in f && IsSite(c) && e == AddressesOf(c);
    OverlapsMeet(c, b);
  }

  /** A site that does not overlap the incoming block shares nothing with what is joined. */
  lemma ApartFromJoined(f: Forest, b: Block, c: Block)
    requires SitesApart(f) && c in f && IsSite(c) && !Overlaps(c, b)
    ensures AddressesOf(c) * (AddressesOf(b) + Hit(Groups(f), AddressesOf(b))) == {}
  {
    OverlapsMeet(c, b);
    forall x | x in AddressesOf(c) ensures x !in AddressesOf(b) + Hit(Groups(f), AddressesOf(b)) {
      assert x in AddressesOf(b) <==> x in AddressesOf(c) * AddressesOf(b);
      if x in Hit(Groups(f), AddressesOf(b)) {
        var d := HitMember(f, b, x);
        SameSite(f, c, d, x);
        assert false;
      }
    }
  }

  lemma JoinedAddresses(f: Forest, b: Block)
    requires IsSite(b) && FirstOverlap(f, b) < |f|
    ensures var i := FirstOverlap(f, b);
            var all := MergeExtras(MergeSite(f[i], b), f[i + 1..], b);
            IsSite(all) && AddressesOf(all) == AddressesOf(b) + Hit(Groups(f), AddressesOf(b))
  {
    var i := FirstOverlap(f, b);
    OverlapsMeet(f[i], b);
    MergeSiteKeys(f[i], b);
    MergeExtrasGroups(MergeSite(f[i], b), f[i + 1..], b);
    MissedAll(f[..i], b);
    GroupsSplit(f, i);
  }

  lemma AloneApart(f: Forest, b: Block)
    requires SitesApart(f) && (IsSite(b) ==> FirstOverlap(f, b) == |f|)
    ensures SitesApart(Merge(f, [b]))
  {
    MergeAlone(f, b);
    ApartConcat(f, [b]);
    forall a | a in f && IsSite(a) && IsSite(b) ensures AddressesOf(a) * AddressesOf(b) == {} {
      OverlapsMeet(a, b);
    }
  }

  lemma JoinedApart(f: Forest, b: Block)
    requires SitesApart(f) && IsSite(b) && FirstOverlap(f, b) < |f|
    ensures SitesApart(Absorb(f, b))
  {
    hide *;
    var i := FirstOverlap(f, b);
    var before, all, rest := f[..i], MergeExtras(MergeSite(f[i], b), f[i + 1..], b), f[i + 1..];
    var others := Others(rest, b);
    AbsorbIs(f, b);
    SplitAt(f, i);
    ApartConcat(before, [f[i]] + rest);
    ApartConcat([f[i]], rest);
    OthersApart(rest, b);
    OneApart(all);
    OthersApartFrom(before, [f[i]] + rest, b);
    JoinedApartFrom(f, b, all);
    AllApartConcat(before, [all], others);
    ApartConcat(before, [all] + others);
    ApartConcat([all], others);
    Associative(before, [all], others);
  }

  lemma AbsorbIs(f: Forest, b: Block)
    requires IsSite(b) && FirstOverlap(f, b) < |f|
    ensures var i := FirstOverlap(f, b);
      Absorb(f, b) == f[..i] + [MergeExtras(MergeSite(f[i], b), f[i + 1..], b)] + Others(f[i + 1..], b)
  {}

  lemma OthersApartFrom(before: Forest, rest: Forest, b: Block)
    requires AllApart(before, rest) && rest != []
    ensures AllApart(before, Others(rest[1..], b))
  {
    OthersMember(rest[1..], b);
    hide Others, IsSite, AddressesOf;
    assert forall c :: c in rest[1..] ==> c in rest;
  }

  /** The joined site is apart from every block that was not joined. */
  lemma JoinedApartFrom(f: Forest, b: Block, all: Block)
    requires SitesApart(f) && IsSite(b) && FirstOverlap(f, b) < |f|
    requires var i := FirstOverlap(f, b); all == MergeExtras(MergeSite(f[i], b), f[i + 1..], b)
    ensures var i := FirstOverlap(f, b); AllApart(f[..i], [all]) && AllApart([all], Others(f[i + 1..], b))
  {
    var i := FirstOverlap(f, b);
    JoinedAddresses(f, b);
    OthersMember(f[i + 1..], b);
    hide IsSite, AddressesOf, MergeExtras, MergeSite, Hit, Overlaps, SitesApart, Others;
    forall c | (c in f[..i] || c in Others(f[i + 1..], b)) && IsSite(c)
      ensures AddressesOf(c) * AddressesOf(all) == {} && AddressesOf(all) * AddressesOf(c) == {}
    {
      ApartFromJoined(f, b, c);
    }
  }

  lemma OneApart(b: Block)
    ensures SitesApart([b])
  {}

  lemma AbsorbApart(f: Forest, b: Block)
    requires SitesApart(f)
    ensures SitesApart(Absorb(f, b))
  {
    if !IsSite(b) || FirstOverlap(f, b) == |f| {
      AloneApart(f, b);
    } else {
      JoinedApart(f, b);
    }
  }

  // ---------- the sites are the connected components ----------

  lemma ApartDisjoint(f: Forest)
    requires SitesApart(f)
    ensures PairwiseDisjoint(Groups(f))
  {
    GroupsMember(f);
    forall d, e | d in Groups(f) && e in Groups(f) && d != e ensures d * e == {} {
      var a :| a in f && IsSite(a) && d == AddressesOf(a);
      var b :| b in f && IsSite(b) && e == AddressesOf(b);
      var i :| 0 <= i < |f| && f[i] == a;
      var j :| 0 <= j < |f| && f[j] == b;
      assert i < j || j < i;
    }
  }

  /** A round of `mergeCaddyfile` links what the incoming block links, whatever comes later. */
  lemma AbsorbLinks(f: Forest, b: Block, later: set<Addresses>)
    ensures forall x, y :: Linked(Groups(Absorb(f, b)) + later, x, y)
                      <==> Linked(Groups(f) + Groups([b]) + later, x, y)
  {
    AbsorbGroups(f, b);
    assert [b][1..] == [];
    if IsSite(b) {
      assert b.keys[0] in AddressesOf(b);
      JoinLinks(Groups(f), AddressesOf(b), later);
      assert Groups([b]) == {AddressesOf(b)};
    } else {
      assert Groups(f) + Groups([b]) == Groups(f);
    }
  }

  /** Merging sites never changes what is linked, whether or not the sites of the base are apart. */
  lemma {:induction false} MergeSitesLinks(f: Forest, g: Forest)
    ensures forall x, y :: Linked(Groups(MergeSites(f, g)), x, y) <==> Linked(Groups(f) + Groups(g), x, y)
    decreases |g|
  {
    hide Linked, Absorb;
    if g == [] {
      assert Groups(f) + {} == Groups(f);
    } else {
      var b, rest := g[0], g[1..];
      AbsorbLinks(f, b, Groups(rest));
      MergeSitesLinks(Absorb(f, b), rest);
      assert Groups(f) + Groups([b]) + Groups(rest) == Groups(f) + Groups(g);
    }
  }

  lemma {:induction false} MergeSitesApart(f: Forest, g: Forest)
    requires SitesApart(f)
    ensures SitesApart(MergeSites(f, g))
    decreases |g|
  {
    hide SitesApart, Absorb;
    if g != [] {
      AbsorbApart(f, g[0]);
      MergeSitesApart(Absorb(f, g[0]), g[1..]);
    }
  }

  lemma AbsorbTransitive(f: Forest, b: Block)
    ensures Transitive(Groups(f)) ==> Transitive(Groups(Absorb(f, b)))
    ensures PairwiseDisjoint(Groups(f)) ==> PairwiseDisjoint(Groups(Absorb(f, b)))
  {
    AbsorbGroups(f, b);
    hide Transitive, PairwiseDisjoint, Groups, Absorb, Join, IsSite;
    if IsSite(b) {
      if Transitive(Groups(f)) {
        JoinTransitive(Groups(f), AddressesOf(b));
      }
      if PairwiseDisjoint(Groups(f)) {
        JoinDisjoint(Groups(f), AddressesOf(b));
      }
    }
  }

  lemma {:induction false} MergeSitesTransitive(f: Forest, g: Forest)
    ensures Transitive(Groups(f)) ==> Transitive(Groups(MergeSites(f, g)))
    ensures PairwiseDisjoint(Groups(f)) ==> PairwiseDisjoint(Groups(MergeSites(f, g)))
    decreases |g|
  {
    hide Absorb, Groups, Transitive, PairwiseDisjoint;
    if g != [] {
      AbsorbTransitive(f, g[0]);
      MergeSitesTransitive(Absorb(f, g[0]), g[1..]);
    }
  }

  /** Two addresses have a site in common exactly when they are linked by the given sites. */
  ghost predicate AreComponents(f: Forest, edges: set<Addresses>) {
    forall x, y :: Together(Groups(f), x, y) <==> Linked(edges, x, y)
  }

  /**
   After any incoming blocks the sites are the connected components of all sites under sharing an
   address: two addresses belong to the same one exactly when a chain of overlapping sites of the base
   and the incoming blocks leads from one to the other. Sites without common addresses stay apart.
   */
  lemma SitesAreComponents(f: Forest, g: Forest)
    requires Transitive(Groups(f))
    ensures AreComponents(MergeSites(f, g), Groups(f) + Groups(g))
    ensures SitesApart(f) ==> SitesApart(MergeSites(f, g))
    ensures PairwiseDisjoint(Groups(f)) ==> PairwiseDisjoint(Groups(MergeSites(f, g)))
  {
    hide Groups, SitesApart, Transitive, PairwiseDisjoint, Linked, Together;
    if SitesApart(f) {
      MergeSitesApart(f, g);
    }
    MergeSitesTransitive(f, g);
    MergeSitesLinks(f, g);
    TogetherLinked(Groups(MergeSites(f, g)));
  }

  /** This holds for all incoming blocks exactly when the sites of the base are components already. */
  lemma ComponentsExactly(f: Forest)
    ensures (forall g :: AreComponents(MergeSites(f, g), Groups(f) + Groups(g))) <==> Transitive(Groups(f))
  {
    hide Groups, Transitive, Linked, Together, MergeSites;
    if Transitive(Groups(f)) {
      forall g ensures AreComponents(MergeSites(f, g), Groups(f) + Groups(g)) {
        SitesAreComponents(f, g);
      }
    } else {
      var none: Forest := [];
      NoGroups(f);
      TogetherLinked(Groups(f));
      assert !AreComponents(MergeSites(f, none), Groups(f) + Groups(none));
    }
  }

  lemma NoGroups(f: Forest)
    ensures Groups(f) + Groups([]) == Groups(f) && MergeSites(f, []) == f
  {}

  // ---------- merging sites without harm ----------

  /** Whatever sites are joined, their children are merged without a second matcher doing harm. */
  predicate CleanSites(f: Forest, g: Forest)
    decreases |g|
  {
    g != [] ==> CleanAbsorb(f, g[0]) && CleanSites(Absorb(f, g[0]), g[1..])
  }

  predicate CleanAbsorb(f: Forest, b: Block) {
    var i := FirstOverlap(f, b);
    IsSite(b) && i < |f| ==>
      Clean(f[i].children, b.children) && CleanExtras(MergeSite(f[i], b), f[i + 1..], b)
  }

  predicate CleanExtras(target: Block, rest: Forest, incoming: Block)
    decreases |rest|
  {
    rest != [] ==>
      if Overlaps(rest[0], incoming) then
        Clean(target.children, rest[0].children) && CleanExtras(MergeSite(target, rest[0]), rest[1..], incoming)
      else CleanExtras(target, rest[1..], incoming)
  }

  /** No proxy directive of a site has a matcher-shaped key behind the matcher `*`. */
  predicate OrdinarySites(f: Forest) {
    forall b :: b in f && IsSite(b) ==> Ordinary(b.children)
  }

  lemma {:induction false} OrdinaryExtras(target: Block, rest: Forest, b: Block)
    requires OrdinarySites(rest)
    ensures CleanExtras(target, rest, b)
    ensures Ordinary(target.children) ==> Ordinary(MergeExtras(target, rest, b).children)
    decreases |rest|
  {
    hide Ordinary, Clean, Merge, SharedKeys, AddMissing;
    if rest != [] {
      assert forall c :: c in rest[1..] ==> c in rest;
      assert Overlaps(rest[0], b) ==> IsSite(rest[0]);
      hide IsSite;
      if Overlaps(rest[0], b) {
        OrdinaryClean(target.children, rest[0].children);
        if Ordinary(target.children) {
          OrdinaryMerge(target.children, rest[0].children);
        }
        OrdinaryExtras(MergeSite(target, rest[0]), rest[1..], b);
      } else {
        OrdinaryExtras(target, rest[1..], b);
      }
    }
  }

  lemma OrdinaryAbsorb(f: Forest, b: Block)
    requires OrdinarySites(f) && OrdinarySites([b])
    ensures CleanAbsorb(f, b) && OrdinarySites(Absorb(f, b))
  {
    var i := FirstOverlap(f, b);
    assert b in [b];
    hide Ordinary, Clean, MergeExtras, CleanExtras;
    if !IsSite(b) || i == |f| {
      MergeAlone(f, b);
    } else {
      var rest := f[i + 1..];
      OrdinaryClean(f[i].children, b.children);
      OrdinaryMerge(f[i].children, b.children);
      OrdinaryExtras(MergeSite(f[i], b), rest, b);
      OthersMember(rest, b);
      assert forall c :: c in f[..i] || c in rest ==> c in f;
    }
  }

  /** Sites with ordinary directives are merged without harm. */
  lemma {:induction false} OrdinarySitesClean(f: Forest, g: Forest)
    requires OrdinarySites(f) && OrdinarySites(g)
    ensures CleanSites(f, g)
    decreases |g|
  {
    hide CleanAbsorb, Absorb, Ordinary, IsSite;
    if g != [] {
      assert forall c :: c in [g[0]] || c in g[1..] ==> c in g;
      OrdinaryAbsorb(f, g[0]);
      OrdinarySitesClean(Absorb(f, g[0]), g[1..]);
    }
  }
}
