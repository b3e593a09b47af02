/** What the merged sites serve: every directive of the sites that were joined, for all their addresses. */
module Serving {
  import opened Text
  import opened Tree
  import opened Merging
  import opened Components
  import opened Sites

  // ---------- what the sites contain ----------

  /** A site with address `x` has a directive at path `p`. */
  ghost predicate Serves(f: Forest, x: string, p: Path) {
    exists b :: b in f && IsSite(b) && x in b.keys && p in Paths(b.children)
  }

  lemma MergeExtrasSite(target: Block, rest: Forest, b: Block)
    requires IsSite(target) && CleanExtras(target, rest, b)
    ensures var all := MergeExtras(target, rest, b);
            && Paths(target.children) <= Paths(all.children)
            && (forall c :: c in rest && Overlaps(c, b) ==> Paths(c.children) <= Paths(all.children))
            && forall p :: p in Paths(all.children) ==>
              p in Paths(target.children) || exists c :: c in rest && Overlaps(c, b) && p in Paths(c.children)
    decreases |rest|
  {
    if rest != [] {
      assert forall c :: c in rest <==> c == rest[0] || c in rest[1..];
      if Overlaps(rest[0], b) {
        PathsMerge(target.children, rest[0].children);
        MergeSiteKeys(target, rest[0]);
        MergeExtrasSite(MergeSite(target, rest[0]), rest[1..], b);
      } else {
        MergeExtrasSite(target, rest[1..], b);
      }
    }
  }

  lemma HitKeys(f: Forest, b: Block)
    ensures forall x :: x in Hit(Groups(f), AddressesOf(b)) <==> exists c :: c in f && Overlaps(c, b) && x in c.keys
  {
    GroupsMember(f);
    forall x ensures x in Hit(Groups(f), AddressesOf(b)) <==> exists c :: c in f && Overlaps(c, b) && x in c.keys {
      if x in Hit(Groups(f), AddressesOf(b)) {
        var c := HitMember(f, b, x);
      }
      if c :| c in f && Overlaps(c, b) && x in c.keys {
        OverlapsMeet(c, b);
        assert x in AddressesOf(c) && AddressesOf(c) in Groups(f);
      }
    }
  }

  /** Which blocks are joined, and which ones stay. */
  lemma OverlapSplit(f: Forest, b: Block)
    requires FirstOverlap(f, b) < |f|
    ensures var i := FirstOverlap(f, b);
      && (forall c :: c in f && Overlaps(c, b) <==> c == f[i] || (c in f[i + 1..] && Overlaps(c, b)))
      && (forall c :: c in f && !Overlaps(c, b) <==> c in f[..i] || c in Others(f[i + 1..], b))
  {
    var i := FirstOverlap(f, b);
    hide Overlaps;
    OthersMember(f[i + 1..], b);
    assert f == f[..i] + [f[i]] + f[i + 1..];
    assert forall c :: c in f <==> c in f[..i] || c == f[i] || c in f[i + 1..];
  }

  /** What a round of `mergeCaddyfile` makes of the sites it joins. */
  lemma JoinedSite(f: Forest, b: Block) returns (all: Block)
    requires IsSite(b) && FirstOverlap(f, b) < |f| && CleanAbsorb(f, b)
    ensures forall c :: c in Absorb(f, b) <==> c == all || (c in f && !Overlaps(c, b))
    ensures IsSite(all)
    ensures forall x :: x in all.keys <==> x in b.keys || exists c :: c in f && Overlaps(c, b) && x in c.keys
    ensures forall p :: p in Paths(all.children) <==>
      p in Paths(b.children) || exists c :: c in f && Overlaps(c, b) && p in Paths(c.children)
  {
    var i := FirstOverlap(f, b);
    var target, rest := MergeSite(f[i], b), f[i + 1..];
    all := MergeExtras(target, rest, b);
    OverlapSplit(f, b);
    PathsMerge(f[i].children, b.children);
    MergeSiteKeys(f[i], b);
    MergeExtrasSite(target, rest, b);
    JoinedAddresses(f, b);
    HitKeys(f, b);
    hide IsSite, Overlaps, MergeSite, MergeExtras, Others, Hit, Groups, Paths, FirstOverlap, Merge, Clean, CleanExtras;
    assert forall x :: x in all.keys <==> x in AddressesOf(all);
    assert forall c :: c in Absorb(f, b) <==> c in f[..i] || c == all || c in Others(rest, b);
  }

  ghost predicate ServedByOne(f: Forest, g: Forest, x: string, p: Path) {
    Serves(f, x, p) || Serves(g, x, p)
  }

  /** Some address linked to `x` had the directive before. */
  ghost predicate ServedLinked(f: Forest, g: Forest, edges: set<Addresses>, x: string, p: Path) {
    exists y :: Linked(edges, x, y) && ServedByOne(f, g, y, p)
  }

  lemma SiteServes(f: Forest, b: Block, x: string, p: Path)
    requires b in f && IsSite(b) && x in b.keys && p in Paths(b.children)
    ensures Serves(f, x, p)
  {}

  lemma SiteTogether(f: Forest, b: Block, x: string, y: string)
    requires b in f && IsSite(b) && x in b.keys && y in b.keys
    ensures Linked(Groups(f), x, y)
  {
    GroupsMember(f);
    assert x in AddressesOf(b) && y in AddressesOf(b);
    LinkedByOne(Groups(f), AddressesOf(b), x, y);
  }

  /** A block that is not joined with any site. */
  lemma AloneSites(f: Forest, b: Block)
    requires IsSite(b) ==> FirstOverlap(f, b) == |f|
    ensures forall c :: IsSite(c) ==> (c in Merge(f, [b]) <==> c in f || c == b)
    ensures IsSite(b) ==> forall c :: c in f ==> !Overlaps(c, b)
  {
    MergeAlone(f, b);
    var g := Merge(f, [b]);
    forall c | IsSite(c) ensures c in g <==> c in f || c == b {
      var k := FindFirst(f, b);
      if !IsSite(b) && k < |f| && c in f {
        var j :| 0 <= j < |f| && f[j] == c;
        assert g[j] == c;
      }
    }
  }

  lemma AloneServes(f: Forest, b: Block)
    requires IsSite(b) ==> FirstOverlap(f, b) == |f|
    ensures forall x, p :: Serves(Merge(f, [b]), x, p) <==> ServedByOne(f, [b], x, p)
  {
    var g := Merge(f, [b]);
    AloneSites(f, b);
    hide IsSite, Merge, Paths, Overlaps;
    forall x, p ensures Serves(g, x, p) <==> ServedByOne(f, [b], x, p) {
      if Serves(g, x, p) {
        var c :| c in g && IsSite(c) && x in c.keys && p in Paths(c.children);
        assert c in f || c in [b];
      }
      if ServedByOne(f, [b], x, p) {
        var c :| (c in f || c in [b]) && IsSite(c) && x in c.keys && p in Paths(c.children);
        assert c in g;
      }
    }
  }

  lemma JoinedServes(f: Forest, b: Block)
    requires IsSite(b) && FirstOverlap(f, b) < |f| && CleanAbsorb(f, b)
    ensures forall x, p :: ServedByOne(f, [b], x, p) ==> Serves(Absorb(f, b), x, p)
    ensures forall x, p :: Serves(Absorb(f, b), x, p) ==> ServedLinked(f, [b], Groups(Absorb(f, b)), x, p)
  {
    var g := Absorb(f, b);
    var all := JoinedSite(f, b);
    assert forall c :: IsSite(c) ==> c.keys != [];
    hide Absorb, Linked, Groups, IsSite, Paths, CleanAbsorb;
    assert forall c :: Overlaps(c, b) ==> IsSite(c);
    forall x, p | ServedByOne(f, [b], x, p) ensures Serves(g, x, p) {
      var c :| (c in f || c in [b]) && IsSite(c) && x in c.keys && p in Paths(c.children);
      SiteServes(g, if c == b || Overlaps(c, b) then all else c, x, p);
    }
    forall x, p | Serves(g, x, p) ensures ServedLinked(f, [b], Groups(g), x, p) {
      var c :| c in g && IsSite(c) && x in c.keys && p in Paths(c.children);
      if c != all {
        SiteTogether(g, c, x, x);
        SiteServes(f, c, x, p);
      } else {
        var d :| (d == b || (d in f && Overlaps(d, b))) && p in Paths(d.children);
        var y := d.keys[0];
        SiteTogether(g, all, x, y);
        SiteServes(if d == b then [b] else f, d, y, p);
      }
    }
  }

  lemma AbsorbServes(f: Forest, b: Block)
    requires CleanAbsorb(f, b)
    ensures forall x, p :: ServedByOne(f, [b], x, p) ==> Serves(Absorb(f, b), x, p)
    ensures forall x, p :: Serves(Absorb(f, b), x, p) ==> ServedLinked(f, [b], Groups(Absorb(f, b)), x, p)
  {
    if !IsSite(b) || FirstOverlap(f, b) == |f| {
      AloneServes(f, b);
      hide Linked, Groups;
      forall x, p | Serves(Absorb(f, b), x, p) ensures ServedLinked(f, [b], Groups(Absorb(f, b)), x, p) {
        var c :| c in Absorb(f, b) && IsSite(c) && x in c.keys && p in Paths(c.children);
        SiteTogether(Absorb(f, b), c, x, x);
      }
    } else {
      JoinedServes(f, b);
    }
  }

  lemma ServesCons(g: Forest, x: string, p: Path)
    requires g != []
    ensures Serves(g, x, p) <==> ServedByOne([g[0]], g[1..], x, p)
  {}

  /** Directives stay where they are, or move along with a linked address. */
  lemma {:induction false} MergeSitesServes(f: Forest, g: Forest)
    requires CleanSites(f, g)
    ensures forall x, p :: ServedByOne(f, g, x, p) ==> Serves(MergeSites(f, g), x, p)
    ensures forall x, p :: Serves(MergeSites(f, g), x, p) ==> ServedLinked(f, g, Groups(f) + Groups(g), x, p)
    decreases |g|
  {
    hide Linked, Absorb, Paths, CleanAbsorb;
    var edges := Groups(f) + Groups(g);
    if g == [] {
      assert edges == Groups(f);
      forall x, p | Serves(f, x, p) ensures ServedLinked(f, g, edges, x, p) {
        var c :| c in f && IsSite(c) && x in c.keys && p in Paths(c.children);
        SiteTogether(f, c, x, x);
      }
    } else {
      var b, rest := g[0], g[1..];
      var h := Absorb(f, b);
      AbsorbServes(f, b);
      MergeSitesServes(h, rest);
      AbsorbLinks(f, b, Groups(rest));
      assert edges == Groups(f) + Groups([b]) + Groups(rest);
      hide Groups, Serves, IsSite;
      forall x, p | ServedByOne(f, g, x, p) ensures Serves(MergeSites(f, g), x, p) {
        ServesCons(g, x, p);
        assert ServedByOne(h, rest, x, p);
      }
      forall x, p | Serves(MergeSites(f, g), x, p) ensures ServedLinked(f, g, edges, x, p) {
        assert ServedLinked(h, rest, Groups(h) + Groups(rest), x, p);
        var y :| Linked(Groups(h) + Groups(rest), x, y) && ServedByOne(h, rest, y, p);
        if Serves(h, y, p) {
          var z :| Linked(Groups(h), y, z) && ServedByOne(f, [b], z, p);
          MoreLinks(Groups(h), Groups(rest), y, z);
          LinkedTransitive(edges, x, y, z);
          ServesCons(g, z, p);
          assert ServedByOne(f, g, z, p);
        } else {
          ServesCons(g, y, p);
          assert ServedByOne(f, g, y, p);
        }
      }
    }
  }

  lemma MoreLinks(edges: set<Addresses>, more: set<Addresses>, x: string, y: string)
    requires Linked(edges, x, y)
    ensures Linked(edges + more, x, y)
  {
    var chain :| LinkedBy(edges, chain, x, y);
    assert LinkedBy(edges + more, chain, x, y);
  }

  // ---------- what all addresses of a site have ----------

  /** What one address of a site has, all its addresses have. */
  ghost predicate Uniform(f: Forest) {
    forall x, y, p :: Together(Groups(f), x, y) && Serves(f, y, p) ==> Serves(f, x, p)
  }

  /** Overlapping sites of the base may be there, as long as they leave nothing to be joined. */
  ghost predicate Joined(f: Forest) {
    Transitive(Groups(f)) && Uniform(f)
  }

  /** Sites that have no address in common, or all of them, leave nothing to be joined. */
  lemma DisjointJoined(f: Forest)
    requires SitesApart(f) || PairwiseDisjoint(Groups(f))
    ensures Joined(f)
  {
    if SitesApart(f) {
      ApartDisjoint(f);
    }
    DisjointTransitive(Groups(f));
    GroupsMember(f);
    forall x, y, p | Together(Groups(f), x, y) && Serves(f, y, p) ensures Serves(f, x, p) {
      var e :| e in Groups(f) && x in e && y in e;
      var b :| b in f && IsSite(b) && y in b.keys && p in Paths(b.children);
      assert y in AddressesOf(b) * e;
    }
  }

  /** What a linked site of the base has, the joined site has, and it has all its addresses. */
  lemma JoinedTakesIn(f: Forest, b: Block, all: Block, w: string, y: string)
    requires Joined(f) && IsSite(b) && Together(Groups(f), w, y) && w in b.keys
    requires forall x :: x in all.keys <==> x in b.keys || exists c :: c in f && Overlaps(c, b) && x in c.keys
    requires forall p :: p in Paths(all.children) <==>
      p in Paths(b.children) || exists c :: c in f && Overlaps(c, b) && p in Paths(c.children)
    ensures y in all.keys && forall p :: Serves(f, y, p) ==> p in Paths(all.children)
  {
    var c := SiteWith(f, w, y);
    MeetsAt(c, b, w);
    hide Groups, IsSite, Overlaps, Paths;
    forall p | Serves(f, y, p) ensures p in Paths(all.children) {
      assert Serves(f, w, p);
      var d :| d in f && IsSite(d) && w in d.keys && p in Paths(d.children);
      MeetsAt(d, b, w);
    }
  }

  lemma SiteWith(f: Forest, x: string, y: string) returns (c: Block)
    requires Together(Groups(f), x, y)
    ensures c in f && IsSite(c) && x in c.keys && y in c.keys
  {
    GroupsMember(f);
    var e :| e in Groups(f) && x in e && y in e;
    c :| c in f && IsSite(c) && e == AddressesOf(c);
  }

  lemma MeetsAt(a: Block, b: Block, x: string)
    requires IsSite(a) && x in a.keys && x in b.keys
    ensures Overlaps(a, b)
  {
    OverlapsMeet(a, b);
    assert x in AddressesOf(a) * AddressesOf(b);
  }

  lemma SharedAddress(a: Block, b: Block) returns (w: string)
    requires Overlaps(a, b)
    ensures IsSite(a) && w in a.keys && w in b.keys
  {
    OverlapsMeet(a, b);
    w :| w in AddressesOf(a) * AddressesOf(b);
  }

  lemma InOneSite(f: Forest, c: Block, x: string, y: string)
    requires c in f && IsSite(c) && x in c.keys && y in c.keys
    ensures Together(Groups(f), x, y)
  {
    GroupsMember(f);
    assert x in AddressesOf(c) && y in AddressesOf(c) && AddressesOf(c) in Groups(f);
  }

  lemma TogetherBack(edges: set<Addresses>, x: string, y: string)
    requires Together(edges, x, y)
    ensures Together(edges, y, x)
  {}

  /** An address of the joined site is linked to one of the incoming block. */
  lemma LinkedToIncoming(f: Forest, b: Block, all: Block, y: string) returns (w: string)
    requires forall x :: x in all.keys <==> x in b.keys || exists c :: c in f && Overlaps(c, b) && x in c.keys
    requires y in all.keys && y !in b.keys
    ensures w in b.keys && Together(Groups(f), w, y)
  {
    var c :| c in f && Overlaps(c, b) && y in c.keys;
    w := SharedAddress(c, b);
    InOneSite(f, c, w, y);
  }

  lemma JoinedStaysJoined(f: Forest, b: Block)
    requires Joined(f) && IsSite(b) && FirstOverlap(f, b) < |f| && CleanAbsorb(f, b)
    ensures Uniform(Absorb(f, b))
  {
    var g := Absorb(f, b);
    var all := JoinedSite(f, b);
    hide Absorb, Groups, Paths, CleanAbsorb, IsSite, FirstOverlap, Overlaps;
    forall x, y, p | Together(Groups(g), x, y) && Serves(g, y, p) ensures Serves(g, x, p) {
      var d := SiteWith(g, x, y);
      var c :| c in g && IsSite(c) && y in c.keys && p in Paths(c.children);
      if d == all && c == all {
        SiteServes(g, all, x, p);
      } else if d == all || c == all {
        NotIncoming(f, b, if d == all then c else d, y);
        var w := LinkedToIncoming(f, b, all, y);
        JoinedTakesIn(f, b, all, w, y);
        if d == all {
          SiteServes(f, c, y, p);
        } else {
          InOneSite(f, d, x, y);
          TogetherBack(Groups(f), x, y);
          assert Together(Groups(f), w, x);
          JoinedTakesIn(f, b, all, w, x);
        }
        SiteServes(g, all, x, p);
      } else {
        InOneSite(f, d, x, y);
        SiteServes(f, c, y, p);
        assert Serves(f, x, p);
        var e :| e in f && IsSite(e) && x in e.keys && p in Paths(e.children);
        SiteServes(g, if Overlaps(e, b) then all else e, x, p);
      }
    }
  }

  /** A site that is not joined has no address of the incoming block. */
  lemma NotIncoming(f: Forest, b: Block, c: Block, y: string)
    requires IsSite(c) && !Overlaps(c, b) && y in c.keys
    ensures y !in b.keys
  {
    if y in b.keys {
      MeetsAt(c, b, y);
    }
  }

  lemma AloneStaysJoined(f: Forest, b: Block)
    requires Joined(f) && (IsSite(b) ==> FirstOverlap(f, b) == |f|)
    ensures Uniform(Merge(f, [b]))
  {
    var g := Merge(f, [b]);
    AloneSites(f, b);
    hide Groups, Paths, IsSite, Overlaps, Merge;
    forall x, y, p | Together(Groups(g), x, y) && Serves(g, y, p) ensures Serves(g, x, p) {
      var d := SiteWith(g, x, y);
      var c :| c in g && IsSite(c) && y in c.keys && p in Paths(c.children);
      if d in f && c in f {
        InOneSite(f, d, x, y);
        SiteServes(f, c, y, p);
        assert Serves(f, x, p);
        var e :| e in f && IsSite(e) && x in e.keys && p in Paths(e.children);
        SiteServes(g, e, x, p);
      } else {
        if d in f {
          NotIncoming(f, b, d, y);
        } else if c in f {
          NotIncoming(f, b, c, y);
        }
        assert d == b == c;
        SiteServes(g, b, x, p);
      }
    }
  }

  lemma AbsorbJoined(f: Forest, b: Block)
    requires Joined(f) && CleanAbsorb(f, b)
    ensures Joined(Absorb(f, b))
  {
    AbsorbTransitive(f, b);
    if !IsSite(b) || FirstOverlap(f, b) == |f| {
      AloneStaysJoined(f, b);
    } else {
      JoinedStaysJoined(f, b);
    }
  }

  lemma {:induction false} MergeSitesJoined(f: Forest, g: Forest)
    requires Joined(f) && CleanSites(f, g)
    ensures Joined(MergeSites(f, g))
    decreases |g|
  {
    hide Joined, Absorb, CleanAbsorb;
    if g != [] {
      AbsorbJoined(f, g[0]);
      MergeSitesJoined(Absorb(f, g[0]), g[1..]);
    }
  }

  /** The directives of the merged sites are those of the linked addresses. */
  ghost predicate ServesLinked(f: Forest, g: Forest) {
    forall x, p :: Serves(MergeSites(f, g), x, p) <==> ServedLinked(f, g, Groups(f) + Groups(g), x, p)
  }

  /**
   An address of the merged sites has a directive exactly when some linked address had it in the base
   or in an incoming site: nothing a site says is lost, invented, or given to an unrelated site.
   */
  lemma SitesServe(f: Forest, g: Forest)
    requires Joined(f) && CleanSites(f, g)
    ensures ServesLinked(f, g)
  {
    MergeSitesServes(f, g);
    MergeSitesJoined(f, g);
    SitesAreComponents(f, g);
    var r, edges := MergeSites(f, g), Groups(f) + Groups(g);
    hide Linked, MergeSites, Groups, Serves, Together, SitesApart, ServedByOne, CleanSites;
    forall x, p | ServedLinked(f, g, edges, x, p) ensures Serves(r, x, p) {
      var y :| Linked(edges, x, y) && ServedByOne(f, g, y, p);
      assert Together(Groups(r), x, y) && Serves(r, y, p);
    }
  }

  // ---------- no other base will do ----------

  /** What is named by a word that is nowhere in the tree is not below any of its blocks. */
  lemma NewPath(f: Forest, word: string)
    requires word !in AllKeys(f)
    ensures [MergeKey.Plain([word])] !in Paths(f)
  {
    if f != [] {
      assert f[0].keys != [] ==> f[0].keys[0] != word;
      NewPath(f[1..], word);
      assert forall p :: p in Below(KeyOf(f[0]), Paths(f[0].children)) ==> p != [] && p[0] == KeyOf(f[0]);
    }
  }

  lemma OnePath(word: string)
    requires !ProxyLike(word)
    ensures Paths([Block(0, [word], [])]) == {[MergeKey.Plain([word])]}
    ensures Ordinary([Block(0, [word], [])])
  {
    var b := Block(0, [word], []);
    assert [b][1..] == [];
    assert Paths([b]) == BlockPaths(b) + {};
    assert BlockPaths(b) == {[KeyOf(b)]} + Below(KeyOf(b), {});
    assert Below(KeyOf(b), {}) == {};
  }

  /** A site that has a new directive for `z`, under a new address as well. */
  function Newcomer(word: string, z: string): Block {
    Block(0, [word, z], [Block(0, [word], [])])
  }

  lemma {:induction false} NewcomerIs(f: Forest, z: string)
    ensures var word := NewWord(AllKeys(f));
      var b := Newcomer(word, z);
      && IsSite(b) && word !in AllKeys(f) && Paths(b.children) == {[MergeKey.Plain([word])]} && Ordinary(b.children)
  {
    NewWordIsNew(AllKeys(f));
    OnePath(NewWord(AllKeys(f)));
  }

  lemma MergeOneSite(f: Forest, b: Block)
    ensures MergeSites(f, [b]) == Absorb(f, b)
  {
    assert [b][1..] == [];
  }

  /** The newcomer's directive does not reach an address that has no site in common with `z`. */
  lemma {:induction false} NotServed(f: Forest, e: Block, x: string, z: string)
    requires OrdinarySites(f) && FirstOverlap(f, Newcomer(NewWord(AllKeys(f)), z)) < |f|
    requires e in f && IsSite(e) && x in e.keys && x != z && !Together(Groups(f), x, z)
    ensures var word := NewWord(AllKeys(f));
      !Serves(MergeSites(f, [Newcomer(word, z)]), x, [MergeKey.Plain([word])])
  {
    var word := NewWord(AllKeys(f));
    var b, p := Newcomer(word, z), [MergeKey.Plain([word])];
    NewcomerIs(f, z);
    assert OrdinarySites([b]) && b.keys == [word, z];
    hide *;
    OrdinaryAbsorb(f, b);
    MergeOneSite(f, b);
    var all := JoinedSite(f, b);
    WordIsNew(f, e, word);
    forall h | h in f && Overlaps(h, b) ensures x !in h.keys {
      var w := SharedAddress(h, b);
      WordIsNew(f, h, word);
      NotInOneSite(f, h, x, z);
    }
    forall d | d in f ensures p !in Paths(d.children) {
      WordIsNew(f, d, word);
    }
    assert x !in b.keys && x !in all.keys;
    NobodyServes(Absorb(f, b), x, p);
  }

  lemma NobodyServes(f: Forest, x: string, p: Path)
    requires forall d :: d in f ==> x !in d.keys || p !in Paths(d.children)
    ensures !Serves(f, x, p)
  {
    hide Paths;
  }

  lemma NotInOneSite(f: Forest, c: Block, x: string, y: string)
    requires c in f && IsSite(c) && y in c.keys && !Together(Groups(f), x, y)
    ensures x !in c.keys
  {
    if x in c.keys {
      InOneSite(f, c, x, y);
    }
  }

  /** Where `z` is linked to `x` without a common site, `x` does not get what the newcomer brings. */
  lemma {:induction false} NotPassedOn(f: Forest, x: string, y: string, z: string)
    requires Together(Groups(f), x, y) && Together(Groups(f), y, z) && !Together(Groups(f), x, z)
    requires OrdinarySites(f)
    ensures var b := Newcomer(NewWord(AllKeys(f)), z);
      OrdinarySites([b]) && !ServesLinked(f, [b])
  {
    var word := NewWord(AllKeys(f));
    var b, p := Newcomer(word, z), [MergeKey.Plain([word])];
    NewcomerIs(f, z);
    hide Groups, IsSite, Paths, Overlaps, Together, MergeSites, Ordinary;
    var c := SiteWith(f, y, z);
    var e := SiteWith(f, x, y);
    MeetsAt(c, b, z);
    if x == z {
      InOneSite(f, e, x, x);
    }
    NotServed(f, e, x, z);
    TogetherIsLinked(Groups(f));
    LinkedTransitive(Groups(f), x, y, z);
    MoreLinks(Groups(f), Groups([b]), x, z);
    SiteServes([b], b, z, p);
    assert ServedByOne(f, [b], z, p);
    assert ServedLinked(f, [b], Groups(f) + Groups([b]), x, p);
  }

  lemma WordIsNew(f: Forest, c: Block, word: string)
    requires c in f && word !in AllKeys(f)
    ensures word !in c.keys && [MergeKey.Plain([word])] !in Paths(c.children)
  {
    var i :| 0 <= i < |f| && f[i] == c;
    KeysOfBlock(f, i);
    NewPath(c.children, word);
  }

  /** Merging sites gives every address what linked addresses have, exactly when the base does so itself. */
  lemma JoinedExactly(f: Forest)
    requires OrdinarySites(f)
    ensures (forall g | OrdinarySites(g) :: ServesLinked(f, g)) <==> Joined(f)
  {
    if Joined(f) {
      forall g | OrdinarySites(g) ensures ServesLinked(f, g) {
        OrdinarySitesClean(f, g);
        SitesServe(f, g);
      }
    } else if !Transitive(Groups(f)) {
      hide Groups, ServesLinked, OrdinarySites, Together;
      var x, y, z :| Together(Groups(f), x, y) && Together(Groups(f), y, z) && !Together(Groups(f), x, z);
      NotPassedOn(f, x, y, z);
    } else {
      var none: Forest := [];
      NoGroups(f);
      TogetherIsLinked(Groups(f));
      hide Groups, Together, Linked, Paths;
      var x, y, p :| Together(Groups(f), x, y) && Serves(f, y, p) && !Serves(f, x, p);
      assert ServedLinked(f, none, Groups(f) + Groups(none), x, p);
      assert OrdinarySites(none) && !ServesLinked(f, none);
    }
  }

  // ---------- the order of arrival ----------

  lemma GroupsOfSame(g: Forest, h: Forest)
    requires multiset(g) == multiset(h)
    ensures Groups(g) == Groups(h) && forall b :: b in g <==> b in h
  {
    assert forall b :: b in g <==> b in multiset(g);
    assert forall b :: b in h <==> b in multiset(h);
    GroupsMember(g);
    GroupsMember(h);
  }

  /** Neither the sites nor what they serve depend on the order in which blocks arrive. */
  lemma ArrivalOrder(f: Forest, g: Forest, h: Forest)
    requires PairwiseDisjoint(Groups(f)) && multiset(g) == multiset(h)
    ensures Groups(MergeSites(f, g)) == Groups(MergeSites(f, h))
    ensures CleanSites(f, g) && CleanSites(f, h) ==>
      forall x, p :: Serves(MergeSites(f, g), x, p) <==> Serves(MergeSites(f, h), x, p)
  {
    GroupsOfSame(g, h);
    DisjointJoined(f);
    SitesAreComponents(f, g);
    SitesAreComponents(f, h);
    var r, q, edges := MergeSites(f, g), MergeSites(f, h), Groups(f) + Groups(g);
    assert AreComponents(r, edges) && AreComponents(q, edges);
    GroupsMember(r);
    GroupsMember(q);
    SamePartition(Groups(r), Groups(q));
    if CleanSites(f, g) && CleanSites(f, h) {
      SitesServe(f, g);
      SitesServe(f, h);
      assert forall x, p :: ServedByOne(f, g, x, p) == ServedByOne(f, h, x, p);
    }
  }
}
