/** What merging sites conserves: the upstreams of the sites, and every block that is not a site. */
module SitesKeep {
  import opened Text
  import opened Tree
  import opened Merging
  import opened Sites

  // ---------- upstreams ----------

  ghost function SiteEntries(f: Forest): multiset<UpstreamAt> {
    if f == [] then multiset{}
    else (if IsSite(f[0]) then ForestEntries(f[0].children, []) else multiset{}) + SiteEntries(f[1..])
  }

  lemma SiteEntriesConcat(f: Forest, g: Forest)
    ensures SiteEntries(f + g) == SiteEntries(f) + SiteEntries(g)
  {
    if f == [] {
      assert f + g == g;
    } else {
      assert (f + g)[1..] == f[1..] + g;
      SiteEntriesConcat(f[1..], g);
    }
  }

  lemma AddBoth<T>(a: multiset<T>, b: multiset<T>, c: multiset<T>, d: multiset<T>, x: multiset<T>)
    requires a + b == c + d
    ensures a + (x + b) == c + (x + d) && x + a + b == x + c + d
  {
    assert a + (x + b) == x + (a + b) && c + (x + d) == x + (c + d);
    assert x + a + b == x + (a + b) && x + c + d == x + (c + d);
  }

  lemma SiteEntriesCons(b: Block, f: Forest)
    ensures SiteEntries([b] + f) == (if IsSite(b) then ForestEntries(b.children, []) else multiset{}) + SiteEntries(f)
  {}

  lemma SiteEntriesAround(before: Forest, b: Block, after: Forest)
    ensures SiteEntries(before + [b] + after)
         == SiteEntries(before) + (if IsSite(b) then ForestEntries(b.children, []) else multiset{}) + SiteEntries(after)
  {
    SiteEntriesConcat(before + [b], after);
    SiteEntriesConcat(before, [b]);
    assert [b][1..] == [];
  }

  lemma {:induction false} MergeExtrasEntries(target: Block, rest: Forest, b: Block)
    requires IsSite(target) && CleanExtras(target, rest, b)
    ensures ForestEntries(MergeExtras(target, rest, b).children, []) + SiteEntries(Others(rest, b))
         == ForestEntries(target.children, []) + SiteEntries(rest)
    decreases |rest|
  {
    hide Clean, ForestEntries, Merge, AddMissing, SharedKeys, IsSite;
    if rest != [] {
      if Overlaps(rest[0], b) {
        EntriesMerge(target.children, rest[0].children, []);
        MergeSiteKeys(target, rest[0]);
        MergeExtrasEntries(MergeSite(target, rest[0]), rest[1..], b);
        assert Others(rest, b) == Others(rest[1..], b);
      } else {
        MergeExtrasEntries(target, rest[1..], b);
        SiteEntriesCons(rest[0], Others(rest[1..], b));
        AddBoth(ForestEntries(MergeExtras(target, rest, b).children, []), SiteEntries(Others(rest[1..], b)),
          ForestEntries(target.children, []), SiteEntries(rest[1..]),
          if IsSite(rest[0]) then ForestEntries(rest[0].children, []) else multiset{});
        assert Others(rest, b) == [rest[0]] + Others(rest[1..], b);
      }
    }
  }

  lemma AloneEntries(f: Forest, b: Block)
    requires IsSite(b) ==> FirstOverlap(f, b) == |f|
    ensures SiteEntries(Merge(f, [b])) == SiteEntries(f) + SiteEntries([b])
  {
    hide *;
    MergeAlone(f, b);
    SiteEntriesConcat(f, [b]);
    OneSiteEntries(b);
    var k := FindFirst(f, b);
    if !IsSite(b) && k < |f| {
      var c := Combine(f[k], b);
      SplitAt(f, k);
      assert f[k := c] == f[..k] + [c] + f[k + 1..];
      SiteEntriesAround(f[..k], f[k], f[k + 1..]);
      SiteEntriesAround(f[..k], c, f[k + 1..]);
    }
  }

  lemma OneSiteEntries(b: Block)
    ensures SiteEntries([b]) == if IsSite(b) then ForestEntries(b.children, []) else multiset{}
  {
    assert [b][1..] == [];
  }

  lemma JoinedEntries(f: Forest, b: Block)
    requires IsSite(b) && FirstOverlap(f, b) < |f| && CleanAbsorb(f, b)
    ensures SiteEntries(Absorb(f, b)) == SiteEntries(f) + SiteEntries([b])
  {
    var i := FirstOverlap(f, b);
    var target, rest := MergeSite(f[i], b), f[i + 1..];
    var all := MergeExtras(target, rest, b);
    assert Absorb(f, b) == f[..i] + [all] + Others(rest, b);
    assert [b][1..] == [];
    hide Absorb, Clean, CleanExtras, Merge, MergeExtras, ForestEntries, AddMissing, Others, SharedKeys, FirstOverlap;
    assert Overlaps(f[i], b) ==> IsSite(f[i]);
    hide IsSite;
    EntriesMerge(f[i].children, b.children, []);
    MergeSiteKeys(f[i], b);
    MergeExtrasEntries(target, rest, b);
    JoinedAddresses(f, b);
    SplitAt(f, i);
    hide MergeSite, SiteEntries, Overlaps;
    SiteEntriesAround(f[..i], f[i], rest);
    SiteEntriesAround(f[..i], all, Others(rest, b));
    AddBoth(ForestEntries(all.children, []), SiteEntries(Others(rest, b)),
      ForestEntries(f[i].children, []) + ForestEntries(b.children, []), SiteEntries(rest), SiteEntries(f[..i]));
  }

  lemma AbsorbEntries(f: Forest, b: Block)
    requires CleanAbsorb(f, b)
    ensures SiteEntries(Absorb(f, b)) == SiteEntries(f) + SiteEntries([b])
  {
    if !IsSite(b) || FirstOverlap(f, b) == |f| {
      AloneEntries(f, b);
    } else {
      JoinedEntries(f, b);
    }
  }

  lemma {:induction false} SiteEntriesAddUp(f: Forest, g: Forest)
    requires CleanSites(f, g)
    ensures SiteEntries(MergeSites(f, g)) == SiteEntries(f) + SiteEntries(g)
    decreases |g|
  {
    hide Absorb, CleanAbsorb, ForestEntries, IsSite, FirstOverlap;
    if g != [] {
      AbsorbEntries(f, g[0]);
      SiteEntriesAddUp(Absorb(f, g[0]), g[1..]);
      SiteEntriesConcat([g[0]], g[1..]);
      assert g == [g[0]] + g[1..];
    }
  }

  /** The number of upstreams of the sites. */
  function SiteUpstreamCount(f: Forest): nat {
    if f == [] then 0 else (if IsSite(f[0]) then UpstreamCount(f[0].children) else 0) + SiteUpstreamCount(f[1..])
  }

  lemma SiteEntriesSize(f: Forest)
    ensures |SiteEntries(f)| == SiteUpstreamCount(f)
  {
    if f != [] {
      ForestEntriesSize(f[0].children, []);
      SiteEntriesSize(f[1..]);
    }
  }

  lemma SiteCountConcat(f: Forest, g: Forest)
    ensures SiteUpstreamCount(f + g) == SiteUpstreamCount(f) + SiteUpstreamCount(g)
  {
    SiteEntriesConcat(f, g);
    SiteEntriesSize(f);
    SiteEntriesSize(g);
    SiteEntriesSize(f + g);
  }

  lemma SiteCountAround(before: Forest, b: Block, after: Forest)
    ensures SiteUpstreamCount(before + [b] + after)
         == SiteUpstreamCount(before) + (if IsSite(b) then UpstreamCount(b.children) else 0) + SiteUpstreamCount(after)
  {
    SiteCountConcat(before + [b], after);
    SiteCountConcat(before, [b]);
    assert [b][1..] == [];
  }

  lemma {:induction false} ExtrasCount(target: Block, rest: Forest, b: Block)
    ensures var load := UpstreamCount(MergeExtras(target, rest, b).children) + SiteUpstreamCount(Others(rest, b));
      && load <= UpstreamCount(target.children) + SiteUpstreamCount(rest)
      && (load == UpstreamCount(target.children) + SiteUpstreamCount(rest) ==> CleanExtras(target, rest, b))
    decreases |rest|
  {
    hide Clean, UpstreamCount, Merge, AddMissing, SharedKeys;
    if rest != [] {
      assert Overlaps(rest[0], b) ==> IsSite(rest[0]);
      hide IsSite;
      if Overlaps(rest[0], b) {
        CountMerge(target.children, rest[0].children);
        ExtrasCount(MergeSite(target, rest[0]), rest[1..], b);
        assert Others(rest, b) == Others(rest[1..], b);
      } else {
        ExtrasCount(target, rest[1..], b);
        SiteCountConcat([rest[0]], Others(rest[1..], b));
        assert [rest[0]][1..] == [];
      }
    }
  }

  lemma AbsorbCount(f: Forest, b: Block)
    ensures SiteUpstreamCount(Absorb(f, b)) <= SiteUpstreamCount(f) + SiteUpstreamCount([b])
    ensures SiteUpstreamCount(Absorb(f, b)) == SiteUpstreamCount(f) + SiteUpstreamCount([b]) ==> CleanAbsorb(f, b)
  {
    var i := FirstOverlap(f, b);
    assert [b][1..] == [];
    if !IsSite(b) || i == |f| {
      AloneEntries(f, b);
      SiteEntriesSize(f);
      SiteEntriesSize([b]);
      SiteEntriesSize(Absorb(f, b));
    } else {
      var target, rest := MergeSite(f[i], b), f[i + 1..];
      JoinedAddresses(f, b);
      CountMerge(f[i].children, b.children);
      ExtrasCount(target, rest, b);
      SiteCountAround(f[..i], f[i], rest);
      SiteCountAround(f[..i], MergeExtras(target, rest, b), Others(rest, b));
      SplitAt(f, i);
    }
  }

  lemma {:induction false} SitesCount(f: Forest, g: Forest)
    ensures SiteUpstreamCount(MergeSites(f, g)) <= SiteUpstreamCount(f) + SiteUpstreamCount(g)
    ensures SiteUpstreamCount(MergeSites(f, g)) == SiteUpstreamCount(f) + SiteUpstreamCount(g) ==> CleanSites(f, g)
    decreases |g|
  {
    hide Absorb, CleanAbsorb;
    if g != [] {
      AbsorbCount(f, g[0]);
      SitesCount(Absorb(f, g[0]), g[1..]);
      SiteCountConcat([g[0]], g[1..]);
      assert g == [g[0]] + g[1..];
    }
  }

  /**
   Every upstream of every site is kept exactly once for each time it is given, exactly when the sites
   are merged without harm.
   */
  lemma UpstreamsConserved(f: Forest, g: Forest)
    ensures SiteEntries(MergeSites(f, g)) == SiteEntries(f) + SiteEntries(g) <==> CleanSites(f, g)
  {
    hide SiteEntries, SiteUpstreamCount, MergeSites, CleanSites;
    if CleanSites(f, g) {
      SiteEntriesAddUp(f, g);
    }
    SiteEntriesSize(f);
    SiteEntriesSize(g);
    SiteEntriesSize(MergeSites(f, g));
    SitesCount(f, g);
  }

  // ---------- other blocks ----------

  /** Global options, snippets and named matchers. */
  function NoSites(f: Forest): Forest {
    if f == [] then [] else (if IsSite(f[0]) then [] else [f[0]]) + NoSites(f[1..])
  }

  lemma NoSitesConcat(f: Forest, g: Forest)
    ensures NoSites(f + g) == NoSites(f) + NoSites(g)
  {
    if f == [] {
      assert f + g == g;
    } else {
      assert (f + g)[1..] == f[1..] + g;
      NoSitesConcat(f[1..], g);
    }
  }

  lemma OthersNoSites(f: Forest, b: Block)
    ensures NoSites(Others(f, b)) == NoSites(f)
  {
    if f != [] {
      OthersNoSites(f[1..], b);
      NoSitesConcat(if Overlaps(f[0], b) then [] else [f[0]], Others(f[1..], b));
    }
  }

  lemma AbsorbsNoSite(a: Block, b: Block)
    requires !IsSite(b) && Absorbs(a, b)
    ensures !IsSite(a) && !IsSite(Combine(a, b))
  {}

  lemma NoSitesCons(f: Forest)
    requires f != []
    ensures NoSites(f) == if IsSite(f[0]) then NoSites(f[1..]) else [f[0]] + NoSites(f[1..])
  {}

  lemma MergeFront(a: Block, f: Forest, b: Block)
    requires Absorbs(a, b)
    ensures MergeBlock([a] + f, b) == [Combine(a, b)] + f
  {}

  /** A block that is not a site finds its place among the blocks that are not sites. */
  lemma {:induction false} MergeNoSite(f: Forest, b: Block)
    requires !IsSite(b)
    ensures NoSites(MergeBlock(f, b)) == MergeBlock(NoSites(f), b)
    decreases |f|
  {
    if f == [] {
      assert [b][1..] == [];
    } else {
      hide MergeBlock, Combine, Absorbs, IsSite, NoSites;
      var a, rest := f[0], f[1..];
      assert f == [a] + rest;
      NoSitesCons(f);
      if Absorbs(a, b) {
        AbsorbsNoSite(a, b);
        MergeFront(a, rest, b);
        MergeFront(a, NoSites(rest), b);
        NoSitesCons([Combine(a, b)] + rest);
      } else {
        MergeNoSite(rest, b);
        MergeBehind(a, rest, b);
        MergeBehind(a, NoSites(rest), b);
        NoSitesCons([a] + MergeBlock(rest, b));
      }
    }
  }

  lemma MergeBehind(a: Block, f: Forest, b: Block)
    requires !Absorbs(a, b)
    ensures MergeBlock([a] + f, b) == [a] + MergeBlock(f, b)
  {}

  lemma MergeSingle(f: Forest, b: Block)
    ensures Merge(f, [b]) == MergeBlock(f, b)
  {}

  lemma AbsorbNoSites(f: Forest, b: Block)
    ensures NoSites(Absorb(f, b)) == if IsSite(b) then NoSites(f) else MergeBlock(NoSites(f), b)
  {
    hide Merge, IsSite, MergeSite, MergeExtras, Others, MergeBlock;
    var i := FirstOverlap(f, b);
    assert i < |f| ==> IsSite(f[i]);
    hide Overlaps;
    MergeSingle(f, b);
    assert [b][1..] == [];
    if !IsSite(b) {
      MergeNoSite(f, b);
    } else if i == |f| {
      MergeAlone(f, b);
      NoSitesConcat(f, [b]);
    } else {
      var all, rest := MergeExtras(MergeSite(f[i], b), f[i + 1..], b), f[i + 1..];
      JoinedAddresses(f, b);
      OthersNoSites(rest, b);
      assert f == f[..i] + ([f[i]] + rest);
      NoSitesConcat(f[..i], [f[i]] + rest);
      NoSitesConcat(f[..i] + [all], Others(rest, b));
      NoSitesConcat(f[..i], [all]);
      assert [all][1..] == [] && ([f[i]] + rest)[1..] == rest;
    }
  }

  /** All other blocks are merged as if there were no sites. */
  lemma {:induction false} OtherBlocksMerged(f: Forest, g: Forest)
    ensures NoSites(MergeSites(f, g)) == Merge(NoSites(f), NoSites(g))
    decreases |g|
  {
    hide MergeBlock, IsSite, Absorb;
    if g != [] {
      AbsorbNoSites(f, g[0]);
      OtherBlocksMerged(Absorb(f, g[0]), g[1..]);
      NoSitesCons(g);
    }
  }
}
