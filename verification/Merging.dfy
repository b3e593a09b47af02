/** `Container.Merge` of `caddyfile/merge.go` on values, and what merging keeps. */
module Merging {
  import opened Text
  import opened Tree

  // ---------- merging ----------

  predicate ProxyLike(firstKey: string) {
    firstKey == "reverse_proxy" || firstKey == "php_fastcgi"
  }

  predicate MatcherShaped(value: string) {
    value == "*" || HasPrefix(value, "/") || HasPrefix(value, "@")
  }

  function GetMatcher(keys: seq<string>): string {
    if |keys| <= 1 || !MatcherShaped(keys[1]) then "*" else keys[1]
  }

  /** Block `b` is merged into block `a` instead of being added. */
  predicate Absorbs(a: Block, b: Block) {
    && a.FirstKey() == b.FirstKey()
    && ((ProxyLike(b.FirstKey()) && GetMatcher(a.keys) == GetMatcher(b.keys)) || a.keys == b.keys)
  }

  /** The keys of a proxy directive behind its name and its matcher. */
  function Upstreams(keys: seq<string>): seq<string> {
    if |keys| <= 1 then [] else if MatcherShaped(keys[1]) then keys[2..] else keys[1..]
  }

  function CombineKeys(a: seq<string>, b: seq<string>): seq<string> {
    if a != [] && ProxyLike(a[0]) then a + Upstreams(b) else a
  }

  function Combine(a: Block, b: Block): Block
    decreases b, 0
  {
    Block(a.order, CombineKeys(a.keys, b.keys), Merge(a.children, b.children))
  }

  /** The first block that absorbs `b`, or `|f|`. */
  function FindFirst(f: Forest, b: Block): (i: nat)
    ensures i <= |f|
    ensures i < |f| ==> Absorbs(f[i], b)
    ensures forall j :: 0 <= j < i ==> !Absorbs(f[j], b)
  {
    if f == [] || Absorbs(f[0], b) then 0 else 1 + FindFirst(f[1..], b)
  }

  function MergeBlock(f: Forest, b: Block): Forest
    decreases b, 1
  {
    var i := FindFirst(f, b);
    if i == |f| then f + [b] else f[i := Combine(f[i], b)]
  }

  /** Merges the blocks of `g` into `f`, one after the other. */
  function Merge(f: Forest, g: Forest): Forest
    decreases g, 0
  {
    if g == [] then f else Merge(MergeBlock(f, g[0]), g[1..])
  }

  lemma MergeBlockIs(f: Forest, b: Block)
    ensures MergeBlock(f, b) == var i := FindFirst(f, b); if i == |f| then f + [b] else f[i := Combine(f[i], b)]
  {}

  lemma MergeNothing(f: Forest)
    ensures Merge(f, []) == f
  {}

  // ---------- merge keys ----------

  /** What decides which blocks are merged. */
  datatype MergeKey = Proxy(directive: string, matcher: string) | Plain(keys: seq<string>)

  function KeyOf(b: Block): MergeKey {
    if ProxyLike(b.FirstKey()) then Proxy(b.FirstKey(), GetMatcher(b.keys)) else Plain(b.keys)
  }

  /** A block is merged into the first sibling with the same merge key. */
  lemma AbsorbsSameKey(a: Block, b: Block)
    ensures Absorbs(a, b) <==> KeyOf(a) == KeyOf(b)
  {}

  // ---------- two blocks ----------

  /** Matchers are the asterisk, paths and names of matchers. */
  lemma MatchersAre(value: string)
    ensures MatcherShaped(value) <==> value == "*" || exists rest :: value == "/" + rest || value == "@" + rest
  {
    if HasPrefix(value, "/") {
      assert value == "/" + value[1..];
    } else if HasPrefix(value, "@") {
      assert value == "@" + value[1..];
    }
    forall rest: string | value == "/" + rest || value == "@" + rest ensures MatcherShaped(value) {
      assert value[..1] == "/" || value[..1] == "@";
    }
  }

  /** A proxy directive: its name, a matcher or none, and upstreams. */
  function ProxyKeys(name: string, matcher: seq<string>, upstreams: seq<string>): seq<string> {
    [name] + matcher + upstreams
  }

  ghost predicate ProxyParts(matcher: seq<string>, upstreams: seq<string>) {
    && |matcher| <= 1 && (matcher != [] ==> MatcherShaped(matcher[0]))
    && (matcher == [] && upstreams != [] ==> !MatcherShaped(upstreams[0]))
  }

  /** The matcher that a directive goes by; none is the same as `*`. */
  function Effective(matcher: seq<string>): string {
    if matcher == [] then "*" else matcher[0]
  }

  /**
   Two `reverse_proxy` directives, or two `php_fastcgi` ones, become one with the upstreams of both if they have
   the same matcher.
   */
  lemma ProxiesJoin(name: string, m: seq<string>, n: seq<string>, s: seq<string>, t: seq<string>, a: Block, b: Block)
    requires name in {"reverse_proxy", "php_fastcgi"} && ProxyParts(m, s) && ProxyParts(n, t)
    requires a.keys == ProxyKeys(name, m, s) && b.keys == ProxyKeys(name, n, t)
    requires Effective(m) == Effective(n)
    ensures Merge([a], [b]) == [Block(a.order, ProxyKeys(name, m, s + t), Merge(a.children, b.children))]
  {
    hide Merge;
    PartsOfProxy(name, m, s);
    PartsOfProxy(name, n, t);
    MergeOne(a, b);
    hide *;
    Associative([name] + m, s, t);
  }

  lemma PartsOfProxy(name: string, matcher: seq<string>, upstreams: seq<string>)
    requires ProxyParts(matcher, upstreams)
    ensures var keys := ProxyKeys(name, matcher, upstreams);
      && keys != [] && keys[0] == name && Upstreams(keys) == upstreams
      && GetMatcher(keys) == Effective(matcher)
  {
    var keys := ProxyKeys(name, matcher, upstreams);
    if matcher == [] {
      assert keys[1..] == upstreams;
    } else {
      assert keys[1] == matcher[0] && keys[2..] == upstreams;
    }
  }

  /** Two proxies with different matchers stay apart. */
  lemma ProxiesApart(name: string, m: seq<string>, n: seq<string>, s: seq<string>, t: seq<string>, a: Block, b: Block)
    requires ProxyParts(m, s) && ProxyParts(n, t) && Effective(m) != Effective(n)
    requires a.keys == ProxyKeys(name, m, s) && b.keys == ProxyKeys(name, n, t)
    ensures Merge([a], [b]) == [a, b]
  {
    hide Merge;
    PartsOfProxy(name, m, s);
    PartsOfProxy(name, n, t);
    MergeOne(a, b);
  }

  /** Two other blocks become one exactly if their keys are equal. */
  lemma OthersJoin(a: Block, b: Block)
    requires a.FirstKey() !in {"reverse_proxy", "php_fastcgi"}
    ensures Merge([a], [b])
         == if a.keys == b.keys then [Block(a.order, a.keys, Merge(a.children, b.children))] else [a, b]
  {
    hide Merge;
    MergeOne(a, b);
  }

  lemma MergeOne(a: Block, b: Block)
    ensures Merge([a], [b])
         == if Absorbs(a, b) then [Block(a.order, CombineKeys(a.keys, b.keys), Merge(a.children, b.children))]
            else [a, b]
  {
    hide Absorbs, CombineKeys;
    assert FindFirst([a], b) == (if Absorbs(a, b) then 0 else 1);
    assert [a][0 := Combine(a, b)] == [Combine(a, b)] && [b][1..] == [];
    assert MergeBlock([a], b) == if Absorbs(a, b) then [Combine(a, b)] else [a] + [b];
  }

  // ---------- a second matcher ----------

  /** The first upstream of `b` would be taken for the matcher of `a`, which has none. */
  predicate SecondMatcher(a: seq<string>, b: seq<string>) {
    |a| == 1 && |b| >= 3 && MatcherShaped(b[1]) && MatcherShaped(b[2])
  }

  predicate Harmless(a: Block, b: Block) {
    ProxyLike(a.FirstKey()) ==> !SecondMatcher(a.keys, b.keys)
  }

  /**
   When two proxy directives are merged, the matcher and the upstreams of both are kept exactly unless
   the first has only its name and the second has two matcher-shaped keys behind its name.
   */
  lemma CombineKeysExact(a: Block, b: Block)
    requires Absorbs(a, b) && ProxyLike(a.FirstKey())
    ensures (&& KeyOf(Combine(a, b)) == KeyOf(a)
             && Upstreams(Combine(a, b).keys) == Upstreams(a.keys) + Upstreams(b.keys))
        <==> !SecondMatcher(a.keys, b.keys)
  {
    var keys := a.keys + Upstreams(b.keys);
    if |a.keys| == 1 {
      assert Upstreams(a.keys) + Upstreams(b.keys) == Upstreams(b.keys);
      assert keys[1..] == Upstreams(b.keys);
      if SecondMatcher(a.keys, b.keys) {
        assert keys[1] == b.keys[2];
        assert |Upstreams(keys)| < |Upstreams(b.keys)|;
      }
    } else {
      assert keys[1..] == a.keys[1..] + Upstreams(b.keys);
      assert keys[2..] == a.keys[2..] + Upstreams(b.keys);
    }
  }

  lemma CombineHarmless(a: Block, b: Block)
    requires KeyOf(a) == KeyOf(b) && Harmless(a, b)
    ensures KeyOf(Combine(a, b)) == KeyOf(a)
    ensures ProxyLike(a.FirstKey()) ==> Upstreams(Combine(a, b).keys) == Upstreams(a.keys) + Upstreams(b.keys)
  {
    AbsorbsSameKey(a, b);
    if ProxyLike(a.FirstKey()) {
      CombineKeysExact(a, b);
    }
  }

  // ---------- trees that are merged without harm ----------

  /** Nowhere in the course of the merge does a second matcher meet a directive without a matcher. */
  predicate Clean(f: Forest, g: Forest)
    decreases g, 0
  {
    g != [] ==> CleanBlock(f, g[0]) && Clean(MergeBlock(f, g[0]), g[1..])
  }

  predicate CleanBlock(f: Forest, b: Block)
    decreases b, 1
  {
    var i := FindFirst(f, b);
    i < |f| ==> Harmless(f[i], b) && Clean(f[i].children, b.children)
  }

  /** No proxy directive has a matcher-shaped key behind the matcher `*`. */
  predicate Ordinary(f: Forest)
    decreases f
  {
    forall i :: 0 <= i < |f| ==> OrdinaryKeys(f[i].keys) && Ordinary(f[i].children)
  }

  predicate OrdinaryBlock(b: Block) {
    OrdinaryKeys(b.keys) && Ordinary(b.children)
  }

  predicate OrdinaryKeys(keys: seq<string>) {
    |keys| >= 3 && ProxyLike(keys[0]) && keys[1] == "*" ==> !MatcherShaped(keys[2])
  }

  lemma CombineOrdinary(a: Block, b: Block)
    requires KeyOf(a) == KeyOf(b) && OrdinaryKeys(b.keys)
    ensures Harmless(a, b) && KeyOf(Combine(a, b)) == KeyOf(a)
    ensures ProxyLike(a.FirstKey()) ==> Upstreams(Combine(a, b).keys) == Upstreams(a.keys) + Upstreams(b.keys)
    ensures OrdinaryKeys(a.keys) ==> OrdinaryKeys(Combine(a, b).keys)
  {
    CombineHarmless(a, b);
  }

  /** An ordinary tree does no harm to any tree it is merged into. */
  lemma {:induction false} OrdinaryClean(f: Forest, g: Forest)
    requires Ordinary(g)
    ensures Clean(f, g)
    decreases g, 0
  {
    if g != [] {
      OrdinaryCleanBlock(f, g[0]);
      OrdinaryClean(MergeBlock(f, g[0]), g[1..]);
    }
  }

  lemma {:induction false} OrdinaryCleanBlock(f: Forest, b: Block)
    requires OrdinaryBlock(b)
    ensures CleanBlock(f, b)
    decreases b, 1
  {
    var i := FindFirst(f, b);
    if i < |f| {
      AbsorbsSameKey(f[i], b);
      CombineOrdinary(f[i], b);
      OrdinaryClean(f[i].children, b.children);
    }
  }

  /** A merge that changes a matcher: what was proxied everywhere is proxied below `/x` only. */
  lemma MatcherCanChange()
    ensures var a := Block(0, ["reverse_proxy"], []);
            var b := Block(0, ["reverse_proxy", "*", "/x"], []);
            var c := Block(0, ["reverse_proxy", "/x"], []);
            KeyOf(a) == KeyOf(b) && Merge([a], [b]) == [c] && KeyOf(c) != KeyOf(a)
  {
    var a := Block(0, ["reverse_proxy"], []);
    var b := Block(0, ["reverse_proxy", "*", "/x"], []);
    AbsorbsSameKey(a, b);
    assert FindFirst([a], b) == 0;
    assert b.keys[2..] == ["/x"];
    assert Merge([a], [b]) == MergeBlock([a], b);
    assert Combine(a, b).keys == ["reverse_proxy", "/x"];
  }

  lemma MergeSnoc(f: Forest, g: Forest, b: Block)
    ensures Merge(f, g + [b]) == MergeBlock(Merge(f, g), b)
    decreases g
  {
    if g == [] {
      assert (g + [b])[1..] == [];
    } else {
      assert (g + [b])[1..] == g[1..] + [b];
      MergeSnoc(MergeBlock(f, g[0]), g[1..], b);
    }
  }

  lemma OrdinaryMergeBlock(f: Forest, b: Block)
    requires Ordinary(f) && OrdinaryBlock(b)
    ensures Ordinary(MergeBlock(f, b))
    decreases b, 1
  {
    var i := FindFirst(f, b);
    if i < |f| {
      AbsorbsSameKey(f[i], b);
      CombineOrdinary(f[i], b);
      OrdinaryMerge(f[i].children, b.children);
    }
  }

  lemma OrdinaryMerge(f: Forest, g: Forest)
    requires Ordinary(f) && Ordinary(g)
    ensures Ordinary(Merge(f, g))
    decreases g, 0
  {
    if g != [] {
      OrdinaryMergeBlock(f, g[0]);
      OrdinaryMerge(MergeBlock(f, g[0]), g[1..]);
    }
  }

  // ---------- the paths of a merged tree ----------

  type Path = seq<MergeKey>

  ghost function Paths(f: Forest): set<Path>
    decreases f, 0
  {
    if f == [] then {} else BlockPaths(f[0]) + Paths(f[1..])
  }

  ghost function BlockPaths(b: Block): set<Path>
    decreases b, 1
  {
    {[KeyOf(b)]} + Below(KeyOf(b), Paths(b.children))
  }

  ghost function Below(k: MergeKey, paths: set<Path>): set<Path> {
    set p | p in paths :: [k] + p
  }

  lemma PathsConcat(f: Forest, g: Forest)
    ensures Paths(f + g) == Paths(f) + Paths(g)
  {
    if f == [] {
      assert f + g == g;
    } else {
      assert (f + g)[1..] == f[1..] + g;
      PathsConcat(f[1..], g);
    }
  }

  lemma PathsUpdate(f: Forest, i: nat, b: Block)
    requires i < |f|
    ensures Paths(f) == Paths(f[..i]) + BlockPaths(f[i]) + Paths(f[i + 1..])
    ensures Paths(f[i := b]) == Paths(f[..i]) + BlockPaths(b) + Paths(f[i + 1..])
  {
    PathsSplit(f, i);
    PathsSplit(f[i := b], i);
    assert f[i := b][..i] == f[..i];
    assert f[i := b][i + 1..] == f[i + 1..];
  }

  lemma PathsSplit(f: Forest, i: nat)
    requires i < |f|
    ensures Paths(f) == Paths(f[..i]) + BlockPaths(f[i]) + Paths(f[i + 1..])
  {
    hide BlockPaths;
    assert f == f[..i] + ([f[i]] + f[i + 1..]);
    PathsConcat(f[..i], [f[i]] + f[i + 1..]);
    assert ([f[i]] + f[i + 1..])[1..] == f[i + 1..];
  }

  lemma BelowUnion(k: MergeKey, p: set<Path>, q: set<Path>)
    ensures Below(k, p + q) == Below(k, p) + Below(k, q)
  {}

  lemma {:induction false} PathsMergeBlock(f: Forest, b: Block)
    requires CleanBlock(f, b)
    ensures Paths(MergeBlock(f, b)) == Paths(f) + BlockPaths(b)
    decreases b, 1
  {
    var i := FindFirst(f, b);
    if i == |f| {
      PathsConcat(f, [b]);
      assert Paths([b]) == BlockPaths(b) by {
        assert [b][1..] == [];
      }
    } else {
      AbsorbsSameKey(f[i], b);
      CombineHarmless(f[i], b);
      PathsMerge(f[i].children, b.children);
      BelowUnion(KeyOf(b), Paths(f[i].children), Paths(b.children));
      PathsUpdate(f, i, Combine(f[i], b));
      assert BlockPaths(Combine(f[i], b)) == BlockPaths(f[i]) + BlockPaths(b);
    }
  }

  /** The paths of a merged tree are the paths of both trees: no directive is lost or invented. */
  lemma {:induction false} PathsMerge(f: Forest, g: Forest)
    requires Clean(f, g)
    ensures Paths(Merge(f, g)) == Paths(f) + Paths(g)
    decreases g, 0
  {
    if g != [] {
      PathsMergeBlock(f, g[0]);
      PathsMerge(MergeBlock(f, g[0]), g[1..]);
    }
  }

  // ---------- the upstreams of a merged tree ----------

  /** An upstream of the proxy directive at the end of a path. */
  datatype UpstreamAt = UpstreamAt(path: Path, upstream: string)

  ghost function Entries(path: Path, upstreams: seq<string>): multiset<UpstreamAt> {
    if upstreams == [] then multiset{}
    else multiset{UpstreamAt(path, upstreams[0])} + Entries(path, upstreams[1..])
  }

  ghost function BlockEntries(b: Block, path: Path): multiset<UpstreamAt>
    decreases b, 1
  {
    var here := path + [KeyOf(b)];
    Entries(here, if ProxyLike(b.FirstKey()) then Upstreams(b.keys) else []) + ForestEntries(b.children, here)
  }

  /** All upstreams of a forest that stands at the end of `path`. */
  ghost function ForestEntries(f: Forest, path: Path): multiset<UpstreamAt>
    decreases f, 0
  {
    if f == [] then multiset{} else BlockEntries(f[0], path) + ForestEntries(f[1..], path)
  }

  lemma EntriesConcat(path: Path, u: seq<string>, v: seq<string>)
    ensures Entries(path, u + v) == Entries(path, u) + Entries(path, v)
  {
    if u == [] {
      assert u + v == v;
    } else {
      assert (u + v)[1..] == u[1..] + v;
      EntriesConcat(path, u[1..], v);
    }
  }

  lemma ForestEntriesConcat(f: Forest, g: Forest, path: Path)
    ensures ForestEntries(f + g, path) == ForestEntries(f, path) + ForestEntries(g, path)
  {
    if f == [] {
      assert f + g == g;
    } else {
      assert (f + g)[1..] == f[1..] + g;
      ForestEntriesConcat(f[1..], g, path);
    }
  }

  lemma ForestEntriesSplit(f: Forest, i: nat, path: Path)
    requires i < |f|
    ensures ForestEntries(f, path)
         == ForestEntries(f[..i], path) + BlockEntries(f[i], path) + ForestEntries(f[i + 1..], path)
  {
    assert f == f[..i] + ([f[i]] + f[i + 1..]);
    ForestEntriesConcat(f[..i], [f[i]] + f[i + 1..], path);
    assert ([f[i]] + f[i + 1..])[1..] == f[i + 1..];
  }

  lemma {:induction false} CombineEntries(a: Block, b: Block, path: Path)
    requires KeyOf(a) == KeyOf(b) && Harmless(a, b) && Clean(a.children, b.children)
    ensures BlockEntries(Combine(a, b), path) == BlockEntries(a, path) + BlockEntries(b, path)
    decreases b, 1
  {
    var here := path + [KeyOf(a)];
    CombineHarmless(a, b);
    EntriesAddUp(a.children, b.children, here);
    if ProxyLike(a.FirstKey()) {
      EntriesConcat(here, Upstreams(a.keys), Upstreams(b.keys));
    }
    assert Combine(a, b).children == Merge(a.children, b.children) && Combine(a, b).FirstKey() == a.FirstKey();
    hide Entries, ForestEntries, KeyOf, Combine, Upstreams, Clean;
  }

  lemma {:induction false} EntriesMergeBlock(f: Forest, b: Block, path: Path)
    requires CleanBlock(f, b)
    ensures ForestEntries(MergeBlock(f, b), path) == ForestEntries(f, path) + BlockEntries(b, path)
    decreases b, 2
  {
    var i := FindFirst(f, b);
    if i == |f| {
      ForestEntriesConcat(f, [b], path);
      assert ForestEntries([b], path) == BlockEntries(b, path) by {
        assert [b][1..] == [];
      }
    } else {
      var g := f[i := Combine(f[i], b)];
      AbsorbsSameKey(f[i], b);
      CombineEntries(f[i], b, path);
      ForestEntriesSplit(f, i, path);
      ForestEntriesSplit(g, i, path);
      assert g[..i] == f[..i] && g[i + 1..] == f[i + 1..];
    }
  }

  lemma {:induction false} EntriesAddUp(f: Forest, g: Forest, path: Path)
    requires Clean(f, g)
    ensures ForestEntries(Merge(f, g), path) == ForestEntries(f, path) + ForestEntries(g, path)
    decreases g, 0
  {
    if g != [] {
      EntriesMergeBlock(f, g[0], path);
      EntriesAddUp(MergeBlock(f, g[0]), g[1..], path);
    }
  }

  /** The number of upstreams of a forest. */
  function UpstreamCount(f: Forest): nat
    decreases f, 0
  {
    if f == [] then 0 else BlockUpstreamCount(f[0]) + UpstreamCount(f[1..])
  }

  function BlockUpstreamCount(b: Block): nat
    decreases b, 1
  {
    (if ProxyLike(b.FirstKey()) then |Upstreams(b.keys)| else 0) + UpstreamCount(b.children)
  }

  lemma {:induction false} CountConcat(f: Forest, g: Forest)
    ensures UpstreamCount(f + g) == UpstreamCount(f) + UpstreamCount(g)
  {
    if f == [] {
      assert f + g == g;
    } else {
      assert (f + g)[1..] == f[1..] + g;
      CountConcat(f[1..], g);
    }
  }

  lemma CountSplit(f: Forest, i: nat)
    requires i < |f|
    ensures UpstreamCount(f) == UpstreamCount(f[..i]) + BlockUpstreamCount(f[i]) + UpstreamCount(f[i + 1..])
  {
    hide BlockUpstreamCount;
    assert f == f[..i] + ([f[i]] + f[i + 1..]);
    CountConcat(f[..i], [f[i]] + f[i + 1..]);
    assert ([f[i]] + f[i + 1..])[1..] == f[i + 1..];
  }

  lemma EntriesSize(path: Path, upstreams: seq<string>)
    ensures |Entries(path, upstreams)| == |upstreams|
  {}

  lemma {:induction false} ForestEntriesSize(f: Forest, path: Path)
    ensures |ForestEntries(f, path)| == UpstreamCount(f)
    decreases f, 0
  {
    if f != [] {
      var b := f[0];
      var here := path + [KeyOf(b)];
      EntriesSize(here, if ProxyLike(b.FirstKey()) then Upstreams(b.keys) else []);
      ForestEntriesSize(b.children, here);
      ForestEntriesSize(f[1..], path);
    }
  }

  lemma CombineCount(a: Block, b: Block)
    requires KeyOf(a) == KeyOf(b) && ProxyLike(a.FirstKey())
    ensures |Upstreams(CombineKeys(a.keys, b.keys))| <= |Upstreams(a.keys)| + |Upstreams(b.keys)|
    ensures |Upstreams(CombineKeys(a.keys, b.keys))| == |Upstreams(a.keys)| + |Upstreams(b.keys)| ==> Harmless(a, b)
  {
    var keys := a.keys + Upstreams(b.keys);
    if |a.keys| == 1 {
      assert keys[1..] == Upstreams(b.keys);
    } else {
      assert keys[1] == a.keys[1];
    }
  }

  /** A merge can lose upstreams, and loses one wherever it is not clean. */
  lemma {:induction false} CountMerge(f: Forest, g: Forest)
    ensures UpstreamCount(Merge(f, g)) <= UpstreamCount(f) + UpstreamCount(g)
    ensures UpstreamCount(Merge(f, g)) == UpstreamCount(f) + UpstreamCount(g) ==> Clean(f, g)
    decreases g, 0
  {
    if g != [] {
      CountMergeBlock(f, g[0]);
      CountMerge(MergeBlock(f, g[0]), g[1..]);
    }
  }

  lemma {:induction false} CountMergeBlock(f: Forest, b: Block)
    ensures UpstreamCount(MergeBlock(f, b)) <= UpstreamCount(f) + BlockUpstreamCount(b)
    ensures UpstreamCount(MergeBlock(f, b)) == UpstreamCount(f) + BlockUpstreamCount(b) ==> CleanBlock(f, b)
    decreases b, 1
  {
    var i := FindFirst(f, b);
    if i == |f| {
      CountConcat(f, [b]);
      assert [b][1..] == [];
    } else {
      var g := f[i := Combine(f[i], b)];
      AbsorbsSameKey(f[i], b);
      CountSplit(f, i);
      CountSplit(g, i);
      assert g[..i] == f[..i] && g[i + 1..] == f[i + 1..];
      CountMerge(f[i].children, b.children);
      if ProxyLike(b.FirstKey()) {
        CombineCount(f[i], b);
      }
    }
  }

  /**
   Merging adds up the upstreams - at every directive none is lost, invented or counted twice - exactly
   when the merge is clean.
   */
  lemma EntriesMerge(f: Forest, g: Forest, path: Path)
    ensures ForestEntries(Merge(f, g), path) == ForestEntries(f, path) + ForestEntries(g, path) <==> Clean(f, g)
  {
    if Clean(f, g) {
      EntriesAddUp(f, g, path);
    }
    ForestEntriesSize(f, path);
    ForestEntriesSize(g, path);
    ForestEntriesSize(Merge(f, g), path);
    CountMerge(f, g);
  }

  // ---------- normal form ----------

  /** No two siblings share a merge key, at any level. */
  ghost predicate Normal(f: Forest)
    decreases f
  {
    && Distinct(f)
    && forall i :: 0 <= i < |f| ==> Normal(f[i].children)
  }

  ghost predicate Distinct(f: Forest) {
    forall i, j :: 0 <= i < j < |f| ==> KeyOf(f[i]) != KeyOf(f[j])
  }

  /** The position of the first block with a merge key. */
  lemma FindFirstKey(f: Forest, b: Block, i: nat)
    requires i <= |f| && (forall j :: 0 <= j < i ==> KeyOf(f[j]) != KeyOf(b))
    requires i < |f| ==> KeyOf(f[i]) == KeyOf(b)
    ensures FindFirst(f, b) == i
  {}

  lemma {:induction false} NormalMergeBlock(f: Forest, b: Block)
    requires CleanBlock(f, b) && Normal(f) && Normal(b.children)
    ensures Normal(MergeBlock(f, b))
    decreases b, 1
  {
    var i := FindFirst(f, b);
    if i == |f| {
      forall j | 0 <= j < |f| ensures KeyOf(f[j]) != KeyOf(b) {
        AbsorbsSameKey(f[j], b);
      }
    } else {
      AbsorbsSameKey(f[i], b);
      CombineHarmless(f[i], b);
      NormalMerge(f[i].children, b.children);
    }
  }

  /** Merging trees in normal form gives a tree in normal form. */
  lemma {:induction false} NormalMerge(f: Forest, g: Forest)
    requires Clean(f, g) && Normal(f) && Normal(g)
    ensures Normal(Merge(f, g))
    decreases g, 0
  {
    if g != [] {
      NormalMergeBlock(f, g[0]);
      NormalMerge(MergeBlock(f, g[0]), g[1..]);
    }
  }
}
