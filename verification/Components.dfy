/** Connected components of sets of addresses: what merging sites step by step computes. */
module Components {
  type Addresses = set<string>

  // ---------- what is linked ----------

  /** A chain of sets, each of which meets the next one. */
  ghost predicate Chain(edges: set<Addresses>, chain: seq<Addresses>) {
    && chain != []
    && (forall e :: e in chain ==> e in edges)
    && forall i :: 0 < i < |chain| ==> chain[i - 1] * chain[i] != {}
  }

  ghost predicate LinkedBy(edges: set<Addresses>, chain: seq<Addresses>, x: string, y: string) {
    Chain(edges, chain) && x in chain[0] && y in chain[|chain| - 1]
  }

  /** Two addresses belong to the same connected component. */
  ghost predicate Linked(edges: set<Addresses>, x: string, y: string) {
    exists chain :: LinkedBy(edges, chain, x, y)
  }

  lemma LinkedByOne(edges: set<Addresses>, e: Addresses, x: string, y: string)
    requires e in edges && x in e && y in e
    ensures Linked(edges, x, y)
  {
    assert LinkedBy(edges, [e], x, y);
  }

  lemma LinkedTransitive(edges: set<Addresses>, x: string, y: string, z: string)
    requires Linked(edges, x, y) && Linked(edges, y, z)
    ensures Linked(edges, x, z)
  {
    var c :| LinkedBy(edges, c, x, y);
    var d :| LinkedBy(edges, d, y, z);
    assert y in c[|c| - 1] * d[0];
    assert LinkedBy(edges, c + d, x, z);
  }

  /** The sets of `edges` only link what `others` link. */
  ghost predicate Coarser(edges: set<Addresses>, others: set<Addresses>) {
    forall e, x, y :: e in edges && x in e && y in e ==> Linked(others, x, y)
  }

  lemma {:induction false} CoarserLinks(edges: set<Addresses>, others: set<Addresses>, chain: seq<Addresses>,
      x: string, y: string)
    requires Coarser(edges, others) && LinkedBy(edges, chain, x, y)
    ensures Linked(others, x, y)
    decreases |chain|
  {
    hide Linked;
    assert chain[0] in edges;
    if |chain| > 1 {
      var z :| z in chain[0] * chain[1];
      assert chain[0] * chain[1] != {};
      assert forall e :: e in chain[1..] ==> e in chain;
      CoarserLinks(edges, others, chain[1..], z, y);
      LinkedTransitive(others, x, z, y);
    }
  }

  lemma CoarserLinked(edges: set<Addresses>, others: set<Addresses>)
    requires Coarser(edges, others)
    ensures forall x, y :: Linked(edges, x, y) ==> Linked(others, x, y)
  {
    forall x, y | Linked(edges, x, y) ensures Linked(others, x, y) {
      var chain :| LinkedBy(edges, chain, x, y);
      CoarserLinks(edges, others, chain, x, y);
    }
  }

  // ---------- what is together ----------

  ghost predicate Together(edges: set<Addresses>, x: string, y: string) {
    exists e :: e in edges && x in e && y in e
  }

  /** What is together with something that is together with `z` is together with `z`. */
  ghost predicate Transitive(edges: set<Addresses>) {
    forall x, y, z :: Together(edges, x, y) && Together(edges, y, z) ==> Together(edges, x, z)
  }

  lemma {:induction false} ChainStays(edges: set<Addresses>, chain: seq<Addresses>, x: string, y: string)
    requires Transitive(edges) && LinkedBy(edges, chain, x, y)
    ensures Together(edges, x, y)
    decreases |chain|
  {
    assert chain[0] in edges;
    if |chain| > 1 {
      assert chain[0] * chain[1] != {};
      var z :| z in chain[0] * chain[1];
      assert forall e :: e in chain[1..] ==> e in chain;
      ChainStays(edges, chain[1..], z, y);
      assert Together(edges, x, z);
    }
  }

  lemma TogetherIsLinked(edges: set<Addresses>)
    ensures forall x, y :: Together(edges, x, y) ==> Linked(edges, x, y)
  {
    hide Linked;
    forall x, y | Together(edges, x, y) ensures Linked(edges, x, y) {
      var e :| e in edges && x in e && y in e;
      LinkedByOne(edges, e, x, y);
    }
  }

  /** Sets are their own components exactly when being together is transitive. */
  lemma TogetherLinked(edges: set<Addresses>)
    ensures (forall x, y :: Together(edges, x, y) <==> Linked(edges, x, y)) <==> Transitive(edges)
  {
    TogetherIsLinked(edges);
    if Transitive(edges) {
      forall x, y | Linked(edges, x, y) ensures Together(edges, x, y) {
        var chain :| LinkedBy(edges, chain, x, y);
        ChainStays(edges, chain, x, y);
      }
    }
    hide Linked, Together;
    if forall x, y :: Together(edges, x, y) <==> Linked(edges, x, y) {
      forall x, y, z | Together(edges, x, y) && Together(edges, y, z) ensures Together(edges, x, z) {
        LinkedTransitive(edges, x, y, z);
      }
    }
  }

  // ---------- joining one more set ----------

  ghost function Hit(edges: set<Addresses>, s: Addresses): Addresses {
    set e, x | e in edges && e * s != {} && x in e :: x
  }

  ghost function Missed(edges: set<Addresses>, s: Addresses): set<Addresses> {
    set e | e in edges && e * s == {}
  }

  /** All sets that meet `s` become one with it. */
  ghost function Join(edges: set<Addresses>, s: Addresses): set<Addresses> {
    Missed(edges, s) + {s + Hit(edges, s)}
  }

  /** Joining keeps what is together transitive: the joined set takes in all that is together with it. */
  lemma JoinTransitive(edges: set<Addresses>, s: Addresses)
    requires Transitive(edges)
    ensures Transitive(Join(edges, s))
  {
    var joined, big := Join(edges, s), s + Hit(edges, s);
    forall x, y, z | Together(joined, x, y) && Together(joined, y, z) ensures Together(joined, x, z) {
      var d :| d in joined && x in d && y in d;
      var e :| e in joined && y in e && z in e;
      if d == big && e != big {
        TakenIn(edges, s, y, e, z);
      } else if d != big && e == big {
        TakenIn(edges, s, y, d, x);
      } else if d != big {
        assert Together(edges, x, y) && Together(edges, y, z);
        var c :| c in edges && x in c && z in c;
        assert c in Missed(edges, s) || c <= big;
      }
      assert big in joined;
    }
  }

  lemma TakenIn(edges: set<Addresses>, s: Addresses, y: string, e: Addresses, z: string)
    requires Transitive(edges) && y in s + Hit(edges, s) && e in Missed(edges, s) && y in e && z in e
    ensures z in s + Hit(edges, s)
  {
    assert y !in s by {
      assert y in s ==> y in e * s;
    }
    var d :| d in edges && d * s != {} && y in d;
    var w :| w in d * s;
    assert Together(edges, w, y) && Together(edges, y, z);
    var c :| c in edges && w in c && z in c;
    assert w in c * s;
  }

  lemma LinkedThrough(edges: set<Addresses>, s: Addresses, x: string)
    requires s in edges && s != {} && x in s + Hit(edges, s)
    ensures exists z :: z in s && Linked(edges, x, z) && Linked(edges, z, x)
  {
    if x in s {
      LinkedByOne(edges, s, x, x);
    } else {
      var e :| e in edges && e * s != {} && x in e;
      var z :| z in e * s;
      LinkedByOne(edges, e, x, z);
      LinkedByOne(edges, e, z, x);
    }
  }

  /** Joining changes nothing about what is linked, whatever sets come later. */
  lemma JoinLinks(edges: set<Addresses>, s: Addresses, later: set<Addresses>)
    requires s != {}
    ensures forall x, y :: Linked(Join(edges, s) + later, x, y) <==> Linked(edges + {s} + later, x, y)
  {
    var before, after := edges + {s} + later, Join(edges, s) + later;
    var big := s + Hit(edges, s);
    hide Linked;
    forall e, x, y | e in after && x in e && y in e ensures Linked(before, x, y) {
      if e == big {
        assert big <= s + Hit(before, s);
        LinkedThrough(before, s, x);
        LinkedThrough(before, s, y);
        var u :| u in s && Linked(before, x, u);
        var v :| v in s && Linked(before, v, y);
        LinkedByOne(before, s, u, v);
        LinkedTransitive(before, x, u, v);
        LinkedTransitive(before, x, v, y);
      } else {
        LinkedByOne(before, e, x, y);
      }
    }
    CoarserLinked(after, before);
    forall e, x, y | e in before && x in e && y in e ensures Linked(after, x, y) {
      LinkedByOne(after, if e in later || e in Missed(edges, s) then e else big, x, y);
    }
    CoarserLinked(before, after);
  }

  // ---------- disjoint sets ----------

  ghost predicate PairwiseDisjoint(edges: set<Addresses>) {
    forall d, e :: d in edges && e in edges && d != e ==> d * e == {}
  }

  lemma JoinDisjoint(edges: set<Addresses>, s: Addresses)
    requires PairwiseDisjoint(edges)
    ensures PairwiseDisjoint(Join(edges, s))
  {}

  lemma DisjointTransitive(edges: set<Addresses>)
    requires PairwiseDisjoint(edges)
    ensures Transitive(edges)
  {
    forall x, y, z | Together(edges, x, y) && Together(edges, y, z) ensures Together(edges, x, z) {
      var d :| d in edges && x in d && y in d;
      var e :| e in edges && y in e && z in e;
      assert y in d * e;
    }
  }

  /** A partition is determined by what is together in it. */
  lemma SamePartition(edges: set<Addresses>, others: set<Addresses>)
    requires PairwiseDisjoint(edges) && PairwiseDisjoint(others) && {} !in edges && {} !in others
    requires forall x, y :: Together(edges, x, y) <==> Together(others, x, y)
    ensures edges == others
  {
    forall e | e in edges ensures e in others {
      InOther(edges, others, e);
    }
    forall e | e in others ensures e in edges {
      InOther(others, edges, e);
    }
  }

  lemma InOther(edges: set<Addresses>, others: set<Addresses>, e: Addresses)
    requires PairwiseDisjoint(edges) && PairwiseDisjoint(others) && e in edges && e != {}
    requires forall x, y :: Together(edges, x, y) <==> Together(others, x, y)
    ensures e in others
  {
    var x :| x in e;
    assert Together(edges, x, x);
    var d :| d in others && x in d;
    forall y ensures y in e <==> y in d {
      if y in e {
        assert Together(edges, x, y);
        var c :| c in others && x in c && y in c;
        assert x in c * d;
      }
      if y in d {
        assert Together(others, x, y);
        var c :| c in edges && x in c && y in c;
        assert x in c * e;
      }
    }
    assert e == d;
  }
}
