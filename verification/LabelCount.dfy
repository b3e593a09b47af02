/** The tree that labels give has one block for each path, wherever it stands. */
module LabelCount {
  import opened Tree
  import opened LabelPath
  import opened Labels

  /** The paths at or below one of the given paths. */
  ghost function Under(a: Arena, tops: seq<string>): set<string> {
    set q | q in a.blocks && WellFormed(q) && exists p :: p in tops && p in Ancestors(q)
  }

  lemma {:induction false} AncestorsShrink(path: string, p: string)
    requires WellFormed(path) && p in Ancestors(path)
    ensures |p| <= |path| && (|p| == |path| ==> p == path)
    ensures WellFormed(p) && Ancestors(p) <= Ancestors(path)
    decreases |path|
  {
    hide WellFormed, ParentPath, LastDot, Ancestors;
    AncestorsAre(path);
    if p != path {
      AncestorsShrink(ParentPath(path), p);
    }
  }

  /** Of two ancestors of a path, the shorter one is an ancestor of the other. */
  lemma {:induction false} AncestorsNested(path: string, p: string, q: string)
    requires WellFormed(path) && p in Ancestors(path) && q in Ancestors(path) && |p| <= |q|
    ensures WellFormed(q) && p in Ancestors(q)
    decreases |path|
  {
    hide WellFormed, ParentPath, LastDot, Ancestors;
    AncestorsAre(path);
    AncestorsShrink(path, p);
    if q != path {
      AncestorsShrink(ParentPath(path), q);
      if p == path {
        assert false;
      }
      AncestorsNested(ParentPath(path), p, q);
    }
  }

  /** Siblings have no path below them in common. */
  lemma SiblingsApart(path: string, p: string, q: string)
    requires WellFormed(path) && p in Ancestors(path) && q in Ancestors(path) && ParentPath(p) == ParentPath(q)
    ensures p == q
  {
    hide WellFormed, ParentPath, LastDot, Ancestors;
    AncestorsShrink(path, p);
    AncestorsShrink(path, q);
    var s, t := if |p| <= |q| then p else q, if |p| <= |q| then q else p;
    AncestorsNested(path, s, t);
    AncestorsAre(s);
    AncestorsAre(t);
    if s != t {
      AncestorsShrink(ParentPath(t), s);
      assert false;
    }
  }

  /** Below a path, but not at it, everything is at or below one of its children. */
  lemma {:induction false} ChildAbove(a: Arena, args: map<string, seq<string>>, path: string, p: string)
    returns (k: string)
    requires Shape(a, args) && path in a.blocks && WellFormed(path) && p in Ancestors(path) && path != p
    ensures k in a.blocks && ParentPath(k) == p && k in Ancestors(path)
    decreases |path|
  {
    hide WellFormed, ParentPath, LastDot, Ancestors, Shape;
    ProperParent(a, args, path);
    AncestorsAre(path);
    if ParentPath(path) == p {
      k := path;
    } else {
      k := ChildAbove(a, args, ParentPath(path), p);
    }
  }

  lemma {:induction false} RootAbove(a: Arena, args: map<string, seq<string>>, path: string) returns (k: string)
    requires Shape(a, args) && path in a.blocks && WellFormed(path)
    ensures k in a.blocks && ParentPath(k) == "" && k in Ancestors(path)
    decreases |path|
  {
    hide WellFormed, ParentPath, LastDot, Ancestors, Shape;
    ProperParent(a, args, path);
    AncestorsAre(path);
    if ParentPath(path) == "" {
      k := path;
    } else {
      k := RootAbove(a, args, ParentPath(path));
    }
  }

  lemma KidsAre(a: Arena, args: map<string, seq<string>>, p: string)
    requires Shape(a, args) && p in a.blocks
    ensures WellFormed(p) && NoDuplicates(a.blocks[p].kids)
    ensures forall k :: k in a.blocks[p].kids <==> k in a.blocks && ParentPath(k) == p
  {
    hide WellFormed, ParentPath, LastDot, NameOf, OrderOf, KeysFor, NoDuplicates;
    assert Proper(a, args, p);
  }

  lemma UnderOne(a: Arena, args: map<string, seq<string>>, p: string)
    requires Shape(a, args) && p in a.blocks
    ensures Under(a, [p]) == {p} + Under(a, a.blocks[p].kids) && p !in Under(a, a.blocks[p].kids)
  {
    hide WellFormed, ParentPath, LastDot, Ancestors, Shape, NoDuplicates;
    var kids := a.blocks[p].kids;
    KidsAre(a, args, p);
    AncestorsAre(p);
    forall q | q in Under(a, [p]) && q != p ensures q in Under(a, kids) {
      var k := ChildAbove(a, args, q, p);
    }
    forall q | q in Under(a, kids) ensures q in Under(a, [p]) && q != p {
      var k :| k in kids && k in Ancestors(q);
      AncestorsShrink(q, k);
      AncestorsAre(k);
      AncestorsAre(p);
    }
  }

  lemma UnderConcat(a: Arena, s: seq<string>, t: seq<string>)
    ensures Under(a, s + t) == Under(a, s) + Under(a, t)
  {
    hide WellFormed, Ancestors;
  }

  lemma UnderSiblings(a: Arena, s: seq<string>, parent: string)
    requires s != [] && NoDuplicates(s) && forall k :: k in s ==> ParentPath(k) == parent
    ensures Under(a, [s[0]]) * Under(a, s[1..]) == {}
  {
    hide WellFormed, Ancestors, ParentPath;
    forall q | q in Under(a, [s[0]]) ensures q !in Under(a, s[1..]) {
      if q in Under(a, s[1..]) {
        var k :| k in s[1..] && k in Ancestors(q);
        SiblingsApart(q, s[0], k);
        assert false;
      }
    }
  }

  lemma Sizes(a: Arena, s: seq<string>)
    requires Grounded(a) && s != [] && forall k :: k in s ==> k in a.blocks
    ensures Size(TreesOf(a, s)) == 1 + Size(TreesOf(a, a.blocks[s[0]].kids)) + Size(TreesOf(a, s[1..]))
  {
    hide TreeOf;
    TreeChildren(a, s[0]);
    assert TreesOf(a, s)[1..] == TreesOf(a, s[1..]);
  }

  lemma KidsLonger(a: Arena, p: string)
    requires Grounded(a) && p in a.blocks
    ensures forall k :: k in a.blocks[p].kids ==> k in a.blocks && |k| > |p|
  {}

  lemma NoTrees(a: Arena)
    requires Grounded(a)
    ensures Under(a, []) == {} && Size(TreesOf(a, [])) == 0
  {}

  lemma Tail(s: seq<string>)
    requires s != [] && NoDuplicates(s)
    ensures NoDuplicates(s[1..]) && s == [s[0]] + s[1..] && forall k :: k in s[1..] ==> k in s
  {}

  /** Siblings and everything below them: one block for each path. */
  lemma {:induction false} SizeOfTrees(a: Arena, args: map<string, seq<string>>, s: seq<string>, parent: string)
    requires Shape(a, args) && Grounded(a) && NoDuplicates(s)
    requires forall k :: k in s ==> k in a.blocks && ParentPath(k) == parent && |k| > |parent|
    ensures Size(TreesOf(a, s)) == |Under(a, s)|
    decreases Longer(a, parent), |s|
  {
    hide *;
    if s == [] {
      NoTrees(a);
    } else {
      var k, rest := s[0], s[1..];
      Tail(s);
      assert k in s;
      KidsAre(a, args, k);
      KidsLonger(a, k);
      LongerShrinks(a, parent, k);
      SizeOfTrees(a, args, a.blocks[k].kids, k);
      SizeOfTrees(a, args, rest, parent);
      Sizes(a, s);
      UnderOne(a, args, k);
      UnderSiblings(a, s, parent);
      UnderConcat(a, [k], rest);
    }
  }

  lemma RootsAre(a: Arena, args: map<string, seq<string>>)
    requires Shape(a, args) && Grounded(a)
    ensures NoDuplicates(a.roots) && ContainerOf(a) == TreesOf(a, a.roots)
    ensures forall k :: k in a.roots <==> k in a.blocks && ParentPath(k) == ""
  {
    hide ParentPath, NoDuplicates, Proper, TreesOf;
  }

  lemma InUnder(a: Arena, q: string, k: string)
    requires q in a.blocks && WellFormed(q) && k in a.roots && k in Ancestors(q)
    ensures q in Under(a, a.roots)
  {}

  /** The container has as many blocks, at all levels, as there are paths: none is missing or there twice. */
  lemma OneBlockEach(a: Arena, args: map<string, seq<string>>)
    requires Shape(a, args)
    ensures Grounded(a) && Size(ContainerOf(a)) == |a.blocks|
  {
    hide *;
    ShapeGrounded(a, args);
    RootsAre(a, args);
    forall q | q in a.blocks ensures q in Under(a, a.roots) && |q| > 0 {
      ProperParent(a, args, q);
      var k := RootAbove(a, args, q);
      InUnder(a, q, k);
    }
    assert Under(a, a.roots) == a.blocks.Keys by { UnderBlocks(a, a.roots); }
    assert |a.blocks.Keys| == |a.blocks|;
    SizeOfTrees(a, args, a.roots, "");
  }

  lemma UnderBlocks(a: Arena, s: seq<string>)
    ensures Under(a, s) <= a.blocks.Keys
  {}
}
