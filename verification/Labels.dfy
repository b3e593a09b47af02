/**
 `FromLabels` of `caddyfile/fromlabels.go`: labels become a tree of blocks, one for each path.

 The program keeps a map from paths to pointers to blocks, and every block keeps pointers to its
 children. Here a pointer to a block is the path under which the map has it.
 */
module Labels {
  import opened Text
  import opened Tree
  import opened Lexer
  import opened BlockOrder
  import opened LabelPath

  /** A block of the map, with the paths of its children. */
  datatype Entry = Entry(order: int, keys: seq<string>, kids: seq<string>)

  /** The map, and the paths of the blocks of the container. */
  datatype Arena = Arena(blocks: map<string, Entry>, roots: seq<string>)

  const EMPTY_ARENA := Arena(map[], [])

  // ---------- what the loop does ----------

  /** A new block is attached to the container or to the block of its parent. */
  function Attach(a: Arena, path: string): Arena
    requires ParentPath(path) == "" || ParentPath(path) in a.blocks
  {
    var parent := ParentPath(path);
    if parent == "" then
      Arena(a.blocks[path := Entry(OrderOf(path), [], [])], a.roots + [path])
    else
      var p := a.blocks[parent];
      Arena(a.blocks[parent := p.(kids := p.kids + [path])][path := Entry(OrderOf(path), [NameOf(path)], [])], a.roots)
  }

  /** `getOrCreateBlock`. */
  function Create(a: Arena, path: string): (r: Arena)
    requires WellFormed(path)
    ensures path in r.blocks && a.blocks.Keys <= r.blocks.Keys
    ensures forall p :: p in r.blocks && p !in a.blocks ==> |p| <= |path|
    decreases |path|
  {
    if path in a.blocks then a
    else
      ParentWellFormed(path);
      Attach(if ParentPath(path) == "" then a else Create(a, ParentPath(path)), path)
  }

  function AddArgs(a: Arena, path: string, args: seq<string>): Arena
    requires path in a.blocks
  {
    var e := a.blocks[path];
    Arena(a.blocks[path := e.(keys := e.keys + args)], a.roots)
  }

  /** `parseArgs`. */
  function Args(text: string): seq<string> {
    if text == "" then [] else Texts(Tokens(Load(text), 1, 0))
  }

  function Texts(tokens: seq<Token>): seq<string> {
    if tokens == [] then [] else [tokens[0].text] + Texts(tokens[1..])
  }

  // ---------- what the map holds ----------

  /** The path and the paths above it. */
  ghost function Ancestors(path: string): (r: set<string>)
    requires WellFormed(path)
    decreases |path|
  {
    ParentWellFormed(path);
    {path} + if ParentPath(path) == "" then {} else Ancestors(ParentPath(path))
  }

  ghost predicate NoDuplicates(s: seq<string>) {
    forall i, j :: 0 <= i < j < |s| ==> s[i] != s[j]
  }

  /** The elements of `s`, each once, are the paths of blocks directly below `parent`. */
  ghost predicate Lists(s: seq<string>, blocks: map<string, Entry>, parent: string) {
    && NoDuplicates(s)
    && forall q :: q in s <==> q in blocks && ParentPath(q) == parent
  }

  /** The keys that a block owes to its path and to the arguments of its label. */
  function KeysFor(path: string, args: map<string, seq<string>>): seq<string> {
    (if ParentPath(path) == "" then [] else [NameOf(path)]) + (if path in args then args[path] else [])
  }

  /**
   The block of a path: it has the order, the name and the arguments that belong to the path, and lists
   the blocks below it.
   */
  ghost predicate Proper(a: Arena, args: map<string, seq<string>>, p: string)
    requires p in a.blocks
  {
    && WellFormed(p)
    && (ParentPath(p) == "" || ParentPath(p) in a.blocks)
    && a.blocks[p].order == OrderOf(p) && a.blocks[p].keys == KeysFor(p, args)
    && Lists(a.blocks[p].kids, a.blocks, p)
  }

  /**
   Every block is proper, so that it is in the list of its parent, or of the container, and in no other
   one, once.
   */
  ghost predicate Shape(a: Arena, args: map<string, seq<string>>) {
    && Lists(a.roots, a.blocks, "")
    && forall p {:trigger Proper(a, args, p)} :: p in a.blocks ==> Proper(a, args, p)
  }

  /** The blocks are those of the labels and of the paths above them. */
  ghost predicate Covers(a: Arena, labels: set<string>) {
    && (forall k :: k in labels ==> WellFormed(k) && Ancestors(k) <= a.blocks.Keys)
    && forall p :: p in a.blocks ==> exists k :: k in labels && WellFormed(k) && p in Ancestors(k)
  }

  /** What the map holds after all labels. */
  ghost predicate Built(a: Arena, args: map<string, seq<string>>) {
    Shape(a, args) && Covers(a, args.Keys)
  }

  lemma ListsMore(s: seq<string>, blocks: map<string, Entry>, more: map<string, Entry>, path: string, parent: string)
    requires Lists(s, blocks, parent) && path !in blocks && more.Keys == blocks.Keys + {path}
    ensures Lists(if ParentPath(path) == parent then s + [path] else s, more, parent)
  {}

  lemma AncestorsAre(path: string)
    requires WellFormed(path)
    ensures path != "" && |ParentPath(path)| < |path|
    ensures ParentPath(path) == "" ==> Ancestors(path) == {path}
    ensures ParentPath(path) != "" ==>
      WellFormed(ParentPath(path)) && Ancestors(path) == {path} + Ancestors(ParentPath(path))
  {
    hide LastDot, Segment;
    ParentWellFormed(path);
  }

  lemma ProperParent(a: Arena, args: map<string, seq<string>>, p: string)
    requires Shape(a, args) && p in a.blocks
    ensures WellFormed(p) && (ParentPath(p) == "" || ParentPath(p) in a.blocks) && p != ""
  {
    hide LastDot, WellFormed, ParentPath, NameOf, OrderOf, KeysFor, Lists;
    assert Proper(a, args, p);
    ParentWellFormed(p);
  }

  /** A block keeps its place in the map while another one is attached. */
  lemma AttachOther(a: Arena, path: string, args: map<string, seq<string>>, p: string)
    requires WellFormed(path) && Shape(a, args) && path !in a.blocks
    requires ParentPath(path) == "" || ParentPath(path) in a.blocks
    requires p in a.blocks
    ensures p in Attach(a, path).blocks && Proper(Attach(a, path), args, p)
  {
    hide LastDot, WellFormed, NameOf, OrderOf, ParentPath, KeysFor, Lists;
    var r := Attach(a, path);
    assert r.blocks.Keys == a.blocks.Keys + {path};
    ProperParent(a, args, p);
    assert Proper(a, args, p);
    ListsMore(a.blocks[p].kids, a.blocks, r.blocks, path, p);
  }

  lemma AttachNew(a: Arena, path: string, args: map<string, seq<string>>)
    requires WellFormed(path) && Shape(a, args) && path !in a.blocks && path !in args
    requires ParentPath(path) == "" || ParentPath(path) in a.blocks
    ensures Proper(Attach(a, path), args, path)
  {
    hide LastDot, WellFormed, NameOf, OrderOf, ParentPath;
    AncestorsAre(path);
    var r := Attach(a, path);
    assert r.blocks.Keys == a.blocks.Keys + {path};
    hide LastDot, WellFormed, NameOf, OrderOf, ParentPath, KeysFor, Shape;
    forall q | q in r.blocks ensures ParentPath(q) != path {
      if q in a.blocks {
        ProperParent(a, args, q);
      }
    }
  }

  lemma AttachShape(a: Arena, path: string, args: map<string, seq<string>>)
    requires WellFormed(path) && Shape(a, args) && path !in a.blocks && path !in args
    requires ParentPath(path) == "" || ParentPath(path) in a.blocks
    ensures Shape(Attach(a, path), args) && Attach(a, path).blocks.Keys == a.blocks.Keys + {path}
  {
    hide LastDot, WellFormed, NameOf, OrderOf, ParentPath, Lists, Proper;
    var r := Attach(a, path);
    assert r.blocks.Keys == a.blocks.Keys + {path};
    ListsMore(a.roots, a.blocks, r.blocks, path, "");
    forall p | p in r.blocks ensures Proper(r, args, p) {
      if p == path {
        AttachNew(a, path, args);
      } else {
        AttachOther(a, path, args, p);
      }
    }
  }

  /** Creating a block creates the blocks above it that are missing, and nothing else. */
  lemma {:induction false} CreateShape(a: Arena, path: string, args: map<string, seq<string>>)
    requires WellFormed(path) && Shape(a, args)
    requires forall k :: k in args ==> k in a.blocks
    ensures Shape(Create(a, path), args)
    ensures Create(a, path).blocks.Keys == a.blocks.Keys + Ancestors(path)
    decreases |path|
  {
    hide LastDot, Shape, ParentPath, WellFormed, Attach, Ancestors;
    AncestorsAre(path);
    var parent := ParentPath(path);
    if path in a.blocks {
      AncestorsThere(a, path, args);
    } else if parent == "" {
      AttachShape(a, path, args);
    } else {
      CreateShape(a, parent, args);
      AttachShape(Create(a, parent), path, args);
    }
  }

  lemma {:induction false} AncestorsThere(a: Arena, path: string, args: map<string, seq<string>>)
    requires Shape(a, args) && path in a.blocks
    ensures WellFormed(path) && Ancestors(path) <= a.blocks.Keys
    decreases |path|
  {
    hide *;
    ProperParent(a, args, path);
    AncestorsAre(path);
    if ParentPath(path) != "" {
      AncestorsThere(a, ParentPath(path), args);
    }
  }

  lemma AddArgsShape(a: Arena, path: string, args: map<string, seq<string>>, more: seq<string>)
    requires Shape(a, args) && path in a.blocks && path !in args
    ensures Shape(AddArgs(a, path, more), args[path := more])
  {
    hide LastDot, OrderOf, NameOf, WellFormed, ParentPath, Lists;
    var r := AddArgs(a, path, more);
    assert r.blocks.Keys == a.blocks.Keys;
    SameDomain(a.roots, a.blocks, r.blocks, "");
    forall p | p in r.blocks ensures Proper(r, args[path := more], p) {
      assert Proper(a, args, p);
      SameDomain(a.blocks[p].kids, a.blocks, r.blocks, p);
      if p == path {
        assert KeysFor(path, args) + more == KeysFor(path, args[path := more]);
      }
    }
  }

  lemma SameDomain(s: seq<string>, blocks: map<string, Entry>, more: map<string, Entry>, parent: string)
    requires Lists(s, blocks, parent) && blocks.Keys == more.Keys
    ensures Lists(s, more, parent)
  {}

  lemma CreateCovers(a: Arena, path: string, labels: set<string>, b: Arena)
    requires Covers(a, labels) && WellFormed(path) && b.blocks.Keys == a.blocks.Keys + Ancestors(path)
    ensures Covers(b, labels + {path})
  {
    hide WellFormed, Ancestors;
    forall p | p in b.blocks ensures exists k :: k in labels + {path} && WellFormed(k) && p in Ancestors(k) {
      if p !in Ancestors(path) {
        var k :| k in labels && WellFormed(k) && p in Ancestors(k);
        assert k in labels + {path};
      }
    }
  }

  /** One round of the loop. */
  lemma BuildStep(a: Arena, args: map<string, seq<string>>, path: string, more: seq<string>)
    requires Built(a, args) && WellFormed(path) && path !in args
    ensures Built(AddArgs(Create(a, path), path, more), args[path := more])
  {
    hide LastDot, WellFormed, Ancestors, ParentPath, Shape, Attach, Create;
    var b := Create(a, path);
    forall k | k in args ensures k in a.blocks {
      AncestorsAre(k);
    }
    CreateShape(a, path, args);
    AddArgsShape(b, path, args, more);
    CreateCovers(a, path, args.Keys, AddArgs(b, path, more));
    assert args[path := more].Keys == args.Keys + {path};
  }

  // ---------- the tree in the map ----------

  /** Children have longer paths than their parents. */
  ghost predicate Grounded(a: Arena) {
    && (forall q :: q in a.roots ==> q in a.blocks)
    && forall p, q :: p in a.blocks && q in a.blocks[p].kids ==> q in a.blocks && |q| > |p|
  }

  lemma ShapeGrounded(a: Arena, args: map<string, seq<string>>)
    requires Shape(a, args)
    ensures Grounded(a)
  {
    hide LastDot, WellFormed, NameOf, OrderOf, ParentPath, KeysFor;
    forall p, q | p in a.blocks && q in a.blocks[p].kids ensures q in a.blocks && |q| > |p| {
      assert Proper(a, args, p);
      ProperParent(a, args, q);
    }
  }

  ghost function Longer(a: Arena, p: string): set<string> {
    set q | q in a.blocks && |q| > |p|
  }

  lemma LongerShrinks(a: Arena, p: string, q: string)
    requires q in a.blocks && |q| > |p|
    ensures Longer(a, q) < Longer(a, p)
  {
    assert q in Longer(a, p) && q !in Longer(a, q);
  }

  /** The block under a path, with everything below it. */
  function TreeOf(a: Arena, p: string): Block
    requires Grounded(a) && p in a.blocks
    decreases Longer(a, p)
  {
    var e := a.blocks[p];
    Block(e.order, e.keys, seq(|e.kids|, i requires 0 <= i < |e.kids| =>
      LongerShrinks(a, p, e.kids[i]);
      TreeOf(a, e.kids[i])))
  }

  function TreesOf(a: Arena, paths: seq<string>): (f: Forest)
    requires Grounded(a) && forall q :: q in paths ==> q in a.blocks
    ensures |f| == |paths| && forall i :: 0 <= i < |f| ==> f[i] == TreeOf(a, paths[i])
  {
    seq(|paths|, i requires 0 <= i < |paths| => TreeOf(a, paths[i]))
  }

  /** The container. */
  function ContainerOf(a: Arena): Forest
    requires Grounded(a)
  {
    TreesOf(a, a.roots)
  }

  lemma TreeChildren(a: Arena, p: string)
    requires Grounded(a) && p in a.blocks
    ensures TreeOf(a, p) == Block(a.blocks[p].order, a.blocks[p].keys, TreesOf(a, a.blocks[p].kids))
  {}

  // ---------- the order of the labels ----------

  lemma RemoveFromBoth(s: seq<string>, t: seq<string>, j: nat)
    requires NoDuplicates(s) && NoDuplicates(t) && (forall q :: q in s <==> q in t)
    requires s != [] && j < |t| && t[j] == s[0]
    ensures NoDuplicates(s[1..]) && NoDuplicates(t[..j] + t[j + 1..])
    ensures forall q :: q in s[1..] <==> q in t[..j] + t[j + 1..]
  {
    var u := t[..j] + t[j + 1..];
    assert s == [s[0]] + s[1..] && t == t[..j] + [t[j]] + t[j + 1..];
    assert s[0] !in s[1..] && t[j] !in u;
    forall q ensures q in s[1..] <==> q in u {
      assert q in s <==> q == s[0] || q in s[1..];
      assert q in t <==> q == t[j] || q in u;
    }
  }

  lemma BothEmpty(s: seq<string>, t: seq<string>)
    requires forall q :: q in s <==> q in t
    ensures s == [] <==> t == []
  {
    if t != [] {
      assert t[0] in s;
    }
    if s != [] {
      assert s[0] in t;
    }
  }

  /** The same path has trees that sort alike. */
  ghost predicate Alike(s: seq<string>, t: seq<string>, f: Forest, g: Forest)
    requires |f| == |s| && |g| == |t|
  {
    forall i, j :: 0 <= i < |s| && 0 <= j < |t| && s[i] == t[j] ==> SortBlock(f[i]) == SortBlock(g[j])
  }

  lemma StillAlike(s: seq<string>, t: seq<string>, f: Forest, g: Forest, j: nat)
    requires |f| == |s| && |g| == |t| && Alike(s, t, f, g) && s != [] && j < |t|
    ensures Alike(s[1..], t[..j] + t[j + 1..], f[1..], Without(g, j))
  {}

  /** Lists of the same paths, with trees that sort alike, sort alike. */
  lemma {:induction false} SameLists(s: seq<string>, t: seq<string>, f: Forest, g: Forest)
    requires NoDuplicates(s) && NoDuplicates(t) && (forall q :: q in s <==> q in t)
    requires |f| == |s| && |g| == |t|
    requires Alike(s, t, f, g)
    ensures multiset(SortChildren(f)) == multiset(SortChildren(g))
    decreases |s|
  {
    hide SortBlock, NoDuplicates, Without;
    BothEmpty(s, t);
    if s != [] {
      assert s[0] in t;
      var j :| 0 <= j < |t| && t[j] == s[0];
      assert |Without(g, j)| == |g| - 1 by {
        assert |multiset(g)| == |multiset(Without(g, j))| + 1;
      }
      RemoveFromBoth(s, t, j);
      SortChildrenWithout(g, j);
      TailMultiset(SortChildren(f));
      assert SortBlock(f[0]) == SortBlock(g[j]);
      StillAlike(s, t, f, g, j);
      SameLists(s[1..], t[..j] + t[j + 1..], f[1..], Without(g, j));
    }
  }

  /** The block of a path sorts alike in any two maps that were built from the same labels. */
  lemma {:induction false} SameTree(a: Arena, b: Arena, args: map<string, seq<string>>, p: string)
    requires Shape(a, args) && Shape(b, args) && a.blocks.Keys == b.blocks.Keys && p in a.blocks
    requires Grounded(a) && Grounded(b)
    ensures SortBlock(TreeOf(a, p)) == SortBlock(TreeOf(b, p))
    decreases Longer(a, p)
  {
    hide LastDot, WellFormed, NameOf, OrderOf, ParentPath, KeysFor, TreeOf;
    assert Proper(a, args, p) && Proper(b, args, p);
    var s, t := a.blocks[p].kids, b.blocks[p].kids;
    forall q | q in s ensures SortBlock(TreeOf(a, q)) == SortBlock(TreeOf(b, q)) {
      LongerShrinks(a, p, q);
      SameTree(a, b, args, q);
    }
    SameLists(s, t, TreesOf(a, s), TreesOf(b, t));
    TreeChildren(a, p);
    TreeChildren(b, p);
    SortChildrenPermuted(TreesOf(a, s), TreesOf(b, t));
  }

  lemma SameBlocks(a: Arena, b: Arena, args: map<string, seq<string>>)
    requires Built(a, args) && Built(b, args)
    ensures a.blocks.Keys == b.blocks.Keys
  {
    hide WellFormed, Ancestors, Shape;
    assert forall p :: p in a.blocks ==> p in b.blocks;
    assert forall p :: p in b.blocks ==> p in a.blocks;
  }

  lemma BuiltAlike(a: Arena, b: Arena, args: map<string, seq<string>>)
    requires Built(a, args) && Built(b, args)
    ensures Grounded(a) && Grounded(b)
    ensures SortForest(ContainerOf(a)) == SortForest(ContainerOf(b))
  {
    ShapeGrounded(a, args);
    ShapeGrounded(b, args);
    SameBlocks(a, b, args);
    hide LastDot, WellFormed, ParentPath, TreeOf;
    forall q | q in a.roots ensures SortBlock(TreeOf(a, q)) == SortBlock(TreeOf(b, q)) {
      SameTree(a, b, args, q);
    }
    SameLists(a.roots, b.roots, TreesOf(a, a.roots), TreesOf(b, b.roots));
    SortChildrenPermuted(TreesOf(a, a.roots), TreesOf(b, b.roots));
  }
}
