/** The end of `GenerateCaddyfile` as it happens: global options are moved to a container of their own. */
module GeneratingInPlace {
  import opened Tree
  import opened Printer
  import opened Nodes
  import opened SortInPlace
  import opened Processing
  import opened ProcessInPlace
  import opened Generating

  lemma SplitSnoc(f: Forest, b: Block)
    ensures Globals(f + [b]) == Globals(f) + (if b.IsGlobal() then [b] else [])
    ensures NoGlobals(f + [b]) == NoGlobals(f) + (if b.IsGlobal() then [] else [b])
  {
    if f == [] {
      assert [b][1..] == [];
    } else {
      assert (f + [b])[1..] == f[1..] + [b];
      SplitSnoc(f[1..], b);
    }
  }

  /**
   The containers while global options are moved: the first `i` blocks of `f` have been looked at, and
   `blocks` are the nodes that have not.
   */
  ghost predicate Moving(global: Node, container: Node, blocks: seq<Node>, f: Forest, i: nat)
    reads global, container, global.footprint, container.footprint
  {
    && global.Valid() && container.Valid() && global.footprint !! container.footprint
    && i <= |f| && |container.children| == |NoGlobals(f[..i])| + |blocks|
    && container.children[|NoGlobals(f[..i])|..] == blocks
    && global.Value().children == Globals(f[..i])
    && container.Value().children == NoGlobals(f[..i]) + f[i..]
  }

  /**
   Moves a block to another container. It is removed from the first one before it is added to the
   second one, so that no node is ever in both; the source does it the other way round.
   */
  method MoveBlock(global: Node, container: Node, block: Node, ghost k: nat)
    requires global.Valid() && container.Valid() && global.footprint !! container.footprint
    requires k < |container.children| && container.children[k] == block
    modifies global`children, global`footprint, container`children, container`footprint
    ensures global.Valid() && container.Valid() && global.footprint !! container.footprint
    ensures global.footprint + container.footprint <= old(global.footprint + container.footprint)
    ensures k < |old(container.Value()).children|
    ensures container.children == old(container.children)[..k] + old(container.children)[k + 1..]
    ensures container.Value().children
         == old(container.Value()).children[..k] + old(container.Value()).children[k + 1..]
    ensures global.Value().children == old(global.Value()).children + [old(container.Value()).children[k]]
  {
    ValueOfNode(container);
    ChildrenDiffer(container);
    PartsOf(container);
    assert block.Valid() && block.footprint <= container.footprint;
    hide Node.Value, Node.Valid, Region;
    ghost var p := RemoveNode(container, block);
    global.AddBlock(block);
  }

  lemma SplitPrefix(f: Forest, i: nat)
    requires i < |f|
    ensures Globals(f[..i + 1]) == Globals(f[..i]) + (if f[i].IsGlobal() then [f[i]] else [])
    ensures NoGlobals(f[..i + 1]) == NoGlobals(f[..i]) + (if f[i].IsGlobal() then [] else [f[i]])
  {
    assert f[..i + 1] == f[..i] + [f[i]];
    SplitSnoc(f[..i], f[i]);
  }

  /** One round of the loop that moves global options. */
  method MoveIfGlobal(global: Node, container: Node, blocks: seq<Node>, ghost f: Forest, ghost i: nat)
    requires i < |f| && |blocks| == |f| - i && Moving(global, container, blocks, f, i)
    modifies global`children, global`footprint, container`children, container`footprint
    ensures Moving(global, container, blocks[1..], f, i + 1)
    ensures global.footprint + container.footprint <= old(global.footprint + container.footprint)
  {
    hide Node.Value, Node.Valid, Region, Globals, NoGlobals;
    var block := blocks[0];
    ghost var rest := NoGlobals(f[..i]);
    ghost var k := |rest|;
    SplitPrefix(f, i);
    assert container.children[k] == container.children[k..][0];
    assert container.Value().children == rest + f[i..];
    assert container.Value().children[k] == f[i];
    ValueOfNode(container);
    KeysOfChild(container, k);
    if |block.keys| == 0 {
      MoveBlock(global, container, block, k);
      assert (rest + f[i..])[..k] == rest && (rest + f[i..])[k + 1..] == f[i + 1..];
    }
  }

  lemma KeysOfChild(n: Node, k: nat)
    requires n.Valid() && k < |n.children|
    ensures |n.Value().children| == |n.children|
    ensures n.Value().children[k].keys == n.children[k].keys
  {}

  /** Global options first, then everything else. */
  method WriteGlobalsFirst(container: Node) returns (text: string)
    requires container.Valid()
    modifies container.footprint
    ensures text == Marshal(old(container.Value()).children)
  {
    ghost var f := container.Value().children;
    var blocks := container.children;
    var global := new Node();
    ValueOfNode(container);
    assert f[..0] == [] && f[0..] == f && [] + f == f;
    assert Moving(global, container, blocks, f, 0);
    ghost var all := global.footprint + container.footprint;
    hide Node.Value, Node.Valid, Moving, Region, Marshal, Globals, NoGlobals;
    for i := 0 to |blocks|
      invariant Moving(global, container, blocks[i..], f, i)
      invariant global.footprint + container.footprint <= all
    {
      MoveIfGlobal(global, container, blocks[i..], f, i);
      assert blocks[i..][1..] == blocks[i + 1..];
    }
    text := WriteBoth(global, container, f);
  }

  method WriteBoth(global: Node, container: Node, ghost f: Forest) returns (text: string)
    requires Moving(global, container, [], f, |f|)
    modifies global.footprint, container.footprint
    ensures text == Marshal(f)
  {
    hide Node.Value, Node.Valid, Marshal;
    OwnFootprint(container);
    assert f[..|f|] == f && NoGlobals(f) + [] == NoGlobals(f);
    var first := MarshalNode(global);
    var second := MarshalNode(container);
    text := first + second;
    GlobalsFirst(f);
  }

  /** What happens to the merged container. */
  method GenerateText(container: Node, process: bool, adapt: Adapter) returns (text: string)
    requires container.Valid()
    modifies container.footprint
    ensures text == Generated(old(container.Value()).children, process, adapt)
  {
    text := WriteGlobalsFirst(container);
    if process {
      var result := Process(text, adapt);
      text := result.text;
    }
    if |text| == 0 {
      text := EMPTY;
    }
  }
}
