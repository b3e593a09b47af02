/** `Process` of `caddyfile/processor.go` as it happens: on a container that grows and shrinks. */
module ProcessInPlace {
  import opened Text
  import opened Tree
  import opened BlockOrder
  import opened Printer
  import opened Parser
  import opened Nodes
  import opened SortInPlace
  import opened Processing

  /** A block without children. */
  method CreateLeaf(order: int, keys: seq<string>) returns (n: Node)
    ensures n.Valid() && fresh(n.footprint) && n.Value() == Block(order, keys, [])
  {
    n := new Node();
    n.order, n.keys := order, keys;
    assert n.Valid();
    assert Values(n.children) == [];
    ValueOfNode(n);
  }

  /** Builds the nodes of a tree that has just been parsed. */
  method CreateNode(b: Block) returns (n: Node)
    ensures n.Valid() && fresh(n.footprint) && n.Value() == b
    decreases b
  {
    hide *;
    n := CreateLeaf(b.order, b.keys);
    assert b.children[..0] == [] && b.children[..|b.children|] == b.children;
    for i := 0 to |b.children|
      invariant n.Valid() && fresh(n.footprint) && n.Value() == Block(b.order, b.keys, b.children[..i])
    {
      ghost var before := n.footprint;
      var child := CreateNode(b.children[i]);
      OwnFootprint(n);
      OwnFootprint(child);
      assert fresh(before) && fresh(child.footprint);
      n.AddBlock(child);
      assert b.children[..i + 1] == b.children[..i] + [b.children[i]];
    }
  }

  lemma RemoveFirstAt(keys: seq<string>, key: string, i: nat)
    requires i < |keys| && keys[i] == key && key !in keys[..i]
    ensures RemoveFirst(keys, key) == keys[..i] + keys[i + 1..]
  {
    SplitAt(keys, i);
    RemoveFirstIs(keys[..i], key, keys[i + 1..]);
  }

  /** The loop of `removeBlockKey`. */
  method RemoveKey(keys: seq<string>, key: string) returns (removed: bool, r: seq<string>)
    ensures removed == (key in keys) && r == RemoveFirst(keys, key)
  {
    removed, r := false, [];
    for i := 0 to |keys|
      invariant !removed ==> key !in keys[..i] && r == keys[..i]
      invariant removed ==> key in keys && r + keys[i..] == RemoveFirst(keys, key)
    {
      var existing := keys[i];
      assert keys[..i + 1] == keys[..i] + [existing];
      if existing == key && !removed {
        RemoveFirstAt(keys, key, i);
        removed := true;
        continue;
      }
      assert keys[i..] == [existing] + keys[i + 1..];
      Associative(r, [existing], keys[i + 1..]);
      r := r + [existing];
    }
    assert keys[..|keys|] == keys;
    if !removed {
      RemoveNothing(keys, key);
    }
  }

  /** `removeBlockKey`. */
  method RemoveBlockKey(block: Node, key: string) returns (removed: bool)
    requires block.Valid()
    modifies block`keys
    ensures block.Valid() && block.Value() == old(block.Value()).(keys := block.keys)
    ensures removed == (key != "" && key in old(block.keys))
    ensures block.keys == if key == "" then old(block.keys) else RemoveFirst(old(block.keys), key)
  {
    if key == "" {
      return false;
    }
    var keys;
    removed, keys := RemoveKey(block.keys, key);
    block.SetKeys(keys);
  }

  lemma RemoveNothing(keys: seq<string>, key: string)
    requires key !in keys
    ensures RemoveFirst(keys, key) == keys
  {}

  // ---------- the loops of Process ----------

  /** Trees whose children are sorted at every level, as they are after `sort`. */
  ghost predicate ChildrenSorted(f: Forest) {
    forall b :: b in f ==> DeepSorted(b.children)
  }

  lemma SortedBlock(b: Block)
    requires DeepSorted(b.children)
    ensures SortBlock(b) == b
  {
    SortForestFixed(b.children);
  }

  lemma SortedForestChildren(f: Forest)
    ensures ChildrenSorted(SortForest(f))
  {
    SortForestDeepSorted(f);
  }

  /** What the container holds while a block is tried out: the kept blocks and that one. */
  ghost predicate Holds(container: Node, block: Node, kept: Forest, b: Block)
    reads container, container.footprint
  {
    && container.Valid() && block in container.children && block.Value() == b
    && multiset(Values(container.children)) == multiset(kept + [b])
    && ChildrenSorted(kept + [b])
  }

  lemma SortedChildrenStay(f: Forest)
    requires ChildrenSorted(f)
    ensures multiset(SortForest(f)) == multiset(f)
  {
    forall i | 0 <= i < |f| ensures SortChildren(f)[i] == f[i] {
      SortChildrenAt(f, i);
      SortedBlock(f[i]);
    }
    assert SortChildren(f) == f;
  }

  lemma SameElements(f: Forest, g: Forest)
    requires multiset(f) == multiset(g) && ChildrenSorted(f)
    ensures ChildrenSorted(g)
  {
    forall b | b in g ensures DeepSorted(b.children) {
      assert b in multiset(g);
      assert b in f;
    }
  }

  /** Marshalling rearranges the container but changes no block. */
  method TryOut(container: Node, block: Node, adapt: Adapter, ghost kept: Forest, ghost b: Block)
    returns (verdict: Verdict)
    requires Holds(container, block, kept, b)
    modifies container.footprint
    ensures Holds(container, block, kept, b) && container.footprint == old(container.footprint)
    ensures block.footprint == old(block.footprint) && block.keys == b.keys
    ensures verdict == adapt(Marshal(kept + [b]))
  {
    hide SortForest, SortChildren, Node.Value, DeepSorted;
    ghost var before, f := container.children, Values(container.children);
    ValueOfNode(container);
    MultisetSorted(f, kept + [b]);
    SameElements(kept + [b], f);
    SortedChildrenStay(f);
    SortedBlock(b);
    var text := MarshalNode(container);
    RearrangedMember(before, container.children, block);
    verdict := adapt(text);
    assert block.Value() == b;
    ValueOfNode(container);
    ValueOfNode(block);
    assert Values(container.children) == SortForest(f);
  }

  lemma MultisetUpdate(f: Forest, p: nat, b: Block, kept: Forest, c: Block)
    requires p < |f| && f[p] == b && multiset(f) == multiset(kept + [b])
    ensures multiset(f[p := c]) == multiset(kept + [c])
    ensures multiset(f[..p] + f[p + 1..]) == multiset(kept)
  {
    assert f == f[..p] + [b] + f[p + 1..];
    assert f[p := c] == f[..p] + [c] + f[p + 1..];
    RemoveSame(multiset(f[..p] + f[p + 1..]), multiset(kept), b);
  }

  /** Takes a key from a block of the container. */
  method RemoveKeyOf(container: Node, block: Node, key: string, ghost p: nat) returns (removed: bool)
    requires container.Valid() && p < |container.children| && container.children[p] == block
    modifies block`keys
    ensures removed == (key != "" && key in old(block.keys))
    ensures container.Valid() && block.Valid()
    ensures block.Value() == old(block.Value()).(keys := block.keys)
    ensures block.keys == if key == "" then old(block.keys) else RemoveFirst(old(block.keys), key)
    ensures Values(container.children) == old(Values(container.children))[p := block.Value()]
  {
    ghost var children, f, prints := container.children, Values(container.children), Footprints(container.children);
    PartsOf(container);
    assert block in block.footprint && block.Valid();
    hide Node.Valid, Node.Value, RemoveFirst, Region;
    assert forall j :: 0 <= j < |children| && j != p ==> block !in prints[j];
    removed := RemoveBlockKey(block, key);
    assert forall j :: 0 <= j < |children| && j != p ==>
      children[j].Valid() && children[j].footprint == prints[j] && children[j].Value() == f[j];
    Assemble(container, f[p := block.Value()], prints);
    PartsOf(container);
  }

  /** Takes a key from the block that is tried out. */
  method ShrinkBlock(container: Node, block: Node, key: string, ghost kept: Forest, ghost b: Block)
    returns (removed: bool)
    requires Holds(container, block, kept, b)
    modifies container.footprint
    ensures removed == (key != "" && key in b.keys)
    ensures removed ==> Holds(container, block, kept, b.(keys := RemoveFirst(b.keys, key)))
    ensures !removed ==> Holds(container, block, kept, b)
    ensures container.footprint == old(container.footprint)
    ensures block.keys == if removed then RemoveFirst(b.keys, key) else b.keys
  {
    ghost var f := Values(container.children);
    ghost var p :| 0 <= p < |container.children| && container.children[p] == block;
    ValueOfNode(block);
    hide Node.Valid, Node.Value, RemoveFirst, DeepSorted, Region;
    removed := RemoveKeyOf(container, block, key, p);
    MultisetUpdate(f, p, b, kept, block.Value());
    forall x | x in kept + [block.Value()] ensures DeepSorted(x.children) {
      assert b in kept + [b];
      assert x in kept ==> x in kept + [b];
    }
    if !removed && key != "" {
      RemoveNothing(b.keys, key);
    }
  }

  /** Takes the block that was tried out away again. */
  method DropBlock(container: Node, block: Node, ghost kept: Forest, ghost b: Block)
    requires Holds(container, block, kept, b)
    modifies container`children, container`footprint
    ensures container.Valid() && container.footprint <= old(container.footprint)
    ensures multiset(Values(container.children)) == multiset(kept)
  {
    hide DeepSorted, Node.Value;
    ghost var f := Values(container.children);
    ghost var p := RemoveNode(container, block);
    ValueOfNode(container);
    MultisetUpdate(f, p, b, kept, b);
  }

  /** Removes a rejected block, with what is logged about it. */
  method GiveUp(container: Node, block: Node, message: string, snapshot: string, ghost kept: Forest, ghost b: Block)
    returns (logs: seq<Log>)
    requires Holds(container, block, kept, b)
    modifies container.footprint
    ensures container.Valid() && container.footprint <= old(container.footprint)
    ensures multiset(Values(container.children)) == multiset(kept)
    ensures logs == Dropping(message, snapshot)
  {
    DropBlock(container, block, kept, b);
    logs := [Removed(message, snapshot)];
    if AmbiguousSiteName(message) != "" {
      logs := logs + [Hint(AmbiguousSiteName(message))];
    }
  }

  /** The inner loop of `Process`. */
  method SettleBlock(container: Node, block: Node, adapt: Adapter, snapshot: string, ghost kept: Forest, ghost b: Block)
    returns (logs: seq<Log>)
    requires Holds(container, block, kept, b)
    modifies container.footprint
    ensures container.Valid() && container.footprint <= old(container.footprint)
    ensures match Settle(adapt, kept, b)
            case Kept(c) =>
              logs == [] && multiset(Values(container.children)) == multiset(kept + [c]) && DeepSorted(c.children)
            case Dropped(message) =>
              && multiset(Values(container.children)) == multiset(kept)
              && logs == Dropping(message, snapshot)
  {
    hide Node.Value, Node.Valid, RemoveFirst, DeepSorted, Marshal, AmbiguousSiteName, Dropping, SortForest, Region;
    ghost var c := b;
    while true
      invariant Holds(container, block, kept, c) && container.footprint == old(container.footprint)
      invariant Settle(adapt, kept, c) == Settle(adapt, kept, b)
      decreases |c.keys|
    {
      var verdict := TryOut(container, block, adapt, kept, c);
      if verdict.Accepted? {
        return [];
      }
      var name := AmbiguousSiteName(verdict.message);
      if name == "" {
        logs := GiveUp(container, block, verdict.message, snapshot, kept, c);
        return;
      }
      var removed := ShrinkBlock(container, block, name, kept, c);
      if !removed || |block.keys| == 0 {
        ghost var d := if removed then c.(keys := RemoveFirst(c.keys, name)) else c;
        logs := GiveUp(container, block, verdict.message, snapshot, kept, d);
        return;
      }
      c := c.(keys := RemoveFirst(c.keys, name));
    }
  }

  /** The container holds the blocks that have been kept. */
  ghost predicate Keeps(container: Node, kept: Forest)
    reads container, container.footprint
  {
    && container.Valid() && AllValid(container.children)
    && multiset(Values(container.children)) == multiset(kept) && ChildrenSorted(kept)
  }

  /** The kept blocks after another one has been tried out. */
  function After(kept: Forest, settled: Settled): Forest {
    if settled.Kept? then kept + [settled.block] else kept
  }

  function LogsOf(settled: Settled, b: Block): seq<Log> {
    if settled.Kept? then [] else Dropping(settled.message, BlockText(b, 0))
  }

  /** A block joins the container to be tried out. */
  method AddAndSettle(container: Node, block: Node, adapt: Adapter, ghost kept: Forest, ghost b: Block)
    returns (logs: seq<Log>)
    requires Keeps(container, kept) && block.Valid() && container.footprint !! block.footprint
    requires block.Value() == b && DeepSorted(b.children)
    modifies container.footprint, block.footprint
    ensures Keeps(container, After(kept, Settle(adapt, kept, b)))
    ensures container.footprint <= old(container.footprint) + old(block.footprint)
    ensures logs == LogsOf(Settle(adapt, kept, b), b)
  {
    hide Node.Value, DeepSorted, Settle, BlockText, SortBlock;
    ghost var f := Values(container.children);
    ValueOfNode(container);
    SortedBlock(b);
    var blockSnapshot := MarshalBlock(block);
    ValueOfNode(container);
    container.AddBlock(block);
    ValueOfNode(container);
    assert Values(container.children) == f + [b];
    assert multiset(f + [b]) == multiset(kept + [b]);
    assert block in container.children;
    logs := SettleBlock(container, block, adapt, blockSnapshot, kept, b);
  }

  lemma SurvivorsSnoc(adapt: Adapter, kept: Forest, f: Forest, b: Block)
    ensures var before, settled := Survivors(adapt, kept, f), Settle(adapt, Survivors(adapt, kept, f), b);
            && Survivors(adapt, kept, f + [b]) == After(before, settled)
            && Logs(adapt, kept, f + [b]) == Logs(adapt, kept, f) + LogsOf(settled, b)
    decreases |f|
  {
    hide Dropping, BlockText;
    if f == [] {
      assert f + [b] == [b] && [b][1..] == [];
    } else {
      assert (f + [b])[0] == f[0] && (f + [b])[1..] == f[1..] + [b];
      match Settle(adapt, kept, f[0])
      case Kept(c) => SurvivorsSnoc(adapt, kept + [c], f[1..], b);
      case Dropped(_) => SurvivorsSnoc(adapt, kept, f[1..], b);
    }
  }

  lemma SurvivorsNext(adapt: Adapter, f: Forest, i: nat)
    requires i < |f|
    ensures var before, settled := Survivors(adapt, [], f[..i]), Settle(adapt, Survivors(adapt, [], f[..i]), f[i]);
            && Survivors(adapt, [], f[..i + 1]) == After(before, settled)
            && Logs(adapt, [], f[..i + 1]) == Logs(adapt, [], f[..i]) + LogsOf(settled, f[i])
  {
    hide Survivors, Logs, Settle, Dropping, BlockText;
    SurvivorsSnoc(adapt, [], f[..i], f[i]);
    assert f[..i + 1] == f[..i] + [f[i]];
  }

  /** `Process`. */
  method Process(content: string, adapt: Adapter) returns (result: Result)
    ensures result == Processed(adapt, content)
  {
    if |content| == 0 {
      return Result(content, []);
    }
    var parsed := Unmarshal(content);
    if parsed.None? {
      return Result("", [InvalidCaddyfile(content)]);
    }
    result := ProcessForest(parsed.value, adapt);
  }

  method SortedContainer(f: Forest) returns (container: Node)
    ensures container.Valid() && AllValid(container.children) && fresh(container.footprint)
    ensures Values(container.children) == SortForest(f)
  {
    container := CreateNode(Block(UNORDERED, [], f));
    SortNode(container);
    ValueOfNode(container);
  }

  /** `Process` behind the parser. */
  method ProcessForest(f: Forest, adapt: Adapter) returns (result: Result)
    ensures result == Result(Marshal(Survivors(adapt, [], SortForest(f))), Logs(adapt, [], SortForest(f)))
  {
    hide SortForest, DeepSorted, Node.Value, Node.Valid, Survivors, Logs;
    var container := SortedContainer(f);
    SortedForestChildren(f);
    var newContainer := new Node();
    var logs := FilterBlocks(newContainer, container, adapt, SortForest(f));
    var text := MarshalKept(newContainer, Survivors(adapt, [], SortForest(f)));
    result := Result(text, logs);
  }

  method MarshalKept(container: Node, ghost kept: Forest) returns (text: string)
    requires Keeps(container, kept)
    modifies container.footprint
    ensures text == Marshal(kept)
  {
    ValueOfNode(container);
    MultisetSorted(Values(container.children), kept);
    text := MarshalNode(container);
  }

  /** One round of the outer loop leaves the later blocks alone. */
  method FilterStep(container: Node, blocks: seq<Node>, i: nat, adapt: Adapter,
    ghost kept: Forest, ghost f: Forest, ghost prints: seq<set<Node>>, ghost used: set<Node>)
    returns (logs: seq<Log>)
    requires Keeps(container, kept) && container.footprint <= used
    requires i < |blocks| && Waiting(blocks, i, f, prints, used) && DeepSorted(f[i].children)
    modifies container.footprint, prints[i]
    ensures Keeps(container, After(kept, Settle(adapt, kept, f[i])))
    ensures container.footprint <= used + prints[i] && Waiting(blocks, i + 1, f, prints, used + prints[i])
    ensures logs == LogsOf(Settle(adapt, kept, f[i]), f[i])
  {
    hide Node.Valid, Node.Value, Settle, Region, DeepSorted, Keeps, After, LogsOf;
    logs := AddAndSettle(container, blocks[i], adapt, kept, f[i]);
  }

  lemma NothingTried(container: Node, adapt: Adapter)
    requires container.Valid() && container.children == []
    ensures Keeps(container, Survivors(adapt, [], [])) && Logs(adapt, [], []) == []
  {}

  /** The outer loop of `Process`. */
  method FilterBlocks(newContainer: Node, container: Node, adapt: Adapter, ghost f: Forest) returns (logs: seq<Log>)
    requires newContainer.Valid() && newContainer.children == []
    requires container.Valid() && Values(container.children) == f && ChildrenSorted(f)
    requires container.footprint !! newContainer.footprint
    modifies newContainer.footprint, container.footprint
    ensures Keeps(newContainer, Survivors(adapt, [], f))
    ensures newContainer.footprint <= old(newContainer.footprint + container.footprint)
    ensures logs == Logs(adapt, [], f)
  {
    assert forall i :: 0 <= i < |f| ==> DeepSorted(f[i].children);
    hide *;
    AllWaiting(container, newContainer.footprint);
    var blocks := container.children;
    ghost var prints, used := Footprints(blocks), newContainer.footprint;
    ghost var all := newContainer.footprint + container.footprint;
    logs := [];
    assert f[..0] == [] && f[..|f|] == f;
    NothingTried(newContainer, adapt);
    for i := 0 to |blocks|
      invariant newContainer.footprint <= used <= all
      invariant |prints| == |f| == |blocks| && Waiting(blocks, i, f, prints, used)
      invariant Keeps(newContainer, Survivors(adapt, [], f[..i])) && logs == Logs(adapt, [], f[..i])
    {
      SurvivorsNext(adapt, f, i);
      assert prints[i] in prints;
      var more := FilterStep(newContainer, blocks, i, adapt, Survivors(adapt, [], f[..i]), f, prints, used);
      logs := logs + more;
      used := used + prints[i];
    }
  }
}
