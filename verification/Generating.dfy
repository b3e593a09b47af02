/**
 The end of `GenerateCaddyfile` in `generator/generator.go`: global options are written first, the
 text is filtered, and an empty text is replaced.
 */
module Generating {
  import opened Options
  import opened Tree
  import opened BlockOrder
  import opened Printer
  import opened Lexer
  import opened Lexical
  import opened Parser
  import opened RoundTrip
  import opened Processing

  function Globals(f: Forest): Forest {
    if f == [] then [] else (if f[0].IsGlobal() then [f[0]] else []) + Globals(f[1..])
  }

  function NoGlobals(f: Forest): Forest {
    if f == [] then [] else (if f[0].IsGlobal() then [] else [f[0]]) + NoGlobals(f[1..])
  }

  // ---------- global options first ----------

  lemma SplitElements(f: Forest)
    ensures multiset(Globals(f) + NoGlobals(f)) == multiset(f)
    ensures forall b :: b in Globals(f) ==> b.IsGlobal()
    ensures forall b :: b in NoGlobals(f) ==> !b.IsGlobal()
  {
    SplitAll(f);
    SplitKinds(f);
  }

  lemma {:induction false} SplitAll(f: Forest)
    ensures multiset(Globals(f) + NoGlobals(f)) == multiset(f)
  {
    if f != [] {
      GlobalsCons(f);
      hide *;
      SplitAll(f[1..]);
      AddElement(f[0], f[1..], Globals(f[1..]), NoGlobals(f[1..]));
      assert f == [f[0]] + f[1..];
    }
  }

  lemma GlobalsCons(f: Forest)
    requires f != []
    ensures f[0].IsGlobal() ==> Globals(f) == [f[0]] + Globals(f[1..]) && NoGlobals(f) == NoGlobals(f[1..])
    ensures !f[0].IsGlobal() ==> Globals(f) == Globals(f[1..]) && NoGlobals(f) == [f[0]] + NoGlobals(f[1..])
  {}

  lemma {:induction false} SplitKinds(f: Forest)
    ensures forall b :: b in Globals(f) ==> b.IsGlobal()
    ensures forall b :: b in NoGlobals(f) ==> !b.IsGlobal()
  {
    hide Block.IsGlobal;
    if f != [] {
      SplitKinds(f[1..]);
    }
  }

  lemma AddElement(b: Block, f: Forest, g: Forest, h: Forest)
    requires multiset(g + h) == multiset(f)
    ensures multiset(([b] + g) + h) == multiset(g + ([b] + h)) == multiset([b] + f)
  {}

  /** Sorting does not change what kind of block the siblings are. */
  lemma SortKeepsKind(f: Forest, global: bool)
    requires forall b :: b in f ==> b.IsGlobal() == global
    ensures forall b :: b in SortForest(f) ==> b.IsGlobal() == global
  {
    forall b | b in SortForest(f) ensures b.IsGlobal() == global {
      assert b in multiset(SortForest(f));
      var i :| 0 <= i < |f| && SortChildren(f)[i] == b;
      SortChildrenAt(f, i);
      assert f[i] in f;
    }
  }

  lemma SortedConcat(f: Forest, g: Forest)
    requires Sorted(f) && Sorted(g)
    requires (forall b :: b in f ==> b.IsGlobal()) && (forall b :: b in g ==> !b.IsGlobal())
    ensures Sorted(f + g)
  {}

  lemma SortSplit(f: Forest)
    ensures SortForest(f) == SortForest(Globals(f)) + SortForest(NoGlobals(f))
  {
    var g, h := Globals(f), NoGlobals(f);
    SplitElements(f);
    MultisetSorted(f, g + h);
    SortKeepsKind(g, true);
    SortKeepsKind(h, false);
    SortChildrenConcat(g, h);
    InsertionSortSorted(SortChildren(g));
    InsertionSortSorted(SortChildren(h));
    InsertionSortSorted(SortChildren(g + h));
    hide Compare, InsertionSort, SortChildren;
    SortedConcat(SortForest(g), SortForest(h));
    SortedUnique(SortForest(g + h), SortForest(g) + SortForest(h));
  }

  /** Writing the global options before everything else is writing everything at once. */
  lemma GlobalsFirst(f: Forest)
    ensures Marshal(Globals(f)) + Marshal(NoGlobals(f)) == Marshal(f)
  {
    hide SortForest, ForestText;
    SortSplit(f);
    ForestTextConcat(SortForest(Globals(f)), SortForest(NoGlobals(f)), 0);
  }

  // ---------- the generated text ----------

  const EMPTY := "# Empty caddyfile"

  /** What is generated from the merged container. */
  function Generated(f: Forest, process: bool, adapt: Adapter): string {
    var text := Marshal(f);
    var filtered := if process then Processed(adapt, text).text else text;
    if filtered == "" then EMPTY else filtered
  }

  /** There is always a text; the one that stands for no text has no blocks. */
  lemma NeverEmpty(f: Forest, process: bool, adapt: Adapter)
    ensures Generated(f, process, adapt) != ""
    ensures Unmarshal(EMPTY) == Some([])
    ensures process && Processed(adapt, Marshal(f)).text == "" ==> Unmarshal(Generated(f, process, adapt)) == Some([])
  {
    hide Marshal, Processed, Tokens;
    CommentAtEnd(" Empty caddyfile", 1, 0);
    assert EMPTY == ['#'] + " Empty caddyfile";
    assert Load(EMPTY) == EMPTY;
  }

  /** A filtered text is accepted by the adapter, or it is the comment that stands for no text. */
  lemma GeneratedSound(f: Forest, adapt: Adapter)
    ensures Generated(f, true, adapt) == EMPTY || adapt(Generated(f, true, adapt)) == Accepted
  {
    ProcessSound(adapt, Marshal(f));
  }

  /**
   Filtering changes nothing about a printable container when the adapter accepts every beginning of
   its sorted blocks.
   */
  lemma GeneratedUnchanged(f: Forest, adapt: Adapter)
    requires f != [] && Printable(f) && !StartsWithBom(Marshal(f))
    requires AcceptsBeginnings(adapt, [], Reindex(SortForest(f)))
    ensures Generated(f, true, adapt) == Generated(f, false, adapt) == Marshal(f)
  {
    var g := Reindex(SortForest(f));
    hide Printable, Processed, AcceptsBeginnings, SortForest, Reindex, Unmarshal;
    UnmarshalMarshal(f);
    PrintingFixpoint(f);
    MarshalNotEmpty(f);
    SortForestDeepSorted(f);
    ReindexSorted(SortForest(f), 0);
    SortForestFixed(g);
    ProcessFaithful(adapt, Marshal(f), g);
  }
}
