/**
 `Process` of `caddyfile/processor.go`: a greedy filter that keeps the blocks an adapter accepts.

 The adapter is any function of the text; the functions say which blocks survive, and the method
 does the work in place, on nodes.
 */
module Processing {
  import opened Options
  import opened Text
  import opened Tree
  import opened BlockOrder
  import opened Printer
  import opened Parser

  datatype Verdict = Accepted | Rejected(message: string)

  type Adapter = string -> Verdict

  // ---------- the ambiguous name ----------

  const AMBIGUOUS := "ambiguous site definition:"

  /** `strings.Index`, where no occurrence is the length of the string. */
  function Index(s: string, sub: string): (i: nat)
    ensures i <= |s|
    ensures i < |s| ==> HasPrefix(s[i..], sub)
    ensures forall j :: 0 <= j < i ==> !HasPrefix(s[j..], sub)
  {
    if HasPrefix(s, sub) || s == [] then 0
    else
      assert forall j :: 0 < j <= |s| ==> s[j..] == s[1..][j - 1..];
      1 + Index(s[1..], sub)
  }

  /** The first of `strings.Fields`. */
  function FirstField(s: string): string {
    if s == [] || IsSpace(s[0]) then "" else [s[0]] + FirstField(s[1..])
  }

  function AmbiguousSiteName(message: string): string {
    var index := Index(message, AMBIGUOUS);
    if index == |message| then "" else FirstField(TrimSpace(message[index + |AMBIGUOUS|..]))
  }

  predicate Blank(s: string) {
    forall i :: 0 <= i < |s| ==> IsSpace(s[i])
  }

  predicate Solid(s: string) {
    s != [] && forall i :: 0 <= i < |s| ==> !IsSpace(s[i])
  }

  lemma TrimBefore(blank: string, s: string)
    requires Blank(blank) && s != [] && !IsSpace(s[0])
    ensures TrimLeft(blank + s) == s
  {
    if blank == [] {
      assert blank + s == s;
    } else {
      assert (blank + s)[1..] == blank[1..] + s;
      TrimBefore(blank[1..], s);
    }
  }

  lemma {:induction false} TrimBehind(name: string, tail: string) returns (rest: string)
    requires Solid(name) && (tail == [] || IsSpace(tail[0]))
    ensures TrimRight(name + tail) == name + rest && (rest == [] || IsSpace(rest[0]))
    decreases |tail|
  {
    var s := name + tail;
    if tail == [] || !IsSpace(tail[|tail| - 1]) {
      rest := tail;
      assert s[|s| - 1] == if tail == [] then name[|name| - 1] else tail[|tail| - 1];
    } else {
      rest := TrimBehind(name, tail[..|tail| - 1]);
      assert s[..|s| - 1] == name + tail[..|tail| - 1];
    }
  }

  lemma FirstFieldOf(name: string, rest: string)
    requires Solid(name) && (rest == [] || IsSpace(rest[0]))
    ensures FirstField(name + rest) == name
    decreases |name|
  {
    assert (name + rest)[1..] == name[1..] + rest;
    if |name| == 1 {
      assert name[1..] + rest == rest;
    } else {
      FirstFieldOf(name[1..], rest);
    }
  }

  lemma BehindMention(before: string, mention: string, blank: string, name: string, tail: string)
    ensures (before + mention + blank + name + tail)[|before| + |mention|..] == blank + (name + tail)
  {}

  /** The name is the first word behind the first mention of an ambiguous site. */
  lemma AmbiguousName(before: string, blank: string, name: string, tail: string)
    requires var message := before + "ambiguous site definition:" + blank + name + tail;
      Index(message, "ambiguous site definition:") == |before|
    requires Blank(blank) && Solid(name) && (tail == [] || IsSpace(tail[0]))
    ensures AmbiguousSiteName(before + "ambiguous site definition:" + blank + name + tail) == name
  {
    BehindMention(before, AMBIGUOUS, blank, name, tail);
    hide TrimLeft, TrimRight, FirstField, Index;
    TrimBefore(blank, name + tail);
    var rest := TrimBehind(name, tail);
    FirstFieldOf(name, rest);
  }

  lemma {:induction false} TrimLeftIs(s: string)
    ensures Blank(s) ==> TrimLeft(s) == ""
    ensures !Blank(s) ==> TrimLeft(s) != "" && !IsSpace(TrimLeft(s)[0])
  {
    if s != [] && IsSpace(s[0]) {
      TrimLeftIs(s[1..]);
      assert Blank(s) <==> Blank(s[1..]) by {
        assert forall j :: 1 <= j < |s| ==> s[j] == s[1..][j - 1];
      }
    }
  }

  lemma {:induction false} TrimRightKeepsFirst(s: string)
    requires s != [] && !IsSpace(s[0])
    ensures TrimRight(s) != [] && TrimRight(s)[0] == s[0]
  {
    if IsSpace(s[|s| - 1]) {
      TrimRightKeepsFirst(s[..|s| - 1]);
    }
  }

  lemma TrimSpaceIs(s: string)
    ensures Blank(s) ==> TrimSpace(s) == ""
    ensures !Blank(s) ==> TrimSpace(s) != "" && !IsSpace(TrimSpace(s)[0])
  {
    TrimLeftIs(s);
    hide TrimLeft, Blank;
    if TrimLeft(s) != "" {
      TrimRightKeepsFirst(TrimLeft(s));
    }
  }

  /** There is no name exactly when there is no mention, or only white space behind the first one. */
  lemma NoAmbiguousName(message: string)
    ensures var index := Index(message, AMBIGUOUS);
      AmbiguousSiteName(message) == "" <==> index == |message| || Blank(message[index + |AMBIGUOUS|..])
  {
    hide TrimSpace, Index, Blank, IsSpace;
    var index := Index(message, AMBIGUOUS);
    if index < |message| {
      TrimSpaceIs(message[index + |AMBIGUOUS|..]);
    }
  }

  // ---------- which blocks survive ----------

  /** `removeBlockKey`: the first occurrence of a key goes. */
  function RemoveFirst(keys: seq<string>, key: string): (r: seq<string>)
    ensures key in keys ==> |r| + 1 == |keys|
    ensures key !in keys ==> r == keys
  {
    if keys == [] then [] else if keys[0] == key then keys[1..] else [keys[0]] + RemoveFirst(keys[1..], key)
  }

  /** What goes is the first occurrence, and nothing else. */
  lemma {:induction false} RemoveFirstIs(before: seq<string>, key: string, after: seq<string>)
    requires key !in before
    ensures RemoveFirst(before + [key] + after, key) == before + after
  {
    var keys := before + [key] + after;
    if before == [] {
      assert keys == [key] + after && before + after == after;
    } else {
      assert keys[1..] == before[1..] + [key] + after;
      RemoveFirstIs(before[1..], key, after);
      assert before + after == [before[0]] + (before[1..] + after);
    }
  }

  datatype Log = InvalidCaddyfile(content: string) | Removed(message: string, snapshot: string) | Hint(name: string)

  datatype Settled = Kept(block: Block) | Dropped(message: string)

  /** The inner loop: the block without the keys the adapter calls ambiguous, unless it has to go. */
  function Settle(adapt: Adapter, kept: Forest, b: Block): Settled
    decreases |b.keys|
  {
    match adapt(Marshal(kept + [b]))
    case Accepted => Kept(b)
    case Rejected(message) =>
      var name := AmbiguousSiteName(message);
      if name == "" || name !in b.keys || |b.keys| == 1 then Dropped(message)
      else Settle(adapt, kept, b.(keys := RemoveFirst(b.keys, name)))
  }

  /** The outer loop, after `kept` has been kept. */
  function Survivors(adapt: Adapter, kept: Forest, blocks: Forest): Forest
    decreases |blocks|
  {
    if blocks == [] then kept
    else
      match Settle(adapt, kept, blocks[0])
      case Kept(b) => Survivors(adapt, kept + [b], blocks[1..])
      case Dropped(_) => Survivors(adapt, kept, blocks[1..])
  }

  /** What is logged when a block goes. */
  function Dropping(message: string, snapshot: string): seq<Log> {
    var name := AmbiguousSiteName(message);
    if name == "" then [Removed(message, snapshot)] else [Removed(message, snapshot), Hint(name)]
  }

  function Logs(adapt: Adapter, kept: Forest, blocks: Forest): seq<Log>
    decreases |blocks|
  {
    if blocks == [] then []
    else
      match Settle(adapt, kept, blocks[0])
      case Kept(b) => Logs(adapt, kept + [b], blocks[1..])
      case Dropped(message) => Dropping(message, BlockText(blocks[0], 0)) + Logs(adapt, kept, blocks[1..])
  }

  // ---------- soundness ----------

  /** A text that is empty or accepted. */
  predicate Sound(adapt: Adapter, text: string) {
    text == "" || adapt(text) == Accepted
  }

  lemma {:induction false} SettleSound(adapt: Adapter, kept: Forest, b: Block)
    ensures Settle(adapt, kept, b).Kept? ==> adapt(Marshal(kept + [Settle(adapt, kept, b).block])) == Accepted
    decreases |b.keys|
  {
    if adapt(Marshal(kept + [b])).Rejected? {
      var name := AmbiguousSiteName(adapt(Marshal(kept + [b])).message);
      if name in b.keys {
        SettleSound(adapt, kept, b.(keys := RemoveFirst(b.keys, name)));
      }
    }
  }

  lemma {:induction false} SurvivorsSound(adapt: Adapter, kept: Forest, blocks: Forest)
    requires Sound(adapt, Marshal(kept))
    ensures Sound(adapt, Marshal(Survivors(adapt, kept, blocks)))
    decreases |blocks|
  {
    if blocks != [] {
      SettleSound(adapt, kept, blocks[0]);
      match Settle(adapt, kept, blocks[0])
      case Kept(b) => SurvivorsSound(adapt, kept + [b], blocks[1..]);
      case Dropped(_) => SurvivorsSound(adapt, kept, blocks[1..]);
    }
  }

  // ---------- faithfulness ----------

  /** `s` without some of its elements. */
  ghost predicate Subsequence<T>(r: seq<T>, s: seq<T>) {
    if r == [] then true
    else if s == [] then false
    else (r[0] == s[0] && Subsequence(r[1..], s[1..])) || Subsequence(r, s[1..])
  }

  lemma SubsequenceSelf<T>(s: seq<T>)
    ensures Subsequence(s, s)
  {}

  lemma {:induction false} SubsequenceTransitive<T>(r: seq<T>, s: seq<T>, t: seq<T>)
    requires Subsequence(r, s) && Subsequence(s, t)
    ensures Subsequence(r, t)
    decreases |s| + |t|
  {
    if r != [] {
      if s[0] == t[0] && Subsequence(s[1..], t[1..]) {
        if r[0] == s[0] && Subsequence(r[1..], s[1..]) {
          SubsequenceTransitive(r[1..], s[1..], t[1..]);
        } else {
          SubsequenceTransitive(r, s[1..], t[1..]);
        }
      } else {
        SubsequenceTransitive(r, s, t[1..]);
      }
    }
  }

  lemma RemoveFirstSubsequence(keys: seq<string>, key: string)
    ensures Subsequence(RemoveFirst(keys, key), keys)
  {
    if keys != [] {
      if keys[0] == key {
        SubsequenceSelf(keys[1..]);
      } else {
        RemoveFirstSubsequence(keys[1..], key);
        assert RemoveFirst(keys, key)[1..] == RemoveFirst(keys[1..], key);
      }
    }
  }

  /** A block that may have lost keys, but neither all of them nor anything else. */
  ghost predicate Shrunk(r: Block, b: Block) {
    && r.order == b.order && r.children == b.children
    && Subsequence(r.keys, b.keys)
    && (r.IsGlobal() ==> b.IsGlobal())
  }

  /** The blocks of `r` are blocks of `f`, in the same order, possibly with fewer keys. */
  ghost predicate Surviving(r: Forest, f: Forest) {
    if r == [] then true
    else if f == [] then false
    else (Shrunk(r[0], f[0]) && Surviving(r[1..], f[1..])) || Surviving(r, f[1..])
  }

  lemma {:induction false} SettleShrinks(adapt: Adapter, kept: Forest, b: Block)
    ensures Settle(adapt, kept, b).Kept? ==> Shrunk(Settle(adapt, kept, b).block, b)
    decreases |b.keys|
  {
    SubsequenceSelf(b.keys);
    if adapt(Marshal(kept + [b])).Rejected? {
      var name := AmbiguousSiteName(adapt(Marshal(kept + [b])).message);
      if name != "" && name in b.keys && |b.keys| != 1 {
        var c := b.(keys := RemoveFirst(b.keys, name));
        SettleShrinks(adapt, kept, c);
        RemoveFirstSubsequence(b.keys, name);
        if Settle(adapt, kept, c).Kept? {
          SubsequenceTransitive(Settle(adapt, kept, c).block.keys, c.keys, b.keys);
        }
      }
    }
  }

  /** The reasons for which a block is given up. */
  predicate NoWayOut(b: Block, message: string) {
    var name := AmbiguousSiteName(message);
    name == "" || name !in b.keys || |b.keys| == 1
  }

  /** What was left of a block when it was given up. */
  ghost predicate GivenUp(adapt: Adapter, kept: Forest, b: Block, keys: seq<string>, message: string) {
    && Subsequence(keys, b.keys) && NoWayOut(b.(keys := keys), message)
    && adapt(Marshal(kept + [b.(keys := keys)])) == Rejected(message)
  }

  /**
   A block is only dropped for cause: the adapter rejected what was left of it, with a message that
   names no key whose removal could help, or names the only one.
   */
  lemma {:induction false} DroppedForCause(adapt: Adapter, kept: Forest, b: Block)
    ensures var settled := Settle(adapt, kept, b);
      settled.Dropped? ==> exists keys :: GivenUp(adapt, kept, b, keys, settled.message)
    decreases |b.keys|
  {
    hide Marshal, AmbiguousSiteName, Subsequence, RemoveFirst, IsSpace;
    SubsequenceSelf(b.keys);
    var verdict := adapt(Marshal(kept + [b]));
    if verdict.Rejected? {
      var name := AmbiguousSiteName(verdict.message);
      if NoWayOut(b, verdict.message) {
        assert b.(keys := b.keys) == b;
        assert GivenUp(adapt, kept, b, b.keys, verdict.message);
      } else {
        var c := b.(keys := RemoveFirst(b.keys, name));
        RemoveFirstSubsequence(b.keys, name);
        DroppedForCause(adapt, kept, c);
        assert Settle(adapt, kept, b) == Settle(adapt, kept, c);
        if Settle(adapt, kept, c).Dropped? {
          var message := Settle(adapt, kept, c).message;
          var keys :| GivenUp(adapt, kept, c, keys, message);
          SubsequenceTransitive(keys, c.keys, b.keys);
          assert c.(keys := keys) == b.(keys := keys);
          assert GivenUp(adapt, kept, b, keys, message);
        }
      }
    }
  }

  // ---------- which keys a block loses ----------

  /** The second list is the first one without the first occurrence of the key. */
  ghost predicate Loses(longer: seq<string>, key: string, shorter: seq<string>) {
    exists before, after :: longer == before + [key] + after && key !in before && shorter == before + after
  }

  /**
   The adapter rejects the block with the longer list of keys because of one of them, and the shorter list is
   the longer one without that key.
   */
  ghost predicate Link(adapt: Adapter, kept: Forest, b: Block, longer: seq<string>, shorter: seq<string>) {
    var verdict := adapt(Marshal(kept + [b.(keys := longer)]));
    verdict.Rejected? && AmbiguousSiteName(verdict.message) != "" && shorter != []
    && Loses(longer, AmbiguousSiteName(verdict.message), shorter)
  }

  /** How the keys of a block become fewer. */
  ghost predicate Chain(adapt: Adapter, kept: Forest, b: Block, links: seq<seq<string>>) {
    && links != [] && links[0] == b.keys
    && forall i :: 0 < i < |links| ==> Link(adapt, kept, b, links[i - 1], links[i])
  }

  lemma {:induction false} FirstOccurrence(keys: seq<string>, key: string)
    returns (before: seq<string>, after: seq<string>)
    requires key in keys
    ensures keys == before + [key] + after && key !in before
  {
    if keys[0] == key {
      before, after := [], keys[1..];
    } else {
      before, after := FirstOccurrence(keys[1..], key);
      before := [keys[0]] + before;
    }
    assert keys == [keys[0]] + keys[1..];
  }

  lemma RemoveFirstLoses(keys: seq<string>, key: string)
    requires key in keys
    ensures Loses(keys, key, RemoveFirst(keys, key))
  {
    var before, after := FirstOccurrence(keys, key);
    RemoveFirstIs(before, key, after);
  }

  /**
   A block loses the keys that the adapter names, one by one, each of them once and no other. It is kept with
   what is left of them if the adapter accepts it in the end; otherwise it is dropped, because the adapter
   names no key that could be removed, or the only one.
   */
  lemma {:induction false} SettleChain(adapt: Adapter, kept: Forest, b: Block) returns (links: seq<seq<string>>)
    ensures Chain(adapt, kept, b, links)
    ensures var left := b.(keys := links[|links| - 1]);
      match adapt(Marshal(kept + [left]))
      case Accepted => Settle(adapt, kept, b) == Kept(left)
      case Rejected(message) => Settle(adapt, kept, b) == Dropped(message) && NoWayOut(left, message)
    decreases |b.keys|
  {
    hide Marshal, AmbiguousSiteName, RemoveFirst, Loses;
    var verdict := adapt(Marshal(kept + [b]));
    assert b.(keys := b.keys) == b;
    if verdict.Accepted? || NoWayOut(b, verdict.message) {
      links := [b.keys];
    } else {
      var name := AmbiguousSiteName(verdict.message);
      var c := b.(keys := RemoveFirst(b.keys, name));
      RemoveFirstLoses(b.keys, name);
      var rest := SettleChain(adapt, kept, c);
      links := [b.keys] + rest;
      assert links[|links| - 1] == rest[|rest| - 1];
      assert b.(keys := links[|links| - 1]) == c.(keys := rest[|rest| - 1]);
      forall i | 0 < i < |links| ensures Link(adapt, kept, b, links[i - 1], links[i]) {
        assert links[i] == rest[i - 1];
        if i > 1 {
          assert Link(adapt, kept, c, rest[i - 2], rest[i - 1]);
          assert b.(keys := rest[i - 2]) == c.(keys := rest[i - 2]);
        }
      }
    }
  }

  /** If only the named key stands in the way, the block is kept with all others. */
  lemma OnlyTheNamedKeyGoes(adapt: Adapter, kept: Forest, b: Block, message: string, before: seq<string>,
      after: seq<string>)
    requires adapt(Marshal(kept + [b])) == Rejected(message) && AmbiguousSiteName(message) != ""
    requires b.keys == before + [AmbiguousSiteName(message)] + after && AmbiguousSiteName(message) !in before
    requires before + after != [] && adapt(Marshal(kept + [b.(keys := before + after)])) == Accepted
    ensures Settle(adapt, kept, b) == Kept(b.(keys := before + after))
  {
    hide Marshal, AmbiguousSiteName;
    RemoveFirstIs(before, AmbiguousSiteName(message), after);
    assert b.keys[|before|] == AmbiguousSiteName(message);
  }

  // ---------- what is kept, and what is logged ----------

  /** The blocks that were kept. */
  function KeptOf(outcomes: seq<Settled>): Forest {
    if outcomes == [] then []
    else (if outcomes[0].Kept? then [outcomes[0].block] else []) + KeptOf(outcomes[1..])
  }

  /** Every block was tried out together with those that had been kept before it. */
  ghost predicate TriedOut(adapt: Adapter, kept: Forest, blocks: Forest, outcomes: seq<Settled>) {
    |outcomes| == |blocks| && forall i :: 0 <= i < |blocks| ==>
      outcomes[i] == Settle(adapt, kept + KeptOf(outcomes[..i]), blocks[i])
  }

  lemma KeptOfFirst(first: Settled, rest: seq<Settled>)
    ensures KeptOf([first] + rest) == (if first.Kept? then [first.block] else []) + KeptOf(rest)
  {
    assert ([first] + rest)[1..] == rest;
  }

  lemma TriedOutFirst(adapt: Adapter, kept: Forest, blocks: Forest, rest: seq<Settled>)
    requires blocks != []
    requires var first := Settle(adapt, kept, blocks[0]);
      TriedOut(adapt, if first.Kept? then kept + [first.block] else kept, blocks[1..], rest)
    ensures TriedOut(adapt, kept, blocks, [Settle(adapt, kept, blocks[0])] + rest)
  {
    hide *;
    var first := Settle(adapt, kept, blocks[0]);
    var next := if first.Kept? then kept + [first.block] else kept;
    var outcomes := [first] + rest;
    TriedOutIs(adapt, next, blocks[1..], rest);
    forall i | 0 <= i < |blocks| ensures outcomes[i] == Settle(adapt, kept + KeptOf(outcomes[..i]), blocks[i]) {
      KeptOfNone(kept);
      if i == 0 {
        assert outcomes[..0] == [];
      } else {
        assert outcomes[..i] == [first] + rest[..i - 1];
        KeptOfFirst(first, rest[..i - 1]);
        assert rest[i - 1] == outcomes[i] && blocks[1..][i - 1] == blocks[i];
        Associative(kept, if first.Kept? then [first.block] else [], KeptOf(rest[..i - 1]));
        assert kept + [] == kept;
      }
    }
    TriedOutIs(adapt, kept, blocks, outcomes);
  }

  lemma KeptOfNone(kept: Forest)
    ensures kept + KeptOf([]) == kept
  {}

  lemma TriedOutIs(adapt: Adapter, kept: Forest, blocks: Forest, outcomes: seq<Settled>)
    ensures TriedOut(adapt, kept, blocks, outcomes)
      <==> (|outcomes| == |blocks| && forall i :: 0 <= i < |blocks| ==>
              outcomes[i] == Settle(adapt, kept + KeptOf(outcomes[..i]), blocks[i]))
  {
    hide Settle;
  }

  /** A block was dropped for this message, having had this text. */
  ghost predicate DroppedFor(blocks: Forest, outcomes: seq<Settled>, message: string, snapshot: string)
    requires |outcomes| == |blocks|
  {
    exists i :: 0 <= i < |blocks| && outcomes[i] == Dropped(message) && snapshot == BlockText(blocks[i], 0)
  }

  /** A block was dropped because of this name. */
  ghost predicate DroppedBy(outcomes: seq<Settled>, name: string) {
    exists i :: 0 <= i < |outcomes| && outcomes[i].Dropped? && AmbiguousSiteName(outcomes[i].message) == name
  }

  /**
   The outer loop keeps the blocks that come through, in order. What it logs is what was dropped: the error with
   the text that the block had at first, and a hint at a name that was found ambiguous.
   */
  lemma {:induction false} SurvivorsAndLogs(adapt: Adapter, kept: Forest, blocks: Forest)
    returns (outcomes: seq<Settled>)
    ensures TriedOut(adapt, kept, blocks, outcomes)
    ensures Survivors(adapt, kept, blocks) == kept + KeptOf(outcomes)
    ensures forall m, t :: Removed(m, t) in Logs(adapt, kept, blocks) <==> DroppedFor(blocks, outcomes, m, t)
    ensures forall n :: Hint(n) in Logs(adapt, kept, blocks) <==> n != "" && DroppedBy(outcomes, n)
    ensures forall c :: InvalidCaddyfile(c) !in Logs(adapt, kept, blocks)
    decreases |blocks|
  {
    hide *;
    if blocks == [] {
      outcomes := [];
      NothingTriedOut(adapt, kept);
    } else {
      var first := Settle(adapt, kept, blocks[0]);
      var next := if first.Kept? then kept + [first.block] else kept;
      var rest := SurvivorsAndLogs(adapt, next, blocks[1..]);
      outcomes := [first] + rest;
      TriedOutFirst(adapt, kept, blocks, rest);
      LogsFirst(adapt, kept, blocks);
      KeptOfFirst(first, rest);
      Associative(kept, if first.Kept? then [first.block] else [], KeptOf(rest));
      assert kept + [] == kept;
      TriedOutIs(adapt, next, blocks[1..], rest);
      assert outcomes[1..] == rest;
      if first.Dropped? {
        DroppingHas(first.message, BlockText(blocks[0], 0));
      }
      forall m, t ensures Removed(m, t) in Logs(adapt, kept, blocks) <==> DroppedFor(blocks, outcomes, m, t) {
        DroppedForFirst(blocks, outcomes, m, t);
      }
      forall n ensures Hint(n) in Logs(adapt, kept, blocks) <==> n != "" && DroppedBy(outcomes, n) {
        DroppedByFirst(outcomes, n);
      }
    }
  }

  lemma NothingTriedOut(adapt: Adapter, kept: Forest)
    ensures TriedOut(adapt, kept, [], []) && Survivors(adapt, kept, []) == kept == kept + KeptOf([])
    ensures Logs(adapt, kept, []) == []
    ensures forall m, t :: !DroppedFor([], [], m, t)
    ensures forall n :: !DroppedBy([], n)
  {}

  lemma DroppingHas(message: string, snapshot: string)
    ensures forall m, t :: Removed(m, t) in Dropping(message, snapshot) <==> m == message && t == snapshot
    ensures forall n :: Hint(n) in Dropping(message, snapshot) <==> n == AmbiguousSiteName(message) && n != ""
    ensures forall c :: InvalidCaddyfile(c) !in Dropping(message, snapshot)
  {
    hide AmbiguousSiteName;
  }

  /** A hint stands directly behind the error that it is about. */
  ghost predicate HintsFollow(logs: seq<Log>) {
    forall i :: 0 <= i < |logs| && logs[i].Hint? ==>
      i > 0 && logs[i - 1].Removed? && logs[i].name == AmbiguousSiteName(logs[i - 1].message)
  }

  lemma HintsFollowConcat(first: seq<Log>, second: seq<Log>)
    requires HintsFollow(first) && HintsFollow(second)
    ensures HintsFollow(first + second)
  {
    hide AmbiguousSiteName;
    var logs := first + second;
    forall i | 0 <= i < |logs| && logs[i].Hint?
      ensures i > 0 && logs[i - 1].Removed? && logs[i].name == AmbiguousSiteName(logs[i - 1].message)
    {
      assert if i < |first| then first[i].Hint? else second[i - |first|].Hint?;
    }
  }

  lemma {:induction false} LogsInOrder(adapt: Adapter, kept: Forest, blocks: Forest)
    ensures HintsFollow(Logs(adapt, kept, blocks))
    decreases |blocks|
  {
    hide Settle, BlockText, AmbiguousSiteName, HintsFollow;
    if blocks == [] {
      NoHints();
    } else {
      match Settle(adapt, kept, blocks[0])
      case Kept(b) => LogsInOrder(adapt, kept + [b], blocks[1..]);
      case Dropped(message) =>
        LogsInOrder(adapt, kept, blocks[1..]);
        DroppingInOrder(message, BlockText(blocks[0], 0));
        HintsFollowConcat(Dropping(message, BlockText(blocks[0], 0)), Logs(adapt, kept, blocks[1..]));
    }
  }

  lemma NoHints()
    ensures HintsFollow([])
  {}

  lemma DroppingInOrder(message: string, snapshot: string)
    ensures HintsFollow(Dropping(message, snapshot))
  {
    hide AmbiguousSiteName;
  }

  lemma LogsFirst(adapt: Adapter, kept: Forest, blocks: Forest)
    requires blocks != []
    ensures var first := Settle(adapt, kept, blocks[0]);
      var next := if first.Kept? then kept + [first.block] else kept;
      var rest := Logs(adapt, next, blocks[1..]);
      Survivors(adapt, kept, blocks) == Survivors(adapt, next, blocks[1..]) &&
      forall l :: l in Logs(adapt, kept, blocks)
        <==> (l in rest || (first.Dropped? && l in Dropping(first.message, BlockText(blocks[0], 0))))
  {
    hide Settle, Dropping, BlockText;
  }

  lemma DroppedForFirst(blocks: Forest, outcomes: seq<Settled>, message: string, snapshot: string)
    requires |outcomes| == |blocks| > 0
    ensures DroppedFor(blocks, outcomes, message, snapshot)
      <==> ((outcomes[0] == Dropped(message) && snapshot == BlockText(blocks[0], 0))
            || DroppedFor(blocks[1..], outcomes[1..], message, snapshot))
  {
    hide BlockText;
    if DroppedFor(blocks[1..], outcomes[1..], message, snapshot) {
      var i :| 0 <= i < |blocks[1..]| && outcomes[1..][i] == Dropped(message)
        && snapshot == BlockText(blocks[1..][i], 0);
      assert outcomes[i + 1] == Dropped(message) && snapshot == BlockText(blocks[i + 1], 0);
    }
    if DroppedFor(blocks, outcomes, message, snapshot) {
      var i :| 0 <= i < |blocks| && outcomes[i] == Dropped(message) && snapshot == BlockText(blocks[i], 0);
      if i > 0 {
        assert outcomes[1..][i - 1] == Dropped(message) && blocks[1..][i - 1] == blocks[i];
      }
    }
  }

  lemma DroppedByFirst(outcomes: seq<Settled>, name: string)
    requires outcomes != []
    ensures DroppedBy(outcomes, name)
      <==> ((outcomes[0].Dropped? && AmbiguousSiteName(outcomes[0].message) == name) || DroppedBy(outcomes[1..], name))
  {
    hide AmbiguousSiteName;
    if DroppedBy(outcomes[1..], name) {
      var i :| 0 <= i < |outcomes[1..]| && outcomes[1..][i].Dropped?
        && AmbiguousSiteName(outcomes[1..][i].message) == name;
      assert outcomes[i + 1] == outcomes[1..][i];
    }
    if DroppedBy(outcomes, name) {
      var i :| 0 <= i < |outcomes| && outcomes[i].Dropped? && AmbiguousSiteName(outcomes[i].message) == name;
      if i > 0 {
        assert outcomes[1..][i - 1] == outcomes[i];
      }
    }
  }

  lemma {:induction false} SurvivorsAre(adapt: Adapter, kept: Forest, blocks: Forest) returns (r: Forest)
    ensures Survivors(adapt, kept, blocks) == kept + r && Surviving(r, blocks)
    decreases |blocks|
  {
    hide Settle, Shrunk;
    if blocks == [] {
      r := [];
    } else {
      SettleShrinks(adapt, kept, blocks[0]);
      match Settle(adapt, kept, blocks[0])
      case Kept(b) =>
        var rest := SurvivorsAre(adapt, kept + [b], blocks[1..]);
        r := [b] + rest;
        assert r[1..] == rest;
      case Dropped(_) =>
        r := SurvivorsAre(adapt, kept, blocks[1..]);
    }
  }

  /** A keyed block never becomes a global options block, and children are never touched. */
  lemma SurvivorsFaithful(adapt: Adapter, blocks: Forest)
    ensures Surviving(Survivors(adapt, [], blocks), blocks)
  {
    var r := SurvivorsAre(adapt, [], blocks);
    assert [] + r == r;
  }

  /** The adapter accepts every beginning of the blocks. */
  ghost predicate AcceptsBeginnings(adapt: Adapter, kept: Forest, blocks: Forest) {
    forall i :: 0 < i <= |blocks| ==> adapt(Marshal(kept + blocks[..i])) == Accepted
  }

  lemma BeginningsTail(adapt: Adapter, kept: Forest, blocks: Forest)
    requires AcceptsBeginnings(adapt, kept, blocks) && blocks != []
    ensures Settle(adapt, kept, blocks[0]) == Kept(blocks[0])
    ensures AcceptsBeginnings(adapt, kept + [blocks[0]], blocks[1..])
  {
    hide Marshal;
    var b, rest := blocks[0], blocks[1..];
    assert blocks[..1] == [b];
    forall i | 0 < i <= |rest| ensures adapt(Marshal(kept + [b] + rest[..i])) == Accepted {
      assert kept + [b] + rest[..i] == kept + blocks[..i + 1];
    }
  }

  lemma {:induction false} AllSurvive(adapt: Adapter, kept: Forest, blocks: Forest)
    requires AcceptsBeginnings(adapt, kept, blocks)
    ensures Survivors(adapt, kept, blocks) == kept + blocks && Logs(adapt, kept, blocks) == []
    decreases |blocks|
  {
    hide Settle, AcceptsBeginnings;
    if blocks == [] {
      assert kept + blocks == kept;
    } else {
      BeginningsTail(adapt, kept, blocks);
      AllSurvive(adapt, kept + [blocks[0]], blocks[1..]);
      assert kept + [blocks[0]] + blocks[1..] == kept + blocks;
    }
  }

  // ---------- the whole of Process ----------

  datatype Result = Result(text: string, logs: seq<Log>)

  function Processed(adapt: Adapter, content: string): Result {
    if content == [] then Result(content, [])
    else
      match Unmarshal(content)
      case None => Result("", [InvalidCaddyfile(content)])
      case Some(f) =>
        var blocks := SortForest(f);
        Result(Marshal(Survivors(adapt, [], blocks)), Logs(adapt, [], blocks))
  }

  /** The output of `Process` is empty or accepted by the adapter. */
  lemma ProcessSound(adapt: Adapter, content: string)
    ensures Sound(adapt, Processed(adapt, content).text)
  {
    if content != [] {
      if Unmarshal(content).Some? {
        assert Marshal([]) == "";
        SurvivorsSound(adapt, [], SortForest(Unmarshal(content).value));
      }
    }
  }

  /**
   The output is the text of some of the blocks, in order; when the adapter accepts every beginning
   of the sorted blocks, it is the text of all of them and nothing is logged.
   */
  lemma ProcessFaithful(adapt: Adapter, content: string, f: Forest)
    requires content != [] && Unmarshal(content) == Some(f)
    ensures exists r :: Surviving(r, SortForest(f)) && Processed(adapt, content).text == Marshal(r)
    ensures AcceptsBeginnings(adapt, [], SortForest(f)) ==> Processed(adapt, content) == Result(Marshal(f), [])
  {
    var blocks := SortForest(f);
    SurvivorsFaithful(adapt, blocks);
    if AcceptsBeginnings(adapt, [], blocks) {
      AllSurvive(adapt, [], blocks);
      assert [] + blocks == blocks;
      SortForestIdempotent(f);
    }
  }

  predicate AllKept(outcomes: seq<Settled>) {
    forall i :: 0 <= i < |outcomes| ==> outcomes[i].Kept?
  }

  /** Nothing is logged exactly when there is nothing to process, or the text is valid and no block is dropped. */
  lemma ProcessReports(adapt: Adapter, content: string)
    ensures (exists c :: InvalidCaddyfile(c) in Processed(adapt, content).logs)
      <==> content != [] && Unmarshal(content).None?
    ensures content != [] && Unmarshal(content).None? ==>
      Processed(adapt, content).text == "" && InvalidCaddyfile(content) in Processed(adapt, content).logs
    ensures content != [] && Unmarshal(content).Some? ==>
      exists outcomes :: TriedOut(adapt, [], SortForest(Unmarshal(content).value), outcomes)
        && Processed(adapt, content).text == Marshal(KeptOf(outcomes))
        && (Processed(adapt, content).logs == [] <==> AllKept(outcomes))
  {
    hide Unmarshal, Marshal, SortForest, Settle, BlockText, AmbiguousSiteName;
    if content != [] && Unmarshal(content).Some? {
      var blocks := SortForest(Unmarshal(content).value);
      var outcomes := SurvivorsAndLogs(adapt, [], blocks);
      assert [] + KeptOf(outcomes) == KeptOf(outcomes);
      LogsExactly(blocks, outcomes, Processed(adapt, content).logs);
    }
  }

  lemma LogsExactly(blocks: Forest, outcomes: seq<Settled>, logs: seq<Log>)
    requires |outcomes| == |blocks|
    requires forall m, t :: Removed(m, t) in logs <==> DroppedFor(blocks, outcomes, m, t)
    requires forall n :: Hint(n) in logs <==> n != "" && DroppedBy(outcomes, n)
    requires forall c :: InvalidCaddyfile(c) !in logs
    ensures logs == [] <==> AllKept(outcomes)
  {
    hide BlockText, AmbiguousSiteName;
    if logs != [] {
      match logs[0]
      case InvalidCaddyfile(_) => assert false;
      case Removed(m, t) => assert DroppedFor(blocks, outcomes, m, t);
      case Hint(n) => assert DroppedBy(outcomes, n);
    }
    forall i | 0 <= i < |outcomes| && outcomes[i].Dropped? ensures logs != [] {
      assert DroppedFor(blocks, outcomes, outcomes[i].message, BlockText(blocks[i], 0));
      assert Removed(outcomes[i].message, BlockText(blocks[i], 0)) in logs;
    }
  }
}
