/**
 Throttled events of `loader.go`: the event handler, the shared timer and overlapping updates as
 interleaved steps with a clock.

 Every step can be delayed: time passes at any moment, between the two statements of the handler, while
 updates are under way and after the timer is due. `late` measures such delays.
 */
module Throttle {
  import opened Options

  datatype Config = Config(clients: nat, throttle: nat, polling: nat)

  datatype Timer = Idle | Armed(deadline: nat, throttled: bool)

  /** The handler listens to one client at a time; between its two statements it is resetting the timer. */
  datatype Handler = Listening(client: nat) | Resetting(client: nat)

  /** Where an update stands before its generation; `Clearing(i)` has cleared the flags below `i`. */
  datatype Progress = Starting | Clearing(client: nat)

  /**
   `oldest` is when the oldest event was received that no generation has started after, and `late` how
   long since then something was due and had not been done. `began` is when the last update began, and
   `lag` the same since then.
   */
  datatype State = State(
    now: nat, timer: Timer, skipEvents: seq<bool>, handler: Handler,
    updates: map<nat, Progress>, started: nat, oldest: Option<nat>, late: nat,
    began: Option<nat>, lag: nat)

  datatype Step =
    | Event            // a relevant event arrives, and is taken or skipped
    | ResetTimer       // the handler arms the timer for the throttle interval
    | Switch(to: nat)  // the handler turns to another client
    | Fire             // the timer starts an update
    | Begin(id: nat)   // an update arms the timer for the polling interval
    | Clear(id: nat)   // an update clears one flag
    | Generate(id: nat)
    | Tick

  function Init(c: Config): State {
    State(0, Armed(0, false), seq(c.clients, _ => false), Listening(0), map[], 0, None, 0, None, 0)
  }

  predicate Enabled(c: Config, s: State, step: Step) {
    match step
    case Event => s.handler.Listening? && s.handler.client < |s.skipEvents|
    case ResetTimer => s.handler.Resetting?
    case Switch(to) => s.handler.Listening? && to < c.clients
    case Fire => s.timer.Armed? && s.timer.deadline <= s.now
    case Begin(id) => id in s.updates && s.updates[id].Starting?
    case Clear(id) => id in s.updates && s.updates[id].Clearing? && s.updates[id].client < |s.skipEvents|
    case Generate(id) => id in s.updates && s.updates[id] == Clearing(c.clients)
    case Tick => true
  }

  /** The handler, an update or the timer has something to do at once. */
  predicate Due(s: State) {
    s.handler.Resetting? || s.updates != map[] || (s.timer.Armed? && s.timer.deadline <= s.now)
  }

  function Apply(c: Config, s: State, step: Step): State
    requires Enabled(c, s, step)
  {
    match step
    case Event =>
      var received := if s.oldest.Some? then s else s.(oldest := Some(s.now), late := 0);
      if s.skipEvents[s.handler.client] then received
      else received.(skipEvents := s.skipEvents[s.handler.client := true], handler := Resetting(s.handler.client))
    case ResetTimer => s.(timer := Armed(s.now + c.throttle, true), handler := Listening(s.handler.client))
    case Switch(to) => s.(handler := Listening(to))
    case Fire => s.(timer := Idle, updates := s.updates[s.started := Starting], started := s.started + 1)
    case Begin(id) =>
      s.(timer := Armed(s.now + c.polling, false), updates := s.updates[id := Clearing(0)],
         began := Some(s.now), lag := 0)
    case Clear(id) =>
      var i := s.updates[id].client;
      s.(skipEvents := s.skipEvents[i := false], updates := s.updates[id := Clearing(i + 1)])
    case Generate(id) => s.(updates := s.updates - {id}, oldest := None)
    case Tick =>
      s.(now := s.now + 1, late := if Due(s) then s.late + 1 else s.late, lag := if Due(s) then s.lag + 1 else s.lag)
  }

  /** The state that a sequence of steps leads to, if each of them can be taken. */
  function Run(c: Config, s: State, steps: seq<Step>): Option<State>
    decreases |steps|
  {
    if steps == [] then Some(s)
    else if Enabled(c, s, steps[0]) then Run(c, Apply(c, s, steps[0]), steps[1..])
    else None
  }

  // ---------- the invariant ----------

  function Flags(flags: seq<bool>): nat {
    if flags == [] then 0 else (if flags[0] then 1 else 0) + Flags(flags[1..])
  }

  /** An update that has not cleared the flag yet and will generate after it did. */
  ghost predicate Covered(s: State, i: nat) {
    exists id :: id in s.updates && (s.updates[id].Starting? || s.updates[id].client <= i)
  }

  /** A set flag means that an update is coming soon. */
  ghost predicate FlagsServed(s: State) {
    forall i :: 0 <= i < |s.skipEvents| && s.skipEvents[i] ==>
      || (s.timer.Armed? && s.timer.throttled)
      || s.handler == Resetting(i)
      || Covered(s, i)
  }

  /** The timer is armed, or an update that will arm it has started. */
  ghost predicate TimerServed(c: Config, s: State) {
    && (s.timer.Idle? ==> exists id :: id in s.updates && s.updates[id].Starting?)
    && (s.timer.Armed? && s.timer.throttled ==> s.timer.deadline <= s.now + c.throttle)
  }

  /** An update is on its way for an event that no generation has followed yet. */
  ghost predicate EventServed(s: State) {
    s.oldest.Some? ==> s.updates != map[] || s.handler.Resetting? || (s.timer.Armed? && s.timer.throttled)
  }

  /**
   Delays aside, every flag set since the event may have put the update off by one interval; while an
   update is under way, all of them may have been cleared again.
   */
  ghost predicate EventOnTime(c: Config, s: State) {
    s.oldest.Some? ==>
      var latest := s.oldest.value + s.late + Flags(s.skipEvents) * c.throttle;
      && s.oldest.value <= s.now <= s.oldest.value + s.late + c.clients * c.throttle
      && (s.updates == map[] ==>
           && s.now <= latest
           && (s.handler.Resetting? ==> s.now + c.throttle <= latest)
           && (s.handler.Listening? && s.timer.Armed? ==> s.timer.deadline <= latest))
  }

  /** When the timer is due if nothing puts it off: at once, and later the polling interval after an update. */
  function Base(c: Config, s: State): nat {
    match s.began
    case None => s.lag
    case Some(began) => began + s.lag + c.polling
  }

  /** An update has begun and is not through with its generation. */
  ghost predicate Clears(s: State) {
    exists id :: id in s.updates && s.updates[id].Clearing?
  }

  /**
   Delays aside, events can put the timer off by one throttle interval for each flag that is set, and for one
   that an update has cleared in the meantime.
   */
  ghost predicate Polled(c: Config, s: State) {
    var latest := Base(c, s) + (1 + Flags(s.skipEvents)) * c.throttle;
    if Clears(s) then
      && s.began.Some? && s.now <= s.began.value + s.lag
      && (s.timer.Armed? ==> s.timer.deadline <= Base(c, s) + c.throttle)
    else
      && s.now <= latest
      && (s.handler.Resetting? ==> s.now + c.throttle <= latest)
      && (s.handler.Listening? && s.timer.Armed? ==> s.timer.deadline <= latest)
  }

  ghost predicate Invariant(c: Config, s: State) {
    Served(c, s) && Polled(c, s)
  }

  ghost predicate Served(c: Config, s: State) {
    && |s.skipEvents| == c.clients
    && s.handler.client <= c.clients
    && (forall id :: id in s.updates ==>
         id < s.started && (s.updates[id].Clearing? ==> s.updates[id].client <= c.clients))
    && TimerServed(c, s)
    && FlagsServed(s)
    && EventServed(s)
    && EventOnTime(c, s)
  }

  lemma FlagsBound(flags: seq<bool>)
    ensures Flags(flags) <= |flags|
    ensures (exists i :: 0 <= i < |flags| && flags[i]) ==> Flags(flags) >= 1
  {}

  lemma SetFlag(flags: seq<bool>, i: nat)
    requires i < |flags| && !flags[i]
    ensures Flags(flags[i := true]) == Flags(flags) + 1
  {
    if i > 0 {
      assert flags[i := true][1..] == flags[1..][i - 1 := true];
      SetFlag(flags[1..], i - 1);
    } else {
      assert flags[0 := true][1..] == flags[1..];
    }
  }

  lemma Times(a: nat, b: nat, x: nat)
    requires a <= b
    ensures a * x <= b * x
    ensures (a + 1) * x == a * x + x
  {}

  /** What covers a flag depends on the updates alone. */
  lemma SameCover(s: State, t: State)
    requires s.updates == t.updates
    ensures forall i :: Covered(s, i) <==> Covered(t, i)
  {}

  lemma EventKeepsFlags(c: Config, s: State)
    requires Served(c, s) && Enabled(c, s, Event)
    ensures FlagsServed(Apply(c, s, Event)) && EventServed(Apply(c, s, Event))
  {
    SameCover(s, Apply(c, s, Event));
    hide Covered, EventOnTime, TimerServed;
    if s.skipEvents[s.handler.client] && s.updates == map[] {
      NotCovered(s, s.handler.client);
    }
  }

  lemma NotCovered(s: State, i: nat)
    requires s.updates == map[]
    ensures !Covered(s, i)
  {}

  lemma EventKeepsTime(c: Config, s: State)
    requires Served(c, s) && Enabled(c, s, Event)
    ensures EventOnTime(c, Apply(c, s, Event))
  {
    var i := s.handler.client;
    FlagsBound(s.skipEvents);
    if s.updates == map[] {
      NotCovered(s, i);
    }
    hide Covered, Flags;
    if s.skipEvents[i] {
      Times(1, Flags(s.skipEvents), c.throttle);
    } else {
      SetFlag(s.skipEvents, i);
      Times(Flags(s.skipEvents), Flags(s.skipEvents), c.throttle);
    }
    assert 0 <= c.clients * c.throttle && 0 <= Flags(s.skipEvents) * c.throttle;
  }

  lemma EventKeeps(c: Config, s: State)
    requires Served(c, s) && Enabled(c, s, Event)
    ensures Served(c, Apply(c, s, Event))
  {
    EventKeepsFlags(c, s);
    EventKeepsTime(c, s);
    hide FlagsServed, EventServed, EventOnTime;
  }

  lemma BeginKeeps(c: Config, s: State, id: nat)
    requires Served(c, s) && Enabled(c, s, Begin(id))
    ensures Served(c, Apply(c, s, Begin(id)))
  {
    var t := Apply(c, s, Begin(id));
    assert id in t.updates && t.updates[id] == Clearing(0);
    forall i | 0 <= i < |t.skipEvents| ensures Covered(t, i) {}
  }

  lemma ClearKeeps(c: Config, s: State, id: nat)
    requires Served(c, s) && Enabled(c, s, Clear(id))
    ensures Served(c, Apply(c, s, Clear(id)))
  {
    var t := Apply(c, s, Clear(id));
    var i := s.updates[id].client;
    assert id in t.updates;
    forall j | 0 <= j < |s.skipEvents| && j != i && Covered(s, j) ensures Covered(t, j) {
      var u :| u in s.updates && (s.updates[u].Starting? || s.updates[u].client <= j);
      assert u in t.updates && (t.updates[u].Starting? || t.updates[u].client <= j);
    }
    if s.timer.Idle? {
      var u :| u in s.updates && s.updates[u].Starting?;
      assert u in t.updates && t.updates[u].Starting?;
    }
  }

  lemma GenerateKeeps(c: Config, s: State, id: nat)
    requires Served(c, s) && Enabled(c, s, Generate(id))
    ensures Served(c, Apply(c, s, Generate(id)))
  {
    var t := Apply(c, s, Generate(id));
    forall j | 0 <= j < |s.skipEvents| && Covered(s, j) ensures Covered(t, j) {
      var u :| u in s.updates && (s.updates[u].Starting? || s.updates[u].client <= j);
      assert u in t.updates && t.updates[u] == s.updates[u];
    }
    if s.timer.Idle? {
      var u :| u in s.updates && s.updates[u].Starting?;
      assert u in t.updates && t.updates[u].Starting?;
    }
  }

  lemma FireKeeps(c: Config, s: State)
    requires Served(c, s) && Enabled(c, s, Fire)
    ensures Served(c, Apply(c, s, Fire))
  {
    var t := Apply(c, s, Fire);
    assert s.started in t.updates && t.updates[s.started].Starting?;
    forall i | 0 <= i < |t.skipEvents| ensures Covered(t, i) {}
  }

  lemma TickKeeps(c: Config, s: State)
    requires Served(c, s) && Enabled(c, s, Tick)
    ensures Served(c, Apply(c, s, Tick))
  {
    SameCover(s, Apply(c, s, Tick));
    FlagsBound(s.skipEvents);
    Times(Flags(s.skipEvents), c.clients, c.throttle);
    hide Covered, Flags;
  }

  lemma SameClears(s: State, t: State)
    requires s.updates == t.updates
    ensures Clears(s) <==> Clears(t)
  {}

  /** Only an update that generates can be the last one that clears. */
  lemma UpdatesClear(c: Config, s: State, step: Step)
    requires Enabled(c, s, step) && (forall id :: id in s.updates ==> id < s.started)
    ensures step.Begin? || step.Clear? ==> Clears(Apply(c, s, step))
    ensures step.Clear? || step.Generate? ==> Clears(s)
    ensures step.Generate? && Clears(Apply(c, s, step)) ==> Clears(s)
    ensures step.Fire? ==> Clears(Apply(c, s, step)) == Clears(s)
  {
    var t := Apply(c, s, step);
    if step.Begin? || step.Clear? {
      assert step.id in t.updates && t.updates[step.id].Clearing?;
    }
    if step.Clear? || step.Generate? {
      assert step.id in s.updates && s.updates[step.id].Clearing?;
    }
    if step.Fire? {
      if Clears(s) {
        var u :| u in s.updates && s.updates[u].Clearing?;
        assert u in t.updates && t.updates[u].Clearing?;
      }
    }
  }

  lemma PolledKeeps(c: Config, s: State, step: Step)
    requires Served(c, s) && Polled(c, s) && Enabled(c, s, step)
    ensures Polled(c, Apply(c, s, step))
  {
    var t := Apply(c, s, step);
    UpdatesClear(c, s, step);
    if s.updates == t.updates {
      SameClears(s, t);
    }
    hide FlagsServed, EventServed, EventOnTime, Covered, Clears, Flags;
    var flags := Flags(s.skipEvents);
    Times(0, flags, c.throttle);
    Times(flags, flags, c.throttle);
    Times(1 + flags, 1 + flags, c.throttle);
    if step.Event? && !s.skipEvents[s.handler.client] {
      SetFlag(s.skipEvents, s.handler.client);
    }
    Times(0, Flags(t.skipEvents), c.throttle);
    Times(Flags(t.skipEvents), Flags(t.skipEvents), c.throttle);
  }

  lemma StepKeeps(c: Config, s: State, step: Step)
    requires Invariant(c, s) && Enabled(c, s, step)
    ensures Invariant(c, Apply(c, s, step))
  {
    PolledKeeps(c, s, step);
    hide Polled;
    match step
    case Event => EventKeeps(c, s);
    case ResetTimer =>
    case Switch(to) => assert forall j :: Covered(s, j) ==> Covered(Apply(c, s, step), j);
    case Fire => FireKeeps(c, s);
    case Begin(id) => BeginKeeps(c, s, id);
    case Clear(id) => ClearKeeps(c, s, id);
    case Generate(id) => GenerateKeeps(c, s, id);
    case Tick => TickKeeps(c, s);
  }

  lemma {:induction false} RunKeeps(c: Config, s: State, steps: seq<Step>)
    requires Invariant(c, s)
    ensures Run(c, s, steps).Some? ==> Invariant(c, Run(c, s, steps).value)
    decreases |steps|
  {
    if steps != [] && Enabled(c, s, steps[0]) {
      StepKeeps(c, s, steps[0]);
      RunKeeps(c, Apply(c, s, steps[0]), steps[1..]);
    }
  }

  ghost predicate Reachable(c: Config, s: State) {
    exists steps :: Run(c, Init(c), steps) == Some(s)
  }

  lemma ReachableInvariant(c: Config, s: State)
    requires Reachable(c, s)
    ensures Invariant(c, s)
  {
    var steps :| Run(c, Init(c), steps) == Some(s);
    RunKeeps(c, Init(c), steps);
  }

  // ---------- no event is lost ----------

  /**
   In every interleaving, however long any step is delayed, a set flag means that the timer is armed for
   the throttle interval, that the handler is about to arm it, or that an update has yet to clear the
   flag and generate.
   */
  lemma FlagMeansUpdate(c: Config, s: State, i: nat)
    requires Reachable(c, s) && i < |s.skipEvents| && s.skipEvents[i]
    ensures (s.timer.Armed? && s.timer.throttled && s.timer.deadline <= s.now + c.throttle)
         || s.handler == Resetting(i) || Covered(s, i)
  {
    ReachableInvariant(c, s);
  }

  /**
   So is an event that no generation has started after: an update is under way, the handler is about to
   arm the timer or it is armed for the throttle interval. The timer is never idle for good.
   */
  lemma EventMeansUpdate(c: Config, s: State)
    requires Reachable(c, s)
    ensures s.oldest.Some? ==>
      || s.updates != map[] || s.handler.Resetting?
      || (s.timer.Armed? && s.timer.throttled && s.timer.deadline <= s.now + c.throttle)
    ensures s.timer.Idle? ==> exists id :: id in s.updates && s.updates[id].Starting?
  {
    ReachableInvariant(c, s);
  }

  /**
   In every interleaving, an event waits for a generation that starts after it at most one throttle
   interval per client and the time that due steps have been delayed, whether it was taken or skipped.
   */
  lemma EventsGenerateInTime(c: Config, s: State)
    requires Reachable(c, s) && s.oldest.Some?
    ensures s.now <= s.oldest.value + c.clients * c.throttle + s.late
  {
    ReachableInvariant(c, s);
  }

  /**
   In every interleaving, an update begins, and the timer is due, at most the polling interval after the last
   update began, but for a throttle interval per client and one more, and the time that due steps have been
   delayed since. At the start there is no polling interval to wait for.
   */
  lemma PollsInTime(c: Config, s: State)
    requires Reachable(c, s)
    ensures var latest := Base(c, s) + (1 + c.clients) * c.throttle;
      s.now <= latest && (s.handler.Listening? && s.timer.Armed? ==> s.timer.deadline <= latest)
  {
    ReachableInvariant(c, s);
    FlagsBound(s.skipEvents);
    hide Served, Clears, Flags;
    Times(1 + Flags(s.skipEvents), 1 + c.clients, c.throttle);
    Times(1, 1 + c.clients, c.throttle);
  }

  /** No time passes while something is due. */
  ghost predicate Prompt(c: Config, s: State, steps: seq<Step>)
    decreases |steps|
  {
    steps != [] && Enabled(c, s, steps[0]) ==>
      (steps[0].Tick? ==> !Due(s)) && Prompt(c, Apply(c, s, steps[0]), steps[1..])
  }

  lemma {:induction false} PromptIsNotLate(c: Config, s: State, steps: seq<Step>)
    requires Prompt(c, s, steps) && s.late == s.lag == 0
    ensures Run(c, s, steps).Some? ==> Run(c, s, steps).value.late == Run(c, s, steps).value.lag == 0
    decreases |steps|
  {
    if steps != [] && Enabled(c, s, steps[0]) {
      PromptIsNotLate(c, Apply(c, s, steps[0]), steps[1..]);
    }
  }

  /**
   Without delays, an event waits at most one throttle interval per client, and updates come at most the
   polling interval apart, but for the throttle intervals.
   */
  lemma PromptInTime(c: Config, steps: seq<Step>, s: State)
    requires Run(c, Init(c), steps) == Some(s) && Prompt(c, Init(c), steps)
    ensures s.oldest.Some? ==> s.now <= s.oldest.value + c.clients * c.throttle
    ensures s.now <= (if s.began.Some? then s.began.value + c.polling else 0) + (1 + c.clients) * c.throttle
  {
    PromptIsNotLate(c, Init(c), steps);
    PollsInTime(c, s);
    if s.oldest.Some? {
      EventsGenerateInTime(c, s);
    }
  }

  // ---------- how long the timer runs ----------

  /** The step arms the timer, or makes it fire. */
  predicate Arms(step: Step) {
    step.ResetTimer? || step.Begin? || step.Fire?
  }

  lemma {:induction false} TimerStays(c: Config, s: State, steps: seq<Step>)
    requires forall k :: 0 <= k < |steps| ==> !Arms(steps[k])
    ensures Run(c, s, steps).Some? ==> Run(c, s, steps).value.timer == s.timer
    decreases |steps|
  {
    if steps != [] && Enabled(c, s, steps[0]) {
      assert !Arms(steps[0]);
      assert forall k :: 0 <= k < |steps[1..]| ==> steps[1..][k] == steps[k + 1];
      TimerStays(c, Apply(c, s, steps[0]), steps[1..]);
    }
  }

  /**
   An event makes the timer fire after the throttle interval, an update after the polling interval, not earlier,
   unless the timer is armed again; at the start it can fire at once.
   */
  lemma FiresExactly(c: Config, s: State, arming: Step, steps: seq<Step>, t: State)
    requires Enabled(c, s, arming) && (arming.ResetTimer? || arming.Begin?)
    requires forall k :: 0 <= k < |steps| ==> !Arms(steps[k])
    requires Run(c, Apply(c, s, arming), steps) == Some(t)
    ensures Enabled(c, t, Fire) <==> t.now >= s.now + if arming.ResetTimer? then c.throttle else c.polling
    ensures Enabled(c, Init(c), Fire)
  {
    TimerStays(c, Apply(c, s, arming), steps);
  }

  // ---------- every event is followed by a generation ----------

  /** The steps of an execution that goes on for ever. */
  datatype Execution = Execution(states: nat -> State, steps: nat -> Step)

  ghost predicate Follows(c: Config, x: Execution) {
    && Invariant(c, x.states(0))
    && forall n: nat :: Enabled(c, x.states(n), x.steps(n)) && x.states(n + 1) == Apply(c, x.states(n), x.steps(n))
  }

  predicate Internal(step: Step) {
    !step.Event? && !step.Switch?
  }

  predicate DoneOrOff(c: Config, x: Execution, step: Step, n: nat) {
    x.steps(n) == step || !Enabled(c, x.states(n), step)
  }

  /**
   Weak fairness: the handler, the updates, the timer and the clock do not put off for ever what they
   can do all the time.
   */
  ghost predicate Fair(c: Config, x: Execution) {
    forall step, n: nat :: Internal(step) ==> Comes(c, x, step, n)
  }

  ghost predicate Comes(c: Config, x: Execution, step: Step, n: nat) {
    exists m: nat :: n <= m && DoneOrOff(c, x, step, m)
  }

  lemma {:induction false} ExecutionKeeps(c: Config, x: Execution, n: nat)
    requires Follows(c, x)
    ensures Invariant(c, x.states(n))
  {
    if n > 0 {
      ExecutionKeeps(c, x, n - 1);
      StepKeeps(c, x.states(n - 1), x.steps(n - 1));
    }
  }

  /** The next step of an update. */
  function NextOf(c: Config, s: State, id: nat): Step
    requires id in s.updates
  {
    if s.updates[id].Starting? then Begin(id)
    else if s.updates[id].client < c.clients then Clear(id) else Generate(id)
  }

  /** Until its next step an update stays where it is. */
  lemma {:induction false} UpdateStays(c: Config, x: Execution, id: nat, n: nat, m: nat)
    requires Follows(c, x) && n <= m && id in x.states(n).updates
    requires forall k :: n <= k < m ==> x.steps(k) != NextOf(c, x.states(n), id)
    ensures id in x.states(m).updates && x.states(m).updates[id] == x.states(n).updates[id]
    decreases m - n
  {
    if n < m {
      UpdateStays(c, x, id, n, m - 1);
      ExecutionKeeps(c, x, m - 1);
      var s := x.states(m - 1);
      assert x.steps(m - 1) != NextOf(c, x.states(n), id);
      OnlyNextMoves(c, s, id, x.steps(m - 1));
    }
  }

  lemma OnlyNextMoves(c: Config, s: State, id: nat, step: Step)
    requires Invariant(c, s) && Enabled(c, s, step) && id in s.updates && step != NextOf(c, s, id)
    ensures id in Apply(c, s, step).updates && Apply(c, s, step).updates[id] == s.updates[id]
  {}

  /** The first time from `n` on that an update takes its next step. */
  lemma {:induction false} NextComes(c: Config, x: Execution, id: nat, n: nat) returns (m: nat)
    requires Follows(c, x) && Fair(c, x) && id in x.states(n).updates
    ensures n <= m && x.steps(m) == NextOf(c, x.states(n), id)
    ensures id in x.states(m).updates && x.states(m).updates[id] == x.states(n).updates[id]
  {
    var step := NextOf(c, x.states(n), id);
    assert Internal(step) && Comes(c, x, step, n);
    var k: nat :| n <= k && DoneOrOff(c, x, step, k);
    m := n;
    while m < k && x.steps(m) != step
      invariant n <= m <= k
      invariant forall j :: n <= j < m ==> x.steps(j) != step
    {
      m := m + 1;
    }
    UpdateStays(c, x, id, n, m);
    ExecutionKeeps(c, x, m);
  }

  function StepsLeft(c: Config, p: Progress): nat {
    if p.Starting? then c.clients + 2 else if p.client < c.clients then 1 + c.clients - p.client else 0
  }

  /** An update that is under way generates. */
  lemma {:induction false} UpdateGenerates(c: Config, x: Execution, id: nat, n: nat) returns (m: nat)
    requires Follows(c, x) && Fair(c, x) && id in x.states(n).updates
    ensures n <= m && x.steps(m) == Generate(id)
    decreases StepsLeft(c, x.states(n).updates[id])
  {
    m := NextComes(c, x, id, n);
    if !x.steps(m).Generate? {
      m := UpdateGenerates(c, x, id, m + 1);
    }
  }

  /** How often the handler can still put off the timer while no flag is cleared. */
  function Patience(c: Config, s: State): int {
    2 * (c.clients - Flags(s.skipEvents)) + if s.handler.Resetting? then 1 else 0
  }

  lemma PatienceIsNat(c: Config, s: State)
    requires Invariant(c, s)
    ensures Patience(c, s) >= 0
  {
    FlagsBound(s.skipEvents);
  }

  lemma QuietStep(c: Config, s: State, step: Step)
    requires Invariant(c, s) && Enabled(c, s, step) && s.updates == map[] && !step.Fire?
    ensures var t := Apply(c, s, step);
      && t.updates == map[] && s.now <= t.now && Patience(c, t) <= Patience(c, s)
      && (Patience(c, t) == Patience(c, s) ==> t.timer == s.timer && t.handler.Resetting? == s.handler.Resetting?)
      && (step.ResetTimer? ==> Patience(c, t) < Patience(c, s))
  {
    if step.Event? && !s.skipEvents[s.handler.client] {
      SetFlag(s.skipEvents, s.handler.client);
    }
    hide Flags;
  }

  /** As long as the timer does not fire, only the handler can put it off. */
  lemma {:induction false} Quiet(c: Config, x: Execution, n: nat, m: nat)
    requires Follows(c, x) && n <= m && x.states(n).updates == map[]
    requires forall k :: n <= k < m ==> !x.steps(k).Fire?
    ensures var s, t := x.states(n), x.states(m);
      && t.updates == map[] && s.now <= t.now && Patience(c, t) <= Patience(c, s)
      && (Patience(c, t) == Patience(c, s) ==> t.timer == s.timer && t.handler.Resetting? == s.handler.Resetting?)
    decreases m - n
  {
    if n < m {
      Quiet(c, x, n, m - 1);
      ExecutionKeeps(c, x, m - 1);
      QuietStep(c, x.states(m - 1), x.steps(m - 1));
    }
  }

  /** The first time in an interval that the timer fires, or its end. */
  lemma FirstFire(x: Execution, n: nat, k: nat) returns (m: nat)
    requires n <= k
    ensures n <= m <= k && (m < k ==> x.steps(m).Fire?) && forall j :: n <= j < m ==> !x.steps(j).Fire?
  {
    m := n;
    while m < k && !x.steps(m).Fire?
      invariant n <= m <= k
      invariant forall j :: n <= j < m ==> !x.steps(j).Fire?
    {
      m := m + 1;
    }
  }

  lemma {:induction false} TimeGrows(c: Config, x: Execution, n: nat, m: nat)
    requires Follows(c, x) && n <= m
    ensures x.states(n).now <= x.states(m).now
    decreases m - n
  {
    if n < m {
      TimeGrows(c, x, n, m - 1);
      assert Enabled(c, x.states(m - 1), x.steps(m - 1));
    }
  }

  lemma {:induction false} TimePasses(c: Config, x: Execution, n: nat, time: nat) returns (m: nat)
    requires Follows(c, x) && Fair(c, x)
    ensures n <= m && time <= x.states(m).now
    decreases time - x.states(n).now
  {
    m := n;
    if x.states(n).now < time {
      assert Internal(Tick) && Comes(c, x, Tick, n);
      var k: nat :| n <= k && DoneOrOff(c, x, Tick, k);
      TimeGrows(c, x, n, k);
      assert Enabled(c, x.states(k), x.steps(k));
      m := TimePasses(c, x, k + 1, time);
    }
  }

  /** If no update is under way, the timer fires. */
  lemma {:induction false} FireComes(c: Config, x: Execution, n: nat) returns (m: nat)
    requires Follows(c, x) && Fair(c, x) && x.states(n).updates == map[]
    ensures n <= m && x.steps(m).Fire?
    decreases Patience(c, x.states(n))
  {
    var s := x.states(n);
    ExecutionKeeps(c, x, n);
    PatienceIsNat(c, s);
    hide Patience, Invariant;
    var step := if s.handler.Resetting? then ResetTimer else Fire;
    var start := n;
    if step.Fire? {
      assert s.timer.Armed? by { TimerArmed(c, s); }
      start := TimePasses(c, x, n, s.timer.deadline);
    }
    assert Internal(step) && Comes(c, x, step, start);
    var k: nat :| start <= k && DoneOrOff(c, x, step, k);
    m := FirstFire(x, n, k + 1);
    if m == k + 1 {
      Quiet(c, x, n, k);
      ExecutionKeeps(c, x, k);
      TimeGrows(c, x, start, k);
      var t := x.states(k);
      PatienceIsNat(c, t);
      if Patience(c, t) < Patience(c, s) {
        m := FireComes(c, x, k);
      } else {
        assert x.steps(k) == step == ResetTimer;
        QuietStep(c, t, ResetTimer);
        ExecutionKeeps(c, x, k + 1);
        PatienceIsNat(c, x.states(k + 1));
        m := FireComes(c, x, k + 1);
      }
    }
  }

  lemma TimerArmed(c: Config, s: State)
    requires Invariant(c, s) && s.updates == map[]
    ensures s.timer.Armed?
  {}

  /**
   In every fair execution, from every moment on there is another generation, however the steps are
   interleaved and delayed. Until then an event waits no longer than the throttle intervals and the delays.
   */
  lemma GenerationFollows(c: Config, x: Execution, n: nat) returns (m: nat)
    requires Follows(c, x) && Fair(c, x)
    ensures n <= m && x.steps(m).Generate? && x.states(m + 1).oldest == None
    ensures var s := x.states(m);
      s.oldest.Some? ==> s.now <= s.oldest.value + c.clients * c.throttle + s.late
  {
    if x.states(n).updates == map[] {
      var k := FireComes(c, x, n);
      var id := x.states(k).started;
      assert x.states(k + 1) == Apply(c, x.states(k), Fire);
      m := UpdateGenerates(c, x, id, k + 1);
    } else {
      var id :| id in x.states(n).updates;
      m := UpdateGenerates(c, x, id, n);
    }
    ExecutionKeeps(c, x, m);
  }
}
