/**
 Versioned configurations of `loader.go`: overlapping updates and one goroutine per update and server,
 as interleaved steps.

 The local part of `update` is one step, and so is the test and set of `serversUpdating`. A push
 takes effect no later than its response arrives, or never; a failed one may have taken effect.
 */
module Delivery {

  type Server = string

  /** A version of the configuration; 0 is the one before the first. */
  type Version = nat

  /** How far a goroutine of `updateServer` got. */
  datatype Progress =
    | Called
    | Flagged                                 // owns the updating flag of its server
    | Checked(version: Version)               // knows the version it is going to record
    | Loaded(version: Version, config: Version)  // holds the configuration that it posts
    | Accepted(version: Version)              // got a good response
    | Leaving                                 // about to release the flag

  datatype Goroutine = Goroutine(server: Server, progress: Progress)

  /**
   Fields of the loader, the goroutines, and for every server the version it runs. The loader's
   `lastJSONConfig` is configuration number `lastVersion`; configuration number `v` was adapted from the
   Caddyfile `texts[v - 1]`.
   */
  datatype State = State(
    lastCaddyfile: string, lastVersion: Version,
    serversVersions: map<Server, Version>, serversUpdating: set<Server>,
    goroutines: map<nat, Goroutine>, started: nat, running: map<Server, Version>, texts: seq<string>)

  datatype Response = Success | Failure(applied: bool)

  datatype Step =
    | Update(caddyfile: string, valid: bool, servers: seq<Server>)
    | TestAndSet(id: nat)
    | ReadVersion(id: nat)
    | ReadConfig(id: nat, valid: bool)
    | Post(id: nat, response: Response)
    | Record(id: nat)
    | Release(id: nat)

  function Init(): State {
    State("", 0, map[], {}, map[], 0, map[], [])
  }

  /** `StringInt64CMap.Get`, and the version a server runs before any push. */
  function Get(m: map<Server, Version>, server: Server): Version {
    if server in m then m[server] else 0
  }

  /** The goroutines that an update starts for its servers. */
  function Started(goroutines: map<nat, Goroutine>, next: nat, servers: seq<Server>): map<nat, Goroutine>
    decreases |servers|
  {
    if servers == [] then goroutines
    else Started(goroutines[next := Goroutine(servers[0], Called)], next + 1, servers[1..])
  }

  predicate At(s: State, id: nat, p: Progress -> bool) {
    id in s.goroutines && p(s.goroutines[id].progress)
  }

  predicate Enabled(s: State, step: Step) {
    match step
    case Update(_, _, _) => true
    case TestAndSet(id) => At(s, id, (p: Progress) => p.Called?)
    case ReadVersion(id) => At(s, id, (p: Progress) => p.Flagged?)
    case ReadConfig(id, _) => At(s, id, (p: Progress) => p.Checked?)
    case Post(id, _) => At(s, id, (p: Progress) => p.Loaded?)
    case Record(id) => At(s, id, (p: Progress) => p.Accepted?)
    case Release(id) => At(s, id, (p: Progress) => p.Leaving?)
  }

  function To(s: State, id: nat, progress: Progress): map<nat, Goroutine>
    requires id in s.goroutines
  {
    s.goroutines[id := s.goroutines[id].(progress := progress)]
  }

  function Apply(s: State, step: Step): State
    requires Enabled(s, step)
  {
    match step
    case Update(caddyfile, valid, servers) =>
      var changed := caddyfile != s.lastCaddyfile;
      var t := s.(lastCaddyfile := caddyfile);
      if changed && !valid then t
      else
        t.(lastVersion := if changed then s.lastVersion + 1 else s.lastVersion,
           texts := if changed then s.texts + [caddyfile] else s.texts,
           goroutines := Started(s.goroutines, s.started, servers), started := s.started + |servers|)
    case TestAndSet(id) =>
      var server := s.goroutines[id].server;
      if server in s.serversUpdating then s.(goroutines := s.goroutines - {id})
      else s.(serversUpdating := s.serversUpdating + {server}, goroutines := To(s, id, Flagged))
    case ReadVersion(id) =>
      var recorded := Get(s.serversVersions, s.goroutines[id].server);
      s.(goroutines := To(s, id, if recorded >= s.lastVersion then Leaving else Checked(s.lastVersion)))
    case ReadConfig(id, valid) =>
      var version := s.goroutines[id].progress.version;
      s.(goroutines := To(s, id, if valid then Loaded(version, s.lastVersion) else Leaving))
    case Post(id, response) =>
      var g := s.goroutines[id];
      var applied := s.running[g.server := g.progress.config];
      if response == Success then s.(running := applied, goroutines := To(s, id, Accepted(g.progress.version)))
      else s.(running := if response.applied then applied else s.running, goroutines := To(s, id, Leaving))
    case Record(id) =>
      var g := s.goroutines[id];
      s.(serversVersions := s.serversVersions[g.server := g.progress.version], goroutines := To(s, id, Leaving))
    case Release(id) =>
      s.(serversUpdating := s.serversUpdating - {s.goroutines[id].server}, goroutines := s.goroutines - {id})
  }

  // ---------- the invariant ----------

  /** The goroutine owns the flag of its server. */
  predicate Owns(g: Goroutine) {
    !g.progress.Called?
  }

  ghost predicate Exclusive(s: State) {
    && (forall i :: i in s.goroutines && Owns(s.goroutines[i]) ==> s.goroutines[i].server in s.serversUpdating)
    && (forall i, j :: i in s.goroutines && j in s.goroutines && i != j ==>
        !(Owns(s.goroutines[i]) && Owns(s.goroutines[j]) && s.goroutines[i].server == s.goroutines[j].server))
  }

  ghost predicate HasOwner(s: State, server: Server) {
    exists i :: i in s.goroutines && Owns(s.goroutines[i]) && s.goroutines[i].server == server
  }

  /** What a goroutine knows is in step with its server, which only it changes. */
  predicate InStep(s: State, g: Goroutine) {
    var recorded, running := Get(s.serversVersions, g.server), Get(s.running, g.server);
    match g.progress
    case Checked(version) => recorded < version <= s.lastVersion
    case Loaded(version, config) => recorded < version <= config <= s.lastVersion && running <= config
    case Accepted(version) => recorded < version <= running
    case _ => true
  }

  ghost predicate Invariant(s: State) {
    Steady(s) && forall x :: x in s.serversUpdating ==> HasOwner(s, x)
  }

  ghost predicate Steady(s: State) {
    && |s.texts| == s.lastVersion
    && (forall i :: i in s.goroutines ==> i < s.started)
    && Exclusive(s)
    && (forall i :: i in s.goroutines ==> InStep(s, s.goroutines[i]))
    && (forall x: Server {:trigger Get(s.serversVersions, x)} {:trigger Get(s.running, x)} ::
        Get(s.serversVersions, x) <= Get(s.running, x) <= s.lastVersion)
  }

  lemma StartedGoroutines(goroutines: map<nat, Goroutine>, next: nat, servers: seq<Server>)
    requires forall i :: i in goroutines ==> i < next
    ensures var r := Started(goroutines, next, servers);
            && (forall i :: i in r ==> i < next + |servers|)
            && (forall i :: i in r ==>
                 if i < next then i in goroutines && r[i] == goroutines[i] else r[i].progress == Called)
            && (forall i :: i in goroutines ==> i in r)
            && (forall i :: next <= i < next + |servers| ==> i in r && r[i] == Goroutine(servers[i - next], Called))
    decreases |servers|
  {
    if servers != [] {
      var more := goroutines[next := Goroutine(servers[0], Called)];
      StartedGoroutines(more, next + 1, servers[1..]);
      var r := Started(goroutines, next, servers);
      assert next in more && r == Started(more, next + 1, servers[1..]);
      forall i | next < i < next + |servers| ensures i in r && r[i] == Goroutine(servers[i - next], Called) {
        assert servers[1..][i - next - 1] == servers[i - next];
      }
    }
  }

  lemma UpdateKeeps(s: State, step: Step)
    requires Steady(s) && step.Update?
    ensures Steady(Apply(s, step))
  {
    StartedGoroutines(s.goroutines, s.started, step.servers);
  }

  lemma StepKeeps(s: State, step: Step)
    requires Invariant(s) && Enabled(s, step)
    ensures Invariant(Apply(s, step))
  {
    OwnersStay(s, step);
    hide Apply, Steady, HasOwner;
    match step
    case Update(_, _, _) => UpdateKeeps(s, step);
    case TestAndSet(id) => FlagKeeps(s, step);
    case ReadVersion(id) => ReadKeeps(s, step);
    case ReadConfig(id, _) => ReadKeeps(s, step);
    case Post(id, response) => PostKeeps(s, id, response);
    case Record(id) => RecordKeeps(s, id);
    case Release(id) => FlagKeeps(s, step);
  }

  /** Flags stay owned by a goroutine that has not released them. */
  lemma OwnersStay(s: State, step: Step)
    requires Invariant(s) && Enabled(s, step)
    ensures var t := Apply(s, step);
      forall x :: x in t.serversUpdating ==> HasOwner(t, x)
  {
    var t := Apply(s, step);
    if step.Update? {
      StartedGoroutines(s.goroutines, s.started, step.servers);
    }
    forall x | x in t.serversUpdating ensures HasOwner(t, x) {
      if x in s.serversUpdating {
        var i :| i in s.goroutines && Owns(s.goroutines[i]) && s.goroutines[i].server == x;
        assert Owns(t.goroutines[i]) && t.goroutines[i].server == x;
      } else {
        assert Owns(t.goroutines[step.id]) && t.goroutines[step.id].server == x;
      }
    }
  }

  /** Steps that take or release the flag of a server. */
  lemma FlagKeeps(s: State, step: Step)
    requires Steady(s) && Enabled(s, step) && (step.TestAndSet? || step.Release?)
    ensures Steady(Apply(s, step))
  {
    var t := Apply(s, step);
    forall i | i in t.goroutines && i != step.id ensures InStep(t, t.goroutines[i]) {
      assert InStep(s, s.goroutines[i]);
    }
  }

  /** Steps that read the recorded version or the configuration. */
  lemma ReadKeeps(s: State, step: Step)
    requires Steady(s) && Enabled(s, step) && (step.ReadVersion? || step.ReadConfig?)
    ensures Steady(Apply(s, step))
  {
    var t := Apply(s, step);
    forall i | i in t.goroutines && i != step.id ensures InStep(t, t.goroutines[i]) {
      assert InStep(s, s.goroutines[i]);
    }
  }

  lemma PostKeeps(s: State, id: nat, response: Response)
    requires Steady(s) && Enabled(s, Post(id, response))
    ensures Steady(Apply(s, Post(id, response)))
  {
    var t := Apply(s, Post(id, response));
    var g := s.goroutines[id];
    forall i | i in t.goroutines && i != id ensures InStep(t, t.goroutines[i]) {
      assert InStep(s, s.goroutines[i]);
    }
    forall x: Server ensures Get(t.serversVersions, x) <= Get(t.running, x) <= t.lastVersion {
      assert Get(s.serversVersions, x) <= Get(s.running, x) <= s.lastVersion;
    }
  }

  lemma RecordKeeps(s: State, id: nat)
    requires Steady(s) && Enabled(s, Record(id))
    ensures Steady(Apply(s, Record(id)))
  {
    var t := Apply(s, Record(id));
    var g := s.goroutines[id];
    forall i | i in t.goroutines && i != id ensures InStep(t, t.goroutines[i]) {
      assert InStep(s, s.goroutines[i]);
    }
    forall x: Server ensures Get(t.serversVersions, x) <= Get(t.running, x) <= t.lastVersion {
      assert Get(s.serversVersions, x) <= Get(s.running, x) <= s.lastVersion;
    }
  }

  /** Every state of every interleaving. */
  ghost predicate Reachable(s: State) {
    exists steps :: Reaches(Init(), steps, s)
  }

  ghost predicate Reaches(s: State, steps: seq<Step>, t: State)
    decreases |steps|
  {
    if steps == [] then s == t else Enabled(s, steps[0]) && Reaches(Apply(s, steps[0]), steps[1..], t)
  }

  lemma {:induction false} ReachesKeeps(s: State, steps: seq<Step>, t: State)
    requires Invariant(s) && Reaches(s, steps, t)
    ensures Invariant(t) && s.lastVersion <= t.lastVersion && s.texts <= t.texts
    ensures forall x: Server {:trigger Get(t.running, x)} :: Get(s.running, x) <= Get(t.running, x)
    ensures forall x: Server {:trigger Get(t.serversVersions, x)} ::
      Get(s.serversVersions, x) <= Get(t.serversVersions, x)
    decreases |steps|
  {
    if steps != [] {
      StepKeeps(s, steps[0]);
      StepGrows(s, steps[0]);
      ReachesKeeps(Apply(s, steps[0]), steps[1..], t);
      forall x: Server
        ensures Get(s.running, x) <= Get(t.running, x)
        ensures Get(s.serversVersions, x) <= Get(t.serversVersions, x)
      {
        var n := Apply(s, steps[0]);
        assert Get(s.running, x) <= Get(n.running, x) <= Get(t.running, x);
        assert Get(s.serversVersions, x) <= Get(n.serversVersions, x) <= Get(t.serversVersions, x);
      }
    }
  }

  /** No step takes a server back to an older configuration, or a record back to an older version. */
  lemma StepGrows(s: State, step: Step)
    requires Invariant(s) && Enabled(s, step)
    ensures var t := Apply(s, step);
            s.lastVersion <= t.lastVersion && s.texts <= t.texts &&
            forall x: Server {:trigger Get(t.running, x)} {:trigger Get(t.serversVersions, x)} ::
              Get(s.running, x) <= Get(t.running, x) && Get(s.serversVersions, x) <= Get(t.serversVersions, x)
  {
    if step.Post? || step.Record? {
      assert InStep(s, s.goroutines[step.id]);
    }
  }

  lemma ReachableInvariant(s: State)
    requires Reachable(s)
    ensures Invariant(s)
  {
    var steps :| Reaches(Init(), steps, s);
    assert Invariant(Init());
    ReachesKeeps(Init(), steps, s);
  }

  // ---------- versions ----------

  /**
   In every interleaving, a server runs a configuration at least as new as the version recorded for
   it, and no version is newer than the last one.
   */
  lemma ServersAreAsNewAsRecorded(s: State, server: Server)
    requires Reachable(s)
    ensures Get(s.serversVersions, server) <= Get(s.running, server) <= s.lastVersion
  {
    ReachableInvariant(s);
  }

  /** Two goroutines never push to the same server at the same time. */
  lemma OnePushPerServer(s: State, i: nat, j: nat)
    requires Reachable(s) && i in s.goroutines && j in s.goroutines && i != j
    requires s.goroutines[i].progress.Loaded? && s.goroutines[j].progress.Loaded?
    ensures s.goroutines[i].server != s.goroutines[j].server
  {
    ReachableInvariant(s);
  }

  /** From any point of a run to any later one, no server goes back to an older configuration. */
  lemma ServersNeverGoBack(s: State, steps: seq<Step>, t: State, server: Server)
    requires Reachable(s) && Reaches(s, steps, t)
    ensures Get(s.running, server) <= Get(t.running, server)
    ensures Get(s.serversVersions, server) <= Get(t.serversVersions, server)
  {
    ReachableInvariant(s);
    ReachesKeeps(s, steps, t);
  }

  /** Every successful push records a newer version than the one before. */
  lemma RecordIncreases(s: State, id: nat)
    requires Reachable(s) && Enabled(s, Record(id))
    ensures var server := s.goroutines[id].server;
            Get(s.serversVersions, server) < Get(Apply(s, Record(id)).serversVersions, server) <= s.lastVersion
  {
    ReachableInvariant(s);
    assert InStep(s, s.goroutines[id]);
    assert Get(s.running, s.goroutines[id].server) <= s.lastVersion;
  }

  /**
   After a failed push the server is due: until a version is recorded for it, every later call of
   `updateServer` that gets the flag goes on to push again.
   */
  lemma FailureIsRetried(s: State, id: nat, response: Response, steps: seq<Step>, t: State, other: nat)
    requires Reachable(s) && Enabled(s, Post(id, response)) && response.Failure?
    requires Reaches(Apply(s, Post(id, response)), steps, t) && Enabled(t, ReadVersion(other))
    requires t.goroutines[other].server == s.goroutines[id].server
    requires Get(t.serversVersions, s.goroutines[id].server) == Get(s.serversVersions, s.goroutines[id].server)
    ensures Apply(t, ReadVersion(other)).goroutines[other].progress == Checked(t.lastVersion)
  {
    ReachableInvariant(s);
    assert InStep(s, s.goroutines[id]);
    StepKeeps(s, Post(id, response));
    ReachesKeeps(Apply(s, Post(id, response)), steps, t);
  }

  /** Undisturbed, one call of `updateServer` brings its server up to the last version. */
  lemma PushDelivers(s: State, id: nat) returns (t: State)
    requires Reachable(s) && Enabled(s, TestAndSet(id)) && s.goroutines[id].server !in s.serversUpdating
    requires Get(s.serversVersions, s.goroutines[id].server) < s.lastVersion
    ensures var server := s.goroutines[id].server;
            && Reaches(s,
                 [TestAndSet(id), ReadVersion(id), ReadConfig(id, true), Post(id, Success), Record(id), Release(id)], t)
            && Get(t.serversVersions, server) == Get(t.running, server) == t.lastVersion == s.lastVersion
            && t.serversUpdating == s.serversUpdating
  {
    var s1 := Apply(s, TestAndSet(id));
    var s2 := Apply(s1, ReadVersion(id));
    var s3 := Apply(s2, ReadConfig(id, true));
    var s4 := Apply(s3, Post(id, Success));
    var s5 := Apply(s4, Record(id));
    t := Apply(s5, Release(id));
    assert Reaches(t, [], t);
    assert Reaches(s5, [Release(id)], t);
    assert Reaches(s4, [Record(id), Release(id)], t);
    assert Reaches(s3, [Post(id, Success), Record(id), Release(id)], t);
    assert Reaches(s2, [ReadConfig(id, true), Post(id, Success), Record(id), Release(id)], t);
    assert Reaches(s1, [ReadVersion(id), ReadConfig(id, true), Post(id, Success), Record(id), Release(id)], t);
  }

  /** A server is skipped as up to date exactly when it runs, and is known to run, the last version. */
  lemma SkippedIsUpToDate(s: State, id: nat)
    requires Reachable(s) && Enabled(s, ReadVersion(id))
    ensures var server := s.goroutines[id].server;
            (Apply(s, ReadVersion(id)).goroutines[id].progress.Leaving?
             <==> Get(s.serversVersions, server) == Get(s.running, server) == s.lastVersion)
  {
    ReachableInvariant(s);
    assert Get(s.serversVersions, s.goroutines[id].server) <= Get(s.running, s.goroutines[id].server) <= s.lastVersion;
  }

  // ---------- updates ----------

  /** Every listed server gets a goroutine of its own, and no other one is touched. */
  ghost predicate StartedFor(s: State, t: State, servers: seq<Server>) {
    && t.started == s.started + |servers|
    && (forall i :: i in s.goroutines ==> i in t.goroutines && t.goroutines[i] == s.goroutines[i])
    && (forall i :: s.started <= i < t.started ==>
        i in t.goroutines && t.goroutines[i] == Goroutine(servers[i - s.started], Called))
    && (forall i :: i in t.goroutines ==> i in s.goroutines || s.started <= i < t.started)
  }

  /** A changed Caddyfile gets a version that is newer than all that is recorded or runs anywhere, and is pushed. */
  lemma ChangedIsPushed(s: State, caddyfile: string, servers: seq<Server>)
    requires Reachable(s) && caddyfile != s.lastCaddyfile
    ensures var t := Apply(s, Update(caddyfile, true, servers));
      && t.lastVersion == s.lastVersion + 1 && t.texts == s.texts + [caddyfile] && |t.texts| == t.lastVersion
      && StartedFor(s, t, servers)
      && forall x: Server {:trigger Get(t.serversVersions, x)} {:trigger Get(t.running, x)} ::
          Get(t.serversVersions, x) < t.lastVersion && Get(t.running, x) < t.lastVersion
  {
    ReachableInvariant(s);
    StartedGoroutines(s.goroutines, s.started, servers);
    var t := Apply(s, Update(caddyfile, true, servers));
    forall x: Server ensures Get(t.serversVersions, x) < t.lastVersion && Get(t.running, x) < t.lastVersion {
      assert Get(s.serversVersions, x) <= Get(s.running, x) <= s.lastVersion;
    }
  }

  /** An unchanged Caddyfile keeps its version, and is pushed to the servers that do not have it yet. */
  lemma UnchangedIsPushed(s: State, valid: bool, servers: seq<Server>)
    requires Reachable(s)
    ensures var t := Apply(s, Update(s.lastCaddyfile, valid, servers));
      t == s.(goroutines := t.goroutines, started := t.started) && StartedFor(s, t, servers)
  {
    ReachableInvariant(s);
    StartedGoroutines(s.goroutines, s.started, servers);
  }

  /** A Caddyfile that cannot be adapted is remembered, and nothing else happens. */
  lemma InvalidIsRemembered(s: State, caddyfile: string, servers: seq<Server>)
    requires caddyfile != s.lastCaddyfile
    ensures Apply(s, Update(caddyfile, false, servers)) == s.(lastCaddyfile := caddyfile)
  {}

  /** Nothing goes wrong, and no other update comes. */
  predicate Fine(step: Step) {
    match step
    case Update(_, _, _) => false
    case ReadConfig(_, valid) => valid
    case Post(_, response) => response == Success
    case _ => true
  }

  ghost predicate Undisturbed(s: State, steps: seq<Step>, t: State) {
    Reaches(s, steps, t) && forall k :: 0 <= k < |steps| ==> Fine(steps[k])
  }

  /** All calls of `updateServer` for the server have returned. */
  ghost predicate Finished(s: State, server: Server) {
    forall i :: i in s.goroutines ==> s.goroutines[i].server != server
  }

  /** The push that owns the flag of the server holds its configuration already, or is through with it. */
  ghost predicate Busy(s: State, server: Server) {
    exists i :: i in s.goroutines && s.goroutines[i].server == server && PastConfig(s.goroutines[i].progress)
  }

  predicate PastConfig(p: Progress) {
    p.Loaded? || p.Accepted? || p.Leaving?
  }

  /** The goroutine brings the last version, if nothing goes wrong. */
  predicate Brings(s: State, g: Goroutine, server: Server) {
    g.server == server &&
    match g.progress
    case Called => server !in s.serversUpdating
    case Flagged => true
    case Checked(_) => true
    case Loaded(_, config) => config == s.lastVersion
    case _ => false
  }

  /** The server runs the last version, or is going to. */
  ghost predicate Due(s: State, server: Server) {
    || Get(s.running, server) == s.lastVersion
    || exists i :: i in s.goroutines && Brings(s, s.goroutines[i], server)
  }

  lemma StillBrings(s: State, t: State, i: nat, server: Server)
    requires i in t.goroutines && Brings(t, t.goroutines[i], server)
    ensures Due(t, server)
  {}

  lemma DueKeeps(s: State, step: Step, server: Server)
    requires Invariant(s) && Due(s, server) && Enabled(s, step) && Fine(step)
    ensures Due(Apply(s, step), server) && Apply(s, step).lastVersion == s.lastVersion
    ensures Apply(s, step).texts == s.texts
  {
    var t := Apply(s, step);
    if Get(s.running, server) == s.lastVersion {
      StepGrows(s, step);
      StepKeeps(s, step);
      assert Get(s.running, server) <= Get(t.running, server) <= t.lastVersion;
    } else {
      var i :| i in s.goroutines && Brings(s, s.goroutines[i], server);
      if i == step.id {
        BringerSteps(s, step, server);
      } else {
        OtherSteps(s, step, i, server);
      }
    }
  }

  /** The goroutine that brings the last version takes a step. */
  lemma BringerSteps(s: State, step: Step, server: Server)
    requires Invariant(s) && Enabled(s, step) && Fine(step) && Brings(s, s.goroutines[step.id], server)
    ensures Due(Apply(s, step), server)
  {
    var t := Apply(s, step);
    if step.ReadVersion? && t.goroutines[step.id].progress.Leaving? {
      assert Get(s.serversVersions, server) <= Get(s.running, server) <= s.lastVersion;
      assert Get(t.running, server) == t.lastVersion;
    } else if step.Post? {
      assert Get(t.running, server) == t.lastVersion;
    } else {
      StillBrings(s, t, step.id, server);
    }
  }

  /** Another goroutine takes a step. */
  lemma OtherSteps(s: State, step: Step, i: nat, server: Server)
    requires Invariant(s) && Enabled(s, step) && Fine(step)
    requires i in s.goroutines && i != step.id && Brings(s, s.goroutines[i], server)
    ensures Due(Apply(s, step), server)
  {
    var t := Apply(s, step);
    if step.TestAndSet? && s.goroutines[step.id].server == server && server !in s.serversUpdating {
      StillBrings(s, t, step.id, server);
    } else {
      StillBrings(s, t, i, server);
    }
  }

  lemma {:induction false} DueDelivers(s: State, steps: seq<Step>, t: State, server: Server)
    requires Invariant(s) && Due(s, server) && Undisturbed(s, steps, t) && Finished(t, server)
    ensures Get(t.running, server) == t.lastVersion == s.lastVersion && t.texts == s.texts
    decreases |steps|
  {
    if steps != [] {
      assert Fine(steps[0]);
      DueKeeps(s, steps[0], server);
      StepKeeps(s, steps[0]);
      forall k | 0 <= k < |steps[1..]| ensures Fine(steps[1..][k]) {
        assert steps[1..][k] == steps[k + 1];
      }
      DueDelivers(Apply(s, steps[0]), steps[1..], t, server);
    }
  }

  /**
   However the goroutines are interleaved, a listed server ends up with the last version if nothing goes wrong
   and no push that holds its configuration already was under way.
   */
  lemma UpdateDelivers(s: State, step: Step, steps: seq<Step>, t: State, server: Server)
    requires Reachable(s) && step.Update? && server in step.servers && !Busy(s, server)
    requires step.valid || step.caddyfile == s.lastCaddyfile
    requires Undisturbed(Apply(s, step), steps, t) && Finished(t, server)
    ensures Get(t.running, server) == t.lastVersion == Apply(s, step).lastVersion && t.texts == Apply(s, step).texts
  {
    ReachableInvariant(s);
    StepKeeps(s, step);
    UpdateIsDue(s, step, server);
    hide *;
    DueDelivers(Apply(s, step), steps, t, server);
  }

  lemma UpdateIsDue(s: State, step: Step, server: Server)
    requires Invariant(s) && step.Update? && server in step.servers && !Busy(s, server)
    requires step.valid || step.caddyfile == s.lastCaddyfile
    ensures Due(Apply(s, step), server)
  {
    StartedGoroutines(s.goroutines, s.started, step.servers);
    var n := Apply(s, step);
    if server in s.serversUpdating {
      var i :| i in s.goroutines && Owns(s.goroutines[i]) && s.goroutines[i].server == server;
      assert n.goroutines[i] == s.goroutines[i] && !PastConfig(s.goroutines[i].progress);
      StillBrings(s, n, i, server);
    } else {
      var k :| 0 <= k < |step.servers| && step.servers[k] == server;
      StillBrings(s, n, s.started + k, server);
    }
  }

  lemma FirstStep(s: State, step: Step, steps: seq<Step>, t: State)
    requires Enabled(s, step) && Fine(step) && Undisturbed(Apply(s, step), steps, t)
    ensures Undisturbed(s, [step] + steps, t)
  {
    assert ([step] + steps)[1..] == steps;
  }

  lemma {:induction false} ThenSteps(s: State, first: seq<Step>, t: State, more: seq<Step>, u: State)
    requires Undisturbed(s, first, t) && Undisturbed(t, more, u)
    ensures Undisturbed(s, first + more, u)
    decreases |first|
  {
    if first == [] {
      assert first + more == more;
    } else {
      assert Fine(first[0]);
      forall k | 0 <= k < |first[1..]| ensures Fine(first[1..][k]) {
        assert first[1..][k] == first[k + 1];
      }
      ThenSteps(Apply(s, first[0]), first[1..], t, more, u);
      FirstStep(s, first[0], first[1..] + more, u);
      assert first + more == [first[0]] + (first[1..] + more);
    }
  }

  /** While the flag of a server is taken, calls for it return at once. */
  lemma {:induction false} CallsReturn(s: State, server: Server, calls: set<nat>) returns (steps: seq<Step>, t: State)
    requires server in s.serversUpdating
    requires forall i :: i in calls ==> i in s.goroutines && s.goroutines[i] == Goroutine(server, Called)
    ensures Undisturbed(s, steps, t) && t == s.(goroutines := s.goroutines - calls)
    decreases |calls|
  {
    if calls == {} {
      steps, t := [], s;
      assert s.goroutines - calls == s.goroutines;
    } else {
      var i :| i in calls;
      var n := Apply(s, TestAndSet(i));
      steps, t := CallsReturn(n, server, calls - {i});
      assert s.goroutines - {i} - (calls - {i}) == s.goroutines - calls;
      FirstStep(s, TestAndSet(i), steps, t);
      steps := [TestAndSet(i)] + steps;
    }
  }

  /** A push that holds its configuration goes through with it. */
  lemma PushFinishes(s: State, i: nat) returns (steps: seq<Step>, t: State)
    requires i in s.goroutines && PastConfig(s.goroutines[i].progress)
    ensures Undisturbed(s, steps, t) && t.goroutines == s.goroutines - {i} && t.lastVersion == s.lastVersion
    ensures var g := s.goroutines[i];
      Get(t.running, g.server) == if g.progress.Loaded? then g.progress.config else Get(s.running, g.server)
    decreases match s.goroutines[i].progress case Loaded(_, _) => 2 case Accepted(_) => 1 case _ => 0
  {
    var step := match s.goroutines[i].progress
      case Loaded(_, _) => Post(i, Success)
      case Accepted(_) => Record(i)
      case _ => Release(i);
    var n := Apply(s, step);
    if step.Release? {
      steps, t := [], n;
    } else {
      steps, t := PushFinishes(n, i);
      assert n.goroutines - {i} == s.goroutines - {i};
    }
    FirstStep(s, step, steps, t);
    steps := [step] + steps;
  }

  /** A push under way that holds an older configuration can make the server miss the new one. */
  lemma BusyMisses(s: State, caddyfile: string, servers: seq<Server>, server: Server)
    returns (steps: seq<Step>, t: State)
    requires Reachable(s) && caddyfile != s.lastCaddyfile && Busy(s, server)
    ensures Undisturbed(Apply(s, Update(caddyfile, true, servers)), steps, t) && Finished(t, server)
    ensures Get(t.running, server) < t.lastVersion
  {
    ReachableInvariant(s);
    var i :| i in s.goroutines && s.goroutines[i].server == server && PastConfig(s.goroutines[i].progress);
    var n := Apply(s, Update(caddyfile, true, servers));
    ChangedIsPushed(s, caddyfile, servers);
    StepKeeps(s, Update(caddyfile, true, servers));
    BusyAlone(n, i, server);
    assert InStep(s, s.goroutines[i]) && Get(s.running, server) <= s.lastVersion;
    hide Invariant, Reachable, Undisturbed, Apply;
    var calls := set j | j in n.goroutines && n.goroutines[j].server == server && j != i;
    var first, m := CallsReturn(n, server, calls);
    var second, end := PushFinishes(m, i);
    ThenSteps(n, first, m, second, end);
    steps, t := first + second, end;
  }

  /** All other goroutines of the server have only been called. */
  lemma BusyAlone(s: State, i: nat, server: Server)
    requires Invariant(s) && i in s.goroutines && s.goroutines[i].server == server
    requires PastConfig(s.goroutines[i].progress)
    ensures server in s.serversUpdating
    ensures forall j :: j in s.goroutines && s.goroutines[j].server == server && j != i ==>
      s.goroutines[j] == Goroutine(server, Called)
  {
    forall j | j in s.goroutines && s.goroutines[j].server == server && j != i
      ensures s.goroutines[j].progress.Called?
    {
      assert Owns(s.goroutines[i]);
      assert !Owns(s.goroutines[j]);
    }
  }

  /** The server runs the last version, and that was made from the Caddyfile. */
  predicate Runs(s: State, server: Server, caddyfile: string) {
    Get(s.running, server) == s.lastVersion == |s.texts| > 0 && s.texts[s.lastVersion - 1] == caddyfile
  }

  /**
   A changed Caddyfile is sure to get to a listed server that does not fail exactly if no push to that server
   holds an older configuration already.
   */
  lemma DeliveredExactly(s: State, caddyfile: string, servers: seq<Server>, server: Server)
    requires Reachable(s) && caddyfile != s.lastCaddyfile && server in servers
    ensures var n := Apply(s, Update(caddyfile, true, servers));
      (forall steps, t :: Undisturbed(n, steps, t) && Finished(t, server) ==> Runs(t, server, caddyfile))
      <==> !Busy(s, server)
  {
    ReachableInvariant(s);
    var step := Update(caddyfile, true, servers);
    var n := Apply(s, step);
    StepKeeps(s, step);
    ChangedIsPushed(s, caddyfile, servers);
    hide Apply, Undisturbed, Finished, Reachable, Reaches;
    if Busy(s, server) {
      var steps, t := BusyMisses(s, caddyfile, servers, server);
      assert !Runs(t, server, caddyfile);
    } else {
      forall steps, t | Undisturbed(n, steps, t) && Finished(t, server) ensures Runs(t, server, caddyfile) {
        UpdateDelivers(s, step, steps, t, server);
      }
    }
  }
}
