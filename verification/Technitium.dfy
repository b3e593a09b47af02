/**
 `namepublish/technitium.go`: driving the records of a DNS zone to the desired names.

 The zone lives on a remote server. Every mutation may succeed, fail before it took effect or fail
 after it took effect, as the `script` of the zone decides; what is proved holds for every script.
 */
module Technitium {
  import opened Options
  import opened Text

  // ---------- records ----------

  const MANAGED_COMMENT := "managed-by:caddy-docker-proxy"

  datatype Record = Record(name: string, rtype: string, comments: string, cname: string, ipAddress: string) {
    function Value(): string {
      match ToUpper(rtype)
      case "CNAME" => cname
      case "A" => ipAddress
      case "AAAA" => ipAddress
      case _ => ""
    }

    /** A record that the program looks after; all others are none of its business. */
    predicate Managed() {
      SupportedType(rtype) && comments == MANAGED_COMMENT
    }
  }

  /** `strings.ToUpper`; no letter outside of ASCII has one of the upper-case letters of a type. */
  function ToUpper(s: string): string {
    if s == [] then [] else [if 'a' <= s[0] <= 'z' then s[0] - 'a' + 'A' else s[0]] + ToUpper(s[1..])
  }

  predicate SupportedType(rtype: string) {
    ToUpper(rtype) in {"A", "AAAA", "CNAME"}
  }

  /** `recordParams` once the host has been parsed: the type and the value of the records to publish. */
  datatype Target = Target(rtype: string, value: string) {
    predicate Valid() {
      rtype in {"A", "AAAA", "CNAME"} && value != ""
    }

    function NewRecord(name: string): Record {
      if rtype == "CNAME" then Record(name, rtype, MANAGED_COMMENT, value, "")
      else Record(name, rtype, MANAGED_COMMENT, "", value)
    }
  }

  // ---------- filtering ----------

  function Filter<T>(p: T -> bool, s: seq<T>): seq<T> {
    if s == [] then [] else if p(s[0]) then [s[0]] + Filter(p, s[1..]) else Filter(p, s[1..])
  }

  lemma FilterMember<T>(p: T -> bool, s: seq<T>, x: T)
    ensures x in Filter(p, s) <==> x in s && p(x)
  {}

  lemma FilterConcat<T>(p: T -> bool, s: seq<T>, t: seq<T>)
    ensures Filter(p, s + t) == Filter(p, s) + Filter(p, t)
  {
    if s == [] {
      assert s + t == t;
    } else {
      assert (s + t)[1..] == s[1..] + t;
      FilterConcat(p, s[1..], t);
    }
  }

  /** Filtering by `q` first does not matter for those who fulfil `p`. */
  lemma FilterTwice<T>(p: T -> bool, q: T -> bool, s: seq<T>)
    requires forall x :: x in s && p(x) ==> q(x)
    ensures Filter(p, Filter(q, s)) == Filter(p, s)
  {}

  lemma FilterNone<T>(p: T -> bool, s: seq<T>)
    requires forall x :: x in s ==> !p(x)
    ensures Filter(p, s) == []
  {}

  // ---------- the zone ----------

  datatype Outcome = Succeeds | FailsBefore(message: string) | FailsAfter(message: string)

  /** The errors that the calls decided by a script end in. */
  function Errors(script: seq<Outcome>): seq<string> {
    if script == [] then []
    else (if script[0].Succeeds? then [] else [script[0].message]) + Errors(script[1..])
  }

  /** What is reported of an error, if there is one. */
  function Reported(err: Option<string>): seq<string> {
    if err.Some? then [err.value] else []
  }

  /** What a delete of `(name, rtype, value)` removes. */
  predicate IsTriple(r: Record, name: string, rtype: string, value: string) {
    r.name == name && r.rtype == rtype && r.Value() == value
  }

  function Deleted(zone: seq<Record>, name: string, rtype: string, value: string): seq<Record> {
    Filter((r: Record) => !IsTriple(r, name, rtype, value), zone)
  }

  /** An overwriting add replaces everything of the same name and type. */
  function Overwritten(zone: seq<Record>, record: Record): seq<Record> {
    Filter((r: Record) => !(r.name == record.name && r.rtype == record.rtype), zone) + [record]
  }

  function ManagedAt(zone: seq<Record>, name: string, rtype: string): seq<Record> {
    Filter((r: Record) => r.Managed() && r.name == name && r.rtype == rtype, zone)
  }

  /** Everything that must never change. */
  function Unmanaged(zone: seq<Record>): seq<Record> {
    Filter((r: Record) => !r.Managed(), zone)
  }

  /** A delete cannot tell a managed record from an unmanaged one with the same triple. */
  ghost predicate NoSharedTriples(zone: seq<Record>) {
    forall r, s :: r in zone && s in zone && r.Managed() && !s.Managed() ==> !IsTriple(s, r.name, r.rtype, r.Value())
  }

  predicate Conflict(zone: seq<Record>, name: string, rtype: string) {
    exists r :: r in zone && SupportedType(r.rtype) && !r.Managed() && r.name == name && r.rtype == rtype
  }

  // ---------- the goal ----------

  /**
   A name is published: unless somebody else's record is in the way, it has a managed record of the
   target type and value, and no managed record of another type that can be deleted.
   */
  ghost predicate Published(zone: seq<Record>, name: string, target: Target) {
    || Conflict(zone, name, target.rtype)
    || (&& ManagedAt(zone, name, target.rtype) != []
        && ManagedAt(zone, name, target.rtype)[0].Value() == target.value
        && NoOtherType(zone, name, target.rtype))
  }

  ghost predicate NoOtherType(zone: seq<Record>, name: string, rtype: string) {
    forall r :: r in zone && r.Managed() && r.name == name && r.rtype != rtype ==> r.Value() == ""
  }

  /** No managed record of another name is left, but for those that have no value to delete them by. */
  ghost predicate NoneLeft(zone: seq<Record>, names: set<string>) {
    forall r :: r in zone && r.Managed() && r.name !in names ==> r.Value() == ""
  }

  function Elements(names: seq<string>): set<string> {
    set n | n in names
  }

  /** `toNameSet`. */
  function Desired(names: seq<string>): set<string> {
    set n | n in names && TrimSpace(n) != "" :: TrimSpace(n)
  }

  ghost predicate Converged(zone: seq<Record>, names: seq<string>, target: Target) {
    && NoneLeft(zone, Desired(names) + Elements(names))
    && forall n :: n in names && n in Desired(names) ==> Published(zone, n, target)
  }

  ghost predicate Trimmed(names: seq<string>) {
    forall n :: n in names ==> TrimSpace(n) == n != ""
  }

  // ---------- deleting and adding ----------

  lemma DeletedKeeps(zone: seq<Record>, r: Record)
    requires r.Managed()
    requires forall s :: s in zone && !s.Managed() ==> !IsTriple(s, r.name, r.rtype, r.Value())
    ensures var z := Deleted(zone, r.name, r.rtype, r.Value());
            && Unmanaged(z) == Unmanaged(zone)
            && (forall s :: s in z <==> s in zone && !IsTriple(s, r.name, r.rtype, r.Value()))
  {
    var keep := (s: Record) => !IsTriple(s, r.name, r.rtype, r.Value());
    FilterTwice((s: Record) => !s.Managed(), keep, zone);
    forall s ensures s in Filter(keep, zone) <==> s in zone && keep(s) {
      FilterMember(keep, zone, s);
    }
  }

  lemma DeletedElsewhere(zone: seq<Record>, name: string, rtype: string, value: string, n: string, t: string)
    requires name != n || rtype != t
    ensures ManagedAt(Deleted(zone, name, rtype, value), n, t) == ManagedAt(zone, n, t)
  {
    FilterTwice((r: Record) => r.Managed() && r.name == n && r.rtype == t,
      (r: Record) => !IsTriple(r, name, rtype, value), zone);
  }

  lemma OverwrittenKeeps(zone: seq<Record>, added: Record)
    requires added.Managed() && !Conflict(zone, added.name, added.rtype)
    ensures var z := Overwritten(zone, added);
            && Unmanaged(z) == Unmanaged(zone)
            && ManagedAt(z, added.name, added.rtype) == [added]
            && (forall s :: s in z <==>
                 (s == added || (s in zone && !(s.name == added.name && s.rtype == added.rtype))))
  {
    var keep := (r: Record) => !(r.name == added.name && r.rtype == added.rtype);
    var kept := Filter(keep, zone);
    var other := (r: Record) => !r.Managed();
    var here := (r: Record) => r.Managed() && r.name == added.name && r.rtype == added.rtype;
    FilterTwice(other, keep, zone);
    FilterConcat(other, kept, [added]);
    FilterConcat(here, kept, [added]);
    forall s ensures s in kept <==> s in zone && keep(s) {
      FilterMember(keep, zone, s);
    }
    FilterNone(here, kept);
  }

  lemma OverwrittenElsewhere(zone: seq<Record>, added: Record, n: string, t: string)
    requires added.name != n || added.rtype != t
    ensures ManagedAt(Overwritten(zone, added), n, t) == ManagedAt(zone, n, t)
  {
    var keep := (r: Record) => !(r.name == added.name && r.rtype == added.rtype);
    var there := (r: Record) => r.Managed() && r.name == n && r.rtype == t;
    FilterTwice(there, keep, zone);
    FilterConcat(there, Filter(keep, zone), [added]);
  }

  lemma SameUnmanagedSameConflict(z: seq<Record>, y: seq<Record>, name: string, rtype: string)
    requires Unmanaged(z) == Unmanaged(y)
    ensures Conflict(z, name, rtype) == Conflict(y, name, rtype)
  {
    forall r ensures r in Unmanaged(z) <==> r in z && !r.Managed() {
      FilterMember((s: Record) => !s.Managed(), z, r);
    }
    forall r ensures r in Unmanaged(y) <==> r in y && !r.Managed() {
      FilterMember((s: Record) => !s.Managed(), y, r);
    }
  }

  // ---------- what every mutation keeps ----------

  /** One publication: the records that were listed, the names and the target. */
  datatype Job = Job(listing: seq<Record>, names: seq<string>, target: Target) {
    ghost predicate Valid() {
      target.Valid() && NoSharedTriples(listing)
    }

    /** The name is published with the right value already. */
    predicate Right(name: string) {
      var m := ManagedAt(listing, name, target.rtype);
      m != [] && m[0].Value() == target.value
    }

    /** Deleting this record does not undo what is right. */
    ghost predicate MayGo(r: Record) {
      && r in listing && r.Managed()
      && !(r.name in names && r.name in Desired(names) && r.rtype == target.rtype && Right(r.name))
    }

    /** What holds of the zone between two mutations of this job, wherever the job is cut off. */
    ghost predicate Underway(zone: seq<Record>) {
      && Unmanaged(zone) == Unmanaged(listing)
      && (forall r :: r in zone && r.Managed() ==>
          r in listing
          || (r.name in names && r == target.NewRecord(r.name) && !Conflict(listing, r.name, target.rtype)))
      && (forall n :: n in names && n in Desired(names) && Right(n) ==>
          ManagedAt(zone, n, target.rtype) == ManagedAt(listing, n, target.rtype))
    }
  }

  lemma UnmanagedMember(zone: seq<Record>, r: Record)
    ensures r in Unmanaged(zone) <==> r in zone && !r.Managed()
  {
    FilterMember((s: Record) => !s.Managed(), zone, r);
  }

  lemma DeleteUnderway(job: Job, zone: seq<Record>, r: Record)
    requires job.Valid() && job.Underway(zone) && job.MayGo(r)
    ensures var z := Deleted(zone, r.name, r.rtype, r.Value());
            && job.Underway(z)
            && (forall s :: s in z <==> s in zone && !IsTriple(s, r.name, r.rtype, r.Value()))
  {
    forall s | s in zone && !s.Managed() ensures !IsTriple(s, r.name, r.rtype, r.Value()) {
      UnmanagedMember(zone, s);
      UnmanagedMember(job.listing, s);
    }
    DeletedKeeps(zone, r);
    forall n | n in job.names && n in Desired(job.names) && job.Right(n)
      ensures ManagedAt(Deleted(zone, r.name, r.rtype, r.Value()), n, job.target.rtype)
           == ManagedAt(job.listing, n, job.target.rtype)
    {
      DeletedElsewhere(zone, r.name, r.rtype, r.Value(), n, job.target.rtype);
    }
  }

  lemma NewRecordManaged(target: Target, name: string)
    requires target.Valid()
    ensures var r := target.NewRecord(name);
            && r.Managed() && r.name == name && r.rtype == target.rtype && r.Value() == target.value
            && r.comments == "managed-by:caddy-docker-proxy"
  {
    assert ToUpper("A") == "A";
    assert ToUpper("AAAA") == "AAAA";
    assert ToUpper("CNAME") == "CNAME";
  }

  lemma AddUnderway(job: Job, zone: seq<Record>, name: string)
    requires job.Valid() && job.Underway(zone) && name in job.names
    requires !Conflict(zone, name, job.target.rtype) && !job.Right(name)
    ensures var z := Overwritten(zone, job.target.NewRecord(name));
            && job.Underway(z)
            && ManagedAt(z, name, job.target.rtype) == [job.target.NewRecord(name)]
            && (forall s :: s in z <==>
                (s == job.target.NewRecord(name) || (s in zone && !(s.name == name && s.rtype == job.target.rtype))))
  {
    var record := job.target.NewRecord(name);
    NewRecordManaged(job.target, name);
    SameUnmanagedSameConflict(zone, job.listing, name, job.target.rtype);
    OverwrittenKeeps(zone, record);
    forall n | n in job.names && n in Desired(job.names) && job.Right(n)
      ensures ManagedAt(Overwritten(zone, record), n, job.target.rtype)
           == ManagedAt(job.listing, n, job.target.rtype)
    {
      OverwrittenElsewhere(zone, record, n, job.target.rtype);
    }
  }

  // ---------- the server ----------

  class Zone {
    var records: seq<Record>
    var mutations: nat
    var script: seq<Outcome>

    ghost predicate Valid()
      reads this
    {
      NoSharedTriples(records)
    }

    /** Decides the fate of a mutation; when the script is used up, mutations succeed. */
    method NextOutcome() returns (outcome: Outcome)
      modifies this`mutations, this`script
      ensures mutations == old(mutations) + 1
      ensures Errors(old(script)) == Reported(ErrorOf(outcome)) + Errors(script)
    {
      mutations := mutations + 1;
      outcome := Succeeds;
      if script != [] {
        outcome := script[0];
        script := script[1..];
      }
    }

    /** A delete that succeeds has taken effect; an error is the next one of the script. */
    method Delete(name: string, rtype: string, value: string) returns (err: Option<string>)
      modifies this
      ensures records == Deleted(old(records), name, rtype, value) || (err.Some? && records == old(records))
      ensures Errors(old(script)) == Reported(err) + Errors(script)
    {
      var outcome := NextOutcome();
      if !outcome.FailsBefore? {
        records := Deleted(records, name, rtype, value);
      }
      return ErrorOf(outcome);
    }

    method Add(record: Record) returns (err: Option<string>)
      modifies this
      ensures records == Overwritten(old(records), record) || (err.Some? && records == old(records))
      ensures Errors(old(script)) == Reported(err) + Errors(script)
    {
      var outcome := NextOutcome();
      if !outcome.FailsBefore? {
        records := Overwritten(records, record);
      }
      return ErrorOf(outcome);
    }
  }

  function ErrorOf(outcome: Outcome): Option<string> {
    if outcome.Succeeds? then None else Some(outcome.message)
  }

  method DeleteRecord(zone: Zone, record: Record) returns (err: Option<string>)
    modifies zone
    ensures record.Value() == "" ==>
      err.None? && zone.records == old(zone.records) && zone.mutations == old(zone.mutations)
    ensures record.Value() != "" ==>
      || zone.records == Deleted(old(zone.records), record.name, record.rtype, record.Value())
      || (err.Some? && zone.records == old(zone.records))
    ensures Errors(old(zone.script)) == Reported(err) + Errors(zone.script)
  {
    var value := record.Value();
    if value == "" {
      return None;
    }
    err := zone.Delete(record.name, record.rtype, value);
  }

  /** A delete of a record with a value takes away the records of the same name, type and value. */
  predicate Hits(r: Record, s: Record) {
    r.Value() != "" && IsTriple(s, r.name, r.rtype, r.Value())
  }

  ghost predicate Untouched(list: seq<Record>, name: string, rtype: string) {
    forall r :: r in list ==> r.name != name || r.rtype != rtype
  }

  /** The loops that delete the records of a list one by one, up to the first failure. */
  method DeleteRecords(zone: Zone, list: seq<Record>, ghost job: Job) returns (err: Option<string>)
    requires job.Valid() && job.Underway(zone.records)
    requires forall r :: r in list ==> job.MayGo(r)
    modifies zone
    ensures job.Underway(zone.records)
    ensures forall s :: s in zone.records ==> s in old(zone.records)
    ensures forall s :: s in old(zone.records) && (forall r :: r in list ==> !Hits(r, s)) ==> s in zone.records
    ensures forall n, t :: Untouched(list, n, t) ==> ManagedAt(zone.records, n, t) == ManagedAt(old(zone.records), n, t)
    ensures err.None? ==> forall r, s :: r in list && s in zone.records ==> !Hits(r, s)
    ensures (forall r :: r in list ==> r.Value() == "") ==>
      err.None? && zone.records == old(zone.records) && zone.mutations == old(zone.mutations)
    ensures Errors(old(zone.script)) == Reported(err) + Errors(zone.script)
  {
    hide Errors, ManagedAt, Unmanaged;
    ghost var before := zone.records;
    for i := 0 to |list|
      invariant job.Underway(zone.records)
      invariant forall s :: s in zone.records ==> s in before
      invariant forall s :: s in before && (forall r :: r in list ==> !Hits(r, s)) ==> s in zone.records
      invariant forall n, t :: Untouched(list, n, t) ==> ManagedAt(zone.records, n, t) == ManagedAt(before, n, t)
      invariant forall r, s :: r in list[..i] && s in zone.records ==> !Hits(r, s)
      invariant (forall r :: r in list ==> r.Value() == "") ==>
        zone.records == before && zone.mutations == old(zone.mutations)
      invariant Errors(old(zone.script)) == Errors(zone.script)
    {
      var record := list[i];
      ghost var now := zone.records;
      assert list[..i + 1] == list[..i] + [record];
      if record.Value() != "" {
        DeleteUnderway(job, now, record);
        forall n, t | Untouched(list, n, t)
          ensures ManagedAt(Deleted(now, record.name, record.rtype, record.Value()), n, t) == ManagedAt(now, n, t)
        {
          DeletedElsewhere(now, record.name, record.rtype, record.Value(), n, t);
        }
      }
      err := DeleteRecord(zone, record);
      if err.Some? {
        return;
      }
      assert Reported(err) + Errors(zone.script) == Errors(zone.script);
    }
    assert list[..|list|] == list;
    err := None;
    assert Reported(err) + Errors(zone.script) == Errors(zone.script);
  }

  // ---------- the maps of one publication ----------

  function Get<V>(m: map<string, seq<V>>, key: string): seq<V> {
    if key in m then m[key] else []
  }

  function ManagedOf(records: seq<Record>, name: string): seq<Record> {
    Filter((r: Record) => r.Managed() && r.name == name, records)
  }

  function Key(r: Record): string {
    r.name + "|" + r.rtype
  }

  function ExistingAt(records: seq<Record>, key: string): seq<Record> {
    Filter((r: Record) => SupportedType(r.rtype) && Key(r) == key, records)
  }

  lemma ManagedOfSnoc(records: seq<Record>, record: Record, name: string)
    ensures ManagedOf(records + [record], name)
         == if record.Managed() && record.name == name then ManagedOf(records, name) + [record]
            else ManagedOf(records, name)
  {
    FilterConcat((r: Record) => r.Managed() && r.name == name, records, [record]);
    assert [record][1..] == [];
  }

  lemma ExistingAtSnoc(records: seq<Record>, record: Record, key: string)
    ensures ExistingAt(records + [record], key)
         == if SupportedType(record.rtype) && Key(record) == key then ExistingAt(records, key) + [record]
            else ExistingAt(records, key)
  {
    FilterConcat((r: Record) => SupportedType(r.rtype) && Key(r) == key, records, [record]);
    assert [record][1..] == [];
  }

  /** The loop that sorts the listed records into the two maps. */
  method IndexRecords(records: seq<Record>)
    returns (managedByName: map<string, seq<Record>>, existingByNameType: map<string, seq<Record>>)
    ensures forall n :: Get(managedByName, n) == ManagedOf(records, n)
    ensures forall k :: Get(existingByNameType, k) == ExistingAt(records, k)
  {
    hide ManagedOf, ExistingAt, SupportedType;
    managedByName, existingByNameType := map[], map[];
    forall n ensures ManagedOf(records[..0], n) == [] && ExistingAt(records[..0], n) == [] {
      NoneListed(n);
    }
    for i := 0 to |records|
      invariant forall n :: Get(managedByName, n) == ManagedOf(records[..i], n)
      invariant forall k :: Get(existingByNameType, k) == ExistingAt(records[..i], k)
    {
      var record := records[i];
      assert records[..i + 1] == records[..i] + [record];
      forall n { ManagedOfSnoc(records[..i], record, n); }
      forall k { ExistingAtSnoc(records[..i], record, k); }
      if !SupportedType(record.rtype) {
        continue;
      }
      var key := record.name + "|" + record.rtype;
      existingByNameType := existingByNameType[key := Get(existingByNameType, key) + [record]];
      if record.comments == MANAGED_COMMENT {
        managedByName := managedByName[record.name := Get(managedByName, record.name) + [record]];
      }
    }
    assert records[..|records|] == records;
  }

  lemma NoneListed(n: string)
    ensures ManagedOf([], n) == [] && ExistingAt([], n) == []
  {}

  method HasUnmanaged(records: seq<Record>) returns (found: bool)
    ensures found <==> exists r :: r in records && r.comments != MANAGED_COMMENT
  {
    for i := 0 to |records|
      invariant forall r :: r in records[..i] ==> r.comments == MANAGED_COMMENT
    {
      if records[i].comments != MANAGED_COMMENT {
        return true;
      }
      assert records[..i + 1] == records[..i] + [records[i]];
    }
    assert records[..|records|] == records;
    return false;
  }

  lemma NoBarInType(rtype: string)
    requires SupportedType(rtype)
    ensures '|' !in rtype
  {
    assert forall s: string :: '|' in s ==> '|' in ToUpper(s) by {
      forall s: string | '|' in s ensures '|' in ToUpper(s) {
        BarStays(s);
      }
    }
  }

  lemma BarStays(s: string)
    requires '|' in s
    ensures '|' in ToUpper(s)
  {}

  /** Types have no bar, so the string keys tell names and types apart. */
  lemma KeysDiffer(name: string, rtype: string, n: string, t: string)
    requires '|' !in rtype && '|' !in t && name + "|" + rtype == n + "|" + t
    ensures name == n && rtype == t
  {
    var key := name + "|" + rtype;
    assert key[|name|] == '|' && key[|n|] == '|';
    assert forall i :: |name| < i < |key| ==> key[i] == rtype[i - |name| - 1] && key[i] != '|';
    assert forall i :: |n| < i < |key| ==> key[i] == t[i - |n| - 1] && key[i] != '|';
    assert |name| == |n|;
    assert key[..|name|] == name && key[..|n|] == n;
    assert key[|name| + 1..] == rtype && key[|n| + 1..] == t;
  }

  lemma ConflictByKey(records: seq<Record>, name: string, rtype: string)
    requires SupportedType(rtype)
    ensures (exists r :: r in ExistingAt(records, name + "|" + rtype) && r.comments != MANAGED_COMMENT)
        <==> Conflict(records, name, rtype)
  {
    var at := (r: Record) => SupportedType(r.rtype) && Key(r) == name + "|" + rtype;
    forall r
      ensures r in ExistingAt(records, name + "|" + rtype)
         <==> (r in records && SupportedType(r.rtype) && r.name == name && r.rtype == rtype)
    {
      FilterMember(at, records, r);
      if SupportedType(r.rtype) && Key(r) == name + "|" + rtype {
        NoBarInType(rtype);
        NoBarInType(r.rtype);
        KeysDiffer(name, rtype, r.name, r.rtype);
      }
    }
  }

  // ---------- one publication ----------

  /** Splits the managed records of a name by whether they are of the target type. */
  method SplitByType(records: seq<Record>, rtype: string) returns (same: seq<Record>, other: seq<Record>)
    ensures same == Filter((r: Record) => r.rtype == rtype, records)
    ensures other == Filter((r: Record) => r.rtype != rtype, records)
  {
    same, other := [], [];
    for i := 0 to |records|
      invariant same == Filter((r: Record) => r.rtype == rtype, records[..i])
      invariant other == Filter((r: Record) => r.rtype != rtype, records[..i])
    {
      var record := records[i];
      assert records[..i + 1] == records[..i] + [record];
      FilterConcat((r: Record) => r.rtype == rtype, records[..i], [record]);
      FilterConcat((r: Record) => r.rtype != rtype, records[..i], [record]);
      if record.rtype == rtype {
        same := same + [record];
      } else {
        other := other + [record];
      }
    }
    assert records[..|records|] == records;
  }

  lemma SameTypeIsManagedAt(records: seq<Record>, name: string, rtype: string)
    ensures Filter((r: Record) => r.rtype == rtype, ManagedOf(records, name)) == ManagedAt(records, name, rtype)
    ensures forall r ::
      (r in Filter((s: Record) => s.rtype != rtype, ManagedOf(records, name))
       <==> r in records && r.Managed() && r.name == name && r.rtype != rtype)
  {
    var of := (r: Record) => r.Managed() && r.name == name;
    var at := (r: Record) => r.Managed() && r.name == name && r.rtype == rtype;
    FilterBoth((r: Record) => r.rtype == rtype, of, at, records);
    forall r
      ensures r in Filter((s: Record) => s.rtype != rtype, ManagedOf(records, name))
         <==> (r in records && r.Managed() && r.name == name && r.rtype != rtype)
    {
      FilterMember((s: Record) => s.rtype != rtype, ManagedOf(records, name), r);
      FilterMember(of, records, r);
    }
  }

  lemma FilterBoth<T>(p: T -> bool, q: T -> bool, both: T -> bool, s: seq<T>)
    requires forall x :: both(x) <==> p(x) && q(x)
    ensures Filter(p, Filter(q, s)) == Filter(both, s)
  {}

  /** The end of that body: the record of the target type stays, or replaces those that were listed. */
  method SetRecord(zone: Zone, name: string, target: Target, managedSameType: seq<Record>, ghost job: Job)
    returns (err: Option<string>)
    requires job.Valid() && job.Underway(zone.records) && job.target == target && name in job.names
    requires !Conflict(job.listing, name, target.rtype) && NoOtherType(zone.records, name, target.rtype)
    requires managedSameType == ManagedAt(job.listing, name, target.rtype)
    modifies zone
    ensures job.Underway(zone.records)
    ensures forall n, t :: n != name ==> ManagedAt(zone.records, n, t) == ManagedAt(old(zone.records), n, t)
    ensures forall s :: s in zone.records ==> s in old(zone.records) || s == target.NewRecord(name)
    ensures err.None? && name in Desired(job.names) ==> Published(zone.records, name, target)
    ensures err.None? && !job.Right(name) ==> forall s :: s in zone.records <==>
      if s.name == name && s.rtype == target.rtype then s == target.NewRecord(name) else s in old(zone.records)
    ensures job.Right(name) ==>
      err.None? && zone.records == old(zone.records) && zone.mutations == old(zone.mutations)
    ensures Errors(old(zone.script)) == Reported(err) + Errors(zone.script)
  {
    hide ToUpper, SupportedType, TrimSpace, Unmanaged, Conflict, Errors;
    NewRecordManaged(target, name);
    SameUnmanagedSameConflict(zone.records, job.listing, name, target.rtype);
    err := None;
    assert Reported(err) + Errors(zone.script) == Errors(zone.script);
    if |managedSameType| > 0 {
      if managedSameType[0].Value() == target.value {
        return;
      }
      forall r | r in managedSameType
        ensures r in job.listing && r.Managed() && r.name == name && r.rtype == target.rtype
      {
        FilterMember((s: Record) => s.Managed() && s.name == name && s.rtype == target.rtype, job.listing, r);
      }
      err := DeleteRecords(zone, managedSameType, job);
      if err.Some? {
        return;
      }
      assert Reported(err) + Errors(zone.script) == Errors(zone.script);
    }

    SameUnmanagedSameConflict(zone.records, job.listing, name, target.rtype);
    AddUnderway(job, zone.records, name);
    ghost var now := zone.records;
    forall n, t | n != name
      ensures ManagedAt(Overwritten(now, target.NewRecord(name)), n, t) == ManagedAt(now, n, t)
    {
      OverwrittenElsewhere(now, target.NewRecord(name), n, t);
    }
    err := zone.Add(target.NewRecord(name));
  }

  /**
   Whether a record is there once a name has been published, given whether it was there before: blank names
   and names with somebody else's record in the way are left alone.
   */
  ghost predicate After(job: Job, name: string, s: Record, before: bool) {
    if s.name != name || TrimSpace(name) == "" || Conflict(job.listing, name, job.target.rtype) then before
    else if s.rtype != job.target.rtype then before && (s.Managed() ==> s.Value() == "")
    else if job.Right(name) then before
    else s == job.target.NewRecord(name)
  }

  /** Deletes hit nobody else's record. */
  lemma HitsManaged(job: Job, zone: seq<Record>, r: Record, s: Record)
    requires job.Valid() && job.Underway(zone) && r in job.listing && r.Managed() && s in zone && Hits(r, s)
    ensures s.Managed()
  {
    UnmanagedMember(zone, s);
    UnmanagedMember(job.listing, s);
  }

  lemma OthersGone(job: Job, before: seq<Record>, now: seq<Record>, others: seq<Record>, name: string)
    requires job.Valid() && job.Underway(before) && job.Underway(now)
    requires forall r ::
      (r in others <==> r in job.listing && r.Managed() && r.name == name && r.rtype != job.target.rtype)
    requires forall s :: s in now ==> s in before
    requires forall s :: s in before && (forall r :: r in others ==> !Hits(r, s)) ==> s in now
    requires forall r, s :: r in others && s in now ==> !Hits(r, s)
    ensures NoOtherType(now, name, job.target.rtype)
    ensures forall s :: s in now <==>
      s in before && (s.name == name && s.rtype != job.target.rtype && s.Managed() ==> s.Value() == "")
  {
    hide ToUpper, SupportedType, Unmanaged, TrimSpace, Conflict, ManagedAt;
    forall s | s in before && s.Managed() && s.name == name && s.rtype != job.target.rtype && s.Value() != ""
      ensures s in others && Hits(s, s)
    {
      NewRecordManaged(job.target, name);
    }
    forall r, s | r in others && s in before && Hits(r, s)
      ensures s.name == name && s.rtype != job.target.rtype && s.Managed() && s.Value() != ""
    {
      HitsManaged(job, before, r, s);
    }
  }

  lemma NothingReported(script: seq<Outcome>)
    ensures Reported(None) + Errors(script) == Errors(script)
  {}

  /** The body of the loop over the desired names. */
  method PublishName(zone: Zone, name: string, target: Target, managedByName: map<string, seq<Record>>,
      existingByNameType: map<string, seq<Record>>, ghost job: Job) returns (err: Option<string>)
    requires job.Valid() && job.Underway(zone.records) && job.target == target && name in job.names
    requires forall n :: Get(managedByName, n) == ManagedOf(job.listing, n)
    requires forall k :: Get(existingByNameType, k) == ExistingAt(job.listing, k)
    modifies zone
    ensures job.Underway(zone.records)
    ensures forall n, t :: n != name ==> ManagedAt(zone.records, n, t) == ManagedAt(old(zone.records), n, t)
    ensures forall s :: s in zone.records ==> s in old(zone.records) || s == target.NewRecord(name)
    ensures err.None? && name in Desired(job.names) && TrimSpace(name) != "" ==> Published(zone.records, name, target)
    ensures err.None? ==> forall s :: s in zone.records <==> After(job, name, s, s in old(zone.records))
    ensures (|| TrimSpace(name) == "" || Conflict(job.listing, name, target.rtype)
             || (old(zone.records) == job.listing && Published(job.listing, name, target))) ==>
      err.None? && zone.records == old(zone.records) && zone.mutations == old(zone.mutations)
    ensures Errors(old(zone.script)) == Reported(err) + Errors(zone.script)
  {
    hide ToUpper, SupportedType, TrimSpace, Unmanaged, ExistingAt, Conflict, Errors;
    err := None;
    assert Reported(err) + Errors(zone.script) == Errors(zone.script);
    if TrimSpace(name) == "" {
      return;
    }
    var key := name + "|" + target.rtype;
    NewRecordManaged(target, name);
    ConflictByKey(job.listing, name, target.rtype);
    SameUnmanagedSameConflict(zone.records, job.listing, name, target.rtype);
    var conflict := HasUnmanaged(Get(existingByNameType, key));
    if conflict {
      return;
    }

    SameTypeIsManagedAt(job.listing, name, target.rtype);
    var managedSameType, managedOtherTypes := SplitByType(Get(managedByName, name), target.rtype);
    hide Reported, Hits, ManagedAt, ManagedOf, Filter, Target.NewRecord, Record.Managed, Record.Value;
    ghost var before := zone.records;
    err := DeleteRecords(zone, managedOtherTypes, job);
    if err.Some? {
      return;
    }
    NothingReported(zone.script);
    OthersGone(job, before, zone.records, managedOtherTypes, name);

    err := SetRecord(zone, name, target, managedSameType, job);
  }

  lemma UnderwayValid(job: Job, zone: seq<Record>)
    requires job.Valid() && job.Underway(zone)
    ensures NoSharedTriples(zone)
  {
    forall r, s | r in zone && s in zone && r.Managed() && !s.Managed()
      ensures !IsTriple(s, r.name, r.rtype, r.Value())
    {
      UnmanagedMember(zone, s);
      UnmanagedMember(job.listing, s);
      if r !in job.listing {
        NewRecordManaged(job.target, r.name);
      }
    }
  }

  /** Somebody else's name cannot become unpublished. */
  lemma StaysPublished(before: seq<Record>, after: seq<Record>, n: string, target: Target, added: string)
    requires Published(before, n, target) && n != added && target.Valid()
    requires Unmanaged(after) == Unmanaged(before)
    requires ManagedAt(after, n, target.rtype) == ManagedAt(before, n, target.rtype)
    requires forall s :: s in after ==> s in before || s == target.NewRecord(added)
    ensures Published(after, n, target)
  {
    SameUnmanagedSameConflict(before, after, n, target.rtype);
    NewRecordManaged(target, added);
  }

  lemma ManagedOfMember(records: seq<Record>, name: string, r: Record)
    ensures r in ManagedOf(records, name) <==> r in records && r.Managed() && r.name == name
  {
    FilterMember((s: Record) => s.Managed() && s.name == name, records, r);
  }

  /** A record that is not one of a name that nobody wants any more. */
  predicate Spared(r: Record, desired: set<string>) {
    r.Managed() && r.name !in desired ==> r.Value() == ""
  }

  /** The loop over the managed names, in any order, that removes the names nobody wants any more. */
  method DeleteUndesired(zone: Zone, desired: set<string>, managedByName: map<string, seq<Record>>, ghost job: Job)
    returns (err: Option<string>)
    requires job.Valid() && zone.records == job.listing && desired == Desired(job.names)
    requires forall n :: Get(managedByName, n) == ManagedOf(job.listing, n)
    modifies zone
    ensures job.Underway(zone.records)
    ensures forall s :: s in zone.records ==> s in old(zone.records)
    ensures forall s :: s in old(zone.records) && Spared(s, desired) ==> s in zone.records
    ensures err.None? ==> NoneLeft(zone.records, desired)
    ensures NoneLeft(job.listing, desired) ==>
      err.None? && zone.records == old(zone.records) && zone.mutations == old(zone.mutations)
    ensures Errors(old(zone.script)) == Reported(err) + Errors(zone.script)
  {
    hide *;
    var todo := managedByName.Keys;
    NamesAreKeys(zone.records, managedByName, desired);
    StartsUnderway(job);
    while todo != {}
      invariant job.Underway(zone.records)
      invariant forall s :: s in zone.records ==> s in old(zone.records)
      invariant forall s :: s in old(zone.records) && Spared(s, desired) ==> s in zone.records
      invariant NoneLeft(zone.records, desired + todo)
      invariant NoneLeft(job.listing, desired) ==>
        zone.records == old(zone.records) && zone.mutations == old(zone.mutations)
      invariant Errors(old(zone.script)) == Errors(zone.script)
      decreases |todo|
    {
      var name :| name in todo;
      ghost var left := todo;
      todo := todo - {name};
      if name in desired {
        assert desired + todo == desired + left;
        continue;
      }
      UndesiredMayGo(job, managedByName, name, desired);
      ghost var before := zone.records;
      err := DeleteRecords(zone, Get(managedByName, name), job);
      UndesiredSpares(job, before, Get(managedByName, name), name, desired);
      if err.Some? {
        return;
      }
      NothingReported(zone.script);
      UndesiredGone(job, before, zone.records, Get(managedByName, name), name, desired, todo, left);
    }
    err := None;
    NothingReported(zone.script);
    assert desired + {} == desired;
  }

  lemma NamesAreKeys(records: seq<Record>, managedByName: map<string, seq<Record>>, desired: set<string>)
    requires forall n :: Get(managedByName, n) == ManagedOf(records, n)
    ensures NoneLeft(records, desired + managedByName.Keys)
  {
    forall r | r in records && r.Managed() ensures r.name in managedByName.Keys {
      ManagedOfMember(records, r.name, r);
    }
  }

  lemma UndesiredMayGo(job: Job, managedByName: map<string, seq<Record>>, name: string, desired: set<string>)
    requires forall n :: Get(managedByName, n) == ManagedOf(job.listing, n)
    requires name !in desired && desired == Desired(job.names)
    ensures var list := Get(managedByName, name);
      && (forall r :: r in list <==> r in job.listing && r.Managed() && r.name == name)
      && (forall r :: r in list ==> job.MayGo(r))
      && (NoneLeft(job.listing, desired) ==> forall r :: r in list ==> r.Value() == "")
  {
    hide ManagedOf, Desired, Record.Managed, Record.Value;
    forall r ensures r in Get(managedByName, name) <==> (r in job.listing && r.Managed() && r.name == name) {
      ManagedOfMember(job.listing, name, r);
    }
  }

  lemma UndesiredSpares(job: Job, before: seq<Record>, list: seq<Record>, name: string, desired: set<string>)
    requires job.Valid() && job.Underway(before) && name !in desired
    requires forall r :: r in list <==> r in job.listing && r.Managed() && r.name == name
    ensures forall r, s :: r in list && s in before && Spared(s, desired) ==> !Hits(r, s)
  {
    hide Record.Managed, Record.Value, Job.Underway, Job.Valid;
    forall r, s | r in list && s in before && Spared(s, desired) && Hits(r, s) ensures false {
      HitsManaged(job, before, r, s);
    }
  }

  lemma UndesiredGone(job: Job, before: seq<Record>, now: seq<Record>, list: seq<Record>, name: string,
      desired: set<string>, todo: set<string>, left: set<string>)
    requires forall r :: r in list <==> r in job.listing && r.Managed() && r.name == name
    requires forall r, s :: r in list && s in now ==> !Hits(r, s)
    requires forall s :: s in now ==> s in before
    requires todo == left - {name} && NoneLeft(before, desired + left)
    requires forall r :: r in before && r.Managed() && r.name == name ==> r in job.listing || name in desired
    ensures NoneLeft(now, desired + todo)
  {
    hide Record.Managed, Record.Value;
    forall r | r in now && r.Managed() && r.name !in desired + todo ensures r.Value() == "" {
      assert r.name == name ==> r in list;
      assert r.Value() != "" ==> Hits(r, r);
    }
  }

  /** Whether a record is in the zone once everything has been published. */
  ghost predicate InTheEnd(job: Job, s: Record) {
    var spared := s in job.listing && Spared(s, Desired(job.names));
    if s.name in job.names then After(job, s.name, s, spared) else spared
  }

  /** The same, when only some of the names have been published. */
  ghost predicate SoFar(job: Job, done: seq<string>, s: Record) {
    var spared := s in job.listing && Spared(s, Desired(job.names));
    if s.name in done then After(job, s.name, s, spared) else spared
  }

  lemma SoFarNext(job: Job, done: seq<string>, name: string, s: Record)
    ensures SoFar(job, done + [name], s) == After(job, name, s, SoFar(job, done, s))
  {
    hide TrimSpace, Conflict, Desired, Spared;
  }

  /**
   `publishOnce` for the names in the zone; `listing` is the error of listing the zone, if there was one.

   Wherever it is cut off, nobody else's record is touched. When it succeeds the zone has converged, and it
   holds exactly the records that it should; it does succeed unless a call fails. On a zone that has converged
   it changes nothing.
   */
  method PublishOnce(zone: Zone, names: seq<string>, target: Target, listing: Option<string>)
    returns (err: Option<string>)
    requires zone.Valid() && target.Valid()
    modifies zone
    ensures zone.Valid() && Unmanaged(zone.records) == Unmanaged(old(zone.records))
    ensures err.None? && names != [] ==> Converged(zone.records, names, target)
    ensures err.None? && names != [] ==> var job := Job(old(zone.records), names, target);
      forall s :: s in zone.records <==> InTheEnd(job, s)
    ensures names == [] ==> err.None?
    ensures names != [] && listing.Some? ==> err == listing
    ensures names == [] || listing.Some? ==>
      zone.records == old(zone.records) && zone.mutations == old(zone.mutations) && zone.script == old(zone.script)
    ensures names != [] && listing.None? ==> Errors(old(zone.script)) == Reported(err) + Errors(zone.script)
    ensures Converged(old(zone.records), names, target) && Trimmed(names) ==>
      (listing.None? ==> err.None?) && zone.records == old(zone.records) && zone.mutations == old(zone.mutations)
  {
    hide ToUpper, SupportedType, TrimSpace, Unmanaged, Errors, Conflict, After, ManagedAt;
    if |names| == 0 {
      return None;
    }
    if listing.Some? {
      return listing;
    }
    var records := zone.records;
    ghost var job := Job(records, names, target);
    ghost var still := Converged(records, names, target) && Trimmed(names);
    var desired := Desired(names);
    var managedByName, existingByNameType := IndexRecords(records);

    assert still ==> desired + Elements(names) == desired;
    err := DeleteUndesired(zone, desired, managedByName, job);
    UnderwayValid(job, zone.records);
    if err.Some? {
      return;
    }
    assert Reported(err) + Errors(zone.script) == Errors(zone.script);
    assert forall s :: s in zone.records <==> SoFar(job, names[..0], s);

    for i := 0 to |names|
      invariant job.Underway(zone.records)
      invariant NoneLeft(zone.records, desired + Elements(names))
      invariant forall n :: n in names[..i] && n in desired ==> Published(zone.records, n, target)
      invariant still ==> zone.records == old(zone.records) && zone.mutations == old(zone.mutations)
      invariant forall s :: s in zone.records <==> SoFar(job, names[..i], s)
      invariant Errors(old(zone.script)) == Errors(zone.script)
    {
      var name := names[i];
      ghost var before := zone.records;
      assert names[..i + 1] == names[..i] + [name];
      err := PublishName(zone, name, target, managedByName, existingByNameType, job);
      UnderwayValid(job, zone.records);
      if err.Some? {
        return;
      }
      assert Reported(err) + Errors(zone.script) == Errors(zone.script);
      NewRecordManaged(target, name);
      forall n | n in names[..i + 1] && n in desired ensures Published(zone.records, n, target) {
        DesiredNotBlank(names, n);
        if n != name {
          StaysPublished(before, zone.records, n, target, name);
        }
      }
      forall s ensures s in zone.records <==> SoFar(job, names[..i + 1], s) {
        SoFarNext(job, names[..i], name, s);
      }
    }
    assert names[..|names|] == names;
    UnderwayValid(job, zone.records);
    err := None;
    assert Reported(err) + Errors(zone.script) == Errors(zone.script);
  }

  lemma StartsUnderway(job: Job)
    ensures job.Underway(job.listing)
  {}

  /** A trimmed name is its own trimmed form, so a desired name is not blank. */
  lemma DesiredNotBlank(names: seq<string>, n: string)
    requires n in Desired(names)
    ensures TrimSpace(n) != ""
  {
    var m :| m in names && TrimSpace(m) == n && n != "";
    TrimTwice(m);
  }

  lemma TrimTwice(s: string)
    ensures TrimSpace(TrimSpace(s)) == TrimSpace(s)
  {
    TrimLeftFirst(s);
    TrimRightEnds(TrimLeft(s));
  }

  lemma TrimLeftFirst(s: string)
    ensures TrimLeft(s) != [] ==> !IsSpace(TrimLeft(s)[0])
  {}

  lemma TrimRightEnds(s: string)
    ensures TrimRight(s) != [] ==> !IsSpace(TrimRight(s)[|TrimRight(s)| - 1]) && TrimRight(s)[0] == s[0]
  {}

  // ---------- which names are in the zone ----------

  /** A name as it is compared: in lower case, without a dot at its end and white space around it. */
  function Plain(name: string, lower: string -> string): string {
    TrimSpace(TrimSuffix(lower(name), "."))
  }

  predicate InZone(name: string, zone: string, lower: string -> string) {
    var candidate := Plain(name, lower);
    candidate != "" && (candidate == zone || HasSuffix(candidate, "." + zone))
  }

  /** `filterNamesForZone`; `lower` is `strings.ToLower`. */
  function FilterNames(names: seq<string>, zoneName: string, lower: string -> string): seq<string> {
    var zone := Plain(zoneName, lower);
    if zone == "" then [] else Filter((n: string) => InZone(n, zone, lower), names)
  }

  /** Exactly the names that are the zone, or something in front of a dot and the zone, are kept. */
  lemma FilterNamesKeeps(names: seq<string>, zoneName: string, lower: string -> string, name: string)
    ensures var zone, plain := Plain(zoneName, lower), Plain(name, lower);
      name in FilterNames(names, zoneName, lower)
      <==> (&& name in names && zone != ""
            && (plain == zone || exists prefix :: plain == prefix + "." + zone))
  {
    hide TrimSpace;
    var zone, plain := Plain(zoneName, lower), Plain(name, lower);
    FilterMember((n: string) => InZone(n, zone, lower), names, name);
    if HasSuffix(plain, "." + zone) {
      assert plain == plain[..|plain| - |"." + zone|] + "." + zone;
    }
    forall prefix: string | plain == prefix + "." + zone ensures HasSuffix(plain, "." + zone) {
      assert plain[|plain| - |"." + zone|..] == "." + zone;
    }
  }

  /** A name that ends in the letters of the zone, but not behind a dot, is not one of its names. */
  lemma OtherNamesAreDropped(names: seq<string>, zoneName: string, lower: string -> string, name: string,
      prefix: string)
    requires Plain(name, lower) == prefix + Plain(zoneName, lower)
    requires prefix != "" && prefix[|prefix| - 1] != '.'
    ensures name !in FilterNames(names, zoneName, lower)
  {
    hide TrimSpace;
    FilterMember((n: string) => InZone(n, Plain(zoneName, lower), lower), names, name);
    NotBehindDot(prefix, Plain(zoneName, lower));
  }

  lemma NotBehindDot(prefix: string, zone: string)
    requires prefix != "" && prefix[|prefix| - 1] != '.'
    ensures !HasSuffix(prefix + zone, "." + zone)
  {
    assert (prefix + zone)[|prefix| - 1..][0] != '.';
  }

  /** The kept names come in the order in which they were given. */
  lemma FilterNamesInOrder(names: seq<string>, more: seq<string>, zoneName: string, lower: string -> string)
    ensures FilterNames(names + more, zoneName, lower)
         == FilterNames(names, zoneName, lower) + FilterNames(more, zoneName, lower)
  {
    FilterConcat((n: string) => InZone(n, Plain(zoneName, lower), lower), names, more);
  }

  /** How an ordinary name is compared, with or without a dot at its end. */
  lemma PlainNames(name: string, lower: string -> string)
    requires name != "" && !IsSpace(name[0]) && !IsSpace(name[|name| - 1])
    ensures lower(name) == name && name[|name| - 1] != '.' ==> Plain(name, lower) == name
    ensures lower(name + ".") == name + "." ==> Plain(name + ".", lower) == name
  {
    assert (name + ".")[|name|..] == "." && (name + ".")[..|name|] == name;
    assert TrimSpace(name) == name;
    assert name[|name| - 1..] == [name[|name| - 1]];
  }

  // ---------- attempts ----------

  predicate Mentions(s: string, part: string) {
    HasPrefix(s, part) || (s != [] && Mentions(s[1..], part))
  }

  lemma {:induction false} MentionsFound(s: string, part: string) returns (before: string, after: string)
    requires Mentions(s, part)
    ensures s == before + part + after
  {
    if HasPrefix(s, part) {
      before, after := [], s[|part|..];
    } else {
      before, after := MentionsFound(s[1..], part);
      before := [s[0]] + before;
    }
  }

  lemma {:induction false} MentionsAt(before: string, part: string, after: string)
    ensures Mentions(before + part + after, part)
  {
    var s := before + part + after;
    if before == [] {
      assert s[..|part|] == part;
    } else {
      assert s[1..] == before[1..] + part + after;
      MentionsAt(before[1..], part, after);
    }
  }

  lemma MentionsExactly(s: string, part: string)
    ensures Mentions(s, part) <==> exists before, after :: s == before + part + after
  {
    if Mentions(s, part) {
      var before, after := MentionsFound(s, part);
    }
    forall before, after | s == before + part + after ensures Mentions(s, part) {
      MentionsAt(before, part, after);
    }
  }

  /** `isRetryableError`: what the source asks after the first two questions makes no difference. */
  predicate Retryable(message: string, lower: string -> string) {
    var m := lower(message);
    !Mentions(m, "does not belong to the zone") && !Mentions(m, "unmanaged record exists")
  }

  /** Only two messages stand against trying again, wherever they are in the error. */
  lemma RetryableExactly(message: string, lower: string -> string)
    ensures !Retryable(message, lower) <==> exists before, after ::
      || lower(message) == before + "does not belong to the zone" + after
      || lower(message) == before + "unmanaged record exists" + after
  {
    hide Mentions;
    MentionsExactly(lower(message), "does not belong to the zone");
    MentionsExactly(lower(message), "unmanaged record exists");
  }

  const ATTEMPTS := 5

  const HOST_IS_EMPTY := "technitium caddy host is empty"

  /**
   The attempts of one call of `Publish`, as far as they failed: `failed` are their errors, in order, and
   `listings` and `sleeps` say what happens to the listing of every attempt and to the wait behind it. There is
   another attempt exactly if an error is worth it, attempts are left and the wait is not cut short.
   */
  ghost predicate Attempted(failed: seq<string>, err: Option<string>, sleeps: seq<bool>, lower: string -> string)
    requires |sleeps| == ATTEMPTS - 1
  {
    var given := if err.None? then |failed| else |failed| - 1;
    && |failed| <= ATTEMPTS
    && (err.None? ==> |failed| < ATTEMPTS)
    && (err.Some? ==> failed != [] && err.value == failed[|failed| - 1])
    && (forall k :: 0 <= k < given ==> Retryable(failed[k], lower) && sleeps[k])
    && (err.Some? ==> var last := |failed| - 1;
        last == ATTEMPTS - 1 || !Retryable(err.value, lower) || !sleeps[last])
  }

  /** The errors of the failed attempts that got past their listing. */
  function PastListing(failed: seq<string>, listings: seq<Option<string>>): seq<string>
    requires |failed| <= |listings|
  {
    if failed == [] then []
    else (if listings[0].None? then [failed[0]] else []) + PastListing(failed[1..], listings[1..])
  }

  lemma PastListingSnoc(failed: seq<string>, listings: seq<Option<string>>, message: string)
    requires |failed| < |listings|
    ensures PastListing(failed + [message], listings)
         == PastListing(failed, listings) + if listings[|failed|].None? then [message] else []
  {
    if failed == [] {
      assert PastListing([message][1..], listings[1..]) == [];
    } else {
      assert (failed + [message])[1..] == failed[1..] + [message];
      PastListingSnoc(failed[1..], listings[1..], message);
    }
  }

  /** The failed attempts account for the errors of the script, up to what is left of it. */
  ghost predicate Followed(failed: seq<string>, listings: seq<Option<string>>, errors: seq<string>,
      script: seq<Outcome>)
    requires |failed| <= |listings|
  {
    && errors == PastListing(failed, listings) + Errors(script)
    && (forall k :: 0 <= k < |failed| && listings[k].Some? ==> failed[k] == listings[k].value)
  }

  lemma FollowedStarts(listings: seq<Option<string>>, script: seq<Outcome>)
    ensures Followed([], listings, Errors(script), script)
  {
    assert [] + Errors(script) == Errors(script);
  }

  lemma FollowedNext(failed: seq<string>, listings: seq<Option<string>>, errors: seq<string>, script: seq<Outcome>,
      after: seq<Outcome>, err: Option<string>)
    requires |failed| < |listings| && Followed(failed, listings, errors, script)
    requires listings[|failed|].Some? ==> err == listings[|failed|] && after == script
    requires listings[|failed|].None? ==> Errors(script) == Reported(err) + Errors(after)
    ensures Followed(failed + Reported(err), listings, errors, after)
  {
    hide Errors, PastListing;
    if err.Some? {
      PastListingSnoc(failed, listings, err.value);
      Associative(PastListing(failed, listings), Reported(err), Errors(after));
      assert PastListing(failed, listings) + [] == PastListing(failed, listings);
    } else {
      assert [] + Errors(after) == Errors(after) && failed + [] == failed;
    }
  }

  function FailingListings(listings: seq<Option<string>>): nat {
    if listings == [] then 0 else (if listings[0].Some? then 1 else 0) + FailingListings(listings[1..])
  }

  /** Nothing stands against trying again, and there are fewer errors to come than attempts. */
  ghost predicate Patient(errors: seq<string>, listings: seq<Option<string>>, sleeps: seq<bool>,
      lower: string -> string) {
    && (forall k :: 0 <= k < |sleeps| ==> sleeps[k])
    && (forall m :: m in errors ==> Retryable(m, lower))
    && (forall k :: 0 <= k < |listings| && listings[k].Some? ==> Retryable(listings[k].value, lower))
    && FailingListings(listings) + |errors| < 5
  }

  lemma {:induction false} CountPastListing(failed: seq<string>, listings: seq<Option<string>>)
    requires |failed| <= |listings|
    ensures |failed| <= |PastListing(failed, listings)| + FailingListings(listings)
    ensures forall k :: 0 <= k < |failed| && listings[k].None? ==> failed[k] in PastListing(failed, listings)
  {
    if failed != [] {
      CountPastListing(failed[1..], listings[1..]);
      forall k | 0 <= k < |failed| && listings[k].None? ensures failed[k] in PastListing(failed, listings) {
        if k > 0 {
          assert failed[k] == failed[1..][k - 1] && listings[k] == listings[1..][k - 1];
        }
      }
    }
  }

  lemma EnoughAttempts(failed: seq<string>, err: Option<string>, listings: seq<Option<string>>, sleeps: seq<bool>,
      errors: seq<string>, script: seq<Outcome>, lower: string -> string)
    requires |listings| == ATTEMPTS && |sleeps| == ATTEMPTS - 1
    requires Attempted(failed, err, sleeps, lower) && Patient(errors, listings, sleeps, lower)
    requires Followed(failed, listings, errors, script)
    ensures err.None?
  {
    hide Retryable, PastListing, FailingListings, Errors;
    CountPastListing(failed, listings);
  }

  /**
   `Publish`: up to five attempts. `listings` are the errors of listing the zone, attempt by attempt, and `sleeps`
   says whether the wait behind each of them was not cut short; no target is an empty host.
   */
  method Publish(zone: Zone, names: seq<string>, zoneName: string, lower: string -> string, target: Option<Target>,
      listings: seq<Option<string>>, sleeps: seq<bool>) returns (err: Option<string>, ghost failed: seq<string>)
    requires zone.Valid() && (target.Some? ==> target.value.Valid())
    requires |listings| == ATTEMPTS && |sleeps| == ATTEMPTS - 1
    modifies zone
    ensures zone.Valid() && Unmanaged(zone.records) == Unmanaged(old(zone.records))
    ensures Attempted(failed, err, sleeps, lower)
    ensures target.None? ==> err == Some(HOST_IS_EMPTY) && forall k :: 0 <= k < |failed| ==> failed[k] == HOST_IS_EMPTY
    ensures var inZone := FilterNames(names, zoneName, lower);
            && (err.None? && inZone != [] ==> Converged(zone.records, inZone, target.value))
            && (target.None? || inZone == [] ==>
                zone.records == old(zone.records) && zone.mutations == old(zone.mutations))
            && (target.Some? && inZone == [] ==> failed == [])
            && (target.Some? && inZone != [] ==>
                && Followed(failed, listings, Errors(old(zone.script)), zone.script)
                && (err.None? ==> listings[|failed|].None?))
            && (target.Some? && Converged(old(zone.records), inZone, target.value) && Trimmed(inZone) ==>
                zone.records == old(zone.records) && zone.mutations == old(zone.mutations))
    ensures target.Some? && Patient(Errors(old(zone.script)), listings, sleeps, lower) ==> err.None?
  {
    hide *;
    var inZone := FilterNames(names, zoneName, lower);
    failed := [];
    err := None;
    FollowedStarts(listings, zone.script);
    for attempt := 0 to ATTEMPTS
      invariant |failed| == attempt < ATTEMPTS && (attempt > 0 ==> err == Some(failed[attempt - 1]))
      invariant forall k :: 0 <= k < attempt ==> Retryable(failed[k], lower) && sleeps[k]
      invariant zone.Valid() && Unmanaged(zone.records) == Unmanaged(old(zone.records))
      invariant target.None? ==> forall k :: 0 <= k < attempt ==> failed[k] == HOST_IS_EMPTY
      invariant target.None? || inZone == [] ==>
        zone.records == old(zone.records) && zone.mutations == old(zone.mutations)
      invariant target.Some? && inZone == [] ==> failed == []
      invariant target.Some? && inZone != [] ==> Followed(failed, listings, Errors(old(zone.script)), zone.script)
      invariant target.Some? && Converged(old(zone.records), inZone, target.value) && Trimmed(inZone) ==>
        zone.records == old(zone.records) && zone.mutations == old(zone.mutations)
    {
      var result := Some(HOST_IS_EMPTY);
      if target.Some? {
        ghost var script := zone.script;
        result := PublishOnce(zone, inZone, target.value, listings[attempt]);
        if inZone != [] {
          FollowedNext(failed, listings, Errors(old(zone.script)), script, zone.script, result);
        }
      }
      ReportedIs(result);
      if result.None? {
        err := None;
        assert failed + [] == failed;
        break;
      }
      err := result;
      failed := failed + [err.value];
      if !Retryable(err.value, lower) || attempt == ATTEMPTS - 1 {
        break;
      }
      if !sleeps[attempt] {
        break;
      }
    }
    AttemptedIs(failed, err, sleeps, lower);
    if target.Some? && Patient(Errors(old(zone.script)), listings, sleeps, lower) && inZone != [] {
      EnoughAttempts(failed, err, listings, sleeps, Errors(old(zone.script)), zone.script, lower);
    }
  }

  lemma ReportedIs(err: Option<string>)
    ensures Reported(err) == if err.Some? then [err.value] else []
  {}

  lemma AttemptedIs(failed: seq<string>, err: Option<string>, sleeps: seq<bool>, lower: string -> string)
    requires |sleeps| == ATTEMPTS - 1 && |failed| <= ATTEMPTS
    requires err.None? ==> |failed| < ATTEMPTS
    requires err.Some? ==> failed != [] && err.value == failed[|failed| - 1]
    requires forall k :: 0 <= k < (if err.None? then |failed| else |failed| - 1) ==>
      Retryable(failed[k], lower) && sleeps[k]
    requires err.Some? ==>
      |failed| == ATTEMPTS || !Retryable(err.value, lower) || !sleeps[|failed| - 1]
    ensures Attempted(failed, err, sleeps, lower)
  {}
}
