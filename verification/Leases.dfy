/** The worktree lease index of the active run: which leases are active, which were released, and
    the release that the task-closure clean-up asks for. */
module Leases {
  import opened Lists

  type Fingerprint = string

  datatype Binding = Binding(run: string, fingerprint: Fingerprint, pathsAreFileNames: bool)

  datatype ReleaseRecord = ReleaseRecord(
    run: string, fingerprint: Fingerprint, task: nat, closure: string, releasedBy: string)

  datatype Decision = Decision(
    releasedBy: seq<(nat, string)>, fingerprints: set<Fingerprint>, records: seq<ReleaseRecord>)

  datatype Failure =
    | RunMissing | ChunkMissing | UnsafeToken | ForeignBinding | BadPath | RecordMissing | BadRecord | NotPersisted

  datatype Result<T> = Ok(value: T) | Err(failure: Failure)

  /** The lease part of the harness state. */
  datatype Index = Index(
    run: Option<string>,
    chunk: Option<string>,
    fingerprints: Option<seq<Fingerprint>>,
    bindings: Option<seq<Binding>>,
    released: Option<seq<ReleaseRecord>>)

  // ---------------------------------------------------------------------------------------
  // Specification

  function OrEmpty<T>(xs: Option<seq<T>>): seq<T> {
    if xs.Some? then xs.value else []
  }

  predicate SafeChar(c: char) {
    'a' <= c <= 'z' || 'A' <= c <= 'Z' || '0' <= c <= '9' || c == '.' || c == '_' || c == '-'
  }

  /** A token equal to its own normal form: safe characters only, and not dashes alone. */
  predicate SafeToken(s: string) {
    (forall i :: 0 <= i < |s| ==> SafeChar(s[i])) && exists i :: 0 <= i < |s| && s[i] != '-'
  }

  ghost predicate Active(x: Index, f: Fingerprint) {
    || f in OrEmpty(x.fingerprints)
    || exists i :: 0 <= i < |OrEmpty(x.bindings)| && OrEmpty(x.bindings)[i].fingerprint == f
  }

  ghost predicate HasRecord(records: seq<ReleaseRecord>, run: string, f: Fingerprint) {
    exists i :: 0 <= i < |records| && records[i].run == run && records[i].fingerprint == f
  }

  /** At most one record per run and fingerprint. */
  ghost predicate UniqueRecords(records: seq<ReleaseRecord>) {
    forall i, j :: 0 <= i < j < |records| ==>
      !(records[i].run == records[j].run && records[i].fingerprint == records[j].fingerprint)
  }

  function KeepFingerprints(xs: seq<Fingerprint>, gone: set<Fingerprint>): (r: seq<Fingerprint>)
    ensures forall f :: f in r <==> f in xs && f !in gone
  {
    if xs == [] then []
    else
      var rest := KeepFingerprints(xs[..|xs| - 1], gone);
      if xs[|xs| - 1] in gone then rest else rest + [xs[|xs| - 1]]
  }

  function KeepBindings(xs: seq<Binding>, gone: set<Fingerprint>): (r: seq<Binding>)
    ensures forall b :: b in r <==> b in xs && b.fingerprint !in gone
  {
    if xs == [] then []
    else
      var rest := KeepBindings(xs[..|xs| - 1], gone);
      if xs[|xs| - 1].fingerprint in gone then rest else rest + [xs[|xs| - 1]]
  }

  function RecordsFor(xs: seq<ReleaseRecord>, wanted: set<Fingerprint>): (r: seq<ReleaseRecord>)
    ensures forall x :: x in r <==> x in xs && x.fingerprint in wanted
  {
    if xs == [] then []
    else
      var rest := RecordsFor(xs[..|xs| - 1], wanted);
      if xs[|xs| - 1].fingerprint in wanted then rest + [xs[|xs| - 1]] else rest
  }

  function Removed(fingerprints: seq<Fingerprint>, bindings: seq<Binding>, d: Decision): set<Fingerprint> {
    (set f | f in fingerprints && f in d.fingerprints)
    + (set b | b in bindings && b.fingerprint in d.fingerprints :: b.fingerprint)
  }

  predicate Covered(removed: set<Fingerprint>, records: seq<ReleaseRecord>) {
    forall f :: f in removed ==> exists i :: 0 <= i < |records| && records[i].fingerprint == f
  }

  predicate ValidRecord(run: string, r: ReleaseRecord) {
    && r.run == run && SafeToken(r.fingerprint) && SafeToken(r.closure) && SafeToken(r.releasedBy) && r.task != 0
  }

  datatype Application = Application(releasedBy: seq<(nat, string)>, removed: set<Fingerprint>,
      records: seq<ReleaseRecord>)

  /** What a decision comes to on the active leases; None when it touches none of them. */
  function Prepared(run: string, fingerprints: seq<Fingerprint>, bindings: seq<Binding>,
      d: Decision): Result<Option<Application>> {
    var removed := Removed(fingerprints, bindings, d);
    if removed == {} then Ok(None)
    else
      var records := RecordsFor(d.records, removed);
      if !Covered(removed, records) then Err(RecordMissing)
      else if exists i :: 0 <= i < |records| && !ValidRecord(run, records[i]) then Err(BadRecord)
      else Ok(Some(Application(d.releasedBy, removed, records)))
  }

  function BindingFailure(run: string, b: Binding): Option<Failure> {
    if b.run != run then Some(ForeignBinding)
    else if !SafeToken(b.fingerprint) then Some(UnsafeToken)
    else if !b.pathsAreFileNames then Some(BadPath)
    else None
  }

  function BindingsFailure(run: string, bindings: seq<Binding>): Option<Failure> {
    if bindings == [] then None
    else if BindingFailure(run, bindings[0]).Some? then BindingFailure(run, bindings[0])
    else BindingsFailure(run, bindings[1..])
  }

  /** The read-only preview: exactly the application that the locked release would carry out. */
  function Preview(x: Index, d: Decision): Result<Option<Application>> {
    if OrEmpty(x.fingerprints) == [] && OrEmpty(x.bindings) == [] then Ok(None)
    else if x.run.None? then Err(RunMissing)
    else if x.chunk.None? then Err(ChunkMissing)
    else if !SafeToken(x.run.value) || !SafeToken(x.chunk.value) then Err(UnsafeToken)
    else if BindingsFailure(x.run.value, OrEmpty(x.bindings)).Some? then
      Err(BindingsFailure(x.run.value, OrEmpty(x.bindings)).value)
    else Prepared(x.run.value, OrEmpty(x.fingerprints), OrEmpty(x.bindings), d)
  }

  /** Appends the records whose run and fingerprint are not recorded yet. */
  function AppendUnique(records: seq<ReleaseRecord>, more: seq<ReleaseRecord>): seq<ReleaseRecord> {
    if more == [] then records
    else
      var before := AppendUnique(records, more[..|more| - 1]);
      var r := more[|more| - 1];
      if HasKey(before, r) then before else before + [r]
  }

  predicate HasKey(records: seq<ReleaseRecord>, r: ReleaseRecord) {
    exists i :: 0 <= i < |records| && records[i].run == r.run && records[i].fingerprint == r.fingerprint
  }

  function Applied(x: Index, a: Application): Index {
    x.(fingerprints := Some(KeepFingerprints(OrEmpty(x.fingerprints), a.removed)),
       bindings := Some(KeepBindings(OrEmpty(x.bindings), a.removed)),
       released := Some(AppendUnique(OrEmpty(x.released), a.records)))
  }

  // ---------------------------------------------------------------------------------------
  // Conservation

  lemma {:induction false} AppendUniqueKeepsUnique(records: seq<ReleaseRecord>, more: seq<ReleaseRecord>)
    requires UniqueRecords(records)
    ensures UniqueRecords(AppendUnique(records, more))
  {
    if more != [] {
      AppendUniqueKeepsUnique(records, more[..|more| - 1]);
    }
  }

  /** The old records stay in front, and every new record is recorded under its run and fingerprint. */
  lemma {:induction false} AppendUniqueMeaning(records: seq<ReleaseRecord>, more: seq<ReleaseRecord>)
    ensures records <= AppendUnique(records, more)
    ensures forall r :: r in more ==> HasRecord(AppendUnique(records, more), r.run, r.fingerprint)
  {
    if more != [] {
      var rest, r := more[..|more| - 1], more[|more| - 1];
      AppendUniqueMeaning(records, rest);
      var before, after := AppendUnique(records, rest), AppendUnique(records, more);
      assert forall i :: 0 <= i < |before| ==> after[i] == before[i];
      assert forall q :: q in more ==> q in rest || q == r;
      forall q | q in more
        ensures HasRecord(after, q.run, q.fingerprint)
      {
        if q in rest {
          var i :| 0 <= i < |before| && before[i].run == q.run && before[i].fingerprint == q.fingerprint;
          assert after[i].run == q.run;
        } else if !HasKey(before, r) {
          assert after[|before|] == r;
        }
      }
    }
  }

  /** Only records of the given list are appended, and only under runs and fingerprints not recorded before. */
  lemma {:induction false} AppendUniqueOnlyAdds(records: seq<ReleaseRecord>, more: seq<ReleaseRecord>, i: nat)
    requires |records| <= i < |AppendUnique(records, more)|
    ensures AppendUnique(records, more)[i] in more
    ensures !HasKey(records, AppendUnique(records, more)[i])
  {
    var n := |more| - 1;
    var before := AppendUnique(records, more[..n]);
    AppendUniqueMeaning(records, more[..n]);
    if i < |before| {
      AppendUniqueOnlyAdds(records, more[..n], i);
      assert more == more[..n] + [more[n]];
    } else {
      assert more[n] in more;
      KeyStays(records, before, more[n]);
    }
  }

  lemma {:induction false} KeyStays(records: seq<ReleaseRecord>, longer: seq<ReleaseRecord>, r: ReleaseRecord)
    requires records <= longer && !HasKey(longer, r)
    ensures !HasKey(records, r)
  {
    assert forall i :: 0 <= i < |records| ==> longer[i] == records[i];
  }

  /** A safe token is not empty, has no character but letters, digits, dots, dashes and underscores, and is not
      made of dashes alone. */
  lemma SafeTokenExactly(s: string)
    ensures SafeToken(s) <==>
            && (forall c :: c in s ==>
                  'a' <= c <= 'z' || 'A' <= c <= 'Z' || '0' <= c <= '9' || c in {'.', '_', '-'})
            && exists c :: c in s && c != '-'
  {
    assert forall i :: 0 <= i < |s| ==> s[i] in s;
    if SafeToken(s) {
      forall c | c in s
        ensures SafeChar(c)
      {
        var i :| 0 <= i < |s| && s[i] == c;
      }
    }
  }

  /** A release record of the run: safe tokens and a task. */
  predicate Sound(run: string, r: ReleaseRecord) {
    r.run == run && SafeToken(r.fingerprint) && SafeToken(r.closure) && SafeToken(r.releasedBy) && r.task > 0
  }

  predicate SoundBinding(run: string, b: Binding) {
    b.run == run && SafeToken(b.fingerprint) && b.pathsAreFileNames
  }

  /** The decision can be applied: each lease it takes away has a record in it, and these records are sound. */
  ghost predicate Applicable(x: Index, d: Decision, run: string) {
    && (forall f :: f in d.fingerprints && Active(x, f) ==>
          exists i :: 0 <= i < |d.records| && d.records[i].fingerprint == f)
    && (forall r :: r in d.records && r.fingerprint in d.fingerprints && Active(x, r.fingerprint) ==> Sound(run, r))
  }

  lemma {:induction false} PreparedExactly(x: Index, d: Decision, run: string)
    ensures Prepared(run, OrEmpty(x.fingerprints), OrEmpty(x.bindings), d).Ok? <==> Applicable(x, d, run)
  {
    var removed := Removed(OrEmpty(x.fingerprints), OrEmpty(x.bindings), d);
    var records := RecordsFor(d.records, removed);
    forall f
      ensures f in removed <==> Active(x, f) && f in d.fingerprints
    {
      RemovedMeaning(x, d, f);
    }
    CoveredExactly(removed, d.records);
    SoundExactly(run, records);
    assert forall r :: r in records <==> r in d.records && r.fingerprint in d.fingerprints && Active(x, r.fingerprint);
  }

  lemma {:induction false} CoveredExactly(removed: set<Fingerprint>, all: seq<ReleaseRecord>)
    ensures Covered(removed, RecordsFor(all, removed)) <==>
            forall f :: f in removed ==> exists i :: 0 <= i < |all| && all[i].fingerprint == f
  {
    var records := RecordsFor(all, removed);
    forall f | f in removed
      ensures (exists i :: 0 <= i < |records| && records[i].fingerprint == f) <==>
              (exists i :: 0 <= i < |all| && all[i].fingerprint == f)
    {
      if i :| 0 <= i < |records| && records[i].fingerprint == f {
        assert records[i] in all;
      }
      if i :| 0 <= i < |all| && all[i].fingerprint == f {
        assert all[i] in records;
      }
    }
  }

  lemma {:induction false} SoundExactly(run: string, records: seq<ReleaseRecord>)
    ensures (exists i :: 0 <= i < |records| && !ValidRecord(run, records[i])) <==>
            !(forall r :: r in records ==> Sound(run, r))
  {
    if i :| 0 <= i < |records| && !ValidRecord(run, records[i]) {
      assert records[i] in records;
    }
  }

  /** The preview is refused exactly unless there is no lease, or run and chunk are there and safe, every
      binding is sound and of the run, and the decision can be applied. */
  lemma {:induction false} PreviewExactly(x: Index, d: Decision)
    ensures Preview(x, d).Ok? <==>
            || (OrEmpty(x.fingerprints) == [] && OrEmpty(x.bindings) == [])
            || (&& x.run.Some? && x.chunk.Some? && SafeToken(x.run.value) && SafeToken(x.chunk.value)
                && (forall b :: b in OrEmpty(x.bindings) ==> SoundBinding(x.run.value, b))
                && Applicable(x, d, x.run.value))
  {
    if x.run.Some? {
      BindingsFailureKept(x.run.value, OrEmpty(x.bindings));
      PreparedExactly(x, d, x.run.value);
    }
  }

  /** Closures with a passed review and a passed verification release leases, of one task if one is asked for. */
  lemma EligibleExactly(c: Closure, taskFilter: Option<nat>)
    ensures Eligible(c, taskFilter) <==>
            c.reviewPassed && c.verificationPassed && (taskFilter == None || taskFilter == Some(c.task))
  {
  }

  /** A release conserves leases. What was active is afterwards active or has a release record of
      the active run; what leaves is exactly the active part of the decision; the earlier records
      stay in front, and records stay unique per run and fingerprint. */
  lemma ReleaseConserves(x: Index, d: Decision, a: Application)
    requires Preview(x, d) == Ok(Some(a))
    ensures var y := Applied(x, a);
            && (forall f :: Active(x, f) ==> Active(y, f) || HasRecord(y.released.value, x.run.value, f))
            && (forall f :: Active(y, f) <==> Active(x, f) && f !in d.fingerprints)
            && (forall f :: f in a.removed <==> Active(x, f) && !Active(y, f))
            && OrEmpty(x.released) <= y.released.value
            && (UniqueRecords(OrEmpty(x.released)) ==> UniqueRecords(y.released.value))
  {
    var y := Applied(x, a);
    AppendUniqueMeaning(OrEmpty(x.released), a.records);
    if UniqueRecords(OrEmpty(x.released)) {
      AppendUniqueKeepsUnique(OrEmpty(x.released), a.records);
    }
    forall f
      ensures f in a.removed <==> Active(x, f) && f in d.fingerprints
      ensures Active(y, f) <==> Active(x, f) && f !in a.removed
    {
      RemovedMeaning(x, d, f);
      KeptMeaning(x, a, f);
    }
    forall f | f in a.removed
      ensures HasRecord(y.released.value, x.run.value, f)
    {
      var i :| 0 <= i < |a.records| && a.records[i].fingerprint == f;
      assert a.records[i] in a.records && ValidRecord(x.run.value, a.records[i]);
    }
  }

  lemma RemovedMeaning(x: Index, d: Decision, f: Fingerprint)
    ensures f in Removed(OrEmpty(x.fingerprints), OrEmpty(x.bindings), d) <==> Active(x, f) && f in d.fingerprints
  {
    var bs := OrEmpty(x.bindings);
    if i :| 0 <= i < |bs| && bs[i].fingerprint == f {
      assert bs[i] in bs;
    }
  }

  lemma KeptMeaning(x: Index, a: Application, f: Fingerprint)
    ensures Active(Applied(x, a), f) <==> Active(x, f) && f !in a.removed
  {
    var bs := OrEmpty(x.bindings);
    var kept := KeepBindings(bs, a.removed);
    if i :| 0 <= i < |bs| && bs[i].fingerprint == f {
      assert bs[i] in bs;
      if f !in a.removed {
        assert bs[i] in kept;
        var j :| 0 <= j < |kept| && kept[j] == bs[i];
        assert OrEmpty(Applied(x, a).bindings)[j].fingerprint == f;
      }
    }
    if i :| 0 <= i < |kept| && kept[i].fingerprint == f {
      assert kept[i] in kept;
      assert kept[i] in bs;
      var j :| 0 <= j < |bs| && bs[j] == kept[i];
      assert bs[j].fingerprint == f;
    }
  }

  lemma {:induction false} BindingsFailureKept(run: string, bs: seq<Binding>)
    ensures BindingsFailure(run, bs).None? <==> forall b :: b in bs ==> BindingFailure(run, b).None?
  {
    if bs != [] {
      BindingsFailureKept(run, bs[1..]);
      assert forall b :: b in bs <==> b == bs[0] || b in bs[1..];
    }
  }

  /** Releasing is idempotent: the same decision finds nothing left to release. */
  lemma {:induction false} SecondReleaseIsNoOp(x: Index, d: Decision, a: Application)
    requires Preview(x, d) == Ok(Some(a))
    ensures Preview(Applied(x, a), d) == Ok(None)
  {
    var y := Applied(x, a);
    BindingsFailureKept(x.run.value, OrEmpty(x.bindings));
    BindingsFailureKept(x.run.value, OrEmpty(y.bindings));
    assert BindingsFailure(x.run.value, OrEmpty(y.bindings)).None?;
    NothingLeft(x, d, a);
  }

  lemma {:induction false} NothingLeft(x: Index, d: Decision, a: Application)
    requires Preview(x, d) == Ok(Some(a))
    ensures var y := Applied(x, a);
            Removed(OrEmpty(y.fingerprints), OrEmpty(y.bindings), d) == {}
  {
    var y := Applied(x, a);
    ReleaseConserves(x, d, a);
    forall f
      ensures f !in Removed(OrEmpty(y.fingerprints), OrEmpty(y.bindings), d)
    {
      RemovedMeaning(y, d, f);
    }
  }

  // ---------------------------------------------------------------------------------------
  // The decision that the clean-up of current task closures builds

  /** A current task closure with the leases of its task that may be released. */
  datatype Closure = Closure(task: nat, id: string, reviewPassed: bool, verificationPassed: bool,
      releasable: seq<Fingerprint>)

  predicate Eligible(c: Closure, taskFilter: Option<nat>) {
    c.reviewPassed && c.verificationPassed && (taskFilter.None? || taskFilter.value == c.task)
  }

  ghost predicate Releasable(closures: seq<Closure>, taskFilter: Option<nat>, f: Fingerprint) {
    exists i :: 0 <= i < |closures| && Eligible(closures[i], taskFilter) && f in closures[i].releasable
  }

  /** One record of this run for each fingerprint of the decision, and no other. */
  ghost predicate OneRecordEach(run: string, fingerprints: set<Fingerprint>, records: seq<ReleaseRecord>) {
    && UniqueRecords(records)
    && (forall r :: r in records ==> r.run == run && r.fingerprint in fingerprints)
    && (forall f :: f in fingerprints ==> HasRecord(records, run, f))
  }

  lemma OneRecordMore(run: string, fingerprints: set<Fingerprint>, records: seq<ReleaseRecord>, r: ReleaseRecord)
    requires OneRecordEach(run, fingerprints, records) && r.run == run && r.fingerprint !in fingerprints
    ensures OneRecordEach(run, fingerprints + {r.fingerprint}, records + [r])
  {
    var more := records + [r];
    forall f | f in fingerprints + {r.fingerprint}
      ensures HasRecord(more, run, f)
    {
      if f in fingerprints {
        var i :| 0 <= i < |records| && records[i].run == run && records[i].fingerprint == f;
        assert more[i] == records[i];
      } else {
        assert more[|records|] == r;
      }
    }
    forall i | 0 <= i < |records|
      ensures records[i].fingerprint != r.fingerprint
    {
      assert records[i] in records;
    }
  }

  method ReleaseDecision(run: string, closures: seq<Closure>, command: string, taskFilter: Option<nat>)
    returns (d: Decision)
    ensures forall f :: f in d.fingerprints <==> Releasable(closures, taskFilter, f)
    ensures OneRecordEach(run, d.fingerprints, d.records)
    ensures forall r :: r in d.records ==>
              && r.releasedBy == command
              && exists i :: 0 <= i < |closures| && Eligible(closures[i], taskFilter) && r.task == closures[i].task
                             && r.closure == closures[i].id && r.fingerprint in closures[i].releasable
    ensures forall p :: p in d.releasedBy <==>
              exists i :: 0 <= i < |closures| && Eligible(closures[i], taskFilter) && closures[i].releasable != []
                          && p == (closures[i].task, closures[i].id)
  {
    var releasedBy: seq<(nat, string)> := [];
    var records: seq<ReleaseRecord> := [];
    var releasable: set<Fingerprint> := {};
    for i := 0 to |closures|
      invariant forall f :: f in releasable <==>
                exists k :: 0 <= k < i && Eligible(closures[k], taskFilter) && f in closures[k].releasable
      invariant OneRecordEach(run, releasable, records)
      invariant forall r :: r in records ==> FromClosure(closures, taskFilter, command, r)
      invariant forall p :: p in releasedBy <==>
                  exists k :: 0 <= k < i && Eligible(closures[k], taskFilter) && closures[k].releasable != []
                              && p == (closures[k].task, closures[k].id)
    {
      var c := closures[i];
      if Eligible(c, taskFilter) && c.releasable != [] {
        ghost var before := releasable;
        for j := 0 to |c.releasable|
          invariant forall f :: f in releasable <==> f in before || f in c.releasable[..j]
          invariant OneRecordEach(run, releasable, records)
          invariant forall r :: r in records ==> FromClosure(closures, taskFilter, command, r)
        {
          var f := c.releasable[j];
          if f !in releasable {
            var r := ReleaseRecord(run, f, c.task, c.id, command);
            assert FromClosure(closures, taskFilter, command, r);
            OneRecordMore(run, releasable, records, r);
            releasable := releasable + {f};
            records := records + [r];
          }
        }
        releasedBy := releasedBy + [(c.task, c.id)];
      }
    }
    d := Decision(releasedBy, releasable, records);
  }

  ghost predicate FromClosure(closures: seq<Closure>, taskFilter: Option<nat>, command: string, r: ReleaseRecord) {
    && r.releasedBy == command
    && exists i :: 0 <= i < |closures| && Eligible(closures[i], taskFilter) && r.task == closures[i].task
                   && r.closure == closures[i].id && r.fingerprint in closures[i].releasable
  }

  /** A decision with one record per fingerprint never fails for want of a record. */
  lemma BuiltDecisionsAreCovered(run: string, fingerprints: seq<Fingerprint>, bindings: seq<Binding>, d: Decision)
    requires OneRecordEach(run, d.fingerprints, d.records)
    ensures Prepared(run, fingerprints, bindings, d) != Err(RecordMissing)
  {
    var removed := Removed(fingerprints, bindings, d);
    var records := RecordsFor(d.records, removed);
    forall f | f in removed
      ensures exists i :: 0 <= i < |records| && records[i].fingerprint == f
    {
      var i :| 0 <= i < |d.records| && d.records[i].run == run && d.records[i].fingerprint == f;
      assert d.records[i] in d.records;
      assert d.records[i] in records;
    }
  }

  // ---------------------------------------------------------------------------------------
  // The release under the lock

  /** The event is appended before the state file is written, so a failed write may come too late. */
  datatype PersistResult = Persisted | NotLanded | LandedButFailed

  class LeaseIndex {
    var index: Index

    constructor (x: Index)
      ensures index == x
    {
      index := x;
    }

    method KeepActive(removed: set<Fingerprint>)
      modifies this
      ensures index == old(index).(fingerprints := Some(KeepFingerprints(OrEmpty(old(index).fingerprints), removed)),
                                   bindings := Some(KeepBindings(OrEmpty(old(index).bindings), removed)))
    {
      var fingerprints, bindings := OrEmpty(index.fingerprints), OrEmpty(index.bindings);
      var keptFingerprints: seq<Fingerprint> := [];
      for i := 0 to |fingerprints|
        invariant keptFingerprints == KeepFingerprints(fingerprints[..i], removed)
      {
        assert fingerprints[..i + 1][..i] == fingerprints[..i];
        if fingerprints[i] !in removed {
          keptFingerprints := keptFingerprints + [fingerprints[i]];
        }
      }
      assert fingerprints[..|fingerprints|] == fingerprints;
      var keptBindings: seq<Binding> := [];
      for i := 0 to |bindings|
        invariant keptBindings == KeepBindings(bindings[..i], removed)
      {
        assert bindings[..i + 1][..i] == bindings[..i];
        if bindings[i].fingerprint !in removed {
          keptBindings := keptBindings + [bindings[i]];
        }
      }
      assert bindings[..|bindings|] == bindings;
      index := index.(fingerprints := Some(keptFingerprints), bindings := Some(keptBindings));
    }

    method AppendUniqueRecords(more: seq<ReleaseRecord>)
      requires more != []
      modifies this
      ensures index == old(index).(released := Some(AppendUnique(OrEmpty(old(index).released), more)))
    {
      var records := OrEmpty(index.released);
      for i := 0 to |more|
        invariant records == AppendUnique(OrEmpty(old(index).released), more[..i])
      {
        assert more[..i + 1][..i] == more[..i];
        if !HasKey(records, more[i]) {
          records := records + [more[i]];
        }
      }
      assert more[..|more|] == more;
      index := index.(released := Some(records));
    }

    /** The locked release. It follows the preview: a refused or empty decision changes nothing, and
        otherwise the index changes exactly when the event has landed in the log. */
    method Release(d: Decision, write: PersistResult) returns (r: Result<seq<(nat, string)>>)
      modifies this
      ensures Preview(old(index), d).Err? ==> r == Err(Preview(old(index), d).failure) && index == old(index)
      ensures Preview(old(index), d) == Ok(None) ==> r == Ok([]) && index == old(index)
      ensures Preview(old(index), d).Ok? && Preview(old(index), d).value.Some? ==>
                && r == (if write == Persisted then Ok(d.releasedBy) else Err(NotPersisted))
                && index == if write == NotLanded then old(index)
                    else Applied(old(index), Preview(old(index), d).value.value)
    {
      match Preview(index, d)
      case Err(failure) => return Err(failure);
      case Ok(None) => return Ok([]);
      case Ok(Some(a)) =>
        var saved := index;
        assert a.records != [] by {
          assert a.removed != {};
          var f :| f in a.removed;
          assert exists i :: 0 <= i < |a.records| && a.records[i].fingerprint == f;
        }
        KeepActive(a.removed);
        AppendUniqueRecords(a.records);
        if write == NotLanded {
          index := saved;
        }
        return if write == Persisted then Ok(a.releasedBy) else Err(NotPersisted);
    }
  }
}
