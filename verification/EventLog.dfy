/** The authoritative event log: every run of the harness is a log, and the state after the run is
    the state of its last event. What the incremental state keeps is compared here with what the
    log says. */
module EventLog {
  import opened Lists
  import opened HarnessState

  datatype Event =
    | Imported(state: Snapshot)                                             // the state the log starts from
    | PhaseChanged(state: Snapshot)                                         // another command moved the phase
    | Recorded(record: Record, legacy: LegacyVerdicts, state: Snapshot)     // a record was accepted

  type Log = seq<Event>

  ghost predicate Follows(prev: Snapshot, e: Event) {
    match e
    case Imported(_) => false
    case PhaseChanged(state) => state == prev.(phase := state.phase)
    case Recorded(record, legacy, state) =>
      Legal(prev, record) && LatestSequence(prev.sequences) < record.sequence
          && state == Committed(prev, record, legacy)
  }

  ghost predicate StepOf(log: Log, i: nat)
    requires 0 < i < |log|
  {
    Follows(log[i - 1].state, log[i])
  }

  /** A run from an arbitrary imported state. */
  ghost predicate IsRun(log: Log) {
    && |log| > 0 && log[0].Imported?
    && forall i :: 0 < i < |log| ==> StepOf(log, i)
  }

  /** The later log is the earlier one with one record accepted on top. */
  ghost predicate Appends(earlier: Log, later: Log, r: Record, legacy: LegacyVerdicts) {
    && |later| == |earlier| + 1 && later[..|earlier|] == earlier
    && var e := later[|earlier|];
       e.Recorded? && e.record == r && e.legacy == legacy
  }

  lemma RunExtends(log: Log, e: Event)
    requires IsRun(log) && Follows(Last(log).state, e)
    ensures IsRun(log + [e])
  {
    var longer := log + [e];
    forall i | 0 < i < |longer|
      ensures StepOf(longer, i)
    {
      if i < |log| {
        assert StepOf(log, i);
        assert longer[i] == log[i] && longer[i - 1] == log[i - 1];
      }
    }
  }

  function Last(log: Log): Event
    requires |log| > 0
  {
    log[|log| - 1]
  }

  function Front(log: Log): Log
    requires |log| > 0
  {
    log[..|log| - 1]
  }

  // ---------------------------------------------------------------------------------------
  // What the log says

  predicate IsContract(e: Event) { e.Recorded? && e.record.Contract? }
  predicate IsEvaluation(e: Event) { e.Recorded? && e.record.Evaluation? }

  /** The contract in force. */
  function ContractOf(log: Log): Option<Record> {
    if log == [] then None
    else if IsContract(Last(log)) then Some(Last(log).record)
    else ContractOf(Front(log))
  }

  /** The verdict of the last report of this kind since the last contract. */
  function LatestVerdict(log: Log, kind: Kind): Option<Verdict> {
    if log == [] || IsContract(Last(log)) then None
    else if IsEvaluation(Last(log)) && Last(log).record.kind == kind then Some(Last(log).record.verdict)
    else LatestVerdict(Front(log), kind)
  }

  /** How many failing reports were accepted since the last contract. */
  function FailingReports(log: Log): nat {
    if log == [] || IsContract(Last(log)) then 0
    else FailingReports(Front(log)) + if IsEvaluation(Last(log)) && Last(log).record.verdict == Fail then 1 else 0
  }

  function Unreported(kinds: seq<Kind>, log: Log): (r: seq<Kind>)
    ensures forall k :: k in r <==> k in kinds && LatestVerdict(log, k).None?
  {
    if kinds == [] then []
    else
      var rest := Unreported(kinds[..|kinds| - 1], log);
      if LatestVerdict(log, kinds[|kinds| - 1]).None? then rest + [kinds[|kinds| - 1]] else rest
  }

  ghost predicate Passed(log: Log, kind: Kind) {
    LatestVerdict(log, kind) == Some(Pass)
  }

  // ---------------------------------------------------------------------------------------
  // The state agrees with the log

  ghost predicate Bucket(kinds: seq<Kind>, log: Log, v: Verdict) {
    Distinct(kinds) && forall k :: k in kinds <==> LatestVerdict(log, k) == Some(v)
  }

  ghost predicate BucketsAgree(e: Evaluators, log: Log) {
    && e.pending == Unreported(e.required, log)
    && Distinct(e.completed) && (forall k :: k in e.completed <==> LatestVerdict(log, k).Some?)
    && Bucket(e.failed, log, Fail)
    && Bucket(e.blocked, log, Blocked)
    && (forall k :: LatestVerdict(log, k).Some? ==> k in e.required)
  }

  ghost predicate NonPassingAgrees(e: Evaluators) {
    forall k :: k in e.nonPassing <==> k in e.failed || k in e.blocked
  }

  ghost predicate SomeLatest(log: Log, v: Verdict) {
    exists k :: LatestVerdict(log, k) == Some(v)
  }

  /** The aggregate as a fold of the latest verdicts. */
  ghost predicate AggregateAgrees(s: Snapshot, log: Log) {
    && (s.aggregate == SomeBlocked <==> SomeLatest(log, Blocked))
    && (s.aggregate == SomeFail <==> SomeLatest(log, Fail) && !SomeLatest(log, Blocked))
    && (s.aggregate == AllPass <==> forall k :: k in s.evaluators.required ==> Passed(log, k))
    && (s.aggregate == AllPass ==> s.openFailed == [])
    && (s.handoffRequired ==> s.evaluators.blocked != [])
  }

  ghost predicate Agrees(log: Log) {
    && |log| > 0 && ContractOf(log).Some? && ContractOf(log).value.Contract?
    && var s, c := Last(log).state, ContractOf(log).value;
       && s.evaluators.required == c.verifiers
       && BucketsAgree(s.evaluators, log) && NonPassingAgrees(s.evaluators)
       && AggregateAgrees(s, log)
       && s.retries == Retries(Saturated(FailingReports(log)), c.retryBudget, c.pivotThreshold)
  }

  lemma {:induction false} UnreportedNone(kinds: seq<Kind>, log: Log)
    requires log != [] && IsContract(Last(log))
    ensures Unreported(kinds, log) == kinds
  {
    if kinds != [] {
      UnreportedNone(kinds[..|kinds| - 1], log);
    }
  }

  lemma {:induction false} UnreportedSame(kinds: seq<Kind>, log: Log, shorter: Log)
    requires forall k :: LatestVerdict(log, k) == LatestVerdict(shorter, k)
    ensures Unreported(kinds, log) == Unreported(kinds, shorter)
  {
    if kinds != [] {
      UnreportedSame(kinds[..|kinds| - 1], log, shorter);
    }
  }

  lemma {:induction false} UnreportedAfterReport(kinds: seq<Kind>, log: Log, kind: Kind)
    requires log != [] && IsEvaluation(Last(log)) && Last(log).record.kind == kind
    ensures Unreported(kinds, log) == Without(Unreported(kinds, Front(log)), kind)
  {
    if kinds != [] {
      var rest, k := kinds[..|kinds| - 1], kinds[|kinds| - 1];
      UnreportedAfterReport(rest, log, kind);
      var before := Unreported(rest, Front(log));
      WithoutConcat(before, [k], kind);
      assert LatestVerdict(log, k) == if k == kind then Some(Last(log).record.verdict)
          else LatestVerdict(Front(log), k);
      assert Without([k], kind) == if k == kind then [] else [k];
    }
  }

  /** A state whose buckets agree has nothing left for the legacy bootstrap to do. */
  lemma BootstrapIsNoOp(s: Snapshot, legacy: LegacyVerdicts)
    requires NonPassingAgrees(s.evaluators)
    ensures Bootstrapped(s, legacy) == s.evaluators
  {
    HeadIsMember(s.evaluators.nonPassing);
  }

  lemma AgreesAfterContract(log: Log)
    requires |log| > 1 && Follows(log[|log| - 2].state, Last(log)) && IsContract(Last(log))
    ensures Agrees(log)
  {
    UnreportedNone(Last(log).record.verifiers, log);
    assert forall k :: LatestVerdict(log, k).None?;
    HeadIsMember(Last(log).record.verifiers);
    assert !Passed(log, Last(log).record.verifiers[0]);
  }

  lemma AgreesAfterQuietEvent(log: Log)
    requires |log| > 1 && Agrees(Front(log)) && Follows(Last(Front(log)).state, Last(log))
    requires !IsContract(Last(log)) && !IsEvaluation(Last(log))
    ensures Agrees(log)
  {
    assert forall k :: LatestVerdict(log, k) == LatestVerdict(Front(log), k);
    var s := Last(Front(log)).state;
    UnreportedSame(s.evaluators.required, log, Front(log));
    assert forall v :: SomeLatest(log, v) == SomeLatest(Front(log), v);
    assert forall k :: Passed(log, k) == Passed(Front(log), k);
    if Last(log).Recorded? {
      HeadIsMember(s.evaluators.blocked);
      assert LatestVerdict(log, s.evaluators.blocked[0]) == Some(Blocked);
    }
  }

  /** One report moves the buckets from the old fold to the new one. */
  lemma BucketsAfterReport(log: Log, e: Evaluators, kind: Kind, verdict: Verdict)
    requires log != [] && IsEvaluation(Last(log)) && Last(log).record.kind == kind
             && Last(log).record.verdict == verdict
    requires BucketsAgree(e, Front(log)) && kind in e.required
    ensures BucketsAgree(Judged(Superseded(e, kind), kind, verdict), log)
  {
    assert forall k :: LatestVerdict(log, k) == if k == kind then Some(verdict) else LatestVerdict(Front(log), k);
    UnreportedAfterReport(e.required, log, kind);
    WithoutDistinct(e.failed, kind);
    WithoutDistinct(e.blocked, kind);
  }

  lemma AggregateAfterReport(log: Log, u: Snapshot)
    requires BucketsAgree(u.evaluators, log) && u.evaluators.required != []
    ensures AggregateAgrees(Recomputed(u), log)
  {
    var e := u.evaluators;
    HeadIsMember(e.blocked);
    HeadIsMember(e.failed);
    HeadIsMember(e.pending);
    assert e.blocked != [] <==> SomeLatest(log, Blocked) by {
      assert e.blocked != [] ==> LatestVerdict(log, e.blocked[0]) == Some(Blocked);
    }
    assert e.failed != [] <==> SomeLatest(log, Fail) by {
      assert e.failed != [] ==> LatestVerdict(log, e.failed[0]) == Some(Fail);
    }
    var allPassed := forall k :: k in e.required ==> Passed(log, k);
    assert allPassed <==> e.blocked == [] && e.failed == [] && e.pending == [] by {
      AllPassedMeaning(log, e);
    }
  }

  lemma AllPassedMeaning(log: Log, e: Evaluators)
    requires BucketsAgree(e, log)
    ensures (forall k :: k in e.required ==> Passed(log, k)) <==> e.blocked == [] && e.failed == [] && e.pending == []
  {
    HeadIsMember(e.blocked);
    HeadIsMember(e.failed);
    HeadIsMember(e.pending);
    forall k
      ensures k in e.required && !Passed(log, k) <==> k in e.pending || k in e.failed || k in e.blocked
    {
      var latest := LatestVerdict(log, k);
      assert latest.Some? ==> latest.value.Pass? || latest.value.Fail? || latest.value.Blocked?;
    }
  }

  lemma RecomputedKeeps(u: Snapshot)
    ensures var t, e := Recomputed(u), u.evaluators;
            && t.evaluators == e.(nonPassing := NonPassing(e.required, e.failed, e.blocked))
            && t.retries == u.retries && t.sequences == u.sequences && t.contract == u.contract
            && t.lastReport == u.lastReport && t.indexHealthy == u.indexHealthy
            && (EvaluationPhase(t.phase) <==> e.blocked == [] && t.phase != PivotRequired)
            && (t.openFailed == u.openFailed || (t.openFailed == [] && e.failed == [] && e.blocked == []))
  {
  }

  lemma AgreesAfterReport(log: Log)
    requires |log| > 1 && Agrees(Front(log)) && Follows(Last(Front(log)).state, Last(log)) && IsEvaluation(Last(log))
    ensures Agrees(log)
  {
    var s, r := Last(Front(log)).state, Last(log).record;
    BootstrapIsNoOp(s, Last(log).legacy);
    BucketsAfterReport(log, s.evaluators, r.kind, r.verdict);
    AgreesWithReported(log, Reported(s, r, s.evaluators), r);
  }

  lemma AgreesWithReported(log: Log, u: Snapshot, r: Record)
    requires |log| > 1 && Agrees(Front(log)) && IsEvaluation(Last(log)) && Last(log).record == r
    requires BucketsAgree(u.evaluators, log) && u.evaluators.required == Last(Front(log)).state.evaluators.required
    requires r.kind in u.evaluators.required
    requires u.retries == RetriesAfter(Last(Front(log)).state.retries,
             LatestSequence(Last(Front(log)).state.sequences), r)
    requires LatestSequence(Last(Front(log)).state.sequences) < r.sequence
    requires Last(log).state == Recomputed(u).(sequences := Last(log).state.sequences, indexHealthy := true)
    ensures Agrees(log)
  {
    AggregateAfterReport(log, u);
    RecomputedKeeps(u);
    assert ContractOf(log) == ContractOf(Front(log));
    var s := Last(log).state;
    assert BucketsAgree(s.evaluators, log);
    assert AggregateAgrees(s, log);
  }

  lemma RunFront(log: Log)
    requires IsRun(log) && |log| > 1
    ensures IsRun(Front(log)) && Follows(Last(Front(log)).state, Last(log))
    ensures log[|log| - 2] == Last(Front(log))
  {
    assert StepOf(log, |log| - 1);
    forall i | 0 < i < |log| - 1
      ensures StepOf(Front(log), i)
    {
      assert StepOf(log, i);
    }
  }

  /** Over every run, from whatever state it starts, once a contract has been recorded the state
      kept incrementally is the fold of the latest verdicts since that contract. */
  lemma {:induction false} StateAgreesWithHistory(log: Log)
    requires IsRun(log) && ContractOf(log).Some?
    ensures Agrees(log)
    decreases |log|
  {
    assert |log| > 1;
    RunFront(log);
    if IsContract(Last(log)) {
      AgreesAfterContract(log);
    } else {
      StateAgreesWithHistory(Front(log));
      if IsEvaluation(Last(log)) {
        AgreesAfterReport(log);
      } else {
        AgreesAfterQuietEvent(log);
      }
    }
  }

  /** After each accepted evaluation the phase is pivot_required exactly when no kind is blocked,
      some kind is failed, the threshold is positive and the failing reports accepted since the
      contract reach it. The saturating counter never changes that answer. */
  lemma PivotExactly(log: Log)
    requires IsRun(log) && ContractOf(log).Some? && IsEvaluation(Last(log))
    ensures ContractOf(log).value.Contract?
    ensures Last(log).state.phase == PivotRequired <==>
            && !SomeLatest(log, Blocked) && SomeLatest(log, Fail)
            && 0 < ContractOf(log).value.pivotThreshold <= FailingReports(log)
  {
    StateAgreesWithHistory(log);
    RunFront(log);
    var s := Last(log).state;
    HeadIsMember(s.evaluators.blocked);
    HeadIsMember(s.evaluators.failed);
    assert s.evaluators.blocked != [] ==> LatestVerdict(log, s.evaluators.blocked[0]) == Some(Blocked);
    assert s.evaluators.failed != [] ==> LatestVerdict(log, s.evaluators.failed[0]) == Some(Fail);
  }

  /** The other phases an accepted evaluation can lead to. */
  lemma PhaseExactly(log: Log)
    requires IsRun(log) && ContractOf(log).Some? && IsEvaluation(Last(log))
    ensures var s := Last(log).state;
            && (s.phase == HandoffRequired <==> SomeLatest(log, Blocked))
            && (s.handoffRequired <==> SomeLatest(log, Blocked))
            && (s.phase == Executing <==> !SomeLatest(log, Blocked) && !SomeLatest(log, Fail))
            && (s.phase == HandoffRequired || s.phase == Executing || s.phase == PivotRequired || s.phase == Repairing)
  {
    StateAgreesWithHistory(log);
    RunFront(log);
    var s := Last(log).state;
    HeadIsMember(s.evaluators.blocked);
    HeadIsMember(s.evaluators.failed);
    assert s.evaluators.blocked != [] ==> LatestVerdict(log, s.evaluators.blocked[0]) == Some(Blocked);
    assert s.evaluators.failed != [] ==> LatestVerdict(log, s.evaluators.failed[0]) == Some(Fail);
  }

  // ---------------------------------------------------------------------------------------
  // Open criteria

  ghost predicate AllPassed(log: Log) {
    && ContractOf(log).Some? && ContractOf(log).value.Contract?
    && forall k :: k in ContractOf(log).value.verifiers ==> Passed(log, k)
  }

  /** What the history says of a criterion: a contract closes it, a handoff lists it or not, a report
      that mentions it decides on it, and a report that completes the set of passes closes everything. */
  ghost predicate OpenIn(log: Log, id: string) {
    && log != [] && !IsContract(Last(log))
    && if !Last(log).Recorded? then OpenIn(Front(log), id)
       else if Last(log).record.Handoff? then id in Last(log).record.openCriteria
       else if AllPassed(log) || !Last(log).record.Evaluation? then false
       else if id in Ids(Last(log).record.results) then
         Last(log).record.verdict != Pass && id in FailingIds(Last(log).record.results)
       else OpenIn(Front(log), id)
  }

  lemma OpenAfterReport(log: Log)
    requires |log| > 1 && IsRun(log) && ContractOf(log).Some? && IsEvaluation(Last(log))
    ensures var before, s, r := Last(Front(log)).state, Last(log).state, Last(log).record;
            s.openFailed == if AllPassed(log) then [] else CriteriaAfter(before.openFailed, r)
  {
    StateAgreesWithHistory(log);
    RunFront(log);
    assert Last(log).state.aggregate == AllPass <==> AllPassed(log);
  }

  /** Over every run the open criteria are those that the history leaves open. */
  lemma {:induction false} OpenCriteriaAgree(log: Log)
    requires IsRun(log) && ContractOf(log).Some?
    ensures forall id :: id in Last(log).state.openFailed <==> OpenIn(log, id)
    decreases |log|
  {
    assert |log| > 1;
    RunFront(log);
    if !IsContract(Last(log)) {
      OpenCriteriaAgree(Front(log));
      if IsEvaluation(Last(log)) {
        OpenAfterReport(log);
      }
    }
  }

  // ---------------------------------------------------------------------------------------
  // Ordering and replay

  lemma {:induction false} LatestIsLastRecorded(log: Log, i: nat, j: nat)
    requires IsRun(log) && i <= j < |log| && log[i].Recorded?
    ensures log[i].record.sequence <= LatestSequence(log[j].state.sequences)
    decreases j
  {
    if i < j {
      LatestIsLastRecorded(log, i, j - 1);
      assert StepOf(log, j);
      LatestGrows(log[j - 1].state, log[j]);
    } else {
      assert i > 0 && StepOf(log, i);
      LatestGrows(log[i - 1].state, log[i]);
    }
  }

  lemma {:induction false} LatestGrows(prev: Snapshot, e: Event)
    requires Follows(prev, e)
    ensures LatestSequence(prev.sequences) <= LatestSequence(e.state.sequences)
    ensures e.Recorded? ==> LatestSequence(e.state.sequences) == e.record.sequence
  {
  }

  /** Accepted records carry strictly increasing sequences over every run. */
  lemma SequencesIncrease(log: Log, i: nat, j: nat)
    requires IsRun(log) && i < j < |log| && log[i].Recorded? && log[j].Recorded?
    ensures log[i].record.sequence < log[j].record.sequence
  {
    LatestIsLastRecorded(log, i, j - 1);
    assert StepOf(log, j);
  }

  /** An equal-sequence call is let through only when it would not change the state. */
  ghost predicate ReplayAccepted(s: Snapshot, r: Record, legacy: LegacyVerdicts) {
    Legal(s, r) && r.sequence == LatestSequence(s.sequences) && Applied(s, r, legacy) == s
  }

  lemma RebucketTwice(e: Evaluators, kind: Kind, v: Verdict)
    ensures var once := Judged(Superseded(e, kind), kind, v);
            Judged(Superseded(once, kind), kind, v) == once
  {
    var once := Judged(Superseded(e, kind), kind, v);
    WithoutAbsent(once.pending, kind);
    WithoutLast(Without(e.failed, kind), kind);
    WithoutLast(Without(e.blocked, kind), kind);
    WithoutAbsent(Without(e.failed, kind), kind);
    WithoutAbsent(Without(e.blocked, kind), kind);
  }

  lemma CriteriaTwice(open: seq<string>, r: Record)
    requires r.Evaluation?
    ensures CriteriaAfter(CriteriaAfter(open, r), r) == CriteriaAfter(open, r)
    ensures CriteriaAfter([], r) == [] || r.verdict != Pass
  {
    if r.verdict == Pass {
      AllWithoutAbsent(AllWithout(open, Ids(r.results)), Ids(r.results));
      AllWithoutAbsent([], Ids(r.results));
    } else {
      ReplaceTwice(open, Ids(r.results), FailingIds(r.results));
    }
  }

  lemma RecomputeTwice(u: Snapshot)
    ensures Recomputed(Recomputed(u)) == Recomputed(u)
  {
  }

  lemma ReportTwice(s: Snapshot, r: Record, e: Evaluators, t: Snapshot)
    requires r.Evaluation? && r.sequence == LatestSequence(t.sequences)
    requires t == Recomputed(Reported(s, r, e)).(sequences := t.sequences, indexHealthy := t.indexHealthy)
    ensures Reported(t, r, t.evaluators) == t
  {
    RecomputedKeeps(Reported(s, r, e));
    RebucketTwice(e, r.kind, r.verdict);
    CriteriaTwice(s.openFailed, r);
    var once := Judged(Superseded(e, r.kind), r.kind, r.verdict);
    assert Judged(Superseded(t.evaluators, r.kind), r.kind, r.verdict) == t.evaluators;
    assert CriteriaAfter(t.openFailed, r) == t.openFailed;
    assert RetriesAfter(t.retries, LatestSequence(t.sequences), r) == t.retries;
  }

  /** Applying a report again straight after it was accepted, in any state, reproduces the state
      exactly: list order, retry count, phase and open criteria included. */
  lemma ReplayReproducesState(s: Snapshot, r: Record, legacy: LegacyVerdicts, again: LegacyVerdicts)
    requires r.Evaluation?
    ensures var t := Committed(s, r, legacy);
            Applied(t, r, again) == t
  {
    var t := Committed(s, r, legacy);
    var u := Reported(s, r, Bootstrapped(s, legacy));
    RecomputedKeeps(u);
    BootstrapIsNoOp(t, again);
    ReportTwice(s, r, Bootstrapped(s, legacy), t);
    RecomputeTwice(u);
    assert Recomputed(t) == t;
  }

  lemma LegalAfterReport(s: Snapshot, r: Record, e: Evaluators, t: Snapshot)
    requires r.Evaluation? && Legal(s, r) && e.required == s.evaluators.required
    requires t == Recomputed(Reported(s, r, e)).(sequences := t.sequences, indexHealthy := t.indexHealthy)
    ensures Legal(t, r) <==> t.evaluators.blocked == [] && t.phase != PivotRequired
  {
    RecomputedKeeps(Reported(s, r, e));
  }

  /** So a replay straight after acceptance is let through exactly while the new phase is still one
      in which evaluations are legal, that is unless it blocked the run or made it pivot. */
  lemma ReplayAcceptedExactly(s: Snapshot, r: Record, legacy: LegacyVerdicts, again: LegacyVerdicts)
    requires r.Evaluation? && Legal(s, r)
    ensures var t := Committed(s, r, legacy);
            ReplayAccepted(t, r, again) <==> t.evaluators.blocked == [] && t.phase != PivotRequired
  {
    ReplayReproducesState(s, r, legacy, again);
    LegalAfterReport(s, r, Bootstrapped(s, legacy), Committed(s, r, legacy));
  }

  /** Contracts and handoffs always move the phase, so they are never replayed. */
  lemma OnlyEvaluationsReplay(s: Snapshot, r: Record, legacy: LegacyVerdicts)
    requires ReplayAccepted(s, r, legacy)
    ensures r.Evaluation?
  {
    assert Applied(s, r, legacy).phase == s.phase;
  }
}
