/** What each kind of record leaves behind over every run, and which records a state admits. */
module RunLaws {
  import opened Lists
  import opened HarnessState
  import opened EventLog

  predicate IsHandoff(e: Event) {
    e.Recorded? && e.record.Handoff?
  }

  // ---------------------------------------------------------------------------------------
  // After one record

  /** A contract starts afresh. */
  lemma AfterContract(log: Log)
    requires IsRun(log) && IsContract(Last(log))
    ensures var s, r := Last(log).state, Last(log).record;
            && s.phase == ContractApproved
            && s.contract == ActiveContract(Some(ArtifactName(ContractArtifact, r.fingerprint)), Some(r.fingerprint))
            && s.evaluators.required == r.verifiers && s.evaluators.pending == r.verifiers
            && s.evaluators.completed == [] && s.evaluators.failed == [] && s.evaluators.blocked == []
            && s.evaluators.nonPassing == [] && s.aggregate == AllPending && s.lastReport == None
            && s.retries == Retries(0, r.retryBudget, r.pivotThreshold)
            && !s.handoffRequired && s.openFailed == []
            && s.sequences == Sequences(Some(r.sequence), Some(r.sequence)) && s.indexHealthy
  {
    RunFront(log);
  }

  /** A handoff sends the run back to executing with its own open criteria, and keeps everything else. */
  lemma AfterHandoff(log: Log)
    requires IsRun(log) && IsHandoff(Last(log))
    ensures |log| > 1
    ensures var before, s, r := log[|log| - 2].state, Last(log).state, Last(log).record;
            && s.phase == Executing && !s.handoffRequired && s.openFailed == r.openCriteria
            && s.evaluators == before.evaluators && s.aggregate == before.aggregate && s.retries == before.retries
            && s.contract == before.contract && s.lastReport == before.lastReport
            && s.sequences == Sequences(Some(r.sequence), Some(r.sequence)) && s.indexHealthy
            && before.phase == HandoffRequired && before.handoffRequired
  {
    RunFront(log);
  }

  lemma {:induction false} BootstrapKeepsRequired(s: Snapshot, legacy: LegacyVerdicts)
    ensures Bootstrapped(s, legacy).required == s.evaluators.required
  {
  }

  lemma {:induction false} ReportedKeeps(s: Snapshot, r: Record, e: Evaluators)
    requires r.Evaluation?
    ensures var u := Reported(s, r, e);
            && u.contract == s.contract && u.evaluators.required == e.required && u.lastReport == Some(ReportOn(r))
            && u.retries.budget == s.retries.budget && u.retries.pivotThreshold == s.retries.pivotThreshold
  {
  }

  lemma {:induction false} ReportKeeps(prev: Snapshot, e: Event)
    requires Follows(prev, e) && IsEvaluation(e)
    ensures var s, r := e.state, e.record;
            && s.contract == prev.contract && s.evaluators.required == prev.evaluators.required
            && s.retries.budget == prev.retries.budget && s.retries.pivotThreshold == prev.retries.pivotThreshold
            && s.lastReport == Some(ReportOn(r))
            && s.sequences == Sequences(Some(r.sequence), Some(r.sequence)) && s.indexHealthy
  {
    var b := Bootstrapped(prev, e.legacy);
    var u := Reported(prev, e.record, b);
    assert e.state == Recomputed(u).(sequences := e.state.sequences, indexHealthy := true);
    BootstrapKeepsRequired(prev, e.legacy);
    ReportedKeeps(prev, e.record, b);
    RecomputedKeeps(u);
  }

  /** After a report the run is repairing exactly when nothing is blocked, something is failed and the
      failing reports have not reached a positive threshold. */
  lemma RepairingExactly(log: Log)
    requires IsRun(log) && ContractOf(log).Some? && IsEvaluation(Last(log))
    ensures ContractOf(log).value.Contract?
    ensures Last(log).state.phase == Repairing <==>
            && !SomeLatest(log, Blocked) && SomeLatest(log, Fail)
            && !(0 < ContractOf(log).value.pivotThreshold <= FailingReports(log))
  {
    PhaseExactly(log);
    PivotExactly(log);
  }

  // ---------------------------------------------------------------------------------------
  // Over every run

  function ReportOn(r: Record): LastReport
    requires r.Evaluation?
  {
    LastReport(ArtifactName(EvaluationArtifact, r.fingerprint), r.fingerprint, r.kind, r.verdict)
  }

  /** The last report since the last contract. */
  function ReportOf(log: Log): Option<LastReport> {
    if log == [] || IsContract(Last(log)) then None
    else if IsEvaluation(Last(log)) then Some(ReportOn(Last(log).record))
    else ReportOf(Front(log))
  }

  /** Once a contract was recorded, the state names it as the active one by its file and fingerprint, and
      the last report since as the last one. */
  lemma {:induction false} ContractAndReportAgree(log: Log)
    requires IsRun(log) && ContractOf(log).Some?
    ensures var s, c := Last(log).state, ContractOf(log).value;
            && s.contract == ActiveContract(Some(ArtifactName(ContractArtifact, c.fingerprint)), Some(c.fingerprint))
            && s.lastReport == ReportOf(log)
    decreases |log|
  {
    assert |log| > 1;
    RunFront(log);
    if !IsContract(Last(log)) {
      ContractAndReportAgree(Front(log));
      if IsEvaluation(Last(log)) {
        ReportKeeps(Last(Front(log)).state, Last(log));
      }
    }
  }

  /** The latest sequence of a state is the one it keeps for that, else the authoritative one, else zero. */
  lemma LatestExactly(s: Sequences)
    ensures s.latest.Some? ==> LatestSequence(s) == s.latest.value
    ensures s.latest.None? && s.authoritative.Some? ==> LatestSequence(s) == s.authoritative.value
    ensures s.latest.None? && s.authoritative.None? ==> LatestSequence(s) == 0
  {
  }

  /** The sequence of the last accepted record, if any. */
  function SequenceOf(log: Log): Option<nat> {
    if log == [] then None else if Last(log).Recorded? then Some(Last(log).record.sequence) else SequenceOf(Front(log))
  }

  /** Once anything was recorded, the latest sequence is that of the last record. */
  lemma {:induction false} SequenceAgrees(log: Log)
    requires IsRun(log) && SequenceOf(log).Some?
    ensures Last(log).state.sequences == Sequences(SequenceOf(log), SequenceOf(log))
    ensures LatestSequence(Last(log).state.sequences) == SequenceOf(log).value
    decreases |log|
  {
    assert |log| > 1;
    RunFront(log);
    if IsEvaluation(Last(log)) {
      ReportKeeps(Last(Front(log)).state, Last(log));
    } else if !Last(log).Recorded? {
      SequenceAgrees(Front(log));
    }
  }

  // ---------------------------------------------------------------------------------------
  // What a state admits

  /** Contracts while their approval is pending, reports while executing, evaluating or repairing and only
      of required kinds, handoffs while one is required; the latter two against the active contract. */
  lemma LegalExactly(s: Snapshot, r: Record)
    ensures r.Contract? ==> (Legal(s, r) <==> s.phase == ContractPendingApproval && |r.verifiers| > 0)
    ensures r.Evaluation? ==>
              (Legal(s, r) <==>
               && s.phase in {Executing, Evaluating, Repairing} && r.kind in s.evaluators.required
               && s.contract.fingerprint == Some(r.source)
               && s.contract.path == Some(ArtifactName(ContractArtifact, r.source)))
    ensures r.Handoff? ==>
              (Legal(s, r) <==>
               && s.phase == HandoffRequired && s.handoffRequired && s.contract.fingerprint == Some(r.source)
               && s.contract.path == Some(ArtifactName(ContractArtifact, r.source)))
  {
  }

  /** So right after a handoff exactly the reports of required kinds against its contract are legal. */
  lemma LegalAfterHandoff(log: Log, r: Record)
    requires IsRun(log) && IsHandoff(Last(log)) && ContractOf(log).Some? && r.Evaluation?
    ensures ContractOf(log).value.Contract?
    ensures Legal(Last(log).state, r) <==>
            r.source == ContractOf(log).value.fingerprint && r.kind in ContractOf(log).value.verifiers
  {
    AfterHandoff(log);
    ContractAndReportAgree(log);
    StateAgreesWithHistory(log);
  }

  /** Right after a report that some evaluator blocked on, exactly the handoffs against its contract are. */
  lemma LegalAfterBlock(log: Log, r: Record)
    requires IsRun(log) && IsEvaluation(Last(log)) && ContractOf(log).Some? && SomeLatest(log, Blocked) && r.Handoff?
    ensures Legal(Last(log).state, r) <==> r.source == ContractOf(log).value.fingerprint
  {
    PhaseExactly(log);
    ContractAndReportAgree(log);
  }

  // ---------------------------------------------------------------------------------------
  // List order

  /** The non-passing list begins with the required kinds, in their order, and what is open stays in front
      of what a report opens. */
  lemma {:induction false} OrderIsKept(e: Evaluators, open: seq<string>, r: Record)
    requires r.Evaluation?
    ensures Keep(e.required, e.failed + e.blocked) <= NonPassing(e.required, e.failed, e.blocked)
    ensures AllWithout(open, Ids(r.results)) <= CriteriaAfter(open, r)
  {
    AllWithUniqueAppends(Keep(e.required, e.failed + e.blocked), e.failed + e.blocked);
    AllWithUniqueAppends(AllWithout(open, Ids(r.results)), FailingIds(r.results));
  }

  // ---------------------------------------------------------------------------------------
  // The buckets of a state written before there were buckets

  lemma {:induction false} KindsWithHas(kinds: seq<Kind>, verdicts: map<Kind, Verdict>, v: Verdict, k: Kind)
    ensures k in KindsWith(kinds, verdicts, v) <==> k in kinds && k in verdicts && verdicts[k] == v
  {
    if kinds != [] {
      var n := |kinds| - 1;
      KindsWithHas(kinds[..n], verdicts, v, k);
      assert kinds == kinds[..n] + [kinds[n]];
    }
  }

  /** With no buckets and some kinds not passing: a kind is failed or blocked as the derived history says,
      and without one all of them are blocked if the run waits for a handoff or is blocked, else failed. */
  lemma BootstrapExactly(s: Snapshot, legacy: LegacyVerdicts, k: Kind)
    requires s.evaluators.failed == [] && s.evaluators.blocked == [] && s.evaluators.nonPassing != []
    ensures var e, was := Bootstrapped(s, legacy), s.evaluators.nonPassing;
            var waits := s.handoffRequired || s.phase == HandoffRequired || s.aggregate == SomeBlocked;
            && (legacy.Some? ==>
                  && (k in e.failed <==> k in was && k in legacy.value && legacy.value[k] == Fail)
                  && (k in e.blocked <==> k in was && k in legacy.value && legacy.value[k] == Blocked))
            && (legacy.None? && waits ==> e.failed == [] && (k in e.blocked <==> k in was))
            && (legacy.None? && !waits ==> e.blocked == [] && (k in e.failed <==> k in was))
            && e == s.evaluators.(failed := e.failed, blocked := e.blocked)
  {
    if legacy.Some? {
      KindsWithHas(s.evaluators.nonPassing, legacy.value, Fail, k);
      KindsWithHas(s.evaluators.nonPassing, legacy.value, Blocked, k);
    }
  }
}
