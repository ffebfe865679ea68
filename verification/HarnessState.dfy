/** The harness state that contract, evaluation and handoff records change, and the three
    transitions on it. The class is the record the runtime updates in place; `Snapshot` is its
    value, which the runtime clones, compares and serialises. */
module HarnessState {
  import opened Lists

  type Kind = string           // evaluator kind
  type Fingerprint = string

  const MAX_U32: nat := 0xFFFF_FFFF
  type U32 = x: nat | x <= 0xFFFF_FFFF

  datatype Verdict = Pass | Fail | Blocked

  datatype Phase =
    | ContractPendingApproval
    | ContractApproved
    | Executing
    | Evaluating
    | Repairing
    | HandoffRequired
    | PivotRequired
    | OtherPhase(name: string)

  datatype Aggregate = AllPending | AllPass | SomeFail | SomeBlocked

  datatype CriterionResult = CriterionResult(id: string, passed: bool)

  /** A parsed artifact together with the exact text it was parsed from. */
  datatype Record =
    | Contract(fingerprint: Fingerprint, sequence: nat, text: string,
               verifiers: seq<Kind>, retryBudget: U32, pivotThreshold: U32)
    | Evaluation(fingerprint: Fingerprint, sequence: nat, text: string, source: Fingerprint,
                 kind: Kind, verdict: Verdict, results: seq<CriterionResult>)
    | Handoff(fingerprint: Fingerprint, sequence: nat, text: string, source: Fingerprint,
              openCriteria: seq<string>)

  datatype ArtifactKind = ContractArtifact | EvaluationArtifact | HandoffArtifact

  /** The file name `<kind>-<fingerprint>.md`, which is also the identity of the index node. */
  datatype ArtifactName = ArtifactName(kind: ArtifactKind, fingerprint: Fingerprint)

  datatype LastReport = LastReport(path: ArtifactName, fingerprint: Fingerprint, kind: Kind, verdict: Verdict)

  datatype Sequences = Sequences(latest: Option<nat>, authoritative: Option<nat>)

  datatype ActiveContract = ActiveContract(path: Option<ArtifactName>, fingerprint: Option<Fingerprint>)

  datatype Evaluators = Evaluators(
    required: seq<Kind>, completed: seq<Kind>, pending: seq<Kind>,
    nonPassing: seq<Kind>, failed: seq<Kind>, blocked: seq<Kind>)

  datatype Retries = Retries(count: U32, budget: U32, pivotThreshold: U32)

  datatype Snapshot = Snapshot(
    phase: Phase,
    sequences: Sequences,
    contract: ActiveContract,
    evaluators: Evaluators,
    aggregate: Aggregate,
    lastReport: Option<LastReport>,
    retries: Retries,
    handoffRequired: bool,
    openFailed: seq<string>,
    indexHealthy: bool)

  /** What the verdict history on disk says about each evaluator, when it can be derived. */
  type LegacyVerdicts = Option<map<Kind, Verdict>>

  // ---------------------------------------------------------------------------------------
  // The transitions on values

  function LatestSequence(s: Sequences): nat {
    match s.latest
    case Some(n) => n
    case None => if s.authoritative.Some? then s.authoritative.value else 0
  }

  function Ids(results: seq<CriterionResult>): (ids: seq<string>) {
    if results == [] then [] else Ids(results[..|results| - 1]) + [results[|results| - 1].id]
  }

  function FailingIds(results: seq<CriterionResult>): (ids: seq<string>)
    ensures forall id :: id in ids ==> id in Ids(results)
  {
    if results == [] then []
    else
      var rest := FailingIds(results[..|results| - 1]);
      if results[|results| - 1].passed then rest else rest + [results[|results| - 1].id]
  }

  function KindsWith(kinds: seq<Kind>, verdicts: map<Kind, Verdict>, v: Verdict): seq<Kind> {
    if kinds == [] then []
    else
      var rest := KindsWith(kinds[..|kinds| - 1], verdicts, v);
      var k := kinds[|kinds| - 1];
      if k in verdicts && verdicts[k] == v then WithUnique(rest, k) else rest
  }

  /** Rebuilds the failed and blocked buckets of a state written before they existed. */
  function Bootstrapped(s: Snapshot, legacy: LegacyVerdicts): Evaluators {
    var e := s.evaluators;
    if e.failed != [] || e.blocked != [] || e.nonPassing == [] then e
    else if legacy.Some? then
      e.(failed := KindsWith(e.nonPassing, legacy.value, Fail),
          blocked := KindsWith(e.nonPassing, legacy.value, Blocked))
    else if s.handoffRequired || s.phase == HandoffRequired || s.aggregate == SomeBlocked then
      e.(blocked := AllWithUnique([], e.nonPassing))
    else
      e.(failed := AllWithUnique([], e.nonPassing))
  }

  function Keep(kinds: seq<Kind>, wanted: seq<Kind>): (r: seq<Kind>)
    ensures forall k :: k in r <==> k in kinds && k in wanted
  {
    if kinds == [] then []
    else if kinds[|kinds| - 1] in wanted then Keep(kinds[..|kinds| - 1], wanted) + [kinds[|kinds| - 1]]
    else Keep(kinds[..|kinds| - 1], wanted)
  }

  function NonPassing(required: seq<Kind>, failed: seq<Kind>, blocked: seq<Kind>): (r: seq<Kind>)
    ensures forall k :: k in r <==> k in failed || k in blocked
  {
    AllWithUnique(Keep(required, failed + blocked), failed + blocked)
  }

  function PhaseFor(e: Evaluators, r: Retries): Phase {
    if e.blocked != [] then HandoffRequired
    else if e.failed == [] then Executing
    else if PivotDue(r) then PivotRequired
    else Repairing
  }

  function AggregateFor(e: Evaluators): Aggregate {
    if e.blocked != [] then SomeBlocked
    else if e.failed != [] then SomeFail
    else if e.pending == [] then AllPass
    else AllPending
  }

  /** The aggregate fields as functions of the buckets. */
  function Recomputed(s: Snapshot): Snapshot {
    var e := s.evaluators;
    s.(phase := PhaseFor(e, s.retries),
       evaluators := e.(nonPassing := NonPassing(e.required, e.failed, e.blocked)),
       aggregate := AggregateFor(e),
       handoffRequired := e.blocked != [],
       openFailed := if AggregateFor(e) == AllPass then [] else s.openFailed)
  }

  predicate PivotDue(r: Retries) {
    r.pivotThreshold > 0 && r.count >= r.pivotThreshold
  }

  function Saturated(n: nat): U32 {
    if n <= MAX_U32 then n else MAX_U32
  }

  function ContractApplied(s: Snapshot, r: Record): Snapshot
    requires r.Contract?
  {
    s.(phase := ContractApproved,
       contract := ActiveContract(Some(ArtifactName(ContractArtifact, r.fingerprint)), Some(r.fingerprint)),
       evaluators := Evaluators(r.verifiers, [], r.verifiers, [], [], []),
       aggregate := AllPending, lastReport := None,
       retries := Retries(0, r.retryBudget, r.pivotThreshold),
       handoffRequired := false, openFailed := [])
  }

  /** The kind leaves every bucket and counts as completed. */
  function Superseded(e: Evaluators, kind: Kind): Evaluators {
    e.(pending := Without(e.pending, kind), completed := WithUnique(e.completed, kind),
       failed := Without(e.failed, kind), blocked := Without(e.blocked, kind))
  }

  /** The kind enters the bucket of its verdict. */
  function Judged(e: Evaluators, kind: Kind, verdict: Verdict): Evaluators {
    match verdict
    case Pass => e
    case Fail => e.(failed := WithUnique(e.failed, kind))
    case Blocked => e.(blocked := WithUnique(e.blocked, kind))
  }

  /** The reported criteria leave the open list; those that did not pass come back at its end,
      unless the report as a whole passed. */
  function CriteriaAfter(open: seq<string>, r: Record): seq<string>
    requires r.Evaluation?
  {
    var kept := AllWithout(open, Ids(r.results));
    if r.verdict == Pass then kept else AllWithUnique(kept, FailingIds(r.results))
  }

  function RetriesAfter(retries: Retries, latest: nat, r: Record): Retries
    requires r.Evaluation?
  {
    if r.verdict == Fail && latest < r.sequence then retries.(count := Saturated(retries.count + 1)) else retries
  }

  /** Everything a report changes before the aggregate is recomputed. */
  function Reported(s: Snapshot, r: Record, e: Evaluators): Snapshot
    requires r.Evaluation?
  {
    s.(evaluators := Judged(Superseded(e, r.kind), r.kind, r.verdict),
       lastReport := Some(LastReport(ArtifactName(EvaluationArtifact, r.fingerprint), r.fingerprint, r.kind,
           r.verdict)),
       retries := RetriesAfter(s.retries, LatestSequence(s.sequences), r),
       openFailed := CriteriaAfter(s.openFailed, r))
  }

  function EvaluationApplied(s: Snapshot, r: Record, legacy: LegacyVerdicts): Snapshot
    requires r.Evaluation?
  {
    Recomputed(Reported(s, r, Bootstrapped(s, legacy)))
  }

  function HandoffApplied(s: Snapshot, r: Record): Snapshot
    requires r.Handoff?
  {
    s.(phase := Executing, handoffRequired := false, openFailed := r.openCriteria)
  }

  function Applied(s: Snapshot, r: Record, legacy: LegacyVerdicts): Snapshot {
    match r
    case Contract(_, _, _, _, _, _) => ContractApplied(s, r)
    case Evaluation(_, _, _, _, _, _, _) => EvaluationApplied(s, r, legacy)
    case Handoff(_, _, _, _, _) => HandoffApplied(s, r)
  }

  function Committed(s: Snapshot, r: Record, legacy: LegacyVerdicts): Snapshot {
    Applied(s, r, legacy).(sequences := Sequences(Some(r.sequence), Some(r.sequence)), indexHealthy := true)
  }

  predicate EvaluationPhase(p: Phase) {
    p == Executing || p == Evaluating || p == Repairing
  }

  predicate ActiveContractIs(s: Snapshot, fingerprint: Fingerprint) {
    s.contract == ActiveContract(Some(ArtifactName(ContractArtifact, fingerprint)), Some(fingerprint))
  }

  /** What the gate demands of the locked state itself before a record is looked at further. The reader
      has already refused a contract without verifiers. */
  predicate Legal(s: Snapshot, r: Record) {
    match r
    case Contract(_, _, _, verifiers, _, _) => s.phase == ContractPendingApproval && verifiers != []
    case Evaluation(_, _, _, source, kind, _, _) =>
      EvaluationPhase(s.phase) && ActiveContractIs(s, source) && kind in s.evaluators.required
    case Handoff(_, _, _, source, _) =>
      s.phase == HandoffRequired && s.handoffRequired && ActiveContractIs(s, source)
  }

  // ---------------------------------------------------------------------------------------
  // The record updated in place

  class MutableHarnessState {
    var phase: Phase
    var sequences: Sequences
    var contract: ActiveContract
    var evaluators: Evaluators
    var aggregate: Aggregate
    var lastReport: Option<LastReport>
    var retries: Retries
    var handoffRequired: bool
    var openFailed: seq<string>
    var indexHealthy: bool

    function Value(): Snapshot
      reads this
    {
      Snapshot(phase, sequences, contract, evaluators, aggregate, lastReport, retries, handoffRequired, openFailed,
          indexHealthy)
    }

    constructor (s: Snapshot)
      ensures Value() == s
    {
      phase, sequences, contract, evaluators := s.phase, s.sequences, s.contract, s.evaluators;
      aggregate, lastReport, retries := s.aggregate, s.lastReport, s.retries;
      handoffRequired, openFailed, indexHealthy := s.handoffRequired, s.openFailed, s.indexHealthy;
    }

    method SetLatestSequence(n: nat)
      modifies this`sequences
      ensures sequences == Sequences(Some(n), Some(n))
    {
      sequences := Sequences(Some(n), Some(n));
    }

    method SetIndexHealthy()
      modifies this`indexHealthy
      ensures indexHealthy
    {
      indexHealthy := true;
    }

    method BootstrapVerdictBuckets(legacy: LegacyVerdicts)
      modifies this`evaluators
      ensures evaluators == Bootstrapped(old(Value()), legacy)
    {
      var e := evaluators;
      if e.failed != [] || e.blocked != [] || e.nonPassing == [] {
        return;
      }
      var kinds := e.nonPassing;
      if legacy.Some? {
        for i := 0 to |kinds|
          invariant evaluators == e.(failed := KindsWith(kinds[..i], legacy.value, Fail),
                                     blocked := KindsWith(kinds[..i], legacy.value, Blocked))
        {
          assert kinds[..i + 1][..i] == kinds[..i];
          var k := kinds[i];
          if k in legacy.value && legacy.value[k] == Fail {
            var more := PushUnique(evaluators.failed, k);
            evaluators := evaluators.(failed := more);
          } else if k in legacy.value && legacy.value[k] == Blocked {
            var more := PushUnique(evaluators.blocked, k);
            evaluators := evaluators.(blocked := more);
          }
        }
        assert kinds[..|kinds|] == kinds;
      } else if handoffRequired || phase == HandoffRequired || aggregate == SomeBlocked {
        var all := PushAllUnique([], kinds);
        evaluators := e.(blocked := all);
      } else {
        var all := PushAllUnique([], kinds);
        evaluators := e.(failed := all);
      }
    }

    method RefreshNonPassing()
      modifies this`evaluators
      ensures var e := old(evaluators);
              evaluators == e.(nonPassing := NonPassing(e.required, e.failed, e.blocked))
    {
      var e := evaluators;
      var recomputed := [];
      for i := 0 to |e.required|
        invariant recomputed == Keep(e.required[..i], e.failed + e.blocked)
      {
        assert e.required[..i + 1][..i] == e.required[..i];
        if e.required[i] in e.failed || e.required[i] in e.blocked {
          recomputed := recomputed + [e.required[i]];
        }
      }
      assert e.required[..|e.required|] == e.required;
      recomputed := PushAllUnique(recomputed, e.failed + e.blocked);
      evaluators := e.(nonPassing := recomputed);
    }

    method RecomputeEvaluatorState()
      modifies this
      ensures Value() == Recomputed(old(Value()))
    {
      RefreshNonPassing();
      if evaluators.blocked != [] {
        phase, handoffRequired, aggregate := HandoffRequired, true, SomeBlocked;
        return;
      }
      if evaluators.failed != [] {
        if retries.pivotThreshold > 0 && retries.count >= retries.pivotThreshold {
          phase := PivotRequired;
        } else {
          phase := Repairing;
        }
        handoffRequired, aggregate := false, SomeFail;
        return;
      }
      handoffRequired, phase := false, Executing;
      if evaluators.pending == [] {
        aggregate, openFailed := AllPass, [];
      } else {
        aggregate := AllPending;
      }
    }

    method ApplyContract(r: Record)
      requires r.Contract?
      modifies this
      ensures Value() == ContractApplied(old(Value()), r)
    {
      phase := ContractApproved;
      contract := ActiveContract(Some(ArtifactName(ContractArtifact, r.fingerprint)), Some(r.fingerprint));
      evaluators := Evaluators(r.verifiers, [], r.verifiers, [], [], []);
      aggregate, lastReport := AllPending, None;
      retries := Retries(0, r.retryBudget, r.pivotThreshold);
      handoffRequired, openFailed := false, [];
    }

    /** Each report supersedes what its evaluator said before. */
    method Supersede(kind: Kind)
      modifies this`evaluators
      ensures evaluators == Superseded(old(evaluators), kind)
    {
      var pending := RemoveValue(evaluators.pending, kind);
      var completed := PushUnique(evaluators.completed, kind);
      var failed := RemoveValue(evaluators.failed, kind);
      var blocked := RemoveValue(evaluators.blocked, kind);
      evaluators := evaluators.(pending := pending, completed := completed, failed := failed, blocked := blocked);
    }

    method Judge(kind: Kind, verdict: Verdict)
      modifies this`evaluators
      ensures evaluators == Judged(old(evaluators), kind, verdict)
    {
      match verdict
      case Pass =>
      case Fail =>
        var failed := PushUnique(evaluators.failed, kind);
        evaluators := evaluators.(failed := failed);
      case Blocked =>
        var blocked := PushUnique(evaluators.blocked, kind);
        evaluators := evaluators.(blocked := blocked);
    }

    method UpdateOpenCriteria(r: Record)
      requires r.Evaluation?
      modifies this`openFailed
      ensures openFailed == CriteriaAfter(old(openFailed), r)
    {
      openFailed := RemoveAll(openFailed, Ids(r.results));
      if r.verdict != Pass {
        openFailed := PushAllUnique(openFailed, FailingIds(r.results));
      }
    }

    method CountFailure(r: Record)
      requires r.Evaluation?
      modifies this`retries
      ensures retries == RetriesAfter(old(retries), LatestSequence(sequences), r)
    {
      if r.verdict == Fail && LatestSequence(sequences) < r.sequence {
        retries := retries.(count := Saturated(retries.count + 1));
      }
    }

    method ApplyReport(r: Record)
      requires r.Evaluation?
      modifies this`evaluators, this`openFailed, this`retries, this`lastReport
      ensures evaluators == Judged(Superseded(old(evaluators), r.kind), r.kind, r.verdict)
      ensures openFailed == CriteriaAfter(old(openFailed), r)
      ensures retries == RetriesAfter(old(retries), LatestSequence(sequences), r)
      ensures lastReport == Some(LastReport(ArtifactName(EvaluationArtifact, r.fingerprint), r.fingerprint, r.kind,
              r.verdict))
    {
      Supersede(r.kind);
      Judge(r.kind, r.verdict);
      UpdateOpenCriteria(r);
      CountFailure(r);
      lastReport := Some(LastReport(ArtifactName(EvaluationArtifact, r.fingerprint), r.fingerprint, r.kind, r.verdict));
    }

    method ApplyEvaluation(r: Record, legacy: LegacyVerdicts)
      requires r.Evaluation?
      modifies this
      ensures Value() == EvaluationApplied(old(Value()), r, legacy)
    {
      BootstrapVerdictBuckets(legacy);
      ApplyReport(r);
      assert Value() == Reported(old(Value()), r, Bootstrapped(old(Value()), legacy));
      RecomputeEvaluatorState();
    }

    method ApplyHandoff(r: Record)
      requires r.Handoff?
      modifies this
      ensures Value() == HandoffApplied(old(Value()), r)
    {
      phase, handoffRequired, openFailed := Executing, false, r.openCriteria;
    }

    method Apply(r: Record, legacy: LegacyVerdicts)
      modifies this
      ensures Value() == Applied(old(Value()), r, legacy)
    {
      match r
      case Contract(_, _, _, _, _, _) => ApplyContract(r);
      case Evaluation(_, _, _, _, _, _, _) => ApplyEvaluation(r, legacy);
      case Handoff(_, _, _, _, _) => ApplyHandoff(r);
    }
  }
}
