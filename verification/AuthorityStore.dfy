/** The authoritative mutation: artifact, dependency index, observability sink, event log and state
    file are written in this order, and every one of the writes may fail. */
module AuthorityStore {
  import opened Lists
  import opened HarnessState
  import opened EventLog

  datatype IndexNode = IndexNode(name: ArtifactName, sequence: nat)

  /** An append that reports failure may have left its line in the log (the newline failed). */
  datatype AppendResult = Appended | NotAppended | AppendedButFailed

  /** The counters are written after the event, so a failure can leave the event behind. */
  datatype ObserveResult = Observed | NotObserved | EventOnly

  /** Which operations of one call succeed, and whether the checks outside the state pass. */
  datatype Faults = Faults(
    lockAcquired: bool,
    stateLoaded: bool,
    checksPass: bool,
    targetReadable: bool,
    artifactWritten: bool,
    indexWritten: bool,
    observed: ObserveResult,
    serialized: bool,
    encoded: bool,
    appended: AppendResult,
    stateWritten: bool,
    removed: bool)

  datatype Outcome =
    | Accepted
    | Replayed
    | LockUnavailable
    | StateUnavailable
    | Refused
    | SequenceStale
    | IdempotencyConflict
    | TargetUnreadable
    | ReplayMismatch
    | PublishFailed
    | IndexFailed
    | ObservabilityFailed
    | SerializeFailed
    | EncodeFailed
    | AppendFailed
    | StateWriteFailed

  function NameOf(r: Record): ArtifactName {
    match r
    case Contract(fingerprint, _, _, _, _, _) => ArtifactName(ContractArtifact, fingerprint)
    case Evaluation(fingerprint, _, _, _, _, _, _) => ArtifactName(EvaluationArtifact, fingerprint)
    case Handoff(fingerprint, _, _, _, _) => ArtifactName(HandoffArtifact, fingerprint)
  }

  function NodeOf(r: Record): IndexNode {
    IndexNode(NameOf(r), r.sequence)
  }

  /** Replaces the first node of the same name, or appends. */
  function Upserted(nodes: seq<IndexNode>, node: IndexNode): seq<IndexNode> {
    if nodes == [] then [node]
    else if nodes[0].name == node.name then [node] + nodes[1..]
    else [nodes[0]] + Upserted(nodes[1..], node)
  }

  /** The new node is in the index and every node of another name stays. */
  lemma {:induction false} UpsertedKeeps(nodes: seq<IndexNode>, node: IndexNode)
    ensures node in Upserted(nodes, node)
    ensures forall n :: n in nodes && n.name != node.name ==> n in Upserted(nodes, node)
  {
    var r := Upserted(nodes, node);
    if nodes == [] {
      assert r[0] == node;
    } else if nodes[0].name == node.name {
      assert r[0] == node && forall k :: 0 < k < |nodes| ==> r[k] == nodes[k];
    } else {
      UpsertedKeeps(nodes[1..], node);
      assert r[0] == nodes[0];
      assert forall n :: n in nodes ==> n == nodes[0] || n in nodes[1..];
      assert forall n :: n in Upserted(nodes[1..], node) ==> n in r;
    }
  }

  lemma {:induction false} UpsertedSkips(nodes: seq<IndexNode>, node: IndexNode, i: nat)
    requires i <= |nodes| && forall k :: 0 <= k < i ==> nodes[k].name != node.name
    ensures Upserted(nodes, node) == nodes[..i] + Upserted(nodes[i..], node)
  {
    if i == 0 {
      assert nodes[0..] == nodes;
    } else {
      var rest := nodes[1..];
      UpsertedSkips(rest, node, i - 1);
      var more := Upserted(nodes[i..], node);
      assert rest[i - 1..] == nodes[i..];
      assert nodes[..i] == [nodes[0]] + rest[..i - 1];
      assert [nodes[0]] + (rest[..i - 1] + more) == nodes[..i] + more;
    }
  }

  method Upsert(nodes: seq<IndexNode>, node: IndexNode) returns (r: seq<IndexNode>)
    ensures r == Upserted(nodes, node)
  {
    for i := 0 to |nodes|
      invariant forall k :: 0 <= k < i ==> nodes[k].name != node.name
    {
      if nodes[i].name == node.name {
        UpsertedSkips(nodes, node, i);
        assert nodes[i..][1..] == nodes[i + 1..];
        return nodes[..i] + ([node] + nodes[i + 1..]);
      }
    }
    UpsertedSkips(nodes, node, |nodes|);
    r := nodes + [node];
  }

  /** What stands on disk behind the event log. */
  datatype Disk = Disk(artifacts: map<ArtifactName, Record>, nodes: seq<IndexNode>, observations: seq<nat>)

  /** The record's exact artifact is on disk, its node is in the index and it was observed. */
  ghost predicate Backs(d: Disk, r: Record) {
    NameOf(r) in d.artifacts && d.artifacts[NameOf(r)] == r && NodeOf(r) in d.nodes && r.sequence in d.observations
  }

  datatype Content = Content(disk: Disk, events: Log, stateFile: Option<Snapshot>)

  function New(state: Snapshot): Content {
    Content(Disk(map[], [], []), [Imported(state)], Some(state))
  }

  // ---------------------------------------------------------------------------------------
  // One call

  /** Nothing turns the call away before sequences are compared. */
  predicate Admitted(c: Content, r: Record, f: Faults)
    requires c.events != []
  {
    && f.lockAcquired && f.stateLoaded && f.checksPass && f.targetReadable
    && Legal(Last(c.events).state, r)
    && (NameOf(r) in c.disk.artifacts ==> c.disk.artifacts[NameOf(r)] == r)
  }

  predicate Fresh(c: Content, r: Record)
    requires c.events != []
  {
    LatestSequence(Last(c.events).state.sequences) < r.sequence
  }

  /** The sequence is the latest one and applying the record again changes nothing. */
  predicate Repeats(c: Content, r: Record, legacy: LegacyVerdicts)
    requires c.events != []
  {
    var state := Last(c.events).state;
    r.sequence == LatestSequence(state.sequences) && Applied(state, r, legacy) == state
  }

  /** Every write before the event log succeeds. */
  predicate Prepared(d: Disk, r: Record, f: Faults) {
    (NameOf(r) in d.artifacts || f.artifactWritten) && f.indexWritten && f.observed == Observed && f.serialized
        && f.encoded
  }

  /** The checks under the lock, in the order in which they turn a call away. */
  function Refusal(c: Content, r: Record, f: Faults): Option<Outcome>
    requires c.events != []
  {
    var state := Last(c.events).state;
    if !f.lockAcquired then Some(LockUnavailable)
    else if !f.stateLoaded then Some(StateUnavailable)
    else if !Legal(state, r) || !f.checksPass then Some(Refused)
    else if r.sequence < LatestSequence(state.sequences) then Some(SequenceStale)
    else if !f.targetReadable then Some(TargetUnreadable)
    else if NameOf(r) in c.disk.artifacts && c.disk.artifacts[NameOf(r)] != r then Some(IdempotencyConflict)
    else None
  }

  /** The artifact, unless it is there already. */
  function WithArtifact(d: Disk, r: Record): Disk {
    if NameOf(r) in d.artifacts then d else d.(artifacts := d.artifacts[NameOf(r) := r])
  }

  function WithNode(d: Disk, r: Record): Disk {
    d.(nodes := Upserted(d.nodes, NodeOf(r)))
  }

  /** The clean-up of a failed call: only an artifact that this call wrote is taken away. */
  function Discarded(d: Disk, r: Record, f: Faults, writtenHere: bool): Disk {
    if writtenHere && f.removed then d.(artifacts := d.artifacts - {NameOf(r)}) else d
  }

  /** The writes before the event log. */
  function Staged(d: Disk, r: Record, f: Faults): (Disk, Option<Outcome>) {
    var writtenHere := NameOf(r) !in d.artifacts;
    if writtenHere && !f.artifactWritten then (d, Some(PublishFailed))
    else if !f.indexWritten then (Discarded(WithArtifact(d, r), r, f, writtenHere), Some(IndexFailed))
    else
      var indexed := WithNode(WithArtifact(d, r), r);
      var observed := if f.observed == NotObserved then indexed
          else indexed.(observations := indexed.observations + [r.sequence]);
      if f.observed != Observed then (Discarded(observed, r, f, writtenHere), Some(ObservabilityFailed))
      else if !f.serialized then (observed, Some(SerializeFailed))
      else if !f.encoded then (Discarded(observed, r, f, writtenHere), Some(EncodeFailed))
      else (observed, None)
  }

  /** The event log and the state file. */
  function Logged(c: Content, e: Event, f: Faults, writtenHere: bool): (Content, Outcome)
    requires e.Recorded?
  {
    var events := if f.appended == NotAppended then c.events else c.events + [e];
    if f.appended != Appended then
      (c.(disk := Discarded(c.disk, e.record, f, writtenHere), events := events), AppendFailed)
    else if !f.stateWritten then (c.(events := events), StateWriteFailed)
    else (c.(events := events, stateFile := Some(e.state)), Accepted)
  }

  /** A record with a fresh sequence, given the event it leads to. */
  function Published(c: Content, e: Event, f: Faults): (Content, Outcome)
    requires e.Recorded?
  {
    var (disk, failure) := Staged(c.disk, e.record, f);
    if failure.Some? then (c.(disk := disk), failure.value)
    else Logged(c.(disk := disk), e, f, NameOf(e.record) !in c.disk.artifacts)
  }

  /** An equal-sequence call: nothing but a missing artifact and the index node is written, and only
      when the record leaves the state as it is. */
  function Repeated(c: Content, r: Record, same: bool, f: Faults): (Content, Outcome) {
    if !same then (c, ReplayMismatch)
    else if NameOf(r) !in c.disk.artifacts && !f.artifactWritten then (c, PublishFailed)
    else if !f.indexWritten then (c.(disk := WithArtifact(c.disk, r)), IndexFailed)
    else (c.(disk := WithNode(WithArtifact(c.disk, r), r)), Replayed)
  }

  /** What one call leaves behind and what it returns, under any faults. */
  function Called(c: Content, r: Record, legacy: LegacyVerdicts, f: Faults): (result: (Content, Outcome))
    requires c.events != []
    ensures result.0.events != []
  {
    if Refusal(c, r, f).Some? then (c, Refusal(c, r, f).value)
    else if Fresh(c, r) then Published(c, EventOf(c, r, legacy), f)
    else Repeated(c, r, Applied(Last(c.events).state, r, legacy) == Last(c.events).state, f)
  }

  function EventOf(c: Content, r: Record, legacy: LegacyVerdicts): (e: Event)
    requires c.events != []
    ensures e.Recorded? && e.record == r
  {
    Recorded(r, legacy, Committed(Last(c.events).state, r, legacy))
  }

  // ---------------------------------------------------------------------------------------
  // What a call does, by what holds before it

  lemma AdmittedExactly(c: Content, r: Record, f: Faults)
    requires c.events != []
    ensures Refusal(c, r, f).None? <==>
            Admitted(c, r, f) && LatestSequence(Last(c.events).state.sequences) <= r.sequence
    ensures Refusal(c, r, f).Some? ==> !ReachesLog(Refusal(c, r, f).value) && !IsReplay(Refusal(c, r, f).value)
  {
  }

  predicate ReachesLog(o: Outcome) {
    o == Accepted || o == StateWriteFailed || o == AppendFailed
  }

  predicate IsReplay(o: Outcome) {
    o == Replayed || o == ReplayMismatch
  }

  lemma {:induction false} RepeatedOutcome(c: Content, r: Record, same: bool, f: Faults)
    ensures var outcome := Repeated(c, r, same, f).1;
            && !ReachesLog(outcome) && (outcome == ReplayMismatch <==> !same)
            && (outcome == Replayed <==> same && (NameOf(r) in c.disk.artifacts || f.artifactWritten) && f.indexWritten)
  {
  }

  lemma {:induction false} StagedExactly(d: Disk, r: Record, f: Faults)
    requires NameOf(r) in d.artifacts ==> d.artifacts[NameOf(r)] == r
    ensures Staged(d, r, f).1.None? <==> Prepared(d, r, f)
    ensures Prepared(d, r, f) ==> Backs(Staged(d, r, f).0, r)
  {
    UpsertedKeeps(d.nodes, NodeOf(r));
  }

  /** The call appends its event: it is admitted and fresh, every earlier write succeeds, and the line lands. */
  predicate Lands(c: Content, r: Record, f: Faults)
    requires c.events != []
  {
    Admitted(c, r, f) && Fresh(c, r) && Prepared(c.disk, r, f) && f.appended != NotAppended
  }

  /** Moreover the append reports a failure after the line has landed, and the clean-up removes the
      artifact, which was not there before. */
  predicate Loses(c: Content, r: Record, f: Faults)
    requires c.events != []
  {
    Lands(c, r, f) && f.appended == AppendedButFailed && f.removed && NameOf(r) !in c.disk.artifacts
  }

  lemma {:induction false} PublishedLog(c: Content, e: Event, f: Faults)
    requires e.Recorded? && (NameOf(e.record) in c.disk.artifacts ==> c.disk.artifacts[NameOf(e.record)] == e.record)
    ensures var after := Published(c, e, f).0;
            after.events == if Prepared(c.disk, e.record, f) && f.appended != NotAppended then c.events + [e]
                else c.events
  {
    StagedExactly(c.disk, e.record, f);
  }

  /** The log grows by at most this record, exactly when the event lands. */
  lemma {:induction false} CallExtendsLog(c: Content, r: Record, legacy: LegacyVerdicts, f: Faults)
    requires c.events != []
    ensures Called(c, r, legacy, f).0.events == if Lands(c, r, f) then c.events + [EventOf(c, r, legacy)] else c.events
  {
    AdmittedExactly(c, r, f);
    if Refusal(c, r, f).None? && Fresh(c, r) {
      PublishedLog(c, EventOf(c, r, legacy), f);
    }
  }

  /** It stays a run. */
  lemma {:induction false} CallKeepsRun(c: Content, r: Record, legacy: LegacyVerdicts, f: Faults)
    requires IsRun(c.events)
    ensures IsRun(Called(c, r, legacy, f).0.events)
  {
    CallExtendsLog(c, r, legacy, f);
    if Lands(c, r, f) {
      RunExtends(c.events, EventOf(c, r, legacy));
    }
  }

  /** What a call returns once it has reached the event log. */
  function LogOutcome(f: Faults): Outcome {
    if f.appended != Appended then AppendFailed else if f.stateWritten then Accepted else StateWriteFailed
  }

  lemma {:induction false} PublishedOutcome(c: Content, e: Event, f: Faults)
    requires e.Recorded? && (NameOf(e.record) in c.disk.artifacts ==> c.disk.artifacts[NameOf(e.record)] == e.record)
    ensures var outcome := Published(c, e, f).1;
            && (ReachesLog(outcome) <==> Prepared(c.disk, e.record, f))
            && (Prepared(c.disk, e.record, f) ==> outcome == LogOutcome(f)) && !IsReplay(outcome)
  {
    StagedExactly(c.disk, e.record, f);
  }

  /** Which calls reach the event log, and what they return. */
  lemma {:induction false} OutcomeExactly(c: Content, r: Record, legacy: LegacyVerdicts, f: Faults)
    requires c.events != []
    ensures var outcome := Called(c, r, legacy, f).1;
            && (ReachesLog(outcome) <==> Admitted(c, r, f) && Fresh(c, r) && Prepared(c.disk, r, f))
            && (ReachesLog(outcome) ==> outcome == LogOutcome(f))
  {
    AdmittedExactly(c, r, f);
    if Refusal(c, r, f).None? {
      PublishedOutcome(c, EventOf(c, r, legacy), f);
      RepeatedOutcome(c, r, Applied(Last(c.events).state, r, legacy) == Last(c.events).state, f);
    }
  }

  /** Which calls are replays: admitted, of the latest sequence, and leaving the state as it is. */
  lemma {:induction false} ReplayExactly(c: Content, r: Record, legacy: LegacyVerdicts, f: Faults)
    requires c.events != []
    ensures var outcome := Called(c, r, legacy, f).1;
            && (outcome == Replayed <==> Admitted(c, r, f) && Repeats(c, r, legacy)
                                         && (NameOf(r) in c.disk.artifacts || f.artifactWritten) && f.indexWritten)
            && (outcome == ReplayMismatch <==>
                  Admitted(c, r, f) && r.sequence == LatestSequence(Last(c.events).state.sequences)
                      && !Repeats(c, r, legacy))
  {
    AdmittedExactly(c, r, f);
    if Refusal(c, r, f).None? {
      PublishedOutcome(c, EventOf(c, r, legacy), f);
      RepeatedOutcome(c, r, Applied(Last(c.events).state, r, legacy) == Last(c.events).state, f);
    }
  }

  lemma {:induction false} PublishedStateFile(c: Content, e: Event, f: Faults)
    requires e.Recorded?
    ensures var (after, outcome) := Published(c, e, f);
            if outcome == Accepted then after.stateFile == Some(e.state) && after.events == c.events + [e]
                else after.stateFile == c.stateFile
  {
  }

  /** The state file is the state of the last event after an accepted call and is left alone otherwise. */
  lemma {:induction false} StateFileExactly(c: Content, r: Record, legacy: LegacyVerdicts, f: Faults)
    requires c.events != []
    ensures var (after, outcome) := Called(c, r, legacy, f);
            after.stateFile == if outcome == Accepted then Some(Last(after.events).state) else c.stateFile
  {
    AdmittedExactly(c, r, f);
    if Refusal(c, r, f).None? {
      PublishedStateFile(c, EventOf(c, r, legacy), f);
      RepeatedStateFile(c, r, Applied(Last(c.events).state, r, legacy) == Last(c.events).state, f);
    }
  }

  lemma {:induction false} RepeatedStateFile(c: Content, r: Record, same: bool, f: Faults)
    ensures Repeated(c, r, same, f).0.stateFile == c.stateFile && Repeated(c, r, same, f).1 != Accepted
  {
  }

  /** `e` differs from `d` by what one call for `r` may leave behind. */
  ghost predicate Extends(d: Disk, e: Disk, r: Record) {
    && (e.artifacts == d.artifacts || (NameOf(r) !in d.artifacts && e.artifacts == d.artifacts[NameOf(r) := r]))
    && (e.nodes == d.nodes || e.nodes == Upserted(d.nodes, NodeOf(r)))
    && (e.observations == d.observations || e.observations == d.observations + [r.sequence])
  }

  lemma {:induction false} DiscardExtends(d: Disk, e: Disk, r: Record, f: Faults)
    requires Extends(d, e, r)
    ensures Extends(d, Discarded(e, r, f, NameOf(r) !in d.artifacts), r)
  {
    if NameOf(r) !in d.artifacts {
      assert d.artifacts[NameOf(r) := r] - {NameOf(r)} == d.artifacts;
      assert d.artifacts - {NameOf(r)} == d.artifacts;
    }
  }

  lemma {:induction false} StagedExtends(d: Disk, r: Record, f: Faults)
    ensures Extends(d, Staged(d, r, f).0, r)
  {
    var with := WithArtifact(d, r);
    var indexed := WithNode(with, r);
    DiscardExtends(d, with, r, f);
    DiscardExtends(d, indexed, r, f);
    DiscardExtends(d, indexed.(observations := indexed.observations + [r.sequence]), r, f);
  }

  lemma {:induction false} PublishedExtends(c: Content, e: Event, f: Faults)
    requires e.Recorded?
    ensures Extends(c.disk, Published(c, e, f).0.disk, e.record)
  {
    StagedExtends(c.disk, e.record, f);
    DiscardExtends(c.disk, Staged(c.disk, e.record, f).0, e.record, f);
  }

  /** A call, failing or not, only adds: no artifact that was there before is removed or altered. */
  lemma {:induction false} CallExtendsDisk(c: Content, r: Record, legacy: LegacyVerdicts, f: Faults)
    requires c.events != []
    ensures var after := Called(c, r, legacy, f).0.disk;
            && Extends(c.disk, after, r)
            && forall n :: n in c.disk.artifacts ==> n in after.artifacts && after.artifacts[n] == c.disk.artifacts[n]
  {
    PublishedExtends(c, EventOf(c, r, legacy), f);
    RepeatedExtends(c, r, Applied(Last(c.events).state, r, legacy) == Last(c.events).state, f);
  }

  lemma {:induction false} RepeatedExtends(c: Content, r: Record, same: bool, f: Faults)
    ensures Extends(c.disk, Repeated(c, r, same, f).0.disk, r)
  {
  }

  /** What backed an event goes on backing it, whatever is called and whatever fails. */
  lemma {:induction false} CallKeepsBacking(c: Content, r: Record, legacy: LegacyVerdicts, f: Faults, q: Record)
    requires c.events != [] && Backs(c.disk, q)
    ensures Backs(Called(c, r, legacy, f).0.disk, q)
  {
    CallExtendsDisk(c, r, legacy, f);
    UpsertedKeeps(c.disk.nodes, NodeOf(r));
    if NameOf(q) == NameOf(r) && q != r {
      assert !Admitted(c, r, f);
      AdmittedExactly(c, r, f);
    }
  }

  lemma {:induction false} PublishedBacks(c: Content, e: Event, f: Faults)
    requires e.Recorded? && (NameOf(e.record) in c.disk.artifacts ==> c.disk.artifacts[NameOf(e.record)] == e.record)
    requires Prepared(c.disk, e.record, f) && f.appended != NotAppended
    ensures var after := Published(c, e, f).0.disk;
            var loses := f.appended == AppendedButFailed && f.removed && NameOf(e.record) !in c.disk.artifacts;
            && (Backs(after, e.record) <==> !loses) && (loses <==> NameOf(e.record) !in after.artifacts)
            && NodeOf(e.record) in after.nodes && e.record.sequence in after.observations
  {
    StagedExactly(c.disk, e.record, f);
  }

  /** A recorded event has its artifact, node and observation exactly when the call does not lose the
      artifact; when it does, the artifact alone is missing. */
  lemma {:induction false} NewEventBackedExactly(c: Content, r: Record, legacy: LegacyVerdicts, f: Faults)
    requires c.events != [] && Lands(c, r, f)
    ensures var after := Called(c, r, legacy, f).0.disk;
            && (Backs(after, r) <==> !Loses(c, r, f))
            && (Loses(c, r, f) <==> NameOf(r) !in after.artifacts)
            && NodeOf(r) in after.nodes && r.sequence in after.observations
  {
    AdmittedExactly(c, r, f);
    PublishedBacks(c, EventOf(c, r, legacy), f);
  }

  /** A replay that has the record's artifact and node in place when it returns, even when it then
      reports that the index could not be written. */
  predicate Restores(c: Content, r: Record, legacy: LegacyVerdicts, f: Faults)
    requires c.events != []
  {
    && Admitted(c, r, f) && Repeats(c, r, legacy) && (NameOf(r) in c.disk.artifacts || f.artifactWritten)
    && (f.indexWritten || NodeOf(r) in c.disk.nodes)
  }

  lemma {:induction false} RepeatedBacks(c: Content, r: Record, same: bool, f: Faults)
    requires r.sequence in c.disk.observations && (NameOf(r) in c.disk.artifacts ==> c.disk.artifacts[NameOf(r)] == r)
    ensures Backs(Repeated(c, r, same, f).0.disk, r) <==>
            || Backs(c.disk, r)
            || (same && (NameOf(r) in c.disk.artifacts || f.artifactWritten)
                && (f.indexWritten || NodeOf(r) in c.disk.nodes))
  {
    UpsertedKeeps(c.disk.nodes, NodeOf(r));
  }

  /** A call for a record that was recorded before backs it exactly when it was backed or is restored. */
  lemma {:induction false} RecordedBackedExactly(c: Content, r: Record, legacy: LegacyVerdicts, f: Faults)
    requires c.events != [] && r.sequence in c.disk.observations && !Fresh(c, r)
    ensures Backs(Called(c, r, legacy, f).0.disk, r) <==> Backs(c.disk, r) || Restores(c, r, legacy, f)
  {
    AdmittedExactly(c, r, f);
    if Refusal(c, r, f).None? {
      RepeatedBacks(c, r, Applied(Last(c.events).state, r, legacy) == Last(c.events).state, f);
    }
  }

  lemma {:induction false} UpsertedAddsOne(nodes: seq<IndexNode>, node: IndexNode, n: IndexNode)
    requires n in Upserted(nodes, node)
    ensures n in nodes || n == node
  {
    if nodes != [] {
      if nodes[0].name != node.name && n != nodes[0] {
        UpsertedAddsOne(nodes[1..], node, n);
      }
    }
  }

  /** A call for another record does not back it. */
  lemma {:induction false} OthersStayUnbacked(c: Content, r: Record, legacy: LegacyVerdicts, f: Faults, q: Record)
    requires c.events != [] && q.sequence in c.disk.observations && q != r && !Backs(c.disk, q)
    ensures !Backs(Called(c, r, legacy, f).0.disk, q)
  {
    var after := Called(c, r, legacy, f).0.disk;
    CallExtendsDisk(c, r, legacy, f);
    if Backs(after, q) {
      assert NameOf(q) in c.disk.artifacts && c.disk.artifacts[NameOf(q)] == q;
      UpsertedAddsOne(c.disk.nodes, NodeOf(r), NodeOf(q));
      AdmittedExactly(c, r, f);
      assert false;
    }
  }

  // ---------------------------------------------------------------------------------------
  // Every run of calls

  datatype Action =
    | Call(record: Record, legacy: LegacyVerdicts, faults: Faults)
    | MovePhase(phase: Phase)

  function PhaseMoved(c: Content, phase: Phase): Content
    requires c.events != []
  {
    c.(events := c.events + [PhaseChanged(Last(c.events).state.(phase := phase))])
  }

  function Acted(c: Content, a: Action): (after: Content)
    requires c.events != []
    ensures after.events != []
  {
    match a
    case Call(r, legacy, f) => Called(c, r, legacy, f).0
    case MovePhase(phase) => PhaseMoved(c, phase)
  }

  /** The content after a run of calls and phase moves on a new store. */
  function After(state: Snapshot, actions: seq<Action>): (c: Content)
    ensures c.events != []
  {
    if actions == [] then New(state) else Acted(After(state, actions[..|actions| - 1]), actions[|actions| - 1])
  }

  /** The records whose artifact a call lost and no later call has restored. */
  function Lost(state: Snapshot, actions: seq<Action>): set<Record> {
    if actions == [] then {}
    else
      var before, lost := After(state, actions[..|actions| - 1]), Lost(state, actions[..|actions| - 1]);
      match actions[|actions| - 1]
      case Call(r, legacy, f) => LostAfter(before, lost, r, legacy, f)
      case MovePhase(_) => lost
  }

  function LostAfter(c: Content, lost: set<Record>, r: Record, legacy: LegacyVerdicts, f: Faults): set<Record>
    requires c.events != []
  {
    if Loses(c, r, f) then lost + {r} else if Restores(c, r, legacy, f) then lost - {r} else lost
  }

  ghost predicate IsRecorded(log: Log, r: Record) {
    exists i :: 0 <= i < |log| && log[i].Recorded? && log[i].record == r
  }

  lemma {:induction false} RecordedInLonger(log: Log, e: Event, r: Record)
    ensures IsRecorded(log + [e], r) <==> IsRecorded(log, r) || (e.Recorded? && e.record == r)
  {
    var longer := log + [e];
    assert longer[|log|] == e && forall i :: 0 <= i < |log| ==> longer[i] == log[i];
    if IsRecorded(log, r) {
      var i :| 0 <= i < |log| && log[i].Recorded? && log[i].record == r;
      assert longer[i].Recorded?;
    }
  }

  /** Every recorded event was observed, and is backed exactly when it is not lost. */
  ghost predicate BackedUnlessLost(c: Content, lost: set<Record>) {
    && (forall r :: IsRecorded(c.events, r) ==> r.sequence in c.disk.observations && (Backs(c.disk, r) <==> r !in lost))
    && (forall r :: r in lost ==> IsRecorded(c.events, r))
  }

  lemma {:induction false} RecordedIsNotFresh(c: Content, r: Record)
    requires IsRun(c.events) && IsRecorded(c.events, r)
    ensures !Fresh(c, r)
  {
    var i :| 0 <= i < |c.events| && c.events[i].Recorded? && c.events[i].record == r;
    LatestIsLastRecorded(c.events, i, |c.events| - 1);
  }

  lemma {:induction false} RecordedAfter(c: Content, r: Record, legacy: LegacyVerdicts, f: Faults, q: Record)
    requires c.events != []
    ensures IsRecorded(Called(c, r, legacy, f).0.events, q) <==> IsRecorded(c.events, q) || (q == r && Lands(c, r, f))
  {
    CallExtendsLog(c, r, legacy, f);
    RecordedInLonger(c.events, EventOf(c, r, legacy), q);
  }

  lemma {:induction false} EventBackedAfter(c: Content, lost: set<Record>, r: Record, legacy: LegacyVerdicts,
      f: Faults, q: Record)
    requires IsRun(c.events) && BackedUnlessLost(c, lost) && IsRecorded(c.events, q)
    ensures Backs(Called(c, r, legacy, f).0.disk, q) <==> q !in LostAfter(c, lost, r, legacy, f)
  {
    if q == r {
      RecordedIsNotFresh(c, r);
      RecordedBackedExactly(c, r, legacy, f);
    } else if Backs(c.disk, q) {
      CallKeepsBacking(c, r, legacy, f, q);
    } else {
      OthersStayUnbacked(c, r, legacy, f, q);
    }
  }

  lemma {:induction false} NewEventBackedAfter(c: Content, lost: set<Record>, r: Record, legacy: LegacyVerdicts,
      f: Faults)
    requires IsRun(c.events) && BackedUnlessLost(c, lost) && !IsRecorded(c.events, r) && Lands(c, r, f)
    ensures var after := Called(c, r, legacy, f).0;
            r.sequence in after.disk.observations && (Backs(after.disk, r) <==> r !in LostAfter(c, lost, r, legacy, f))
  {
    NewEventBackedExactly(c, r, legacy, f);
  }

  lemma {:induction false} CallBacksLog(c: Content, lost: set<Record>, r: Record, legacy: LegacyVerdicts, f: Faults)
    requires IsRun(c.events) && BackedUnlessLost(c, lost)
    ensures BackedUnlessLost(Called(c, r, legacy, f).0, LostAfter(c, lost, r, legacy, f))
  {
    var after := Called(c, r, legacy, f).0;
    CallExtendsDisk(c, r, legacy, f);
    forall q
      ensures IsRecorded(after.events, q) ==>
                q.sequence in after.disk.observations
                    && (Backs(after.disk, q) <==> q !in LostAfter(c, lost, r, legacy, f))
      ensures q in LostAfter(c, lost, r, legacy, f) ==> IsRecorded(after.events, q)
    {
      RecordedAfter(c, r, legacy, f, q);
      if IsRecorded(c.events, q) {
        EventBackedAfter(c, lost, r, legacy, f, q);
      } else if q == r && Lands(c, r, f) {
        NewEventBackedAfter(c, lost, r, legacy, f);
      }
    }
  }

  lemma {:induction false} PhaseMoveBacksLog(c: Content, lost: set<Record>, phase: Phase)
    requires c.events != [] && BackedUnlessLost(c, lost)
    ensures BackedUnlessLost(PhaseMoved(c, phase), lost)
  {
    forall r
      ensures IsRecorded(PhaseMoved(c, phase).events, r) <==> IsRecorded(c.events, r)
    {
      RecordedInLonger(c.events, PhaseChanged(Last(c.events).state.(phase := phase)), r);
    }
  }

  /** Over every run of calls under any faults, with phase moves in between: the log is a run, every event
      was observed, and it has its exact artifact and its node exactly unless its artifact was lost and not
      restored since. */
  lemma {:induction false} EventsStayBacked(state: Snapshot, actions: seq<Action>)
    ensures IsRun(After(state, actions).events) && BackedUnlessLost(After(state, actions), Lost(state, actions))
  {
    if actions != [] {
      var rest, a := actions[..|actions| - 1], actions[|actions| - 1];
      EventsStayBacked(state, rest);
      var c, lost := After(state, rest), Lost(state, rest);
      match a
      case Call(r, legacy, f) =>
        CallKeepsRun(c, r, legacy, f);
        CallBacksLog(c, lost, r, legacy, f);
      case MovePhase(phase) =>
        RunExtends(c.events, PhaseChanged(Last(c.events).state.(phase := phase)));
        PhaseMoveBacksLog(c, lost, phase);
    }
  }

  // ---------------------------------------------------------------------------------------
  // Losing an artifact and putting it back

  /** Right after a loss, a retry that meets no fault puts the artifact of a report back exactly while
      the run is neither blocked nor due to pivot; a contract or a handoff is not put back. */
  lemma {:induction false} RetryHeals(c: Content, r: Record, legacy: LegacyVerdicts, f: Faults, again: LegacyVerdicts)
    requires c.events != [] && Loses(c, r, f)
    ensures var after := Called(c, r, legacy, f).0;
            var (retried, outcome) := Called(after, r, again, NO_FAULTS);
            && (Backs(retried.disk, r) <==> outcome == Replayed)
            && (outcome == Replayed <==>
                  r.Evaluation? && Last(after.events).state.evaluators.blocked == []
                      && Last(after.events).state.phase != PivotRequired)
  {
    var after := Called(c, r, legacy, f).0;
    CallExtendsLog(c, r, legacy, f);
    NewEventBackedExactly(c, r, legacy, f);
    RetryOutcome(after, Last(c.events).state, r, legacy, again);
    RecordedBackedExactly(after, r, again, NO_FAULTS);
    ReplayExactly(after, r, again, NO_FAULTS);
  }

  lemma {:induction false} RetryOutcome(c: Content, s: Snapshot, r: Record, legacy: LegacyVerdicts,
      again: LegacyVerdicts)
    requires c.events != [] && Legal(s, r) && Last(c.events).state == Committed(s, r, legacy)
             && NameOf(r) !in c.disk.artifacts
    ensures var t, outcome := Last(c.events).state, Called(c, r, again, NO_FAULTS).1;
            && (outcome == Replayed <==> r.Evaluation? && t.evaluators.blocked == [] && t.phase != PivotRequired)
            && (outcome != Replayed ==> Called(c, r, again, NO_FAULTS).0 == c)
  {
    var t := Last(c.events).state;
    ReplayExactly(c, r, again, NO_FAULTS);
    AdmittedExactly(c, r, NO_FAULTS);
    if r.Evaluation? {
      ReplayAcceptedExactly(s, r, legacy, again);
      ReplayReproducesState(s, r, legacy, again);
    } else {
      assert !Legal(t, r);
    }
  }

  const NO_FAULTS := Faults(true, true, true, true, true, true, Observed, true, true, Appended, true, true)

  const PENDING := Snapshot(
    ContractPendingApproval, Sequences(None, None), ActiveContract(None, None), Evaluators([], [], [], [], [], []),
    AllPending, None, Retries(0, 0, 0), false, [], true)

  const FIRST := Contract("f", 1, "", ["k"], 0, 0)

  /** A first contract whose append fails after landing: its event is in the log without its artifact,
      and calling again does not help. */
  lemma {:induction false} AnArtifactCanBeLost()
    ensures var late := NO_FAULTS.(appended := AppendedButFailed);
            var c := After(PENDING, [Call(FIRST, None, late)]);
            && Last(c.events).Recorded? && Last(c.events).record == FIRST && c.disk.artifacts == map[]
            && Lost(PENDING, [Call(FIRST, None, late)]) == {FIRST}
            && Called(c, FIRST, None, NO_FAULTS) == (c, Refused)
  {
    var late := NO_FAULTS.(appended := AppendedButFailed);
    var action := Call(FIRST, None, late);
    assert [action][..0] == [];
    var c := Called(New(PENDING), FIRST, None, late).0;
    assert After(PENDING, [action]) == c;
    assert Lands(New(PENDING), FIRST, late);
    CallExtendsLog(New(PENDING), FIRST, None, late);
    assert c.disk.artifacts == map[NameOf(FIRST) := FIRST] - {NameOf(FIRST)};
  }

  // ---------------------------------------------------------------------------------------
  // The store, written to in place

  class Store {
    var disk: Disk
    var events: Log
    var stateFile: Option<Snapshot>

    function Contents(): Content
      reads this
    {
      Content(disk, events, stateFile)
    }

    constructor (state: Snapshot)
      ensures Contents() == New(state)
    {
      disk := Disk(map[], [], []);
      events := [Imported(state)];
      stateFile := Some(state);
    }

    /** Another command of the runtime moves the phase and nothing else. */
    method ChangePhase(phase: Phase)
      requires events != []
      modifies this`events
      ensures Contents() == PhaseMoved(old(Contents()), phase)
    {
      events := events + [PhaseChanged(Last(events).state.(phase := phase))];
    }

    method PublishArtifact(r: Record)
      modifies this`disk
      ensures disk == WithArtifact(old(disk), r)
    {
      if NameOf(r) !in disk.artifacts {
        disk := disk.(artifacts := disk.artifacts[NameOf(r) := r]);
      }
    }

    method PersistIndex(r: Record)
      modifies this`disk
      ensures disk == WithNode(old(disk), r)
    {
      var nodes := Upsert(disk.nodes, NodeOf(r));
      disk := disk.(nodes := nodes);
    }

    method Discard(r: Record, f: Faults, writtenHere: bool)
      modifies this`disk
      ensures disk == Discarded(old(disk), r, f, writtenHere)
    {
      if writtenHere && f.removed {
        disk := disk.(artifacts := disk.artifacts - {NameOf(r)});
      }
    }

    /** The state this record leads to, computed on a mutable copy. */
    method NextState(r: Record, legacy: LegacyVerdicts) returns (s: Snapshot)
      requires events != []
      ensures s == Committed(Last(events).state, r, legacy)
    {
      var state := new MutableHarnessState(Last(events).state);
      state.Apply(r, legacy);
      state.SetLatestSequence(r.sequence);
      state.SetIndexHealthy();
      s := state.Value();
    }

    method ReplayedState(r: Record, legacy: LegacyVerdicts) returns (s: Snapshot)
      requires events != []
      ensures s == Applied(Last(events).state, r, legacy)
    {
      var state := new MutableHarnessState(Last(events).state);
      state.Apply(r, legacy);
      s := state.Value();
    }

    method Replay(r: Record, legacy: LegacyVerdicts, f: Faults) returns (outcome: Outcome)
      requires events != []
      modifies this`disk
      ensures var same := Applied(Last(events).state, r, legacy) == Last(events).state;
              (Contents(), outcome) == Repeated(old(Contents()), r, same, f)
    {
      var expected := ReplayedState(r, legacy);
      if Last(events).state != expected {
        return ReplayMismatch;
      }
      if NameOf(r) !in disk.artifacts && !f.artifactWritten {
        return PublishFailed;
      }
      PublishArtifact(r);
      if !f.indexWritten {
        return IndexFailed;
      }
      PersistIndex(r);
      return Replayed;
    }

    /** Artifact, index and observation, each undone by the clean-up when a later one fails. */
    method Stage(r: Record, f: Faults) returns (failure: Option<Outcome>)
      modifies this`disk
      ensures (disk, failure) == Staged(old(disk), r, f)
    {
      var writtenHere := NameOf(r) !in disk.artifacts;
      if writtenHere && !f.artifactWritten {
        return Some(PublishFailed);
      }
      PublishArtifact(r);
      if !f.indexWritten {
        Discard(r, f, writtenHere);
        return Some(IndexFailed);
      }
      PersistIndex(r);
      if f.observed != NotObserved {
        disk := disk.(observations := disk.observations + [r.sequence]);
      }
      if f.observed != Observed {
        Discard(r, f, writtenHere);
        return Some(ObservabilityFailed);
      }
      if !f.serialized {
        return Some(SerializeFailed);
      }
      if !f.encoded {
        Discard(r, f, writtenHere);
        return Some(EncodeFailed);
      }
      return None;
    }

    method Commit(r: Record, legacy: LegacyVerdicts, f: Faults, writtenHere: bool) returns (outcome: Outcome)
      requires events != []
      modifies this
      ensures (Contents(), outcome) == Logged(old(Contents()), EventOf(old(Contents()), r, legacy), f, writtenHere)
    {
      var payload := NextState(r, legacy);
      if f.appended != NotAppended {
        events := events + [Recorded(r, legacy, payload)];
      }
      if f.appended != Appended {
        Discard(r, f, writtenHere);
        return AppendFailed;
      }
      if !f.stateWritten {
        return StateWriteFailed;
      }
      stateFile := Some(payload);
      return Accepted;
    }

    method Screen(r: Record, f: Faults) returns (refusal: Option<Outcome>)
      requires events != []
      ensures refusal == Refusal(Contents(), r, f)
    {
      if !f.lockAcquired {
        return Some(LockUnavailable);
      }
      if !f.stateLoaded {
        return Some(StateUnavailable);
      }
      var state := Last(events).state;
      if !Legal(state, r) || !f.checksPass {
        return Some(Refused);
      }
      if r.sequence < LatestSequence(state.sequences) {
        return Some(SequenceStale);
      }
      if !f.targetReadable {
        return Some(TargetUnreadable);
      }
      if NameOf(r) in disk.artifacts && disk.artifacts[NameOf(r)] != r {
        return Some(IdempotencyConflict);
      }
      return None;
    }

    /** One call, under any faults. */
    method RecordMutation(r: Record, legacy: LegacyVerdicts, f: Faults) returns (outcome: Outcome)
      requires events != []
      modifies this
      ensures (Contents(), outcome) == Called(old(Contents()), r, legacy, f)
    {
      var refusal := Screen(r, f);
      if refusal.Some? {
        return refusal.value;
      }
      if r.sequence == LatestSequence(Last(events).state.sequences) {
        outcome := Replay(r, legacy, f);
        return;
      }
      var writtenHere := NameOf(r) !in disk.artifacts;
      var failure := Stage(r, f);
      if failure.Some? {
        return failure.value;
      }
      outcome := Commit(r, legacy, f, writtenHere);
    }
  }
}
