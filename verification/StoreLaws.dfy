/** What a call that does not succeed returns and leaves behind, and what artifacts are named. */
module StoreLaws {
  import opened Lists
  import opened HarnessState
  import opened EventLog
  import opened RunLaws
  import opened AuthorityStore

  /** Records share an artifact name exactly when they are of one kind and have one fingerprint. */
  lemma NamesExactly(a: Record, b: Record)
    ensures NameOf(a) == NameOf(b) <==>
            && a.fingerprint == b.fingerprint
            && (a.Contract? <==> b.Contract?) && (a.Evaluation? <==> b.Evaluation?) && (a.Handoff? <==> b.Handoff?)
  {
  }

  /** The index node of a record carries its artifact name and its sequence. */
  lemma NodeExactly(r: Record, node: IndexNode)
    ensures node == NodeOf(r) <==> node.name == NameOf(r) && node.sequence == r.sequence
  {
  }

  /** The paths that the state keeps are the names of the artifacts of its contract and its last report. */
  lemma {:induction false} PathsAreNames(log: Log)
    requires IsRun(log) && ContractOf(log).Some?
    ensures ContractOf(log).value.Contract? && Last(log).state.contract.path == Some(NameOf(ContractOf(log).value))
    ensures IsEvaluation(Last(log)) ==>
              Last(log).state.lastReport.Some? && Last(log).state.lastReport.value.path == NameOf(Last(log).record)
  {
    ContractAndReportAgree(log);
    StateAgreesWithHistory(log);
  }

  /** A call is turned away by the first of these that applies. */
  lemma RefusalExactly(c: Content, r: Record, f: Faults)
    requires c.events != []
    ensures var refusal, latest := Refusal(c, r, f), LatestSequence(Last(c.events).state.sequences);
            var legal := f.lockAcquired && f.stateLoaded && Legal(Last(c.events).state, r) && f.checksPass;
            && (refusal == Some(LockUnavailable) <==> !f.lockAcquired)
            && (refusal == Some(StateUnavailable) <==> f.lockAcquired && !f.stateLoaded)
            && (refusal == Some(Refused) <==> f.lockAcquired && f.stateLoaded && !legal)
            && (refusal == Some(SequenceStale) <==> legal && r.sequence < latest)
            && (refusal == Some(TargetUnreadable) <==> legal && latest <= r.sequence && !f.targetReadable)
            && (refusal == Some(IdempotencyConflict) <==>
                  && legal && latest <= r.sequence && f.targetReadable
                  && NameOf(r) in c.disk.artifacts && c.disk.artifacts[NameOf(r)] != r)
  {
  }

  /** A call that is turned away leaves everything as it was. */
  lemma RefusedChangesNothing(c: Content, r: Record, legacy: LegacyVerdicts, f: Faults)
    requires c.events != [] && Refusal(c, r, f).Some?
    ensures Called(c, r, legacy, f) == (c, Refusal(c, r, f).value)
  {
  }

  predicate HasArtifact(d: Disk, r: Record, f: Faults) {
    NameOf(r) in d.artifacts || f.artifactWritten
  }

  /** Staging fails at the first write that does not succeed. */
  lemma StageFailsExactly(d: Disk, r: Record, f: Faults)
    ensures var failure := Staged(d, r, f).1;
            && (failure == Some(PublishFailed) <==> !HasArtifact(d, r, f))
            && (failure == Some(IndexFailed) <==> HasArtifact(d, r, f) && !f.indexWritten)
            && (failure == Some(ObservabilityFailed) <==>
                  HasArtifact(d, r, f) && f.indexWritten && f.observed != Observed)
            && (failure == Some(SerializeFailed) <==>
                  HasArtifact(d, r, f) && f.indexWritten && f.observed == Observed && !f.serialized)
            && (failure == Some(EncodeFailed) <==>
                  HasArtifact(d, r, f) && f.indexWritten && f.observed == Observed && f.serialized && !f.encoded)
  {
  }

  /** What staging leaves: a new artifact stays exactly when everything succeeded, when its removal failed, or
      when the state could not be serialised; the node when the index was written; the observation when the
      sink took the event, even if the counters then failed. */
  lemma {:induction false} StageLeaves(d: Disk, r: Record, f: Faults)
    requires NameOf(r) !in d.artifacts
    ensures var e := Staged(d, r, f).0;
            && (NameOf(r) in e.artifacts <==>
                  && f.artifactWritten
                  && (Prepared(d, r, f) || !f.removed || (f.indexWritten && f.observed == Observed && !f.serialized)))
            && e.nodes == (if f.artifactWritten && f.indexWritten then Upserted(d.nodes, NodeOf(r)) else d.nodes)
            && e.observations ==
               (if f.artifactWritten && f.indexWritten && f.observed != NotObserved then d.observations + [r.sequence]
                else d.observations)
  {
  }

  /** An append that failed leaves a new artifact exactly when its removal failed. */
  lemma {:induction false} AppendFailureLeaves(c: Content, r: Record, legacy: LegacyVerdicts, f: Faults)
    requires c.events != [] && Called(c, r, legacy, f).1 == AppendFailed && NameOf(r) !in c.disk.artifacts
    ensures NameOf(r) in Called(c, r, legacy, f).0.disk.artifacts <==> !f.removed
  {
    AdmittedExactly(c, r, f);
    OutcomeExactly(c, r, legacy, f);
    StagedExactly(c.disk, r, f);
    LoggedLeaves(c.(disk := Staged(c.disk, r, f).0), EventOf(c, r, legacy), f);
  }

  lemma {:induction false} LoggedLeaves(c: Content, e: Event, f: Faults)
    requires e.Recorded? && NameOf(e.record) in c.disk.artifacts && f.appended != Appended
    ensures NameOf(e.record) in Logged(c, e, f, true).0.disk.artifacts <==> !f.removed
  {
  }
}
