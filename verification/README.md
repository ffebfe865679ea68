# A verified model of the workflow runtime's authority, topology and plan state

The runtime keeps the authoritative progress of a plan in an event log with artifacts and indexes beside
it, and treats the plan's markdown as a projection. This project models its four hardest components and
proves what they are for. `dafny verify dfyconfig.toml` checks everything.

| component | files | what is proved |
|---|---|---|
| authoritative mutation | `AuthorityLock`, `HarnessState`, `EventLog`, `RunLaws`, `AuthorityStore`, `StoreLaws`, `Leases` | exclusion of writers over every interleaving; the incremental evaluator state is the fold of the accepted history; every event keeps its artifact under any failing write, up to one exactly described case; replay; conservation of leases |
| closure graph | `ClosureGraph`, `ClosureGraphBuild`, `ClosureFreshness` | each index built by the graph is its definition over the ingested records; the freshness of every record in terms of the snapshot and the signals; what hides a stale closure; the milestone chain |
| plan topology and identity | `Reachability`, `Diagram`, `DiagramLaws`, `Topology`, `PlanIdentity` | which edges a strategy claims; transitive closure, diagram flood fill and write conflicts against path-based definitions; the `last` directive; the fingerprints that survive approval |
| projection-free plan state | `StepOverlay`, `TaskContract`, `TaskContractLaws`, `ContractRender`, `NormalForm`, `RenderLaws`, `OpenFence`, `Evidence`, `EvidenceRender`, `EvidenceLaws` | when loading succeeds, and that step state depends on authority and not on marks; the contract rendering shows exactly what it must and is a normal form; the evidence parser equals a forward-only reference and reads back what the runtime writes |

`Lists` and `Text` hold the list and string operations the components share.

## How the code is modelled

- Code that updates things in place is a class or a method with the same loops, proved equal to a function;
  the properties are lemmas about that function. Lines of markdown are tokens that carry exactly the
  tests the code makes on a line (indentation, marker, number, title, the remaining text).
- A run of the authority is an event log. The state after a run is the state of its last event, other
  commands may move the phase between records, and the run may start from any imported state.
- Every write of a recording call takes its success from a `Faults` value, so results hold for every
  combination of failures; what a call leaves behind is a function of what was there and of its faults.
  Hashes, process liveness, workspace comparison and the checks of a record against other files are
  parameters.

## Results that differ from a first reading

- Every recorded event keeps its artifact under any failing write, except when the append of the event
  line reports a failure after the line has landed (the newline failed, or the validation of the log
  after it) and the clean-up then removes the artifact, which was not there before the call. `Loses` says
  this of the state before the call; `NewEventBackedExactly` proves it exact, `EventsStayBacked` carries it
  over every run of calls as an equivalence, and `AnArtifactCanBeLost` is an input. `RetryHeals`: a retry
  puts back the artifact of a report exactly while the run is neither blocked nor due to pivot; contracts
  and handoffs are never replayed (`OnlyEvaluationsReplay`).
- Lock reclaim reads the pid, tests it and removes the path in separate file operations. Exclusion holds
  over every run in which each removal deletes the file that was read, which includes atomic reclaim; each
  stray removal loses it (`StrayRemovalLosesExclusion`). Two reclaimers of one left-over file reach such a
  state (`SplitReclaimCanLoseTheLock`), and so does one reclaimer whose holder releases and exits between
  the reading and the test (`HolderExitCanLoseTheLock`).
- A writer that crashes between creating the lock file and writing its pid leaves a file that nobody can
  reclaim: when no one is at work and no live process is named, an idle writer can get the lock exactly when
  the path is free or its file names a process (`CanHoldExactly`).
- The task of an `Execute Task N last` directive depends on exactly the tasks that a sink of the others, or
  a task it waited for already, is or depends on (`LastDependsExactly`). These are all the others when the
  edges among them are acyclic. With a cycle they may be none of it (`LastSkipsCycle`) or all of it
  (`LastReachesCycle`).
- Rendering a contract twice equals rendering it once exactly when each step that the rendering knows and
  its source did not is already written unmarked and is not followed by a blank line or a note
  (`RenderTwiceExactly`). There is no such step when the fences inside dropped notes are paired.
  `OpenFenceShowsProgress` is a plan with an open fence in a note on which the second rendering differs:
  step collection, unlike the validator and the renderer, does not skip notes.
- Writing and reading evidence is exact for an attempt if and only if it has a packet fingerprint and a
  head, and has a verify command or a summary from which none is read (`RereadExactly`). Attempts without
  them are read from documents (`EveryAttemptIsRead`), so a parsed attempt can change when it is written
  (`AReadAttemptCanChange`).

## Model

| member | source | states |
|---|---|---|
| `AuthorityLock.StepKeepsOwnership` | src/execution/authority.rs:2631-2729 | every step of any writer that is not a stray removal keeps: an owner's file is the one at the path, files have one owner, and only its owner's pid is in it |
| `AuthorityLock.StepKeepsReadings` | src/execution/authority.rs:2677-2703 | what a reclaimer has read stays true of the file it read, and a file whose process tested as gone never has an owner again |
| `AuthorityLock.StepKeepsInv` | src/execution/authority.rs:2631-2729 | both together |
| `AuthorityLock.InvImpliesExclusive` | src/execution/authority.rs:2631-2729 | that invariant leaves at most one owner |
| `AuthorityLock.PathAfter` | src/execution/authority.rs:2645-2729 | what each step does to the lock path |
| `AuthorityLock.MutualExclusion` | src/execution/authority.rs:2631-2729 | over every interleaving of any number of writers with crashes and restarts, at most one owns the lock at every point, provided no removal is stray |
| `AuthorityLock.SameFileIsNotStray` | src/execution/authority.rs:2677-2703 | a removal that deletes the file whose pid was read and tested never deletes an owned file |
| `AuthorityLock.SameFileReclaimExcludes` | src/execution/authority.rs:2631-2729 | exclusion over every run in which each removal deletes the file that was read, whatever happens in between |
| `AuthorityLock.AtomicReclaimIsSameFile` | src/execution/authority.rs:2677-2703 | reading, testing and removing in a row is such a removal |
| `AuthorityLock.AtomicReclaimExcludes` | src/execution/authority.rs:2631-2729 | hence exclusion over every run with atomic reclaim |
| `AuthorityLock.StrayRemovalLosesExclusion` | src/execution/authority.rs:2677-2703 | each stray removal lets the remover own the lock together with the writer it robbed |
| `AuthorityLock.SplitReclaimCanLoseTheLock` | src/execution/authority.rs:2677-2703 | a concrete run of two reclaimers ends with both holding |
| `AuthorityLock.HolderExitCanLoseTheLock` | src/execution/authority.rs:2683-2694 | a concrete run in which the holder exits between the reading and the test ends with two holders |
| `AuthorityLock.CrashBeforePidSticks` | src/execution/authority.rs:2645-2724 | a crash between creating the file and writing the pid, with nobody else at work, leaves the lock stuck |
| `AuthorityLock.StuckForever` | src/execution/authority.rs:2683-2693 | from a stuck lock no run, with restarts and any number of writers, gives it to anyone |
| `AuthorityLock.CanHoldExactly` | src/execution/authority.rs:2645-2724 | with nobody at work and no live process named, some run gives an idle writer the lock exactly when it is not stuck |
| `HarnessState.MutableHarnessState.BootstrapVerdictBuckets` | src/execution/authority.rs:2314-2356 | the failed and blocked buckets of a legacy state: per verdict of the derived history, else all blocked or all failed |
| `HarnessState.MutableHarnessState.RefreshNonPassing` | src/execution/authority.rs:2487-2505 | the non-passing list: required kinds that are failed or blocked in required order, then the rest once each |
| `HarnessState.MutableHarnessState.RecomputeEvaluatorState` | src/execution/authority.rs:2487-2541 | phase, aggregate, handoff flag and open criteria as functions of the buckets and the retry count |
| `HarnessState.MutableHarnessState.ApplyContract` | src/execution/authority.rs:531-551 | the whole state a contract leaves, everything else unchanged |
| `HarnessState.MutableHarnessState.Supersede` | src/execution/authority.rs:604-616 | the kind leaves pending, failed and blocked and is completed once |
| `HarnessState.MutableHarnessState.Judge` | src/execution/authority.rs:628-652 | the kind enters the bucket of its verdict and no other |
| `HarnessState.MutableHarnessState.UpdateOpenCriteria` | src/execution/authority.rs:619-650 | reported criteria leave the open list and the failing ones come back at its end unless the report passed |
| `HarnessState.MutableHarnessState.CountFailure` | src/execution/authority.rs:632-637 | the saturating retry count grows exactly on a failing report with a fresh sequence |
| `HarnessState.MutableHarnessState.ApplyEvaluation` | src/execution/authority.rs:602-655 | the whole state an evaluation leaves: bootstrap, report, recomputation, in this order |
| `HarnessState.MutableHarnessState.ApplyHandoff` | src/execution/authority.rs:689-693 | phase executing, handoff flag cleared, open criteria those of the handoff, nothing else |
| `EventLog.StateAgreesWithHistory` | src/execution/authority.rs:505-695 | over every run, once a contract was recorded: pending is the unreported required kinds in order, completed, failed and blocked are the kinds with such a latest verdict since that contract, each once; non-passing is failed or blocked; the aggregate is the fold; the retry count is the saturated number of failing reports; an all-pass state has no open criterion |
| `EventLog.BootstrapIsNoOp` | src/execution/authority.rs:2314-2323 | a state whose non-passing list agrees with its buckets is left alone by the legacy bootstrap |
| `EventLog.BucketsAfterReport` | src/execution/authority.rs:603-652 | one report takes the buckets from the fold of the shorter history to the fold of the longer one |
| `EventLog.AllPassedMeaning` | src/execution/authority.rs:2507-2541 | every required kind last passed exactly when no kind is pending, failed or blocked |
| `EventLog.PivotExactly` | src/execution/authority.rs:2511-2531 | after each accepted evaluation the phase is pivot_required exactly when nothing is blocked, something is failed, and the failing reports since the contract reach a positive threshold; saturation never changes the answer |
| `EventLog.PhaseExactly` | src/execution/authority.rs:2511-2541 | the other phases: handoff_required exactly when some kind is blocked, executing exactly when none is blocked or failed |
| `RunLaws.RepairingExactly` | src/execution/authority.rs:2511-2531 | and repairing exactly when something is failed, nothing blocked, and no positive threshold reached |
| `RunLaws.AfterContract` | src/execution/authority.rs:531-551 | over every run, a recorded contract leaves contract_approved, itself as active by file and fingerprint, its verifiers pending, and everything else reset |
| `RunLaws.AfterHandoff` | src/execution/authority.rs:689-693 | over every run, a recorded handoff leaves executing, no handoff required, its own open criteria, and evaluators, aggregate, retries, contract and last report as before |
| `RunLaws.ContractAndReportAgree` | src/execution/authority.rs:505-657 | over every run the active contract is the last recorded one, and the last report the last one since |
| `RunLaws.SequenceAgrees` | src/execution/authority.rs:470-479 | over every run the latest sequence is that of the last record |
| `RunLaws.LatestExactly` | src/execution/authority.rs:470-474 | the latest sequence of any state |
| `RunLaws.LegalExactly` | src/execution/authority.rs:697-831 | which records a state admits, by phase, active contract and required kinds |
| `RunLaws.LegalAfterHandoff` | src/execution/authority.rs:718-774 | right after a handoff exactly the reports of required kinds against its contract are legal |
| `RunLaws.LegalAfterBlock` | src/execution/authority.rs:776-831 | right after a block exactly the handoffs against its contract are |
| `RunLaws.OrderIsKept` | src/execution/authority.rs:2487-2505 | the non-passing list begins with the required kinds in order, and earlier open criteria stay in front |
| `RunLaws.BootstrapExactly` | src/execution/authority.rs:2314-2356 | the buckets of a legacy state, kind by kind, from the derived verdicts and in the two fallback cases |
| `EventLog.OpenCriteriaAgree` | src/execution/authority.rs:619-693 | over every run the open criteria are exactly those the history leaves open: closed by a contract or by the last missing pass, listed by a handoff, decided by the last report that mentions them |
| `EventLog.SequencesIncrease` | src/execution/authority.rs:936-951 | accepted records carry strictly increasing sequences over every run |
| `EventLog.ReplayReproducesState` | src/execution/authority.rs:602-655 | applying a report again straight after acceptance reproduces the state exactly, list order and retry count included |
| `EventLog.ReplayAcceptedExactly` | src/execution/authority.rs:992-1039 | such a replay is let through exactly while the new phase is evaluation-legal, that is unless it blocked the run or made it pivot |
| `EventLog.OnlyEvaluationsReplay` | src/execution/authority.rs:992-1039 | no equal-sequence contract or handoff is ever accepted |
| `AuthorityStore.UpsertedKeeps` | src/execution/authority.rs:2166-2197 | the upserted node is in the index and every node of another name stays |
| `AuthorityStore.Upsert` | src/execution/authority.rs:2166-2197 | the search loop replaces the first node of that name or appends |
| `AuthorityStore.AdmittedExactly` | src/execution/authority.rs:861-990 | a call passes the checks exactly when lock, state, gate and target allow it, its sequence is not older than the latest, and the artifact at its name, if any, is its own |
| `AuthorityStore.StagedExactly` | src/execution/authority.rs:1041-1128 | the writes before the event log succeed exactly when each of them does, and then artifact, node and observation are in place |
| `StoreLaws.RefusalExactly` | src/execution/authority.rs:861-990 | each refusal by the first check that fails |
| `StoreLaws.RefusedChangesNothing` | src/execution/authority.rs:861-990 | a refused call leaves everything as it was |
| `StoreLaws.StageFailsExactly` | src/execution/authority.rs:1041-1128 | each failure of staging by the first write that fails |
| `StoreLaws.StageLeaves` | src/execution/authority.rs:1041-1128 | what staging leaves of a new artifact, its node and its observation, failure by failure |
| `StoreLaws.AppendFailureLeaves` | src/execution/authority.rs:1131-1147 | a failed append leaves a new artifact exactly when its removal failed |
| `StoreLaws.NamesExactly` | src/execution/authority.rs:505-530 | records share an artifact name exactly when kind and fingerprint agree |
| `StoreLaws.NodeExactly` | src/execution/authority.rs:2166-2197 | an index node carries the artifact name and the sequence |
| `StoreLaws.PathsAreNames` | src/execution/authority.rs:531-657 | the contract and report paths in the state are the artifact names of those records |
| `AuthorityStore.CallExtendsLog` | src/execution/authority.rs:1131-1148 | the log grows by at most this event, exactly when the call is admitted, fresh and prepared and the line lands |
| `AuthorityStore.CallKeepsRun` | src/execution/authority.rs:846-1163 | the log stays a run |
| `AuthorityStore.OutcomeExactly` | src/execution/authority.rs:1131-1163 | a call reaches the event log exactly when it is admitted, fresh and prepared, and then returns append failure, acceptance or state-write failure by the faults of the last two writes |
| `AuthorityStore.ReplayExactly` | src/execution/authority.rs:992-1039 | a call is a successful replay exactly when it is admitted, of the latest sequence, leaves the state as it is, and the missing artifact and the node get written; a mismatch exactly when it would change the state |
| `AuthorityStore.StateFileExactly` | src/execution/authority.rs:1149-1163 | the state file is the state of the last event after an accepted call and untouched otherwise |
| `AuthorityStore.CallExtendsDisk` | src/execution/authority.rs:952-1163 | no call, failing or not, removes or alters an artifact that was there before |
| `AuthorityStore.CallKeepsBacking` | src/execution/authority.rs:952-1163 | a record that has its exact artifact, node and observation keeps them through any call under any faults |
| `AuthorityStore.NewEventBackedExactly` | src/execution/authority.rs:1131-1148 | an event that lands has artifact, node and observation exactly unless the append reports a failure after landing and the clean-up removes an artifact that was not there before; then the artifact alone is missing |
| `AuthorityStore.RecordedBackedExactly` | src/execution/authority.rs:992-1027 | a call for a record already in the log backs it exactly when it was backed or the call has its artifact and node in place again, even if it then reports an index failure |
| `AuthorityStore.OthersStayUnbacked` | src/execution/authority.rs:952-1163 | a call for one record never backs another one |
| `AuthorityStore.EventsStayBacked` | src/execution/authority.rs:846-1163 | over every run of calls under any faults, with phase moves in between: the log is a run, and a recorded event has its exact artifact, node and observation exactly when it is not among those lost in that case and not restored since |
| `AuthorityStore.RetryHeals` | src/execution/authority.rs:992-1039 | right after a loss a retry without faults restores the event exactly when it is a report and the run is neither blocked nor due to pivot |
| `AuthorityStore.AnArtifactCanBeLost` | src/execution/authority.rs:1131-1147 | a concrete first call after which the event is logged, its artifact is gone, and calling again is refused |
| `AuthorityStore.Store.Screen` | src/execution/authority.rs:861-990 | the checks in the order in which they turn a call away |
| `AuthorityStore.Store.Replay` | src/execution/authority.rs:992-1039 | the replay branch, writing in place, equals its function |
| `AuthorityStore.Store.Stage` | src/execution/authority.rs:1041-1128 | artifact, index and observation written in order, with the clean-up of each failure |
| `AuthorityStore.Store.Commit` | src/execution/authority.rs:1131-1163 | event log and state file written in order |
| `AuthorityStore.Store.RecordMutation` | src/execution/authority.rs:846-1163 | one call under any faults: contents and outcome are those of the function the results above are about |
| `AuthorityStore.Store.ChangePhase` | src/execution/authority.rs:718-737 | another command moves only the phase |
| `Leases.AppendUniqueMeaning` | src/execution/authority.rs:1602-1622 | earlier records stay in front and each new one is recorded under its run and fingerprint |
| `Leases.AppendUniqueKeepsUnique` | src/execution/authority.rs:1602-1622 | records stay unique per run and fingerprint |
| `Leases.AppendUniqueOnlyAdds` | src/execution/authority.rs:1602-1622 | only records of the given list are appended, under runs and fingerprints not recorded before |
| `Leases.SafeTokenExactly` | src/execution/authority.rs:1798-1807 | which tokens are safe |
| `Leases.PreviewExactly` | src/execution/authority.rs:1381-1439 | the preview succeeds exactly without leases, or with safe run and chunk, sound bindings, and a sound record for each lease taken away |
| `Leases.EligibleExactly` | src/execution/current_task_closure_cleanup.rs:26-30 | closures that passed review and verification release leases, of the asked task if any |
| `Leases.ReleaseConserves` | src/execution/authority.rs:1381-1573 | what was active is afterwards active or has a release record of the active run; what leaves is exactly the active part of the decision, which the preview names; records stay unique |
| `Leases.SecondReleaseIsNoOp` | src/execution/authority.rs:1381-1573 | the same decision finds nothing left to release |
| `Leases.LeaseIndex.Release` | src/execution/authority.rs:1441-1520 | the locked release follows the preview: refusals and empty decisions change nothing, otherwise the index changes exactly when the event landed |
| `Leases.LeaseIndex.KeepActive` | src/execution/authority.rs:1497-1512 | removed fingerprints leave the fingerprints and the bindings, in order |
| `Leases.LeaseIndex.AppendUniqueRecords` | src/execution/authority.rs:1602-1622 | the append loop equals its specification |
| `Leases.ReleaseDecision` | src/execution/current_task_closure_cleanup.rs:12-58 | the decision releases exactly the leases of eligible closures, with one record each from such a closure, and lists exactly the closures with something to release |
| `Leases.BuiltDecisionsAreCovered` | src/execution/authority.rs:1522-1573 | a decision with one record per fingerprint never hits the missing-record error |
| `ClosureGraph.StoredIsLatestIngested` | src/execution/closure_graph.rs:272-557 | for every snapshot and signals, what is stored under an id is the highest-sequence record ingested for it from any history, the last one on ties, changed only in freshness and stale reasons |
| `ClosureGraph.UpsertStoresLatest` | src/execution/closure_graph.rs:731-742 | one upsert keeps that |
| `ClosureFreshness.FreshnessExactly` | src/execution/closure_graph.rs:272-557 | for every stored id: superseded when the task list names it or the branch list reached it while current, otherwise as recorded; a signal target is stale unless that makes it historical; only a target gains the signalled reasons |
| `ClosureFreshness.StoredExactly` | src/execution/closure_graph.rs:272-512 | exactly the ids of candidates are stored |
| `ClosureFreshness.TargetsExactly` | src/execution/closure_graph.rs:529-541 | which ids the signals project onto |
| `ClosureFreshness.CurrentExactly` | src/execution/closure_graph.rs:559-566 | the current closures of a task, over recorded kind, task and status, the lists and the signals |
| `ClosureFreshness.IndexSkipsListed` | src/execution/closure_graph.rs:514-585 | the task index never answers with a listed task closure or a target |
| `ClosureFreshness.EvaluationFields` | src/execution/closure_graph.rs:272-512 | what is read from an entry, field by field |
| `ClosureFreshness.SkippedExactly` | src/execution/closure_graph.rs:272-300 | which entries are passed over |
| `ClosureFreshness.CandidatesExactly` | src/execution/closure_graph.rs:272-512 | candidates are exactly the entries read from the history of their kind |
| `ClosureFreshness.ListedExactly` | src/execution/closure_graph.rs:356-363 | a listed id points to the last record listing it, and no other id is mapped |
| `ClosureFreshness.PathCoversExactly` | src/execution/closure_graph.rs:761-766 | a path covers itself and what lies below it, nothing else |
| `ClosureFreshness.NormalizedIsPlain` | src/execution/closure_graph.rs:744-759 | normal paths have forward slashes and no leading dot, and normal paths stay |
| `ClosureFreshness.ResolvesExactly` | src/execution/closure_graph.rs:639-652 | resolving means strictly newer, same plan path and revision, and each counting path under one of the newer closure's |
| `ClosureFreshness.LinksExactly` | src/execution/closure_graph.rs:415-512 | the dependencies of a review or QA payload |
| `ClosureFreshness.ReviewExactly` | src/execution/closure_graph.rs:598-608 | over payloads: a bound fresh review is current exactly when it names the current branch closure and release readiness |
| `ClosureFreshness.QaExactly` | src/execution/closure_graph.rs:609-619 | over payloads: bound fresh QA is current exactly when it names the current branch closure and review |
| `ClosureGraph.PathCoversTransitive` | src/execution/closure_graph.rs:761-766 | path coverage is transitive |
| `ClosureGraph.SurfaceCoversReflexive` | src/execution/closure_graph.rs:768-795 | surface coverage is reflexive |
| `ClosureGraph.SurfaceCoversTransitive` | src/execution/closure_graph.rs:768-795 | surface coverage is transitive |
| `ClosureGraph.CurrentIsUnique` | src/execution/closure_graph.rs:559-585 | a task has at most one current closure |
| `ClosureGraph.NewerClosureKeepsHiding` | src/execution/closure_graph.rs:621-663 | a still newer and broader closure, under any id but the stale one's, hides what the current one hid |
| `ClosureGraph.FinalWithRecord` | src/execution/closure_graph.rs:155-178 | an entry newer than all others of its id and untouched by lists and signals, added to the task history or put in place of what it held under the id, is stored as read, wherever it stands, and nothing else changes |
| `ClosureGraph.NewerRecordKeepsHiding` | src/execution/closure_graph.rs:621-663 | so for every snapshot: a still newer and broader record, under a new id or one stored already, never un-hides a stale closure |
| `ClosureGraph.ChainIsLinked` | src/execution/closure_graph.rs:587-619 | a current QA implies a current final review, release readiness and branch closure, all fresh, bound to one branch closure and linked by dependency ids |
| `ClosureGraph.ChainIsExact` | src/execution/closure_graph.rs:676-729 | each of the four is current exactly when its bound record is fresh, bound to the current branch closure and linked to the current milestone below |
| `ClosureGraph.StaleBranchBreaksChain` | src/execution/closure_graph.rs:529-557 | projecting staleness onto the bound branch closure leaves none of the four current |
| `ClosureGraph.StaleSignalsBreakChain` | src/execution/closure_graph.rs:529-557 | so for every snapshot whose signals project and name its bound branch closure |
| `ClosureGraphBuild.Graph.UpsertEvaluation` | src/execution/closure_graph.rs:731-742 | a candidate replaces what is stored unless that has a greater sequence |
| `ClosureGraphBuild.Graph.IngestHistory` | src/execution/closure_graph.rs:272-512 | ingesting a history upserts its candidates in order |
| `ClosureGraphBuild.Graph.RecordListed` | src/execution/closure_graph.rs:356-363 | each id a branch record lists points to the last record listing it |
| `ClosureGraphBuild.Graph.MarkBranchesSuperseded` | src/execution/closure_graph.rs:366-372 | exactly the listed Current records become superseded |
| `ClosureGraphBuild.Graph.MarkTasksSuperseded` | src/execution/closure_graph.rs:514-527 | exactly the listed records become superseded |
| `ClosureGraphBuild.Graph.ProjectStale` | src/execution/closure_graph.rs:529-557 | exactly the targets become stale with the reasons added; unknown targets are remembered by id |
| `ClosureGraphBuild.BestByTask` | src/execution/closure_graph.rs:559-585 | the fold finds, for each task with a Current closure, the one with the greatest sequence, then the greatest id, and has no entry otherwise |
| `ClosureGraphBuild.IndexIsExact` | src/execution/closure_graph.rs:180-184 | the index answers a task with a closure exactly when that is its current one |
| `ClosureGraphBuild.Graph.AddTaskEdges` | src/execution/closure_graph.rs:621-663 | edges are added from exactly the closures the current one hides, earlier entries kept |
| `ClosureGraphBuild.Graph.AddExplicitEdges` | src/execution/closure_graph.rs:665-673 | an id named by a Current record points to such a record, everything else is kept |
| `ClosureGraphBuild.Graph.RefreshCurrentIndexes` | src/execution/closure_graph.rs:559-674 | all indexes equal their definitions over the stored evaluations |
| `ClosureGraphBuild.Graph.FromSnapshot` | src/execution/closure_graph.rs:155-178 | the same for the graph built from any snapshot and signals |
| `ClosureGraphBuild.NamedIsListed` | src/execution/closure_graph.rs:356-363 | only ids a branch record lists are ever named by a stored record |
| `ClosureGraphBuild.HiddenOnlyByResolvingClosure` | src/execution/closure_graph.rs:621-674 | an unlisted stale task closure is hidden only by a strictly newer Current closure of the same task and plan revision whose surface covers it, and whenever the current one is such |
| `ClosureGraphBuild.Graph.EarliestUnresolvedStaleTask` | src/execution/closure_graph.rs:260-270 | the least task number of an unresolved stale task closure |
| `Diagram.DependencyNeighbors` | src/contracts/plan.rs:1851-1891 | the neighbours are exactly the connector cells a cell's character leads to |
| `Diagram.FollowDependencyEdges` | src/contracts/plan.rs:1817-1849 | on every padded grid the walk terminates within bounds and adds exactly the edges to labels touched by a connector reachable from the start |
| `Diagram.DependencyStarts` | src/contracts/plan.rs:1788-1815 | the starts of a label: first non-blank to the right if a connector, and connectors below it |
| `Diagram.NodesOfLine` | src/contracts/plan.rs:1753-1786 | the scan finds exactly the labels of a line |
| `Diagram.ParseDependencyDiagramEdges` | src/contracts/plan.rs:1695-1725 | refused exactly when there is no label, otherwise exactly the edges the padded picture draws |
| `DiagramLaws.DecimalReadsBack` | src/contracts/plan.rs:1764-1768 | a number in decimal writing is read back |
| `DiagramLaws.LabelReadsBack` | src/contracts/plan.rs:1757-1780 | a written label is read as its task at its columns, whatever stands around it |
| `DiagramLaws.LabelIsNode` | src/contracts/plan.rs:1764-1776 | and is a node exactly when its number fits 32 bits |
| `DiagramLaws.PadExactly` | src/contracts/plan.rs:1695-1725 | padding adds only spaces |
| `DiagramLaws.StepsByCharacter` | src/contracts/plan.rs:1851-1895 | one step of the walk for each connector character |
| `DiagramLaws.WalksNeverGoUp` | src/contracts/plan.rs:1851-1891 | no walk leads upwards |
| `DiagramLaws.NothingDrawn` | src/contracts/plan.rs:1788-1849 | without connector characters nothing is drawn |
| `DiagramLaws.DrawnIntoTouched` | src/contracts/plan.rs:1834-1843 | an edge into a label needs a connector right above it or at most two columns before it |
| `DiagramLaws.ArrowDraws` | src/contracts/plan.rs:1788-1849 | a straight arrow between two labels of a row draws their edge |
| `DiagramLaws.PipeDraws` | src/contracts/plan.rs:1788-1849 | a straight pipe between two labels draws their edge |
| `Topology.SortedDistinctMeaning` | src/contracts/plan.rs:1393-1395 | sorting and de-duplicating keeps exactly the listed tasks |
| `Topology.DirectiveSays` | src/contracts/plan.rs:1422-1490 | a serial directive puts each dependency before its least task and each task before the next greater one; a parallel one each dependency before each task; exactly these |
| `Topology.StrategySays` | src/contracts/plan.rs:1422-1520 | the edges of a strategy are exactly those some directive says |
| `Topology.ExpectedExactly` | src/contracts/plan.rs:1422-1558 | into a task not placed last lead exactly these edges, `last` directives or not |
| `Topology.SeriesIsOrdered` | src/contracts/plan.rs:1445-1448 | in the relation of any strategy a later task of a series depends on every earlier one |
| `Topology.ApplySerial` | src/contracts/plan.rs:1423-1449 | the edges of a serial directive are added to the edge set and the map alike |
| `Topology.ApplyParallel` | src/contracts/plan.rs:1450-1490 | likewise for a parallel directive |
| `Topology.SinkTasks` | src/contracts/plan.rs:1543-1553 | striking out leaves exactly the tasks without an edge to another prior task |
| `Topology.SinkAbove` | src/contracts/plan.rs:1536-1558 | in an acyclic relation every task is below some sink |
| `Topology.LastDependsOnAll` | src/contracts/plan.rs:1536-1558 | with acyclic edges among the others the task placed last transitively depends on every other task |
| `Topology.StrategyLastDependsOnAll` | src/contracts/plan.rs:1422-1558 | the same for the final relation of a whole strategy |
| `Topology.LastDependsExactly` | src/contracts/plan.rs:1536-1558 | for every relation, cyclic or not, the task placed last depends on exactly what a sink of the others, or a task it waited for already, is or depends on |
| `Topology.StrategyLastDependsExactly` | src/contracts/plan.rs:1422-1558 | the same in the relation of a whole strategy for its final `last` directive |
| `Topology.LastSkipsCycle` | src/contracts/plan.rs:1536-1558 | the plan of two tasks waiting for each other: the third, placed last, depends on neither |
| `Topology.LastReachesCycle` | src/contracts/plan.rs:1536-1558 | a plan with a cycle above a sink: the task placed last depends on all of it |
| `Topology.BuildDependencies` | src/contracts/plan.rs:1422-1558 | the edge set is the specified one and the map describes the same relation |
| `Topology.CollectDependencies` | src/contracts/plan.rs:2135-2149 | the search with a shared visited set terminates on every map, marks only reachable tasks, and leaves the marked set closed |
| `Topology.TransitiveDependencies` | src/contracts/plan.rs:2122-2133 | for every map, cyclic or not, each task gets exactly what it reaches by one or more edges |
| `Topology.WritersByPath` | src/contracts/plan.rs:2151-2166 | the index lists exactly the writers of each path, increasing |
| `Topology.HotspotConflicts` | src/contracts/plan.rs:1625-1657 | a path is reported exactly when two distinct writers are unordered |
| `Topology.AnalyzeExecutionTopology` | src/contracts/plan.rs:1337-1672 | one relation throughout, with exactly the said edges into tasks not placed last; hotspots as above; a diagram without complaint pictures exactly the relation that decides the hotspots |
| `PlanIdentity.SegmentsWellFormed` | src/contracts/plan.rs:909-937 | cutting into lines and joining gives the text back, endings included |
| `PlanIdentity.SegmentsOfJoined` | src/contracts/plan.rs:909-937 | well-formed lines are what cutting their joined text yields |
| `PlanIdentity.RewriteLines` | src/contracts/plan.rs:909-937 | the loop with its flag replaces the first equal line and keeps its ending |
| `PlanIdentity.PlanSourceWithWorkflowState` | src/contracts/plan.rs:909-937 | the rewritten source |
| `PlanIdentity.RewriteIsOneLine` | src/contracts/plan.rs:909-937 | for a parsed plan exactly the header line is rewritten |
| `PlanIdentity.RewriteKeepsEndings` | src/contracts/plan.rs:909-937 | every line ending and every other line stay |
| `PlanIdentity.FlippedParses` | src/contracts/plan.rs:1036-1102 | a rewritten plan parses to the new state and the same reviewer |
| `PlanIdentity.ParseExactly` | src/contracts/plan.rs:1036-1102 | the header combinations a plan may have |
| `PlanIdentity.RewriteTwice` | src/contracts/plan.rs:909-937 | rewriting twice is rewriting once |
| `PlanIdentity.ApprovalKeepsAccepted` | src/contracts/plan.rs:888-900 | for a parsed plan last reviewed by the engineering review, flipping between Draft and Engineering Approved leaves the accepted sources and fingerprints unchanged |
| `PlanIdentity.AcceptedExactly` | src/contracts/plan.rs:888-907 | for the engineering review exactly the two rewritten sources are accepted |
| `PlanIdentity.TemplateIsAccepted` | src/contracts/plan.rs:884-907 | the fingerprint put in the review template is always accepted |
| `PlanIdentity.OthersAcceptOnlyOwnSource` | src/contracts/plan.rs:888-900 | for any other reviewer only the plan's own source is accepted |
| `StepOverlay.LoadSteps` | src/execution/context.rs:655-673 | the loading loops over the step array equal the specification, in success and failure |
| `StepOverlay.LoadsExactly` | src/execution/context.rs:655-673 | loading succeeds exactly without authority, or when every completed entry names a step of the plan and the open record, if any for this workspace, has a valid mode where needed, the plan's path and revision, a note, a known step and a summary of 1 to 120 characters |
| `StepOverlay.LoadedWithoutAuthority` | src/execution/context.rs:356-365 | without authority every step is unchecked and without a note |
| `StepOverlay.ScopedExactly` | src/execution/context.rs:939-958 | when a closure record is scoped to a task |
| `StepOverlay.OverlayClosures` | src/execution/context.rs:914-937 | closure records check the steps of their task in place |
| `StepOverlay.OverlayCompleted` | src/execution/context.rs:861-881 | completed entries check the first step with their id, or fail |
| `StepOverlay.ParseCompleted` | src/execution/context.rs:883-912 | an entry without task or step refuses the list |
| `StepOverlay.OverlayOpen` | src/execution/context.rs:1401-1435 | the open step's record is checked in order and then written in place |
| `StepOverlay.OpenMeaning` | src/execution/context.rs:1484-1564 | the open step is unchecked with the record's note and a summary of 1 to 120 characters; no other step changes |
| `StepOverlay.ClosuresMeaning` | src/execution/context.rs:914-958 | a step is checked exactly when it was or its task has a well-scoped closure record |
| `StepOverlay.CompletedMeaning` | src/execution/context.rs:861-881 | succeeds exactly when every id is known, and then checks exactly the first step of each id |
| `StepOverlay.LoadedMeaning` | src/execution/context.rs:655-673 | for every step list: the open step as above, every other step without note and checked exactly when authority says so |
| `StepOverlay.LoadedDistinct` | src/execution/context.rs:655-673 | with distinct ids: at most one note, on an unchecked step, and all others checked exactly when an entry names them or their task is closed |
| `StepOverlay.LoadingIgnoresMarkdown` | src/execution/context.rs:356-365 | loading does not depend on marks or notes in the markdown, in success or failure |
| `TaskContract.ReadBlock` | src/contracts/task_contract.rs:231-239 | the lines of a block end at the next second-level heading; a third-level task heading refuses |
| `TaskContract.SplitTaskBlocks` | src/contracts/task_contract.rs:207-246 | splitting succeeds exactly when no heading is malformed and no task number repeats, and yields the blocks |
| `TaskContractLaws.HeadingsExactly` | src/contracts/task_contract.rs:214-236 | which headings begin and end blocks and which are malformed |
| `TaskContractLaws.BlocksAreBlocks` | src/contracts/task_contract.rs:231-243 | a block is the lines from its task heading to the next second-level heading |
| `TaskContractLaws.HeadingsHaveBlocks` | src/contracts/task_contract.rs:214-243 | every numbered task heading has a block |
| `TaskContractLaws.FieldsExactly` | src/contracts/task_contract.rs:173-204 | the fields of a block are accepted exactly without legacy fields, in order, with a goal and the three lists |
| `TaskContractLaws.OrderExactly` | src/contracts/task_contract.rs:28-35 | the order of the fields |
| `TaskContractLaws.FormsExactly` | src/contracts/task_contract.rs:853-863 | which lines are markers, scalars and list fields |
| `TaskContractLaws.StarredExactly` | src/contracts/task_contract.rs:905-907 | which lines end a list of entries |
| `TaskContractLaws.EntriesExactly` | src/contracts/task_contract.rs:892-926 | between a list marker and the next starred line stand only bullets and blank lines |
| `TaskContractLaws.ContinuesExactly` | src/contracts/task_contract.rs:358-384 | how far a note goes on |
| `TaskContractLaws.StructureExactly` | src/contracts/task_contract.rs:561-662 | a body without notes and fences is well structured exactly when each line fits its place |
| `TaskContractLaws.FenceIsSkipped` | src/contracts/task_contract.rs:584-593 | the validator skips a fence and refuses an open one |
| `TaskContractLaws.NoteIsSkipped` | src/contracts/task_contract.rs:577-583 | the validator skips a note as long as it goes on |
| `TaskContractLaws.OpensAfterStep` | src/contracts/task_contract.rs:590-600 | after a step fences and notes open |
| `TaskContractLaws.FenceIsNotGathered` | src/contracts/task_contract.rs:313-322 | the collector skips a fence |
| `TaskContractLaws.GatheredExactly` | src/contracts/task_contract.rs:305-334 | without notes and fences the known title of a number is that of its last step line after the Files marker |
| `TaskContractLaws.ValidStepsAreKnown` | src/contracts/task_contract.rs:288-334 | every step of a valid body without notes and fences is known by its own title |
| `TaskContract.EnforceFieldOrder` | src/contracts/task_contract.rs:822-863 | comparing each field with the nearest earlier one decides exactly whether each occurs once at most and all pairs are in order |
| `TaskContract.BulletsAfterField` | src/contracts/task_contract.rs:892-926 | the collecting loop equals its specification |
| `TaskContract.ValidateTaskBody` | src/contracts/task_contract.rs:561-662 | the validator over flags equals the line machine |
| `TaskContract.ParseTaskContract` | src/contracts/task_contract.rs:173-205 | a block is accepted exactly when fields and structure are in order |
| `TaskContract.KnownAreChecked` | src/contracts/task_contract.rs:305-334 | in a well-formed block whose notes hold no fence, the collected steps are exactly the validated ones |
| `TaskContract.CollectKnownTaskSteps` | src/contracts/task_contract.rs:305-334 | the collector adds the block's steps to the shared map, last title per number |
| `TaskContract.MergedMeaning` | src/contracts/task_contract.rs:288-304 | with distinct task numbers a task's known steps are those of its own block |
| `TaskContract.KnownRuntimeSteps` | src/contracts/task_contract.rs:288-304 | the known steps of a plan; none when it cannot be split |
| `ContractRender.ParseContractRender` | src/execution/context.rs:2400-2471 | the renderer over flags equals the line machine |
| `RenderLaws.RenderShows` | src/execution/context.rs:2400-2471 | every rendering is its plan in order: exactly blank lines after an unmarked step, and its note, are left out, and every other line is shown as it is, as the mode line or as its unmarked step |
| `RenderLaws.RenderedLineIsFromPlan` | src/execution/context.rs:2400-2471 | every rendered line comes from a line of the plan in one of these forms |
| `RenderLaws.PlainRendering` | src/execution/context.rs:2400-2471 | without blank lines and notes, line by line: mode lines lose their value, known steps after the Files marker and outside fences their mark, and everything else stays |
| `RenderLaws.StepsLoseTheirMarks` | src/execution/context.rs:2452-2466 | without blank lines, notes and fences every step of a valid block loses its mark |
| `RenderLaws.ShowsExactly` | src/execution/context.rs:2400-2471 | plans of the same shapes have one rendering exactly when they differ only in normalised steps' marks, mode values and lines left out |
| `NormalForm.KnownAlike` | src/contracts/task_contract.rs:288-334 | known steps do not depend on marks or on text outside the shapes |
| `NormalForm.ProgressDoesNotShow` | src/execution/context.rs:2400-2471 | flipping marks of normalised steps, changing execution mode values or rewording notes leaves the rendering unchanged |
| `NormalForm.BlocksRun` | src/execution/context.rs:2400-2471 | the blocks of the output are the rendered blocks of the source |
| `NormalForm.GatherKept` | src/contracts/task_contract.rs:305-384 | dropping notes with paired fences does not change what is collected |
| `NormalForm.KnownNoMore` | src/contracts/task_contract.rs:288-334 | a rendering knows no step its source did not know |
| `NormalForm.SettledExactly` | src/execution/context.rs:2400-2471 | a rendering is the identity exactly when no line is dropped and each is emitted as it is |
| `NormalForm.RenderTwiceExactly` | src/execution/context.rs:2400-2471 | for every plan, rendering twice equals rendering once exactly when each step known to the rendering and not to its source is already unmarked and not followed by a blank line or a note |
| `NormalForm.RenderTwice` | src/execution/context.rs:2400-2471 | so it does when fences in dropped notes are paired |
| `NormalForm.RenderTwicePlain` | src/execution/context.rs:2400-2471 | in particular when dropped notes hold no fence |
| `OpenFence.OpenFenceShowsProgress` | src/contracts/task_contract.rs:305-334 | a concrete plan with an open fence in a note whose second rendering differs from the first |
| `Evidence.ReadCriteria` | src/execution/context.rs:2129-2158 | the criterion list with its backward step equals the forward reference |
| `Evidence.ReadProven` | src/execution/context.rs:2168-2195 | likewise for proven files |
| `Evidence.ReadLegacyFiles` | src/execution/context.rs:2196-2217 | likewise for legacy files, with an unknown proof each |
| `Evidence.ReadBodyLine` | src/execution/context.rs:2104-2235 | one round of the attempt loop |
| `Evidence.ReadBody` | src/execution/context.rs:2097-2236 | the attempt loop ends at the next heading, on which the cursor steps back |
| `Evidence.ReadAttempt` | src/execution/context.rs:2045-2075 | an attempt is accepted only with the next number of its task and step |
| `Evidence.ParseEvidenceAttempts` | src/execution/context.rs:2019-2336 | the cursor parser terminates and equals the forward-only reference on every document; what it accepts is well numbered |
| `Evidence.AcceptedIsWellNumbered` | src/execution/context.rs:2019-2336 | in every accepted document the attempts of each task and step are numbered 1..k in order, each valid, with at least one file and proofs matching the files position by position |
| `EvidenceLaws.ValidExactly` | src/execution/context.rs:2238-2294 | an attempt is accepted exactly with these statuses, sources and non-blank fields, and a real reason when invalidated |
| `EvidenceLaws.CommandFromSummary` | src/execution/context.rs:2296-2297 | a missing command is read from the summary |
| `EvidenceLaws.MalformedHeadingRefused` | src/execution/context.rs:2032-2038 | a task heading without a step is refused |
| `EvidenceLaws.WrongAttemptRefused` | src/execution/context.rs:2045-2073 | attempts without heading, without number and out of order are refused |
| `EvidenceLaws.OtherLinesSkipped` | src/execution/context.rs:2030-2043 | other lines outside attempts are skipped |
| `EvidenceLaws.EmptyDocumentRefused` | src/execution/context.rs:2329-2334 | a version 2 document that mentions tasks in vain is refused |
| `EvidenceLaws.IndentedSkipped` | src/execution/context.rs:2104-2235 | indented lines of an attempt are skipped |
| `EvidenceLaws.VerificationRead` | src/execution/context.rs:2224-2230 | the line after a verification marker is the summary if it is a bullet |
| `EvidenceLaws.LegacyFilesRead` | src/execution/context.rs:2196-2217 | a legacy file list is read as its paths with unknown proofs |
| `EvidenceLaws.BadBulletRefused` | src/execution/context.rs:2168-2217 | bullets without proof or with a path that is not canonical are refused |
| `EvidenceLaws.CriteriaRead` | src/execution/context.rs:2129-2158 | what the criterion list takes and passes over |
| `EvidenceRender.AttemptReadsBack` | src/execution/projection_renderer.rs:729-816 | the lines written for any attempt read back as what was written, whatever follows |
| `EvidenceRender.WrittenStaysValid` | src/execution/projection_renderer.rs:729-816 | writing keeps a valid attempt valid, with its files |
| `EvidenceRender.RereadExactly` | src/execution/projection_renderer.rs:742-756 | an attempt survives being written and read exactly when packet, head and command are accounted for |
| `EvidenceRender.EveryAttemptIsRead` | src/execution/context.rs:2019-2336 | every valid content, with or without the optional values, is what the parser reads from some document |
| `EvidenceRender.AReadAttemptCanChange` | src/execution/projection_renderer.rs:742-756 | an attempt read without a packet fingerprint is written and read back with one |
| `EvidenceRender.RereadTwice` | src/execution/projection_renderer.rs:683-820 | writing and reading again changes nothing more |
| `EvidenceRender.OfIsConsecutive` | src/execution/projection_renderer.rs:712-723 | the attempts of one step in well-numbered evidence are numbered 1..k |
| `EvidenceLaws.GroupedHas` | src/execution/projection_renderer.rs:712-723 | a document holds exactly the attempts of the plan's steps |
| `EvidenceRender.DocumentReadsBack` | src/execution/projection_renderer.rs:683-820 | the parser accepts every document written for well-numbered evidence and distinct steps, and reads the attempts of these steps in plan order |

## Left out

- Turning characters into line tokens and JSON into payloads: lines carry the outcome of each test the code
  makes, and a rendered evidence line is taken to read back as the value it was written from, which holds
  for the whitespace-normalised values the runtime stores. Unicode white space counts as text in `Trim`.
- Hashes, process liveness, workspace comparison, the verify-command reader and the checks of a record
  against other files are parameters; the verdict history derived for a legacy state is one too. Of the
  contract reader only its refusal of a contract without verifiers is used.
- AuthorityLock.MutualExclusion: assumes that a live holder tests as running and that no removal is stray;
  the lock file's pid is written in one step.
- An event line whose newline failed shares its line with the next append, which makes the log unreadable;
  the model has the line land whole and lets a later load fail on its own.
- The contents of observability events and telemetry counters, beyond which sequences were observed.
- Wrap-around of sequence, task and step numbers, which the code only compares; the saturating retry count
  is modelled.
- Diagnostics of the topology other than diagram and hotspot findings (worktree counts, ownership, reasons),
  the parsing of strategy prose into directives, and the extraction of the diagram section.
- `EvidenceRender`'s writer and the legacy-field and required-field tests of a block are modelled as functions
  although the source builds them by pushing lines or scanning; nothing about order is lost.
- The second plan parser, the harness and spec readers, command eligibility, dispatch, migration,
  configuration and the command line, which are components of their own.
