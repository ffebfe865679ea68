/** The graph object: how its maps and indexes are filled from a snapshot. */
module ClosureGraphBuild {
  import opened Lists
  import opened Text
  import opened ClosureGraph

  ghost predicate WellKeyed(m: Evaluations) {
    forall id :: id in m ==> m[id].id == id
  }

  /** The index of current closures agrees with its definition over the records. */
  ghost predicate IndexesCurrent(m: Evaluations, index: map<Task, RecordId>) {
    && (forall t :: t in index ==> IsCurrentOf(m, t, index[t]))
    && (forall t, id :: CurrentFor(m, t, id) ==> t in index)
  }

  lemma IndexIsExact(m: Evaluations, index: map<Task, RecordId>, t: Task, id: RecordId)
    requires IndexesCurrent(m, index)
    ensures IsCurrentOf(m, t, id) <==> t in index && index[t] == id
  {
    if IsCurrentOf(m, t, id) {
      CurrentIsUnique(m, t, id, index[t]);
    }
  }

  ghost predicate Hidden(m: Evaluations, id: RecordId) {
    exists c :: Hides(m, c, id)
  }

  ghost predicate SupersededByCurrent(m: Evaluations, id: RecordId) {
    exists c :: Names(m, c, id)
  }

  /** What the finished supersession map holds, given the ids that branch records list. */
  ghost predicate Supersedes(m: Evaluations, listed: map<RecordId, RecordId>, edges: map<RecordId, RecordId>) {
    && (forall id :: id in edges <==> id in listed || SupersededByCurrent(m, id) || Hidden(m, id))
    && (forall id :: id in edges && id !in listed && !SupersededByCurrent(m, id) ==> Hides(m, edges[id], id))
    && (forall id :: id in listed && !SupersededByCurrent(m, id) ==> edges[id] == listed[id])
    && (forall id :: id in edges && SupersededByCurrent(m, id) ==> Names(m, edges[id], id))
  }

  class Graph {
    var evaluations: Evaluations
    var supersededBy: map<RecordId, RecordId>
    var projectionOnly: seq<RecordId>
    var bound: Bound
    var currentTasks: map<Task, RecordId>
    var chain: Chain

    method UpsertEvaluation(e: Evaluation)
      modifies this`evaluations
      ensures evaluations == Upserted(old(evaluations), e)
    {
      var keepExisting := e.id in evaluations && evaluations[e.id].sequence > e.sequence;
      if !keepExisting {
        evaluations := evaluations[e.id := e];
      }
    }

    method IngestHistory(kind: Kind, history: seq<Entry>)
      modifies this`evaluations
      ensures evaluations == AllUpserted(old(evaluations), Candidates(kind, history))
    {
      for i := 0 to |history|
        invariant evaluations == AllUpserted(old(evaluations), Candidates(kind, history[..i]))
      {
        assert history[..i + 1][..i] == history[..i];
        if Skipped(kind, history[i]) {
          continue;
        }
        UpsertEvaluation(EvaluationOf(kind, history[i]));
        var before := Candidates(kind, history[..i]);
        assert (before + [EvaluationOf(kind, history[i])])[..|before|] == before;
      }
      assert history[..|history|] == history;
    }

    method RecordListed(history: seq<Entry>)
      requires supersededBy == map[]
      modifies this`supersededBy
      ensures supersededBy == ListedBy(history)
    {
      for i := 0 to |history|
        invariant supersededBy == ListedBy(history[..i])
      {
        assert history[..i + 1][..i] == history[..i];
        var e := history[i];
        if Skipped(BranchClosure, e) {
          continue;
        }
        var id := IdOf(BranchClosure, e);
        var ids := e.payload.supersededBranches;
        ghost var before := supersededBy;
        for j := 0 to |ids|
          invariant supersededBy == AllTo(before, ids[..j], id)
        {
          assert ids[..j + 1][..j] == ids[..j];
          supersededBy := supersededBy[ids[j] := id];
        }
        assert ids[..|ids|] == ids;
      }
      assert history[..|history|] == history;
    }

    method MarkBranchesSuperseded(ids: seq<RecordId>)
      modifies this`evaluations
      ensures evaluations == BranchesSuperseded(old(evaluations), ids)
    {
      for i := 0 to |ids|
        invariant evaluations == BranchesSuperseded(old(evaluations), ids[..i])
      {
        var id := ids[i];
        assert forall x :: x in ids[..i + 1] <==> x == id || x in ids[..i];
        if id in evaluations && evaluations[id].freshness == Current {
          evaluations := evaluations[id := evaluations[id].(freshness := Superseded)];
        }
      }
      assert ids[..|ids|] == ids;
    }

    method MarkTasksSuperseded(ids: seq<RecordId>)
      modifies this`evaluations
      ensures evaluations == TasksSuperseded(old(evaluations), ids)
    {
      for i := 0 to |ids|
        invariant evaluations == TasksSuperseded(old(evaluations), ids[..i])
      {
        var id := ids[i];
        assert forall x :: x in ids[..i + 1] <==> x == id || x in ids[..i];
        if id in evaluations && evaluations[id].freshness != Superseded {
          evaluations := evaluations[id := evaluations[id].(freshness := Superseded)];
        }
      }
      assert ids[..|ids|] == ids;
    }

    /** Targets that are not stored are remembered by id alone. */
    method ProjectStale(signals: Signals)
      modifies this`evaluations, this`projectionOnly
      ensures evaluations == StaleProjected(old(evaluations), Targets(signals), signals.reasons)
      ensures forall id :: id in projectionOnly <==>
                id in old(projectionOnly) || (id in Targets(signals) && id !in old(evaluations))
    {
      var targets := SortedKeys(Targets(signals));
      for i := 0 to |targets|
        invariant evaluations == StaleProjected(old(evaluations), (set x | x in targets[..i]), signals.reasons)
        invariant forall id :: id in projectionOnly <==>
                    id in old(projectionOnly) || (id in targets[..i] && id !in old(evaluations))
      {
        var id := targets[i];
        assert forall x :: x in targets[..i + 1] <==> x == id || x in targets[..i];
        assert id !in targets[..i];
        if id in evaluations {
          evaluations := evaluations[id := Stale(evaluations[id], signals.reasons)];
        } else {
          projectionOnly := PushUnique(projectionOnly, id);
        }
      }
      assert targets[..|targets|] == targets;
      assert (set x | x in targets) == Targets(signals);
    }

    method IndexCurrentTasks()
      requires WellKeyed(evaluations)
      modifies this`currentTasks
      ensures IndexesCurrent(evaluations, currentTasks)
    {
      var best := BestByTask(evaluations);
      currentTasks := map t | t in best :: best[t].1;
    }

    /** Task closures that are no longer current point to the current one, unless a branch record
        already lists them; a stale one does so only when the current one resolves it. */
    method AddTaskEdges()
      requires WellKeyed(evaluations) && IndexesCurrent(evaluations, currentTasks)
      modifies this`supersededBy
      ensures forall id :: id in supersededBy <==> id in old(supersededBy) || Hidden(evaluations, id)
      ensures forall id :: id in old(supersededBy) ==> supersededBy[id] == old(supersededBy)[id]
      ensures forall id :: id in supersededBy && id !in old(supersededBy) ==> Hides(evaluations, supersededBy[id], id)
    {
      var keys := SortedKeys(evaluations.Keys);
      for i := 0 to |keys|
        invariant forall id :: id in supersededBy <==>
                    id in old(supersededBy) || (id in keys[..i] && Hidden(evaluations, id))
        invariant forall id :: id in old(supersededBy) ==>
                  id in supersededBy && supersededBy[id] == old(supersededBy)[id]
        invariant forall id :: id in supersededBy && id !in old(supersededBy) ==>
                  Hides(evaluations, supersededBy[id], id)
      {
        var k := keys[i];
        assert k in keys;
        assert forall o :: o in keys[..i + 1] <==> o == k || o in keys[..i];
        var target := EdgeFrom(k);
        if target.Some? && k !in supersededBy {
          supersededBy := supersededBy[k := target.value];
        }
      }
      assert keys[..|keys|] == keys;
    }

    method EdgeFrom(k: RecordId) returns (target: Option<RecordId>)
      requires k in evaluations && IndexesCurrent(evaluations, currentTasks)
      ensures target.Some? ==> Hides(evaluations, target.value, k)
      ensures target.None? ==> !Hidden(evaluations, k)
    {
      var e := evaluations[k];
      if e.kind != TaskClosure || e.freshness == Current || e.task.None? {
        return None;
      }
      forall c
        ensures IsCurrentOf(evaluations, e.task.value, c) <==>
                e.task.value in currentTasks && currentTasks[e.task.value] == c
      {
        IndexIsExact(evaluations, currentTasks, e.task.value, c);
      }
      if e.task.value !in currentTasks {
        return None;
      }
      var current := currentTasks[e.task.value];
      if current == k {
        return None;
      }
      if e.freshness == StaleUnreviewed && !Resolves(evaluations[current], e) {
        return None;
      }
      return Some(current);
    }

    /** The closure that a Current record names as superseded overrides every other entry. */
    method AddExplicitEdges()
      requires WellKeyed(evaluations)
      modifies this`supersededBy
      ensures forall id :: id in supersededBy <==> id in old(supersededBy) || SupersededByCurrent(evaluations, id)
      ensures forall id :: id in supersededBy && !SupersededByCurrent(evaluations, id) ==>
              supersededBy[id] == old(supersededBy)[id]
      ensures forall id :: SupersededByCurrent(evaluations, id) ==> Names(evaluations, supersededBy[id], id)
    {
      var keys := SortedKeys(evaluations.Keys);
      for i := 0 to |keys|
        invariant Overrides(evaluations, keys[..i], old(supersededBy), supersededBy)
      {
        assert keys[i] in keys;
        var e := evaluations[keys[i]];
        OverridesNext(evaluations, keys[..i], keys[i], old(supersededBy), supersededBy);
        assert keys[..i + 1] == keys[..i] + [keys[i]];
        if e.freshness == Current && e.supersedes.Some? {
          supersededBy := supersededBy[e.supersedes.value := e.id];
        }
      }
      assert keys[..|keys|] == keys;
      AllNamed(evaluations, keys);
    }

    method RefreshCurrentIndexes()
      requires WellKeyed(evaluations)
      modifies this`currentTasks, this`chain, this`supersededBy
      ensures IndexesCurrent(evaluations, currentTasks)
      ensures chain == CurrentChain(evaluations, bound)
      ensures Supersedes(evaluations, old(supersededBy), supersededBy)
    {
      IndexCurrentTasks();
      chain := CurrentChain(evaluations, bound);
      AddTaskEdges();
      AddExplicitEdges();
    }

    method Ingest(s: Snapshot)
      requires evaluations == map[] && supersededBy == map[]
      modifies this`evaluations, this`supersededBy
      ensures evaluations == Ingested(s) && supersededBy == ListedBy(s.branches)
    {
      IngestHistory(TaskClosure, s.tasks);
      IngestHistory(BranchClosure, s.branches);
      RecordListed(s.branches);
      MarkBranchesSuperseded(s.supersededBranches);
      IngestHistory(ReleaseReadiness, s.releases);
      IngestHistory(FinalReview, s.reviews);
      IngestHistory(BrowserQa, s.qas);
    }

    method ApplyFreshness(s: Snapshot, signals: Signals)
      requires evaluations == Ingested(s) && projectionOnly == []
      modifies this`evaluations, this`projectionOnly
      ensures evaluations == FinalEvaluations(s, signals)
      ensures forall id :: id in projectionOnly <==> id in Targets(signals) && id !in evaluations
    {
      MarkTasksSuperseded(s.supersededTasks);
      ProjectStale(signals);
    }

    /** The whole construction. */
    constructor FromSnapshot(s: Snapshot, signals: Signals)
      ensures evaluations == FinalEvaluations(s, signals)
      ensures IndexesCurrent(evaluations, currentTasks)
      ensures chain == CurrentChain(evaluations, s.bound)
      ensures Supersedes(evaluations, ListedBy(s.branches), supersededBy)
      ensures forall id :: id in projectionOnly <==> id in Targets(signals) && id !in evaluations
    {
      evaluations, supersededBy, projectionOnly := map[], map[], [];
      bound, currentTasks, chain := s.bound, map[], Chain(None, None, None, None);
      new;
      Ingest(s);
      ApplyFreshness(s, signals);
      FinalIsWellKeyed(s, signals);
      RefreshCurrentIndexes();
    }

    /** Stale closures that nothing supersedes. */
    ghost predicate Unresolved(id: RecordId)
      reads this
    {
      id in evaluations && evaluations[id].freshness == StaleUnreviewed && id !in supersededBy
    }

    ghost predicate UnresolvedTask(id: RecordId)
      reads this
    {
      Unresolved(id) && evaluations[id].kind == TaskClosure && evaluations[id].task.Some?
    }

    method EarliestUnresolvedStaleTask() returns (earliest: Option<Task>)
      ensures earliest.Some? ==> exists id :: UnresolvedTask(id) && evaluations[id].task == earliest
      ensures forall id :: UnresolvedTask(id) ==> earliest.Some? && earliest.value <= evaluations[id].task.value
    {
      earliest := None;
      var keys := SortedKeys(evaluations.Keys);
      for i := 0 to |keys|
        invariant earliest.Some? ==> exists id :: UnresolvedTask(id) && evaluations[id].task == earliest
        invariant forall id :: id in keys[..i] && UnresolvedTask(id) ==>
                    earliest.Some? && earliest.value <= evaluations[id].task.value
      {
        var k := keys[i];
        assert k in keys;
        assert forall o :: o in keys[..i + 1] <==> o == k || o in keys[..i];
        var e := evaluations[k];
        if e.kind == TaskClosure && e.freshness == StaleUnreviewed && k !in supersededBy && e.task.Some? {
          assert UnresolvedTask(k);
          if earliest.None? || e.task.value < earliest.value {
            earliest := e.task;
          }
        }
      }
      assert keys[..|keys|] == keys;
    }
  }

  lemma FinalIsWellKeyed(s: Snapshot, signals: Signals)
    ensures WellKeyed(FinalEvaluations(s, signals))
  {
    StoredIsLatestIngested(s, signals);
  }

  type Ranking = map<Task, (nat, RecordId)>

  ghost predicate BestSoFar(m: Evaluations, keys: seq<RecordId>, t: Task, best: (nat, RecordId)) {
    && best.1 in keys && CurrentFor(m, t, best.1) && m[best.1].sequence == best.0
    && forall o :: o in keys && CurrentFor(m, t, o) ==> Outranks(m, best.1, o)
  }

  ghost predicate Ranks(m: Evaluations, keys: seq<RecordId>, best: Ranking) {
    && (forall t :: t in best ==> BestSoFar(m, keys, t, best[t]))
    && (forall t, o :: o in keys && CurrentFor(m, t, o) ==> t in best)
  }

  /** One step of the fold: on an equal sequence the later key wins. */
  function Ranked(e: Evaluation, best: Ranking): Ranking {
    if e.kind == TaskClosure && e.freshness == Current && e.task.Some?
       && (e.task.value !in best || e.sequence >= best[e.task.value].0)
    then best[e.task.value := (e.sequence, e.id)] else best
  }

  lemma RankedStep(m: Evaluations, keys: seq<RecordId>, k: RecordId, best: Ranking)
    requires Ranks(m, keys, best) && k in m && m[k].id == k
    requires forall o :: o in keys ==> o in m && Le(o, k)
    ensures Ranks(m, keys + [k], Ranked(m[k], best))
  {
    LeTotal(k, k);
    var next := Ranked(m[k], best);
    forall t | t in next
      ensures BestSoFar(m, keys + [k], t, next[t])
    {
      if t in best {
        assert BestSoFar(m, keys, t, best[t]);
      }
    }
  }

  method BestByTask(m: Evaluations) returns (best: Ranking)
    requires WellKeyed(m)
    ensures forall t :: t in best ==> IsCurrentOf(m, t, best[t].1)
    ensures forall t, id :: CurrentFor(m, t, id) ==> t in best
  {
    var keys := SortedKeys(m.Keys);
    best := map[];
    for i := 0 to |keys|
      invariant Ranks(m, keys[..i], best)
    {
      assert keys[i] in keys;
      forall o | o in keys[..i]
        ensures o in m && Le(o, keys[i])
      {
        assert o in keys;
      }
      RankedStep(m, keys[..i], keys[i], best);
      assert keys[..i + 1] == keys[..i] + [keys[i]];
      best := Ranked(m[keys[i]], best);
    }
    assert keys[..|keys|] == keys;
    forall t | t in best
      ensures IsCurrentOf(m, t, best[t].1)
    {
      assert BestSoFar(m, keys, t, best[t]);
    }
  }

  ghost predicate Names(m: Evaluations, c: RecordId, id: RecordId) {
    c in m && m[c].freshness == Current && m[c].supersedes == Some(id)
  }

  ghost predicate NamedIn(m: Evaluations, keys: seq<RecordId>, id: RecordId) {
    exists c :: c in keys && Names(m, c, id)
  }

  /** The entries named by the Current records among `keys`, over what was there before. */
  ghost predicate Overrides(
    m: Evaluations, keys: seq<RecordId>, before: map<RecordId, RecordId>, edges: map<RecordId, RecordId>)
  {
    && (forall id :: id in edges <==> id in before || NamedIn(m, keys, id))
    && (forall id :: id in edges && !NamedIn(m, keys, id) ==> edges[id] == before[id])
    && (forall id :: NamedIn(m, keys, id) ==> Names(m, edges[id], id))
  }

  lemma {:induction false} NamedInLonger(m: Evaluations, keys: seq<RecordId>, k: RecordId, id: RecordId)
    ensures NamedIn(m, keys + [k], id) <==> NamedIn(m, keys, id) || Names(m, k, id)
  {
    assert (keys + [k])[|keys|] == k;
    if NamedIn(m, keys, id) {
      var c :| c in keys && Names(m, c, id);
      assert c in keys + [k];
    }
  }

  lemma {:induction false} OverridesNext(
    m: Evaluations, keys: seq<RecordId>, k: RecordId, before: map<RecordId, RecordId>, edges: map<RecordId, RecordId>)
    requires Overrides(m, keys, before, edges) && k in m && m[k].id == k
    ensures var names := m[k].freshness == Current && m[k].supersedes.Some?;
            Overrides(m, keys + [k], before, if names then edges[m[k].supersedes.value := k] else edges)
  {
    forall id
      ensures NamedIn(m, keys + [k], id) <==> NamedIn(m, keys, id) || Names(m, k, id)
    {
      NamedInLonger(m, keys, k, id);
    }
  }

  lemma {:induction false} AllNamed(m: Evaluations, keys: seq<RecordId>)
    requires forall k :: k in keys <==> k in m
    ensures forall id :: NamedIn(m, keys, id) <==> SupersededByCurrent(m, id)
  {
    forall id | SupersededByCurrent(m, id)
      ensures NamedIn(m, keys, id)
    {
      var c :| Names(m, c, id);
      assert c in keys;
    }
  }

  lemma {:induction false} AllToKeys(m: map<RecordId, RecordId>, ids: seq<RecordId>, to: RecordId)
    ensures AllTo(m, ids, to).Keys == m.Keys + (set x | x in ids)
  {
    if ids != [] {
      AllToKeys(m, ids[..|ids| - 1], to);
      assert forall x :: x in ids <==> x == ids[|ids| - 1] || x in ids[..|ids| - 1];
    }
  }

  lemma {:induction false} ListedIfNamed(kind: Kind, history: seq<Entry>, e: Evaluation)
    requires e in Candidates(kind, history) && e.supersedes.Some?
    ensures kind == BranchClosure && e.supersedes.value in ListedBy(history)
  {
    if history != [] {
      var last := history[|history| - 1];
      var rest := history[..|history| - 1];
      AllToKeys(ListedBy(rest), last.payload.supersededBranches, IdOf(BranchClosure, last));
      if e in Candidates(kind, rest) {
        ListedIfNamed(kind, rest, e);
      }
    }
  }

  lemma CandidateIsListed(s: Snapshot, e: Evaluation)
    requires e in AllCandidates(s) && e.supersedes.Some?
    ensures e.supersedes.value in ListedBy(s.branches)
  {
    if e in Candidates(TaskClosure, s.tasks) {
      ListedIfNamed(TaskClosure, s.tasks, e);
    } else if e in Candidates(BranchClosure, s.branches) {
      ListedIfNamed(BranchClosure, s.branches, e);
    } else if e in Candidates(ReleaseReadiness, s.releases) {
      ListedIfNamed(ReleaseReadiness, s.releases, e);
    } else if e in Candidates(FinalReview, s.reviews) {
      ListedIfNamed(FinalReview, s.reviews, e);
    } else {
      ListedIfNamed(BrowserQa, s.qas, e);
    }
  }

  /** Only ids that a branch record lists are ever named by a stored record. */
  lemma NamedIsListed(s: Snapshot, m: Evaluations, id: RecordId)
    requires StoresLatest(m, AllCandidates(s)) && SupersededByCurrent(m, id)
    ensures id in ListedBy(s.branches)
  {
    var c :| Names(m, c, id);
    var k: nat :| IsLatest(m[c], AllCandidates(s), k);
    CandidateIsListed(s, AllCandidates(s)[k]);
  }

  /** A stale task closure that no branch record lists as superseded is hidden only by a strictly newer
      Current closure of the same task and plan revision whose surface covers it, and is hidden whenever
      the current closure of its task is such a one. */
  lemma HiddenOnlyByResolvingClosure(s: Snapshot, signals: Signals, edges: map<RecordId, RecordId>, id: RecordId)
    requires Supersedes(FinalEvaluations(s, signals), ListedBy(s.branches), edges)
    requires id in FinalEvaluations(s, signals) && id !in ListedBy(s.branches)
    requires var e := FinalEvaluations(s, signals)[id];
             e.kind == TaskClosure && e.freshness == StaleUnreviewed && e.task.Some?
    ensures var m := FinalEvaluations(s, signals);
            && (id in edges ==> IsCurrentOf(m, m[id].task.value, edges[id]) && Resolves(m[edges[id]], m[id]))
            && (id !in edges ==> forall c :: IsCurrentOf(m, m[id].task.value, c) ==> !Resolves(m[c], m[id]))
  {
    var m := FinalEvaluations(s, signals);
    StoredIsLatestIngested(s, signals);
    if SupersededByCurrent(m, id) {
      NamedIsListed(s, m, id);
      assert false;
    }
    forall c | IsCurrentOf(m, m[id].task.value, c) && Resolves(m[c], m[id])
      ensures Hidden(m, id)
    {
      assert Hides(m, c, id);
    }
  }
}
