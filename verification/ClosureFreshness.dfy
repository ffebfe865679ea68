/** What the finished graph says of each record, in terms of the snapshot and the signals alone. */
module ClosureFreshness {
  import opened Lists
  import opened Text
  import opened ClosureGraph

  // ---------------------------------------------------------------------------------------
  // What is stored before the last two passes

  /** `es[k]` has the greatest sequence of this id and is the last candidate that has it. */
  ghost predicate Latest(es: seq<Evaluation>, k: nat, id: RecordId) {
    && k < |es| && es[k].id == id
    && forall j :: 0 <= j < |es| && es[j].id == id ==>
         es[j].sequence <= es[k].sequence && (k < j ==> es[j].sequence < es[k].sequence)
  }

  /** The list of superseded branch closures is applied when `n` candidates have been ingested. */
  predicate Reached(e: Evaluation, k: nat, n: nat, ids: seq<RecordId>) {
    k < n && e.id in ids && e.freshness == Current
  }

  function Marked(e: Evaluation, k: nat, n: nat, ids: seq<RecordId>): Evaluation {
    if Reached(e, k, n, ids) then e.(freshness := Superseded) else e
  }

  /** Where the latest candidate of an id stands. */
  function LatestAt(es: seq<Evaluation>, id: RecordId): (k: Option<nat>)
    ensures k.Some? ==> k.value < |es| && es[k.value].id == id
  {
    if es == [] then None
    else
      var n := |es| - 1;
      var before := LatestAt(es[..n], id);
      if es[n].id == id && (before.None? || es[before.value].sequence <= es[n].sequence) then Some(n) else before
  }

  lemma {:induction false} LatestAtIsLatest(es: seq<Evaluation>, id: RecordId)
    ensures LatestAt(es, id).None? ==> forall i :: 0 <= i < |es| ==> es[i].id != id
    ensures LatestAt(es, id).Some? ==> Latest(es, LatestAt(es, id).value, id)
  {
    if es != [] {
      var n := |es| - 1;
      LatestAtIsLatest(es[..n], id);
      assert forall i :: 0 <= i < n ==> es[..n][i] == es[i];
    }
  }

  ghost predicate StoredAt(m: Evaluations, es: seq<Evaluation>, n: nat, ids: seq<RecordId>, id: RecordId) {
    var k := LatestAt(es, id);
    (id in m <==> k.Some?) && (id in m ==> m[id] == Marked(es[k.value], k.value, n, ids))
  }

  lemma {:induction false} UpsertStored(
    m: Evaluations, es: seq<Evaluation>, n: nat, ids: seq<RecordId>, e: Evaluation, id: RecordId)
    requires StoredAt(m, es, n, ids, id) && n <= |es|
    ensures StoredAt(Upserted(m, e), es + [e], n, ids, id)
  {
    assert (es + [e])[..|es|] == es;
    var k := LatestAt(es, id);
    assert k.Some? ==> (es + [e])[k.value] == es[k.value];
  }

  lemma {:induction false} UpsertsStored(
    m: Evaluations, es: seq<Evaluation>, n: nat, ids: seq<RecordId>, more: seq<Evaluation>, id: RecordId)
    requires StoredAt(m, es, n, ids, id) && n <= |es|
    ensures StoredAt(AllUpserted(m, more), es + more, n, ids, id)
  {
    if more == [] {
      assert es + more == es;
    } else {
      var rest, last := more[..|more| - 1], more[|more| - 1];
      UpsertsStored(m, es, n, ids, rest, id);
      AppendLast(es, more);
      UpsertStored(AllUpserted(m, rest), es + rest, n, ids, last, id);
    }
  }

  lemma {:induction false} MarkStored(m: Evaluations, es: seq<Evaluation>, ids: seq<RecordId>, id: RecordId)
    requires StoredAt(m, es, 0, [], id)
    ensures StoredAt(BranchesSuperseded(m, ids), es, |es|, ids, id)
  {
  }

  /** How many candidates have been ingested when the branch list is applied. */
  function BeforeList(s: Snapshot): nat {
    |Candidates(TaskClosure, s.tasks)| + |Candidates(BranchClosure, s.branches)|
  }

  lemma {:induction false} IngestedStored(s: Snapshot, id: RecordId)
    ensures StoredAt(Ingested(s), AllCandidates(s), BeforeList(s), s.supersededBranches, id)
  {
    var t, b := Candidates(TaskClosure, s.tasks), Candidates(BranchClosure, s.branches);
    var r, f := Candidates(ReleaseReadiness, s.releases), Candidates(FinalReview, s.reviews);
    var n, ids := BeforeList(s), s.supersededBranches;
    BranchesStored(t, b, ids, id);
    var m := BranchesSuperseded(AllUpserted(AllUpserted(map[], t), b), ids);
    UpsertsStored(m, t + b, n, ids, r, id);
    UpsertsStored(AllUpserted(m, r), t + b + r, n, ids, f, id);
    UpsertsStored(AllUpserted(AllUpserted(m, r), f), t + b + r + f, n, ids, Candidates(BrowserQa, s.qas), id);
  }

  lemma {:induction false} BranchesStored(t: seq<Evaluation>, b: seq<Evaluation>, ids: seq<RecordId>, id: RecordId)
    ensures StoredAt(BranchesSuperseded(AllUpserted(AllUpserted(map[], t), b), ids), t + b, |t| + |b|, ids, id)
  {
    UpsertsStored(map[], [], 0, [], t, id);
    assert [] + t == t;
    UpsertsStored(AllUpserted(map[], t), t, 0, [], b, id);
    MarkStored(AllUpserted(AllUpserted(map[], t), b), t + b, ids, id);
  }

  // ---------------------------------------------------------------------------------------
  // Freshness and stale reasons

  /** What the recorded status and the two lists make of a record. */
  function ListedFreshness(s: Snapshot, k: nat, c: Evaluation): Freshness {
    if c.id in s.supersededTasks || Reached(c, k, BeforeList(s), s.supersededBranches) then Superseded else c.freshness
  }

  ghost predicate SaysOf(s: Snapshot, signals: Signals, id: RecordId, k: nat)
    requires id in FinalEvaluations(s, signals)
  {
    && Latest(AllCandidates(s), k, id)
    && var c, e := AllCandidates(s)[k], FinalEvaluations(s, signals)[id];
       var target, otherwise := id in Targets(signals), ListedFreshness(s, k, c);
       && e.freshness == (if target && otherwise != Historical then StaleUnreviewed else otherwise)
       && (forall r :: r in e.staleReasons <==> r in c.staleReasons || (target && r in signals.reasons))
       && c.staleReasons <= e.staleReasons
       && e == c.(freshness := e.freshness, staleReasons := e.staleReasons)
  }

  /** For every stored id: the record is the latest candidate; it is superseded when a list says so, and
      otherwise as recorded; a target of the signals is stale unless that makes it historical; and only a
      target gains the reasons of the signals. */
  lemma {:induction false} FreshnessExactly(s: Snapshot, signals: Signals, id: RecordId)
    requires id in FinalEvaluations(s, signals)
    ensures exists k: nat :: SaysOf(s, signals, id, k)
  {
    IngestedStored(s, id);
    LatestAtIsLatest(AllCandidates(s), id);
    LastPasses(s, signals, id);
    var k := LatestAt(AllCandidates(s), id).value;
    var c := AllCandidates(s)[k];
    PassesOn(c, Reached(c, k, BeforeList(s), s.supersededBranches), id in s.supersededTasks, id in Targets(signals),
             signals.reasons);
    assert SaysOf(s, signals, id, k);
  }

  /** One record through the two lists and the projection. */
  function Passed(c: Evaluation, reached: bool, listed: bool, target: bool, reasons: seq<string>): Evaluation {
    var marked := if reached || listed then c.(freshness := Superseded) else c;
    if target then Stale(marked, reasons) else marked
  }

  lemma {:induction false} LastPasses(s: Snapshot, signals: Signals, id: RecordId)
    requires id in FinalEvaluations(s, signals)
    ensures id in Ingested(s)
    ensures FinalEvaluations(s, signals)[id]
         == Passed(Ingested(s)[id], false, id in s.supersededTasks, id in Targets(signals), signals.reasons)
  {
  }

  lemma {:induction false} PassesOn(c: Evaluation, reached: bool, listed: bool, target: bool, reasons: seq<string>)
    ensures var e := Passed(c, reached, listed, target, reasons);
            var otherwise := if reached || listed then Superseded else c.freshness;
            && e.freshness == (if target && otherwise != Historical then StaleUnreviewed else otherwise)
            && (forall r :: r in e.staleReasons <==> r in c.staleReasons || (target && r in reasons))
            && c.staleReasons <= e.staleReasons
            && e == c.(freshness := e.freshness, staleReasons := e.staleReasons)
  {
    AllWithUniqueAppends(c.staleReasons, reasons);
  }

  /** Exactly the ids of candidates are stored. */
  lemma {:induction false} StoredExactly(s: Snapshot, signals: Signals, id: RecordId)
    ensures id in FinalEvaluations(s, signals) <==>
            exists i :: 0 <= i < |AllCandidates(s)| && AllCandidates(s)[i].id == id
  {
    IngestedStored(s, id);
    LatestAtIsLatest(AllCandidates(s), id);
    assert id in FinalEvaluations(s, signals) <==> id in Ingested(s);
    if LatestAt(AllCandidates(s), id).Some? {
      assert AllCandidates(s)[LatestAt(AllCandidates(s), id).value].id == id;
    }
  }

  /** The signals project onto an id exactly when late-stage staleness or missing provenance is signalled
      with a reason that stands for it, and the id is one of the signalled ids, trimmed. */
  lemma TargetsExactly(signals: Signals, id: RecordId)
    ensures id in Targets(signals) <==>
            && (signals.lateStageStale || signals.missingProvenance)
            && (exists r :: r in signals.reasons && r in signals.indicating)
            && id != "" && exists i :: 0 <= i < |signals.closureIds| && signals.closureIds[i].Some?
                                       && Trim(signals.closureIds[i].value) == id
  {
  }

  lemma {:induction false} LatestIsUnique(es: seq<Evaluation>, k: nat, j: nat, id: RecordId)
    requires Latest(es, k, id) && Latest(es, j, id)
    ensures k == j
  {
  }

  /** The current closures of a task: recorded as current for it, listed nowhere, and no target. */
  lemma {:induction false} CurrentExactly(s: Snapshot, signals: Signals, t: Task, id: RecordId, k: nat)
    requires Latest(AllCandidates(s), k, id)
    ensures var c := AllCandidates(s)[k];
            CurrentFor(FinalEvaluations(s, signals), t, id) <==>
            && c.kind == TaskClosure && c.task == Some(t) && c.freshness == Current
            && id !in s.supersededTasks && id !in Targets(signals)
            && !(k < BeforeList(s) && id in s.supersededBranches)
  {
    StoredExactly(s, signals, id);
    FreshnessExactly(s, signals, id);
    var j: nat :| SaysOf(s, signals, id, j);
    LatestIsUnique(AllCandidates(s), k, j, id);
  }

  /** So the task index never answers with a superseded task closure or with a target. */
  lemma {:induction false} IndexSkipsListed(s: Snapshot, signals: Signals, t: Task, id: RecordId)
    requires IsCurrentOf(FinalEvaluations(s, signals), t, id)
    ensures id !in s.supersededTasks && id !in Targets(signals)
  {
    FreshnessExactly(s, signals, id);
  }

  // ---------------------------------------------------------------------------------------
  // Candidates and payloads

  function HistoryOf(s: Snapshot, kind: Kind): seq<Entry> {
    match kind
    case TaskClosure => s.tasks
    case BranchClosure => s.branches
    case ReleaseReadiness => s.releases
    case FinalReview => s.reviews
    case BrowserQa => s.qas
  }

  /** What is read from an entry, field by field. */
  lemma EvaluationFields(kind: Kind, e: Entry)
    ensures var v, p := EvaluationOf(kind, e), e.payload;
            && v.kind == kind && v.planPath == p.planPath && v.planRevision == p.planRevision
            && v.sequence == p.sequence && v.surface == p.surface
            && v.task == (if kind == TaskClosure then p.task else None)
            && v.freshness == (if p.status.Some? then p.status.value else Current)
            && (v.staleReasons == ["record_status_stale_unreviewed"] <==> v.freshness == StaleUnreviewed)
            && (v.staleReasons == [] <==> v.freshness != StaleUnreviewed)
            && (kind != BranchClosure ==> v.supersedes == None)
            && (kind == TaskClosure && p.closureRecordId.Some? ==> v.id == p.closureRecordId.value)
            && (kind == BranchClosure && p.branchClosureId.Some? ==> v.id == p.branchClosureId.value)
            && (kind != BranchClosure && (kind == TaskClosure ==> p.closureRecordId.None?) && p.recordId.Some? ==>
                  v.id == p.recordId.value)
            && (p.closureRecordId.None? && p.recordId.None? && p.branchClosureId.None? ==> v.id == e.key)
  {
  }

  /** An entry is passed over exactly when its id is blank, or it is a task closure without a task. */
  lemma SkippedExactly(kind: Kind, e: Entry)
    ensures Skipped(kind, e) <==>
            Trim(EvaluationOf(kind, e).id) == "" || (kind == TaskClosure && e.payload.task == None)
  {
  }

  ghost predicate ReadFrom(history: seq<Entry>, kind: Kind, c: Evaluation) {
    exists e :: e in history && IsReadAs(e, kind, c)
  }

  lemma {:induction false} CandidateIsRead(kind: Kind, history: seq<Entry>, c: Evaluation)
    ensures c in Candidates(kind, history) <==> ReadFrom(history, kind, c)
  {
    if history != [] {
      var n := |history| - 1;
      var rest := history[..n];
      CandidateIsRead(kind, rest, c);
      ReadFromFront(history, kind, c);
    }
  }

  predicate IsReadAs(e: Entry, kind: Kind, c: Evaluation) {
    !Skipped(kind, e) && c == EvaluationOf(kind, e)
  }

  lemma {:induction false} InFront(history: seq<Entry>, e: Entry)
    requires history != []
    ensures e in history <==> e in history[..|history| - 1] || e == history[|history| - 1]
  {
    assert history == history[..|history| - 1] + [history[|history| - 1]];
  }

  lemma {:induction false} ReadFromFront(history: seq<Entry>, kind: Kind, c: Evaluation)
    requires history != []
    ensures ReadFrom(history, kind, c) <==>
            ReadFrom(history[..|history| - 1], kind, c) || IsReadAs(history[|history| - 1], kind, c)
  {
    if ReadFrom(history, kind, c) {
      var e :| e in history && IsReadAs(e, kind, c);
      InFront(history, e);
    }
    if ReadFrom(history[..|history| - 1], kind, c) {
      var e :| e in history[..|history| - 1] && IsReadAs(e, kind, c);
      InFront(history, e);
    }
    InFront(history, history[|history| - 1]);
  }

  /** Candidates are read from the history of their kind, and every entry that names a record is one. */
  lemma {:induction false} CandidatesExactly(s: Snapshot, c: Evaluation)
    ensures c in AllCandidates(s) <==> ReadFrom(HistoryOf(s, c.kind), c.kind, c)
  {
    CandidateIsRead(TaskClosure, s.tasks, c);
    CandidateIsRead(BranchClosure, s.branches, c);
    CandidateIsRead(ReleaseReadiness, s.releases, c);
    CandidateIsRead(FinalReview, s.reviews, c);
    CandidateIsRead(BrowserQa, s.qas, c);
    InAll(s, c);
    OwnKind(s, c);
  }

  lemma {:induction false} OwnKind(s: Snapshot, c: Evaluation)
    ensures forall kind, history :: ReadFrom(history, kind, c) ==> c.kind == kind
  {
  }

  lemma {:induction false} InAll(s: Snapshot, c: Evaluation)
    ensures c in AllCandidates(s) <==>
            || c in Candidates(TaskClosure, s.tasks) || c in Candidates(BranchClosure, s.branches)
            || c in Candidates(ReleaseReadiness, s.releases) || c in Candidates(FinalReview, s.reviews)
            || c in Candidates(BrowserQa, s.qas)
  {
  }

  // ---------------------------------------------------------------------------------------
  // Milestones over payloads

  /** A review or QA record depends first on the branch closure its payload names, and on the milestone
      below exactly when the payload names that too. */
  lemma LinksExactly(p: Payload, branch: RecordId, below: RecordId)
    requires branch != below
    ensures var d := DependsOn(BrowserQa, p);
            d != [] && d[0] == branch && below in d <==>
            p.branchClosureId == Some(branch) && p.finalReview == Some(below)
    ensures var d := DependsOn(FinalReview, p);
            d != [] && d[0] == branch && below in d <==>
            p.branchClosureId == Some(branch) && p.releaseReadiness == Some(below)
    ensures var d := DependsOn(ReleaseReadiness, p);
            d != [] && d[0] == branch <==> p.branchClosureId == Some(branch)
  {
    LinkPair(p.branchClosureId, p.finalReview, branch, below);
    LinkPair(p.branchClosureId, p.releaseReadiness, branch, below);
  }

  lemma {:induction false} LinkPair(a: Option<RecordId>, b: Option<RecordId>, branch: RecordId, below: RecordId)
    requires branch != below
    ensures var d := AllWithUnique(Listed(a), Listed(b));
            d != [] && d[0] == branch && below in d <==> a == Some(branch) && b == Some(below)
  {
    if b.Some? {
      assert Listed(b)[..0] == [];
      assert AllWithUnique(Listed(a), Listed(b)) == WithUnique(Listed(a), b.value);
    }
  }

  /** The payload of the record that decides on an id. */
  ghost predicate DecidesOn(s: Snapshot, kind: Kind, id: RecordId, k: nat, p: Payload) {
    && Latest(AllCandidates(s), k, id)
    && exists e :: e in HistoryOf(s, kind) && e.payload == p && AllCandidates(s)[k] == EvaluationOf(kind, e)
  }

  lemma {:induction false} DependsByPayload(s: Snapshot, signals: Signals, kind: Kind, id: RecordId, k: nat, p: Payload)
    requires DecidesOn(s, kind, id, k, p)
    ensures id in FinalEvaluations(s, signals) && FinalEvaluations(s, signals)[id].dependsOn == DependsOn(kind, p)
    ensures FinalEvaluations(s, signals)[id].kind == kind
  {
    StoredExactly(s, signals, id);
    FreshnessExactly(s, signals, id);
    var j: nat :| SaysOf(s, signals, id, j);
    LatestIsUnique(AllCandidates(s), k, j, id);
  }

  /** Browser QA is current exactly when the review below it is, it is bound and fresh, and its payload names
      the current branch closure and the current review. */
  lemma {:induction false} QaExactly(s: Snapshot, signals: Signals, id: RecordId, k: nat, p: Payload)
    requires DecidesOn(s, BrowserQa, id, k, p)
    ensures var m := FinalEvaluations(s, signals);
            var c := CurrentChain(m, s.bound);
            c.qa == Some(id) <==>
            && c.review.Some? && BindsTo(s.bound.qa, id) && id in m && m[id].freshness == Current
            && p.branchClosureId == c.branch && p.finalReview == c.review
  {
    var m := FinalEvaluations(s, signals);
    var c := CurrentChain(m, s.bound);
    DependsByPayload(s, signals, BrowserQa, id, k, p);
    ChainIsExact(m, s.bound, id);
    ChainIsLinked(m, s.bound);
    if c.review.Some? {
      assert c.branch.value != c.review.value;
      LinksExactly(p, c.branch.value, c.review.value);
    }
  }

  /** The same for the final review over release readiness. */
  lemma {:induction false} ReviewExactly(s: Snapshot, signals: Signals, id: RecordId, k: nat, p: Payload)
    requires DecidesOn(s, FinalReview, id, k, p)
    ensures var m := FinalEvaluations(s, signals);
            var c := CurrentChain(m, s.bound);
            c.review == Some(id) <==>
            && c.release.Some? && BindsTo(s.bound.review, id) && id in m && m[id].freshness == Current
            && p.branchClosureId == c.branch && p.releaseReadiness == c.release
  {
    var m := FinalEvaluations(s, signals);
    var c := CurrentChain(m, s.bound);
    DependsByPayload(s, signals, FinalReview, id, k, p);
    ChainIsExact(m, s.bound, id);
    ChainIsLinked(m, s.bound);
    if c.release.Some? {
      assert c.branch.value != c.release.value;
      LinksExactly(p, c.branch.value, c.release.value);
    }
  }

  // ---------------------------------------------------------------------------------------
  // Surfaces and listings

  /** A path covers another exactly when they are the same or the other lies below it. */
  lemma PathCoversExactly(a: string, b: string)
    ensures PathCovers(a, b) <==> b == a || exists rest :: b == a + "/" + rest
  {
    if PathCovers(a, b) && a != b {
      var rest := b[|a| + 1..];
      assert b == a + "/" + rest;
    }
    if rest :| b == a + "/" + rest {
      assert a <= b && b[|a|] == '/';
    }
  }

  lemma {:induction false} SlashedIsPlain(p: string)
    ensures '\\' !in Slashed(p) && ('\\' !in p ==> Slashed(p) == p)
  {
    if p != [] {
      assert p == [p[0]] + p[1..];
      SlashedIsPlain(p[1..]);
    }
  }

  lemma {:induction false} WithoutDotSlashIsPlain(p: string)
    ensures !("./" <= WithoutDotSlash(p)) && (!("./" <= p) ==> WithoutDotSlash(p) == p)
    ensures '\\' !in p ==> '\\' !in WithoutDotSlash(p)
    ensures "./" <= p ==> WithoutDotSlash(p) == WithoutDotSlash(p[2..])
  {
    if "./" <= p {
      WithoutDotSlashIsPlain(p[2..]);
    }
  }

  /** Normal paths have forward slashes and no leading `./`, and a path that is normal and trimmed stays. */
  lemma {:induction false} NormalizedIsPlain(p: string)
    ensures '\\' !in Normalized(p) && !("./" <= Normalized(p))
    ensures Trim(p) == p && '\\' !in p && !("./" <= p) ==> Normalized(p) == p
  {
    SlashedIsPlain(Trim(p));
    WithoutDotSlashIsPlain(Slashed(Trim(p)));
  }

  predicate Counts(path: string) {
    Normalized(path) != "" && Normalized(path) != "__featureforge__/no-repo-files"
  }

  predicate Under(path: string, q: string) {
    PathCovers(Normalized(q), Normalized(path))
  }

  /** A stale closure is resolved exactly by a strictly newer one of the same plan and revision such that
      each of its paths that counts lies under one of the newer one's. */
  lemma {:induction false} ResolvesExactly(current: Evaluation, stale: Evaluation)
    ensures Resolves(current, stale) <==>
            && current.sequence > stale.sequence
            && current.planPath == stale.planPath && current.planRevision == stale.planRevision
            && forall p :: p in stale.surface && Counts(p) ==>
                 exists q :: q in current.surface && Counts(q) && Under(p, q)
  {
    CoversExactly(current.surface, stale.surface);
  }

  lemma {:induction false} CoversExactly(current: seq<string>, older: seq<string>)
    ensures SurfaceCovers(Surface(current), Surface(older)) <==>
            forall p :: p in older && Counts(p) ==> exists q :: q in current && Counts(q) && Under(p, q)
  {
    if SurfaceCovers(Surface(current), Surface(older)) {
      forall p | p in older && Counts(p)
        ensures exists q :: q in current && Counts(q) && Under(p, q)
      {
        assert Normalized(p) in Surface(older);
        var c :| c in Surface(current) && PathCovers(c, Normalized(p));
        var q :| q in current && Counts(q) && Normalized(q) == c;
        assert Under(p, q);
      }
    }
    if forall p :: p in older && Counts(p) ==> exists q :: q in current && Counts(q) && Under(p, q) {
      forall n | n in Surface(older)
        ensures exists c :: c in Surface(current) && PathCovers(c, n)
      {
        var p :| p in older && Counts(p) && Normalized(p) == n;
        var q :| q in current && Counts(q) && Under(p, q);
        assert Normalized(q) in Surface(current);
      }
      if n :| n in Surface(older) {
        var c :| c in Surface(current) && PathCovers(c, n);
      }
    }
  }

  predicate Supersedes(e: Entry, id: RecordId) {
    !Skipped(BranchClosure, e) && id in e.payload.supersededBranches
  }

  ghost predicate LastLister(history: seq<Entry>, id: RecordId, i: nat) {
    i < |history| && Supersedes(history[i], id) && forall j :: i < j < |history| ==> !Supersedes(history[j], id)
  }

  lemma {:induction false} AllToMaps(m: map<RecordId, RecordId>, ids: seq<RecordId>, to: RecordId, id: RecordId)
    ensures var r := AllTo(m, ids, to);
            if id in ids then id in r && r[id] == to else (id in r <==> id in m) && (id in m ==> r[id] == m[id])
  {
    if ids != [] {
      var n := |ids| - 1;
      AllToMaps(m, ids[..n], to, id);
      assert ids == ids[..n] + [ids[n]];
    }
  }

  lemma {:induction false} ListedNext(history: seq<Entry>, id: RecordId)
    requires history != []
    ensures var n := |history| - 1;
            var rest, r := ListedBy(history[..n]), ListedBy(history);
            if Supersedes(history[n], id) then id in r && r[id] == IdOf(BranchClosure, history[n])
            else (id in r <==> id in rest) && (id in rest ==> r[id] == rest[id])
  {
    var n := |history| - 1;
    AllToMaps(ListedBy(history[..n]), history[n].payload.supersededBranches, IdOf(BranchClosure, history[n]), id);
  }

  lemma {:induction false} ListerStays(history: seq<Entry>, id: RecordId, i: nat)
    requires history != [] && LastLister(history[..|history| - 1], id, i) && !Supersedes(history[|history| - 1], id)
    ensures LastLister(history, id, i) && history[i] == history[..|history| - 1][i]
  {
    assert forall j :: 0 <= j < |history| - 1 ==> history[..|history| - 1][j] == history[j];
  }

  /** An id that branch records list points to the last record that lists it, and no other id is mapped. */
  lemma {:induction false} ListedExactly(history: seq<Entry>, id: RecordId)
    ensures id in ListedBy(history) ==>
              exists i: nat :: LastLister(history, id, i) && ListedBy(history)[id] == IdOf(BranchClosure, history[i])
    ensures id !in ListedBy(history) ==> forall i :: 0 <= i < |history| ==> !Supersedes(history[i], id)
  {
    if history != [] {
      var n := |history| - 1;
      var rest := history[..n];
      ListedExactly(rest, id);
      ListedNext(history, id);
      if Supersedes(history[n], id) {
        assert LastLister(history, id, n);
      } else if id in ListedBy(rest) {
        var i: nat :| LastLister(rest, id, i) && ListedBy(rest)[id] == IdOf(BranchClosure, rest[i]);
        ListerStays(history, id, i);
      } else {
        assert forall i :: 0 <= i < n ==> history[i] == rest[i];
      }
    }
  }
}
