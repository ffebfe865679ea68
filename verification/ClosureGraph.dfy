/** The authoritative closure graph: five record histories are ingested, staleness is projected onto
    them, and indexes of what is current and of what supersedes what are built. */
module ClosureGraph {
  import opened Lists
  import opened Text

  type RecordId = string
  type Task = nat

  datatype Kind = TaskClosure | BranchClosure | ReleaseReadiness | FinalReview | BrowserQa

  datatype Freshness = Current | Superseded | StaleUnreviewed | Historical

  datatype Evaluation = Evaluation(
    id: RecordId,
    kind: Kind,
    task: Option<Task>,
    planPath: string,
    planRevision: string,
    sequence: nat,
    freshness: Freshness,
    supersedes: Option<RecordId>,
    staleReasons: seq<string>,
    dependsOn: seq<RecordId>,
    surface: seq<string>)

  type Evaluations = map<RecordId, Evaluation>

  /** The fields of a recorded JSON payload, as their readers return them. */
  datatype Payload = Payload(
    task: Option<Task>,
    closureRecordId: Option<RecordId>,
    recordId: Option<RecordId>,
    branchClosureId: Option<RecordId>,
    status: Option<Freshness>,
    planPath: string,
    planRevision: string,
    sequence: nat,
    surface: seq<string>,
    sourceTaskClosures: seq<RecordId>,
    supersededBranches: seq<RecordId>,
    releaseReadiness: Option<RecordId>,
    finalReview: Option<RecordId>)

  /** One entry of an ordered history map. */
  datatype Entry = Entry(key: string, payload: Payload)

  datatype Snapshot = Snapshot(
    tasks: seq<Entry>,
    branches: seq<Entry>,
    releases: seq<Entry>,
    reviews: seq<Entry>,
    qas: seq<Entry>,
    supersededTasks: seq<RecordId>,
    supersededBranches: seq<RecordId>,
    bound: Bound)

  /** The record ids that the runtime state binds as current, as stored. */
  datatype Bound = Bound(branch: Option<string>, release: Option<string>, review: Option<string>, qa: Option<string>)

  /** `indicating` is the table of reason codes that stand for unreviewed staleness. */
  datatype Signals = Signals(
    closureIds: seq<Option<string>>, lateStageStale: bool, missingProvenance: bool, reasons: seq<string>,
        indicating: set<string>)

  // ---------------------------------------------------------------------------------------
  // Ingestion

  function Or<T>(a: Option<T>, b: T): T {
    if a.Some? then a.value else b
  }

  function IdOf(kind: Kind, e: Entry): RecordId {
    match kind
    case TaskClosure => Or(e.payload.closureRecordId, Or(e.payload.recordId, e.key))
    case BranchClosure => Or(e.payload.branchClosureId, e.key)
    case _ => Or(e.payload.recordId, e.key)
  }

  function Listed(id: Option<RecordId>): seq<RecordId> {
    if id.Some? then [id.value] else []
  }

  function DependsOn(kind: Kind, p: Payload): seq<RecordId> {
    match kind
    case TaskClosure => []
    case BranchClosure => p.sourceTaskClosures
    case ReleaseReadiness => Listed(p.branchClosureId)
    case FinalReview => AllWithUnique(Listed(p.branchClosureId), Listed(p.releaseReadiness))
    case BrowserQa => AllWithUnique(Listed(p.branchClosureId), Listed(p.finalReview))
  }

  predicate Skipped(kind: Kind, e: Entry) {
    Trim(IdOf(kind, e)) == "" || (kind == TaskClosure && e.payload.task.None?)
  }

  function EvaluationOf(kind: Kind, e: Entry): Evaluation {
    var p := e.payload;
    var freshness := Or(p.status, Current);
    Evaluation(
      IdOf(kind, e), kind, if kind == TaskClosure then p.task else None,
      p.planPath, p.planRevision, p.sequence, freshness,
      if kind == BranchClosure && p.supersededBranches != [] then Some(p.supersededBranches[0]) else None,
      if freshness == StaleUnreviewed then ["record_status_stale_unreviewed"] else [],
      DependsOn(kind, p), p.surface)
  }

  function Candidates(kind: Kind, history: seq<Entry>): seq<Evaluation> {
    if history == [] then []
    else
      var rest := Candidates(kind, history[..|history| - 1]);
      var e := history[|history| - 1];
      if Skipped(kind, e) then rest else rest + [EvaluationOf(kind, e)]
  }

  /** A candidate replaces what is stored under its id unless that has a greater sequence. */
  function Upserted(m: Evaluations, e: Evaluation): Evaluations {
    if e.id in m && m[e.id].sequence > e.sequence then m else m[e.id := e]
  }

  function AllUpserted(m: Evaluations, es: seq<Evaluation>): Evaluations {
    if es == [] then m else Upserted(AllUpserted(m, es[..|es| - 1]), es[|es| - 1])
  }

  function AllTo(m: map<RecordId, RecordId>, ids: seq<RecordId>, to: RecordId): map<RecordId, RecordId> {
    if ids == [] then m else AllTo(m, ids[..|ids| - 1], to)[ids[|ids| - 1] := to]
  }

  /** Every id that a kept branch record lists as superseded, mapped to the last record listing it. */
  function ListedBy(history: seq<Entry>): map<RecordId, RecordId> {
    if history == [] then map[]
    else
      var e := history[|history| - 1];
      var rest := ListedBy(history[..|history| - 1]);
      if Skipped(BranchClosure, e) then rest
      else AllTo(rest, e.payload.supersededBranches, IdOf(BranchClosure, e))
  }

  // ---------------------------------------------------------------------------------------
  // Freshness

  function BranchesSuperseded(m: Evaluations, ids: seq<RecordId>): Evaluations {
    map id | id in m ::
      if id in ids && m[id].freshness == Current then m[id].(freshness := Superseded) else m[id]
  }

  function TasksSuperseded(m: Evaluations, ids: seq<RecordId>): Evaluations {
    map id | id in m :: if id in ids then m[id].(freshness := Superseded) else m[id]
  }

  predicate Projects(signals: Signals) {
    && (signals.lateStageStale || signals.missingProvenance)
    && exists r :: r in signals.reasons && r in signals.indicating
  }

  function Targets(signals: Signals): set<RecordId> {
    if !Projects(signals) then {}
    else set i | 0 <= i < |signals.closureIds| && signals.closureIds[i].Some? && Trim(signals.closureIds[i].value) != ""
      :: Trim(signals.closureIds[i].value)
  }

  function Stale(e: Evaluation, reasons: seq<string>): Evaluation {
    e.(freshness := if e.freshness == Current || e.freshness == Superseded then StaleUnreviewed else e.freshness,
       staleReasons := AllWithUnique(e.staleReasons, reasons))
  }

  function StaleProjected(m: Evaluations, targets: set<RecordId>, reasons: seq<string>): Evaluations {
    map id | id in m :: if id in targets then Stale(m[id], reasons) else m[id]
  }

  function Ingested(s: Snapshot): Evaluations {
    IngestedOn(s, AllUpserted(map[], Candidates(TaskClosure, s.tasks)))
  }

  /** The later histories on top of the task closures. */
  function IngestedOn(s: Snapshot, tasks: Evaluations): Evaluations {
    var branches := BranchesSuperseded(AllUpserted(tasks, Candidates(BranchClosure, s.branches)), s.supersededBranches);
    var releases := AllUpserted(branches, Candidates(ReleaseReadiness, s.releases));
    var reviews := AllUpserted(releases, Candidates(FinalReview, s.reviews));
    AllUpserted(reviews, Candidates(BrowserQa, s.qas))
  }

  function FinalEvaluations(s: Snapshot, signals: Signals): Evaluations {
    StaleProjected(TasksSuperseded(Ingested(s), s.supersededTasks), Targets(signals), signals.reasons)
  }

  function AllCandidates(s: Snapshot): seq<Evaluation> {
    Candidates(TaskClosure, s.tasks) + Candidates(BranchClosure, s.branches) + Candidates(ReleaseReadiness, s.releases)
    + Candidates(FinalReview, s.reviews) + Candidates(BrowserQa, s.qas)
  }

  // ---------------------------------------------------------------------------------------
  // Each stored evaluation is the latest ingested record of its id

  /** Equal but for what the later passes change. */
  predicate SameRecord(a: Evaluation, b: Evaluation) {
    a == b.(freshness := a.freshness, staleReasons := a.staleReasons)
  }

  /** `e` is the record `es[k]`, which has the greatest sequence of its id and is the last that has it. */
  ghost predicate IsLatest(e: Evaluation, es: seq<Evaluation>, k: nat) {
    && k < |es| && SameRecord(e, es[k])
    && forall j :: 0 <= j < |es| && es[j].id == e.id ==>
         es[j].sequence <= e.sequence && (k < j ==> es[j].sequence < e.sequence)
  }

  ghost predicate StoresLatest(m: Evaluations, es: seq<Evaluation>) {
    && (forall i :: 0 <= i < |es| ==> es[i].id in m)
    && (forall id :: id in m ==> m[id].id == id && exists k: nat :: IsLatest(m[id], es, k))
  }

  lemma {:induction false} LatestAfterAppend(e: Evaluation, es: seq<Evaluation>, k: nat, more: Evaluation)
    requires IsLatest(e, es, k) && (more.id == e.id ==> more.sequence < e.sequence)
    ensures IsLatest(e, es + [more], k)
  {
    var es' := es + [more];
    assert forall j :: 0 <= j < |es| ==> es'[j] == es[j];
  }

  lemma {:induction false} UpsertStoresLatest(m: Evaluations, es: seq<Evaluation>, e: Evaluation)
    requires StoresLatest(m, es)
    ensures StoresLatest(Upserted(m, e), es + [e])
  {
    var m', es' := Upserted(m, e), es + [e];
    assert forall j :: 0 <= j < |es| ==> es'[j] == es[j];
    forall id | id in m'
      ensures m'[id].id == id && exists k: nat :: IsLatest(m'[id], es', k)
    {
      if id == e.id && !(e.id in m && m[e.id].sequence > e.sequence) {
        if e.id in m {
          var k: nat :| IsLatest(m[id], es, k);
        }
        assert IsLatest(e, es', |es|);
      } else {
        var k: nat :| IsLatest(m[id], es, k);
        LatestAfterAppend(m[id], es, k, e);
      }
    }
  }

  lemma {:induction false} AllUpsertedStoresLatest(m: Evaluations, es: seq<Evaluation>, more: seq<Evaluation>)
    requires StoresLatest(m, es)
    ensures StoresLatest(AllUpserted(m, more), es + more)
  {
    if more == [] {
      assert es + more == es;
    } else {
      var rest := more[..|more| - 1];
      AllUpsertedStoresLatest(m, es, rest);
      UpsertStoresLatest(AllUpserted(m, rest), es + rest, more[|more| - 1]);
      AppendLast(es, more);
    }
  }

  lemma {:induction false} ChangedFreshnessStoresLatest(m: Evaluations, m': Evaluations, es: seq<Evaluation>)
    requires StoresLatest(m, es) && m'.Keys == m.Keys
    requires forall id :: id in m ==> SameRecord(m'[id], m[id])
    ensures StoresLatest(m', es)
  {
    forall id | id in m'
      ensures m'[id].id == id && exists k: nat :: IsLatest(m'[id], es, k)
    {
      assert SameRecord(m'[id], m[id]);
      var k: nat :| IsLatest(m[id], es, k);
      assert IsLatest(m'[id], es, k);
    }
  }

  lemma {:induction false} MilestonesStoreLatest(m: Evaluations, es: seq<Evaluation>, r: seq<Evaluation>,
      f: seq<Evaluation>, q: seq<Evaluation>)
    requires StoresLatest(m, es)
    ensures StoresLatest(AllUpserted(AllUpserted(AllUpserted(m, r), f), q), es + r + f + q)
  {
    AllUpsertedStoresLatest(m, es, r);
    AllUpsertedStoresLatest(AllUpserted(m, r), es + r, f);
    AllUpsertedStoresLatest(AllUpserted(AllUpserted(m, r), f), es + r + f, q);
  }

  lemma {:induction false} BranchesStoreLatest(t: seq<Evaluation>, b: seq<Evaluation>, ids: seq<RecordId>)
    ensures StoresLatest(BranchesSuperseded(AllUpserted(AllUpserted(map[], t), b), ids), t + b)
  {
    AllUpsertedStoresLatest(map[], [], t);
    assert [] + t == t;
    AllUpsertedStoresLatest(AllUpserted(map[], t), t, b);
    var raw := AllUpserted(AllUpserted(map[], t), b);
    ChangedFreshnessStoresLatest(raw, BranchesSuperseded(raw, ids), t + b);
  }

  lemma {:induction false} StaleIsSameRecord(e: Evaluation, reasons: seq<string>)
    ensures SameRecord(Stale(e, reasons), e)
  {
  }

  lemma {:induction false} TasksPassStoresLatest(m: Evaluations, es: seq<Evaluation>, ids: seq<RecordId>)
    requires StoresLatest(m, es)
    ensures StoresLatest(TasksSuperseded(m, ids), es)
  {
    ChangedFreshnessStoresLatest(m, TasksSuperseded(m, ids), es);
  }

  lemma {:induction false} ProjectionStoresLatest(m: Evaluations, es: seq<Evaluation>, targets: set<RecordId>,
      reasons: seq<string>)
    requires StoresLatest(m, es)
    ensures StoresLatest(StaleProjected(m, targets, reasons), es)
  {
    var projected := StaleProjected(m, targets, reasons);
    forall id | id in m
      ensures SameRecord(projected[id], m[id])
    {
      StaleIsSameRecord(m[id], reasons);
    }
    ChangedFreshnessStoresLatest(m, projected, es);
  }

  /** For every snapshot and signal set, what is stored under an id is the record with the highest
      sequence ingested for it from any of the five histories, the last one on equal sequences. */
  lemma {:induction false} StoredIsLatestIngested(s: Snapshot, signals: Signals)
    ensures StoresLatest(FinalEvaluations(s, signals), AllCandidates(s))
  {
    var t, b, r := Candidates(TaskClosure, s.tasks), Candidates(BranchClosure, s.branches),
        Candidates(ReleaseReadiness, s.releases);
    var f, q := Candidates(FinalReview, s.reviews), Candidates(BrowserQa, s.qas);
    BranchesStoreLatest(t, b, s.supersededBranches);
    var branches := BranchesSuperseded(AllUpserted(AllUpserted(map[], t), b), s.supersededBranches);
    MilestonesStoreLatest(branches, t + b, r, f, q);
    TasksPassStoresLatest(Ingested(s), AllCandidates(s), s.supersededTasks);
    ProjectionStoresLatest(TasksSuperseded(Ingested(s), s.supersededTasks), AllCandidates(s), Targets(signals),
        signals.reasons);
  }

  // ---------------------------------------------------------------------------------------
  // Surfaces

  const NO_REPO_FILES := "__featureforge__/no-repo-files"

  function Slashed(path: string): string {
    if path == [] then [] else [if path[0] == '\\' then '/' else path[0]] + Slashed(path[1..])
  }

  function WithoutDotSlash(path: string): string {
    if "./" <= path then WithoutDotSlash(path[2..]) else path
  }

  function Normalized(path: string): string {
    WithoutDotSlash(Slashed(Trim(path)))
  }

  function Surface(paths: seq<string>): set<string> {
    set p | p in paths && Normalized(p) != "" && Normalized(p) != NO_REPO_FILES :: Normalized(p)
  }

  /** The same path, or a directory above it. */
  predicate PathCovers(canonical: string, candidate: string) {
    canonical == candidate || (|canonical| < |candidate| && canonical <= candidate && candidate[|canonical|] == '/')
  }

  predicate SurfaceCovers(current: set<string>, older: set<string>) {
    older == {} || (current != {} && forall p :: p in older ==> exists c :: c in current && PathCovers(c, p))
  }

  lemma PathCoversTransitive(a: string, b: string, c: string)
    requires PathCovers(a, b) && PathCovers(b, c)
    ensures PathCovers(a, c)
  {
    if a != b && b != c {
      assert b[|a|] == c[|a|];
    }
  }

  lemma SurfaceCoversReflexive(s: set<string>)
    ensures SurfaceCovers(s, s)
  {
    assert forall p :: p in s ==> PathCovers(p, p);
  }

  lemma SurfaceCoversTransitive(newest: set<string>, middle: set<string>, oldest: set<string>)
    requires SurfaceCovers(newest, middle) && SurfaceCovers(middle, oldest)
    ensures SurfaceCovers(newest, oldest)
  {
    if oldest != {} {
      forall p | p in oldest
        ensures exists c :: c in newest && PathCovers(c, p)
      {
        var b :| b in middle && PathCovers(b, p);
        var a :| a in newest && PathCovers(a, b);
        PathCoversTransitive(a, b, p);
      }
      assert middle != {};
    }
  }

  // ---------------------------------------------------------------------------------------
  // Current task closures and what they supersede

  ghost predicate CurrentFor(m: Evaluations, task: Task, id: RecordId) {
    id in m && m[id].kind == TaskClosure && m[id].freshness == Current && m[id].task == Some(task)
  }

  /** A greater sequence, or the same sequence and a greater id. */
  ghost predicate Outranks(m: Evaluations, a: RecordId, b: RecordId)
    requires a in m && b in m
  {
    m[b].sequence < m[a].sequence || (m[b].sequence == m[a].sequence && Le(b, a))
  }

  /** The current closure of the task: the highest ranked of its Current closures. */
  ghost predicate IsCurrentOf(m: Evaluations, task: Task, id: RecordId) {
    CurrentFor(m, task, id) && forall o :: CurrentFor(m, task, o) ==> Outranks(m, id, o)
  }

  lemma CurrentIsUnique(m: Evaluations, task: Task, a: RecordId, b: RecordId)
    requires IsCurrentOf(m, task, a) && IsCurrentOf(m, task, b)
    ensures a == b
  {
    assert Outranks(m, a, b) && Outranks(m, b, a);
    LeAntisymmetric(a, b);
  }

  predicate SamePlanScope(a: Evaluation, b: Evaluation) {
    a.planPath == b.planPath && a.planRevision == b.planRevision
  }

  predicate Covers(current: Evaluation, older: Evaluation) {
    SurfaceCovers(Surface(current.surface), Surface(older.surface))
  }

  /** Strictly newer, of the same plan revision, and with a surface at least as broad. */
  predicate Resolves(current: Evaluation, stale: Evaluation) {
    stale.sequence < current.sequence && SamePlanScope(stale, current) && Covers(current, stale)
  }

  /** The supersession edge from a task closure that is no longer current to the current one. */
  ghost predicate Hides(m: Evaluations, current: RecordId, id: RecordId) {
    && id in m && m[id].kind == TaskClosure && m[id].freshness != Current && m[id].task.Some?
    && IsCurrentOf(m, m[id].task.value, current)
    && (m[id].freshness == StaleUnreviewed ==> Resolves(m[current], m[id]))
  }

  /** A still newer and broader closure of the same task hides what the current one hid. */
  lemma NewerClosureKeepsHiding(m: Evaluations, current: RecordId, id: RecordId, newer: Evaluation)
    requires Hides(m, current, id) && newer.id != id
    requires newer.kind == TaskClosure && newer.freshness == Current && newer.task == m[id].task
    requires Resolves(newer, m[current])
    ensures Hides(m[newer.id := newer], newer.id, id)
  {
    var m' := m[newer.id := newer];
    var task := m[id].task.value;
    LeTotal(newer.id, newer.id);
    forall o | CurrentFor(m', task, o)
      ensures Outranks(m', newer.id, o)
    {
      if o != newer.id {
        assert CurrentFor(m, task, o) && Outranks(m, current, o);
      }
    }
    if m[id].freshness == StaleUnreviewed {
      SurfaceCoversTransitive(Surface(newer.surface), Surface(m[current].surface), Surface(m[id].surface));
    }
  }

  // ---------------------------------------------------------------------------------------
  // One more record in the task history, under a new id or under one that is stored already

  /** Every candidate of this id other than `e` is older. */
  ghost predicate Newest(es: seq<Evaluation>, e: Evaluation) {
    forall i :: 0 <= i < |es| && es[i].id == e.id ==> es[i].sequence < e.sequence
  }

  ghost predicate OnlyId(es: seq<Evaluation>, id: RecordId) {
    forall i :: 0 <= i < |es| ==> es[i].id == id
  }

  ghost predicate AgreeOff(m: Evaluations, m': Evaluations, id: RecordId) {
    forall k :: k != id ==> (k in m <==> k in m') && (k in m ==> m[k] == m'[k])
  }

  predicate Stores(m: Evaluations, e: Evaluation) {
    e.id in m && m[e.id] == e
  }

  lemma {:induction false} UpsertsAgree(m: Evaluations, m': Evaluations, es: seq<Evaluation>, id: RecordId)
    requires AgreeOff(m, m', id)
    ensures AgreeOff(AllUpserted(m, es), AllUpserted(m', es), id)
  {
    if es != [] {
      UpsertsAgree(m, m', es[..|es| - 1], id);
    }
  }

  lemma {:induction false} UpsertsOfOneId(m: Evaluations, es: seq<Evaluation>, id: RecordId)
    requires OnlyId(es, id)
    ensures AgreeOff(AllUpserted(m, es), m, id)
  {
    if es != [] {
      UpsertsOfOneId(m, es[..|es| - 1], id);
    }
  }

  lemma {:induction false} UpsertsStayOlder(m: Evaluations, es: seq<Evaluation>, e: Evaluation)
    requires Newest(es, e) && (e.id in m ==> m[e.id].sequence < e.sequence)
    ensures e.id in AllUpserted(m, es) ==> AllUpserted(m, es)[e.id].sequence < e.sequence
  {
    if es != [] {
      UpsertsStayOlder(m, es[..|es| - 1], e);
    }
  }

  lemma {:induction false} UpsertsKeepNewest(m: Evaluations, es: seq<Evaluation>, e: Evaluation)
    requires Newest(es, e) && Stores(m, e)
    ensures Stores(AllUpserted(m, es), e)
  {
    if es != [] {
      UpsertsKeepNewest(m, es[..|es| - 1], e);
    }
  }

  lemma {:induction false} UpsertsSplit(m: Evaluations, xs: seq<Evaluation>, ys: seq<Evaluation>)
    ensures AllUpserted(m, xs + ys) == AllUpserted(AllUpserted(m, xs), ys)
  {
    if ys == [] {
      assert xs + ys == xs;
    } else {
      assert (xs + ys)[..|xs + ys| - 1] == xs + ys[..|ys| - 1];
      UpsertsSplit(m, xs, ys[..|ys| - 1]);
    }
  }

  lemma {:induction false} CandidatesSplit(kind: Kind, xs: seq<Entry>, ys: seq<Entry>)
    ensures Candidates(kind, xs + ys) == Candidates(kind, xs) + Candidates(kind, ys)
  {
    if ys == [] {
      assert xs + ys == xs;
    } else {
      assert (xs + ys)[..|xs + ys| - 1] == xs + ys[..|ys| - 1];
      CandidatesSplit(kind, xs, ys[..|ys| - 1]);
    }
  }

  lemma {:induction false} NewestParts(xs: seq<Evaluation>, ys: seq<Evaluation>, e: Evaluation)
    requires Newest(xs + ys, e)
    ensures Newest(xs, e) && Newest(ys, e)
  {
    assert forall i :: 0 <= i < |xs| ==> (xs + ys)[i] == xs[i];
    assert forall i :: 0 <= i < |ys| ==> (xs + ys)[|xs| + i] == ys[i];
  }

  /** The list part: `mid` holds what was recorded under the id before. */
  lemma {:induction false} UpsertsWithRecord(xs: seq<Evaluation>, mid: seq<Evaluation>, e: Evaluation,
      ys: seq<Evaluation>)
    requires Newest(xs + ys, e) && OnlyId(mid, e.id)
    ensures AgreeOff(AllUpserted(map[], xs + [e] + ys), AllUpserted(map[], xs + mid + ys), e.id)
    ensures Stores(AllUpserted(map[], xs + [e] + ys), e)
  {
    NewestParts(xs, ys, e);
    var m := AllUpserted(map[], xs);
    var with, had := Upserted(m, e), AllUpserted(m, mid);
    UpsertsStayOlder(map[], xs, e);
    UpsertsOfOneId(m, mid, e.id);
    UpsertsAgree(with, had, ys, e.id);
    UpsertsKeepNewest(with, ys, e);
    assert AllUpserted(map[], xs + [e] + ys) == AllUpserted(with, ys) by {
      UpsertsSplit(map[], xs + [e], ys);
      assert (xs + [e])[..|xs|] == xs;
    }
    assert AllUpserted(map[], xs + mid + ys) == AllUpserted(had, ys) by {
      UpsertsSplit(map[], xs + mid, ys);
      UpsertsSplit(map[], xs, mid);
    }
  }

  lemma {:induction false} TasksWithRecord(before: seq<Entry>, was: seq<Entry>, entry: Entry, after: seq<Entry>)
    requires !Skipped(TaskClosure, entry)
    requires OnlyId(Candidates(TaskClosure, was), EvaluationOf(TaskClosure, entry).id)
    requires Newest(Candidates(TaskClosure, before + after), EvaluationOf(TaskClosure, entry))
    ensures var e, with := EvaluationOf(TaskClosure, entry), Candidates(TaskClosure, before + [entry] + after);
            && AgreeOff(AllUpserted(map[], with), AllUpserted(map[], Candidates(TaskClosure, before + was + after)),
                e.id)
            && Stores(AllUpserted(map[], with), e)
  {
    var e := EvaluationOf(TaskClosure, entry);
    var xs, mid, ys := Candidates(TaskClosure, before), Candidates(TaskClosure, was), Candidates(TaskClosure, after);
    CandidatesSplit(TaskClosure, before, after);
    CandidatesSplit(TaskClosure, before, was);
    CandidatesSplit(TaskClosure, before + was, after);
    CandidatesSplit(TaskClosure, before + [entry], after);
    assert (before + [entry])[..|before|] == before;
    UpsertsWithRecord(xs, mid, e, ys);
  }

  /** The later histories and passes keep two stores alike off the id, and keep the newest record. */
  lemma {:induction false} IngestedFrom(s: Snapshot, tasks: Evaluations, tasks': Evaluations, e: Evaluation)
    requires AgreeOff(tasks, tasks', e.id) && Stores(tasks, e) && e.id !in s.supersededBranches
    requires Newest(Candidates(BranchClosure, s.branches), e) && Newest(Candidates(ReleaseReadiness, s.releases), e)
    requires Newest(Candidates(FinalReview, s.reviews), e) && Newest(Candidates(BrowserQa, s.qas), e)
    ensures AgreeOff(IngestedOn(s, tasks), IngestedOn(s, tasks'), e.id) && Stores(IngestedOn(s, tasks), e)
  {
    var b, r := Candidates(BranchClosure, s.branches), Candidates(ReleaseReadiness, s.releases);
    var f, q := Candidates(FinalReview, s.reviews), Candidates(BrowserQa, s.qas);
    UpsertsAgree(tasks, tasks', b, e.id);
    UpsertsKeepNewest(tasks, b, e);
    var m1 := BranchesSuperseded(AllUpserted(tasks, b), s.supersededBranches);
    var n1 := BranchesSuperseded(AllUpserted(tasks', b), s.supersededBranches);
    MilestonesFrom(m1, n1, r, f, q, e);
  }

  lemma {:induction false} MilestonesFrom(
    m: Evaluations, m': Evaluations, r: seq<Evaluation>, f: seq<Evaluation>, q: seq<Evaluation>, e: Evaluation)
    requires AgreeOff(m, m', e.id) && Stores(m, e) && Newest(r, e) && Newest(f, e) && Newest(q, e)
    ensures AgreeOff(AllUpserted(AllUpserted(AllUpserted(m, r), f), q),
            AllUpserted(AllUpserted(AllUpserted(m', r), f), q), e.id)
    ensures Stores(AllUpserted(AllUpserted(AllUpserted(m, r), f), q), e)
  {
    UpsertsAgree(m, m', r, e.id);
    UpsertsKeepNewest(m, r, e);
    UpsertsAgree(AllUpserted(m, r), AllUpserted(m', r), f, e.id);
    UpsertsKeepNewest(AllUpserted(m, r), f, e);
    UpsertsAgree(AllUpserted(AllUpserted(m, r), f), AllUpserted(AllUpserted(m', r), f), q, e.id);
    UpsertsKeepNewest(AllUpserted(AllUpserted(m, r), f), q, e);
  }

  lemma {:induction false} NewestInEach(s: Snapshot, e: Evaluation)
    requires Newest(AllCandidates(s), e)
    ensures Newest(Candidates(TaskClosure, s.tasks), e) && Newest(Candidates(BranchClosure, s.branches), e)
    ensures Newest(Candidates(ReleaseReadiness, s.releases), e) && Newest(Candidates(FinalReview, s.reviews), e)
    ensures Newest(Candidates(BrowserQa, s.qas), e)
  {
    var a, b := Candidates(TaskClosure, s.tasks), Candidates(BranchClosure, s.branches);
    var c, d := Candidates(ReleaseReadiness, s.releases), Candidates(FinalReview, s.reviews);
    NewestParts(a + b + c + d, Candidates(BrowserQa, s.qas), e);
    NewestParts(a + b + c, d, e);
    NewestParts(a + b, c, e);
    NewestParts(a, b, e);
  }

  lemma {:induction false} FreshnessWithRecord(
    m: Evaluations, m': Evaluations, e: Evaluation, ids: seq<RecordId>, targets: set<RecordId>, reasons: seq<string>)
    requires AgreeOff(m, m', e.id) && Stores(m, e) && e.id !in ids && e.id !in targets
    ensures StaleProjected(TasksSuperseded(m, ids), targets, reasons)
         == StaleProjected(TasksSuperseded(m', ids), targets, reasons)[e.id := e]
  {
  }

  /** No list of superseded records and no signal names the id. */
  predicate Untouched(s: Snapshot, signals: Signals, id: RecordId) {
    id !in s.supersededBranches && id !in s.supersededTasks && id !in Targets(signals)
  }

  /** A record newer than all others of its id, in place of what the history held under it before or in
      addition to the rest, is stored as it is read, wherever it stands, and nothing else changes. */
  lemma {:induction false} FinalWithRecord(
    s: Snapshot, signals: Signals, before: seq<Entry>, was: seq<Entry>, entry: Entry, after: seq<Entry>)
    requires s.tasks == before + was + after && !Skipped(TaskClosure, entry)
    requires var e := EvaluationOf(TaskClosure, entry);
             && OnlyId(Candidates(TaskClosure, was), e.id) && Untouched(s, signals, e.id)
             && Newest(AllCandidates(s.(tasks := before + after)), e)
    ensures var e := EvaluationOf(TaskClosure, entry);
            FinalEvaluations(s.(tasks := before + [entry] + after), signals) == FinalEvaluations(s, signals)[e.id := e]
  {
    var e := EvaluationOf(TaskClosure, entry);
    var with := AllUpserted(map[], Candidates(TaskClosure, before + [entry] + after));
    var had := AllUpserted(map[], Candidates(TaskClosure, s.tasks));
    NewestInEach(s.(tasks := before + after), e);
    TasksWithRecord(before, was, entry, after);
    IngestedFrom(s, with, had, e);
    FreshnessWithRecord(IngestedOn(s, with), IngestedOn(s, had), e, s.supersededTasks, Targets(signals),
        signals.reasons);
  }

  /** Recording a still newer and broader closure of the same task, under a new id or again under the id
      of any record but the stale one, never un-hides it. */
  lemma {:induction false} NewerRecordKeepsHiding(
    s: Snapshot, signals: Signals, before: seq<Entry>, was: seq<Entry>, entry: Entry, after: seq<Entry>,
        current: RecordId, id: RecordId)
    requires s.tasks == before + was + after && Hides(FinalEvaluations(s, signals), current, id)
    requires !Skipped(TaskClosure, entry)
    requires var e, m := EvaluationOf(TaskClosure, entry), FinalEvaluations(s, signals);
             && OnlyId(Candidates(TaskClosure, was), e.id) && Untouched(s, signals, e.id) && e.id != id
             && Newest(AllCandidates(s.(tasks := before + after)), e)
             && e.freshness == Current && e.task == m[id].task && Resolves(e, m[current])
    ensures Hides(FinalEvaluations(s.(tasks := before + [entry] + after), signals),
            EvaluationOf(TaskClosure, entry).id, id)
  {
    FinalWithRecord(s, signals, before, was, entry, after);
    NewerClosureKeepsHiding(FinalEvaluations(s, signals), current, id, EvaluationOf(TaskClosure, entry));
  }

  // ---------------------------------------------------------------------------------------
  // The milestone chain

  datatype Chain = Chain(branch: Option<RecordId>, release: Option<RecordId>, review: Option<RecordId>,
      qa: Option<RecordId>)

  predicate FreshAs(m: Evaluations, id: RecordId, kind: Kind) {
    id in m && m[id].kind == kind && m[id].freshness == Current
  }

  function BoundCurrent(m: Evaluations, bound: Option<string>, kind: Kind): Option<RecordId> {
    if bound.None? then None
    else
      var id := Trim(bound.value);
      if id != "" && FreshAs(m, id, kind) then Some(id) else None
  }

  function BoundMilestone(m: Evaluations, bound: Option<string>, kind: Kind, branch: Option<RecordId>,
      dependency: Option<RecordId>)
    : Option<RecordId>
  {
    if bound.None? || branch.None? then None
    else
      var id, branchId := Trim(bound.value), Trim(branch.value);
      if id == "" || branchId == "" || !FreshAs(m, id, kind) then None
      else if m[id].dependsOn == [] || m[id].dependsOn[0] != branchId then None
      else if dependency.Some? && dependency.value !in m[id].dependsOn then None
      else Some(id)
  }

  function CurrentChain(m: Evaluations, bound: Bound): Chain {
    var branch := BoundCurrent(m, bound.branch, BranchClosure);
    var release := BoundMilestone(m, bound.release, ReleaseReadiness, branch, None);
    var review := if release.None? then None else BoundMilestone(m, bound.review, FinalReview, branch, release);
    var qa := if review.None? then None else BoundMilestone(m, bound.qa, BrowserQa, branch, review);
    Chain(branch, release, review, qa)
  }

  predicate BoundTo(m: Evaluations, id: RecordId, branch: RecordId) {
    id in m && m[id].dependsOn != [] && m[id].dependsOn[0] == branch
  }

  /** Each current milestone rests on the one below it: all fresh, all bound to one branch closure,
      and linked by dependency ids. */
  lemma ChainIsLinked(m: Evaluations, bound: Bound)
    ensures var c := CurrentChain(m, bound);
            && (c.qa.Some? ==> c.review.Some? && FreshAs(m, c.qa.value, BrowserQa)
                               && BoundTo(m, c.qa.value, c.branch.value) && c.review.value in m[c.qa.value].dependsOn)
            && (c.review.Some? ==> c.release.Some? && FreshAs(m, c.review.value, FinalReview)
                                   && BoundTo(m, c.review.value, c.branch.value)
                                       && c.release.value in m[c.review.value].dependsOn)
            && (c.release.Some? ==> c.branch.Some? && FreshAs(m, c.release.value, ReleaseReadiness)
                                    && BoundTo(m, c.release.value, c.branch.value))
            && (c.branch.Some? ==> FreshAs(m, c.branch.value, BranchClosure))
  {
    if bound.branch.Some? {
      TrimTwice(bound.branch.value);
    }
  }

  /** Projecting staleness onto the bound branch closure leaves none of the four current, in any store. */
  lemma StaleBranchBreaksChain(m: Evaluations, bound: Bound, targets: set<RecordId>, reasons: seq<string>)
    requires bound.branch.Some? && Trim(bound.branch.value) in targets
    ensures CurrentChain(StaleProjected(m, targets, reasons), bound) == Chain(None, None, None, None)
  {
  }

  /** So for every snapshot: signals that project and name the bound branch closure break its chain. */
  lemma StaleSignalsBreakChain(s: Snapshot, signals: Signals, i: nat)
    requires s.bound.branch.Some? && Projects(signals)
    requires i < |signals.closureIds| && signals.closureIds[i].Some?
    requires Trim(signals.closureIds[i].value) == Trim(s.bound.branch.value)
    ensures CurrentChain(FinalEvaluations(s, signals), s.bound) == Chain(None, None, None, None)
  {
    if Trim(s.bound.branch.value) != "" {
      assert Trim(signals.closureIds[i].value) in Targets(signals);
      StaleBranchBreaksChain(TasksSuperseded(Ingested(s), s.supersededTasks), s.bound, Targets(signals),
          signals.reasons);
    }
  }

  /** The id that a stored binding names. */
  predicate BindsTo(bound: Option<string>, id: RecordId) {
    bound.Some? && Trim(bound.value) == id && id != ""
  }

  /** Each milestone is current exactly when its bound record is fresh, bound to the current branch
      closure and, above release readiness, linked to the current milestone below it. */
  lemma ChainIsExact(m: Evaluations, bound: Bound, id: RecordId)
    ensures var c := CurrentChain(m, bound);
            && (c.branch == Some(id) <==> BindsTo(bound.branch, id) && FreshAs(m, id, BranchClosure))
            && (c.release == Some(id) <==>
                  c.branch.Some? && BindsTo(bound.release, id) && FreshAs(m, id, ReleaseReadiness)
                      && BoundTo(m, id, c.branch.value))
            && (c.review == Some(id) <==>
                  c.release.Some? && BindsTo(bound.review, id) && FreshAs(m, id, FinalReview)
                      && BoundTo(m, id, c.branch.value)
                  && c.release.value in m[id].dependsOn)
            && (c.qa == Some(id) <==>
                  c.review.Some? && BindsTo(bound.qa, id) && FreshAs(m, id, BrowserQa) && BoundTo(m, id, c.branch.value)
                  && c.review.value in m[id].dependsOn)
  {
    if bound.branch.Some? {
      TrimTwice(bound.branch.value);
    }
    ChainIsLinked(m, bound);
  }
}
