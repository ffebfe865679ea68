/** Step state as the runtime loads it: the marks and notes in the plan markdown are dropped, and the
    authoritative state decides which steps are checked and which one is open. */
module StepOverlay {
  import opened Lists

  datatype NoteState = Active | Blocked | Interrupted

  datatype Step = Step(task: nat, number: nat, title: string, checked: bool, note: Option<NoteState>, summary: string)

  type StepId = (nat, nat)

  /** A field of a JSON record that should hold a task number. */
  datatype NumberField = Absent | Number(value: nat) | Malformed

  /** `keyTask` is the number in a well-formed `task-N` record key. */
  datatype ClosureRecord = ClosureRecord(keyTask: Option<nat>, task: NumberField, taskNumber: NumberField)

  datatype CompletedEntry = CompletedEntry(task: Option<nat>, step: Option<nat>)

  /** `sharesWorkspace` stands for the comparison of the record's workspace with the current one. */
  datatype OpenRecord = OpenRecord(
    task: nat, step: nat, note: Option<NoteState>, summary: string, modeIsValid: bool,
    planPath: string, planRevision: nat, sharesWorkspace: bool)

  datatype Authority = Authority(
    closures: seq<ClosureRecord>,
    completed: Option<seq<CompletedEntry>>,
    open: Option<OpenRecord>,
    openMalformed: bool)

  datatype PlanRef = PlanRef(path: string, revision: nat, modeIsNone: bool)

  datatype Failure =
    | MalformedCompleted | UnknownCompleted | OpenUnreadable | BadMode | WrongPlan | WrongRevision | BadNote
    | UnknownOpen | BlankSummary | LongSummary

  datatype Outcome<T> = Ok(value: T) | Err(failure: Failure)

  const MAX_SUMMARY: nat := 120

  // ---------------------------------------------------------------------------------------
  // Specification

  function IdOf(s: Step): StepId { (s.task, s.number) }

  function Cleared(steps: seq<Step>): seq<Step> {
    seq(|steps|, i requires 0 <= i < |steps| => steps[i].(checked := false, note := None, summary := ""))
  }

  function WithoutNotes(steps: seq<Step>): seq<Step> {
    seq(|steps|, i requires 0 <= i < |steps| => steps[i].(note := None, summary := ""))
  }

  predicate FieldAgrees(f: NumberField, task: nat) {
    f.Absent? || (f.Number? && f.value == task)
  }

  /** The task a closure record is scoped to; None when its key or a field contradicts that. */
  function ScopedTask(r: ClosureRecord): Option<nat> {
    if r.keyTask.Some? && FieldAgrees(r.task, r.keyTask.value)
        && FieldAgrees(r.taskNumber, r.keyTask.value) then r.keyTask else None
  }

  ghost predicate Closed(closures: seq<ClosureRecord>, task: nat) {
    exists k :: 0 <= k < |closures| && ScopedTask(closures[k]) == Some(task)
  }

  function TaskChecked(steps: seq<Step>, task: nat): seq<Step> {
    seq(|steps|, i requires 0 <= i < |steps| => if steps[i].task == task then steps[i].(checked := true) else steps[i])
  }

  function ClosuresApplied(steps: seq<Step>, closures: seq<ClosureRecord>): seq<Step> {
    if closures == [] then steps
    else
      var before := ClosuresApplied(steps, closures[..|closures| - 1]);
      var t := ScopedTask(closures[|closures| - 1]);
      if t.Some? then TaskChecked(before, t.value) else before
  }

  function FirstIndex(steps: seq<Step>, id: StepId): (r: Option<nat>)
    ensures r.Some? ==> r.value < |steps| && IdOf(steps[r.value]) == id && forall j :: 0 <= j < r.value ==>
            IdOf(steps[j]) != id
    ensures r.None? ==> forall j :: 0 <= j < |steps| ==> IdOf(steps[j]) != id
  {
    if steps == [] then None
    else
      var before := FirstIndex(steps[..|steps| - 1], id);
      if before.Some? then before
      else if IdOf(steps[|steps| - 1]) == id then Some(|steps| - 1)
      else None
  }

  function CompletedIds(entries: seq<CompletedEntry>): Outcome<seq<StepId>> {
    if entries == [] then Ok([])
    else
      var before := CompletedIds(entries[..|entries| - 1]);
      var e := entries[|entries| - 1];
      if before.Err? then before
      else if e.task.None? || e.step.None? then Err(MalformedCompleted)
      else Ok(before.value + [(e.task.value, e.step.value)])
  }

  function CompletedApplied(steps: seq<Step>, ids: seq<StepId>): Outcome<seq<Step>> {
    if ids == [] then Ok(steps)
    else
      var before := CompletedApplied(steps, ids[..|ids| - 1]);
      if before.Err? then before
      else
        var i := FirstIndex(before.value, ids[|ids| - 1]);
        if i.None? then Err(UnknownCompleted) else Ok(before.value[i.value := before.value[i.value].(checked := true)])
  }

  function OpenFailure(steps: seq<Step>, r: OpenRecord, plan: PlanRef): Option<Failure> {
    if plan.modeIsNone && !r.modeIsValid then Some(BadMode)
    else if r.planPath != plan.path then Some(WrongPlan)
    else if r.planRevision != plan.revision then Some(WrongRevision)
    else if r.note.None? then Some(BadNote)
    else if FirstIndex(steps, (r.task, r.step)).None? then Some(UnknownOpen)
    else if r.summary == "" then Some(BlankSummary)
    else if |r.summary| > MAX_SUMMARY then Some(LongSummary)
    else None
  }

  function OpenApplied(steps: seq<Step>, a: Authority, plan: PlanRef): Outcome<seq<Step>> {
    if a.openMalformed then Err(OpenUnreadable)
    else if a.open.None? || !a.open.value.sharesWorkspace then Ok(steps)
    else if OpenFailure(steps, a.open.value, plan).Some? then Err(OpenFailure(steps, a.open.value, plan).value)
    else
      var r := a.open.value;
      var i := FirstIndex(steps, (r.task, r.step)).value;
      var quiet := WithoutNotes(steps);
      Ok(quiet[i := quiet[i].(checked := false, note := r.note, summary := r.summary)])
  }

  /** Loading: everything the markdown said is dropped first. */
  function Loaded(steps: seq<Step>, authority: Option<Authority>, plan: PlanRef): Outcome<seq<Step>> {
    var cleared := Cleared(steps);
    if authority.None? then Ok(cleared)
    else
      var a := authority.value;
      var closed := ClosuresApplied(cleared, a.closures);
      if a.completed.None? then OpenApplied(closed, a, plan)
      else
        var ids := CompletedIds(a.completed.value);
        if ids.Err? then Err(ids.failure)
        else
          var marked := CompletedApplied(closed, ids.value);
          if marked.Err? then marked else OpenApplied(marked.value, a, plan)
  }

  // ---------------------------------------------------------------------------------------
  // What loading means

  ghost predicate SameSteps(a: seq<Step>, b: seq<Step>) {
    |a| == |b| && forall i :: 0 <= i < |a| ==>
        a[i].task == b[i].task && a[i].number == b[i].number && a[i].title == b[i].title
  }

  ghost predicate NoNotes(steps: seq<Step>) {
    forall i :: 0 <= i < |steps| ==> steps[i].note.None? && steps[i].summary == ""
  }

  lemma {:induction false} FirstIndexSame(a: seq<Step>, b: seq<Step>, id: StepId)
    requires SameSteps(a, b)
    ensures FirstIndex(a, id) == FirstIndex(b, id)
  {
    var i, j := FirstIndex(a, id), FirstIndex(b, id);
    if i.Some? {
      assert IdOf(b[i.value]) == id;
    }
    if j.Some? {
      assert IdOf(a[j.value]) == id;
    }
  }

  lemma {:induction false} ClosuresMeaning(steps: seq<Step>, closures: seq<ClosureRecord>)
    requires NoNotes(steps)
    ensures var r := ClosuresApplied(steps, closures);
            && SameSteps(r, steps) && NoNotes(r)
            && forall i :: 0 <= i < |steps| ==> (r[i].checked <==> steps[i].checked || Closed(closures, steps[i].task))
  {
    if closures != [] {
      var rest, last := closures[..|closures| - 1], closures[|closures| - 1];
      ClosuresMeaning(steps, rest);
      forall t: nat
        ensures Closed(closures, t) <==> Closed(rest, t) || ScopedTask(last) == Some(t)
      {
        if Closed(rest, t) {
          var k :| 0 <= k < |rest| && ScopedTask(rest[k]) == Some(t);
          assert closures[k] == rest[k];
        }
        if Closed(closures, t) {
          var k :| 0 <= k < |closures| && ScopedTask(closures[k]) == Some(t);
          if k < |rest| {
            assert rest[k] == closures[k];
          }
        }
        assert closures[|rest|] == last;
      }
    }
  }

  /** A completed entry checks the first step with its id. */
  ghost predicate NamedFirst(steps: seq<Step>, ids: seq<StepId>, i: nat) {
    exists k :: 0 <= k < |ids| && FirstIndex(steps, ids[k]) == Some(i)
  }

  lemma NamedFirstPrefix(steps: seq<Step>, ids: seq<StepId>, i: nat)
    requires ids != []
    ensures NamedFirst(steps, ids, i) <==>
            NamedFirst(steps, ids[..|ids| - 1], i) || FirstIndex(steps, ids[|ids| - 1]) == Some(i)
  {
    var rest := ids[..|ids| - 1];
    if NamedFirst(steps, rest, i) {
      var k :| 0 <= k < |rest| && FirstIndex(steps, rest[k]) == Some(i);
      assert ids[k] == rest[k];
    }
    if NamedFirst(steps, ids, i) {
      var k :| 0 <= k < |ids| && FirstIndex(steps, ids[k]) == Some(i);
      if k < |rest| {
        assert rest[k] == ids[k];
      }
    }
  }

  ghost predicate MarkedFirst(r: seq<Step>, steps: seq<Step>, ids: seq<StepId>) {
    && SameSteps(r, steps) && NoNotes(r)
    && forall i :: 0 <= i < |steps| ==> (r[i].checked <==> steps[i].checked || NamedFirst(steps, ids, i))
  }

  lemma MarkNext(before: seq<Step>, steps: seq<Step>, ids: seq<StepId>, at: nat)
    requires ids != [] && NoNotes(steps) && MarkedFirst(before, steps, ids[..|ids| - 1])
    requires FirstIndex(before, ids[|ids| - 1]) == Some(at)
    ensures MarkedFirst(before[at := before[at].(checked := true)], steps, ids)
  {
    FirstIndexSame(before, steps, ids[|ids| - 1]);
    forall i | 0 <= i < |steps|
      ensures before[at := before[at].(checked := true)][i].checked <==> steps[i].checked || NamedFirst(steps, ids, i)
    {
      NamedFirstPrefix(steps, ids, i);
    }
  }

  ghost predicate AllKnown(steps: seq<Step>, ids: seq<StepId>) {
    forall k :: 0 <= k < |ids| ==> FirstIndex(steps, ids[k]).Some?
  }

  lemma {:induction false} AllKnownPrefix(steps: seq<Step>, ids: seq<StepId>)
    requires ids != []
    ensures AllKnown(steps, ids) <==> AllKnown(steps, ids[..|ids| - 1]) && FirstIndex(steps, ids[|ids| - 1]).Some?
  {
    var rest := ids[..|ids| - 1];
    assert forall k :: 0 <= k < |rest| ==> ids[k] == rest[k];
  }

  lemma {:induction false} CompletedNext(steps: seq<Step>, ids: seq<StepId>, before: seq<Step>)
    requires ids != [] && NoNotes(steps) && CompletedApplied(steps, ids[..|ids| - 1]) == Ok(before)
    requires MarkedFirst(before, steps, ids[..|ids| - 1])
    ensures CompletedApplied(steps, ids).Ok? <==> FirstIndex(steps, ids[|ids| - 1]).Some?
    ensures CompletedApplied(steps, ids).Ok? ==> MarkedFirst(CompletedApplied(steps, ids).value, steps, ids)
  {
    var last := ids[|ids| - 1];
    FirstIndexSame(before, steps, last);
    if FirstIndex(steps, last).Some? {
      MarkNext(before, steps, ids, FirstIndex(steps, last).value);
    }
  }

  lemma {:induction false} CompletedMeaning(steps: seq<Step>, ids: seq<StepId>)
    requires NoNotes(steps)
    ensures CompletedApplied(steps, ids).Ok? <==> AllKnown(steps, ids)
    ensures CompletedApplied(steps, ids).Ok? ==> MarkedFirst(CompletedApplied(steps, ids).value, steps, ids)
  {
    if ids != [] {
      var rest := ids[..|ids| - 1];
      CompletedMeaning(steps, rest);
      AllKnownPrefix(steps, ids);
      if CompletedApplied(steps, rest).Ok? {
        CompletedNext(steps, ids, CompletedApplied(steps, rest).value);
      }
    }
  }

  /** The open step of an authority that has one for this workspace. */
  ghost predicate IsOpen(steps: seq<Step>, a: Authority, i: nat) {
    && a.open.Some? && a.open.value.sharesWorkspace
    && FirstIndex(steps, (a.open.value.task, a.open.value.step)) == Some(i)
  }

  ghost predicate CheckedByAuthority(steps: seq<Step>, a: Authority, i: nat)
    requires i < |steps|
  {
    || Closed(a.closures, steps[i].task)
    || (a.completed.Some? && CompletedIds(a.completed.value).Ok?
        && NamedFirst(steps, CompletedIds(a.completed.value).value, i))
  }

  lemma {:induction false} OpenMeaning(steps: seq<Step>, a: Authority, plan: PlanRef)
    requires NoNotes(steps)
    ensures var r := OpenApplied(steps, a, plan);
            r.Ok? ==>
              && SameSteps(r.value, steps)
              && forall i :: 0 <= i < |steps| ==>
                   if IsOpen(steps, a, i) then !r.value[i].checked && r.value[i].note == a.open.value.note
                       && r.value[i].note.Some?
                                               && r.value[i].summary == a.open.value.summary
                                                   && 0 < |r.value[i].summary| <= MAX_SUMMARY
                   else r.value[i] == steps[i]
  {
  }

  /** For every authority: loading keeps the steps themselves; the one open step, if any, is unchecked
      and carries the authority's note; every other step carries no note and is checked exactly when
      a completed entry names it first or its task has a well-scoped closure record. */
  lemma LoadedMeaning(steps: seq<Step>, a: Authority, plan: PlanRef)
    requires Loaded(steps, Some(a), plan).Ok?
    ensures var r := Loaded(steps, Some(a), plan).value;
            && SameSteps(r, steps)
            && forall i :: 0 <= i < |steps| ==>
                 if IsOpen(steps, a, i) then !r[i].checked && r[i].note == a.open.value.note && r[i].note.Some?
                                             && r[i].summary == a.open.value.summary
                 else r[i].note.None? && r[i].summary == "" && (r[i].checked <==> CheckedByAuthority(steps, a, i))
  {
    var cleared := Cleared(steps);
    ClosuresMeaning(cleared, a.closures);
    var closed := ClosuresApplied(cleared, a.closures);
    var base := closed;
    if a.completed.Some? {
      var ids := CompletedIds(a.completed.value).value;
      CompletedMeaning(closed, ids);
      base := CompletedApplied(closed, ids).value;
      forall i: nat
        ensures NamedFirst(closed, ids, i) == NamedFirst(steps, ids, i)
      {
        NamedFirstSame(closed, steps, ids, i);
      }
    }
    OpenMeaning(base, a, plan);
    if a.open.Some? {
      FirstIndexSame(base, steps, (a.open.value.task, a.open.value.step));
    }
  }

  lemma NamedFirstSame(a: seq<Step>, b: seq<Step>, ids: seq<StepId>, i: nat)
    requires SameSteps(a, b)
    ensures NamedFirst(a, ids, i) == NamedFirst(b, ids, i)
  {
    forall k | 0 <= k < |ids|
      ensures FirstIndex(a, ids[k]) == FirstIndex(b, ids[k])
    {
      FirstIndexSame(a, b, ids[k]);
    }
  }

  /** Marks and notes in the markdown do not matter, in success or in failure. */
  lemma LoadingIgnoresMarkdown(a: seq<Step>, b: seq<Step>, authority: Option<Authority>, plan: PlanRef)
    requires SameSteps(a, b)
    ensures Loaded(a, authority, plan) == Loaded(b, authority, plan)
  {
    assert Cleared(a) == Cleared(b);
  }

  ghost predicate DistinctIds(steps: seq<Step>) {
    forall i, j :: 0 <= i < j < |steps| ==> IdOf(steps[i]) != IdOf(steps[j])
  }

  /** With distinct step ids: at most one step carries a note and it is unchecked, and every other
      step is checked exactly when an entry names its id or its task is closed. */
  lemma LoadedDistinct(steps: seq<Step>, a: Authority, plan: PlanRef)
    requires DistinctIds(steps) && Loaded(steps, Some(a), plan).Ok?
    ensures var r := Loaded(steps, Some(a), plan).value;
            && SameSteps(r, steps)
            && (forall i, j :: 0 <= i < |r| && 0 <= j < |r| && r[i].note.Some? && r[j].note.Some? ==> i == j)
            && (forall i :: 0 <= i < |r| && r[i].note.Some? ==> !r[i].checked)
            && forall i :: 0 <= i < |r| && r[i].note.None? ==>
                 (r[i].checked <==> Closed(a.closures, steps[i].task)
                                    || (a.completed.Some? && IdOf(steps[i]) in CompletedIds(a.completed.value).value))
  {
    LoadedMeaning(steps, a, plan);
    if a.completed.Some? {
      var ids := CompletedIds(a.completed.value).value;
      forall i | 0 <= i < |steps|
        ensures NamedFirst(steps, ids, i) <==> IdOf(steps[i]) in ids
      {
        assert FirstIndex(steps, IdOf(steps[i])) == Some(i);
        if IdOf(steps[i]) in ids {
          var k :| 0 <= k < |ids| && ids[k] == IdOf(steps[i]);
          assert FirstIndex(steps, ids[k]) == Some(i);
        }
      }
    }
  }

  // ---------------------------------------------------------------------------------------
  // When loading succeeds

  ghost predicate Known(steps: seq<Step>, task: nat, step: nat) {
    exists i :: 0 <= i < |steps| && steps[i].task == task && steps[i].number == step
  }

  /** Every completed entry has a task and a step, and they name a step of the plan. */
  ghost predicate CompletedFits(steps: seq<Step>, a: Authority) {
    a.completed.Some? ==>
      forall k :: 0 <= k < |a.completed.value| ==>
        var e := a.completed.value[k];
        e.task.Some? && e.step.Some? && Known(steps, e.task.value, e.step.value)
  }

  /** The open record, when there is one for this workspace, is of the plan, its revision and one of its
      steps, with a valid mode where the plan has none, a note, and a summary of 1 to 120 characters. */
  ghost predicate OpenFits(steps: seq<Step>, a: Authority, plan: PlanRef) {
    && !a.openMalformed
    && (a.open.Some? && a.open.value.sharesWorkspace ==>
          var r := a.open.value;
          && (plan.modeIsNone ==> r.modeIsValid)
          && r.planPath == plan.path && r.planRevision == plan.revision
          && r.note.Some? && Known(steps, r.task, r.step) && 1 <= |r.summary| <= 120)
  }

  lemma {:induction false} KnownIsFound(steps: seq<Step>, task: nat, step: nat)
    ensures Known(steps, task, step) <==> FirstIndex(steps, (task, step)).Some?
  {
    var at := FirstIndex(steps, (task, step));
    if at.Some? {
      assert steps[at.value].task == task && steps[at.value].number == step;
    } else {
      assert forall i :: 0 <= i < |steps| ==> IdOf(steps[i]) != (task, step);
    }
  }

  lemma {:induction false} CompletedIdsExactly(entries: seq<CompletedEntry>)
    ensures CompletedIds(entries).Ok? <==>
            forall k :: 0 <= k < |entries| ==> entries[k].task.Some? && entries[k].step.Some?
    ensures CompletedIds(entries).Ok? ==>
              && |CompletedIds(entries).value| == |entries|
              && forall k :: 0 <= k < |entries| && entries[k].task.Some? && entries[k].step.Some? ==>
                   CompletedIds(entries).value[k] == (entries[k].task.value, entries[k].step.value)
  {
    if entries != [] {
      var n := |entries| - 1;
      CompletedIdsExactly(entries[..n]);
      assert forall k :: 0 <= k < n ==> entries[..n][k] == entries[k];
    }
  }

  lemma {:induction false} AllKnownExactly(steps: seq<Step>, ids: seq<StepId>)
    ensures AllKnown(steps, ids) <==> forall k :: 0 <= k < |ids| ==> Known(steps, ids[k].0, ids[k].1)
  {
    forall k | 0 <= k < |ids|
      ensures FirstIndex(steps, ids[k]).Some? <==> Known(steps, ids[k].0, ids[k].1)
    {
      KnownIsFound(steps, ids[k].0, ids[k].1);
      assert ids[k] == (ids[k].0, ids[k].1);
    }
  }

  lemma {:induction false} OpenAppliedExactly(steps: seq<Step>, a: Authority, plan: PlanRef)
    ensures OpenApplied(steps, a, plan).Ok? <==> OpenFits(steps, a, plan)
  {
    if a.open.Some? {
      KnownIsFound(steps, a.open.value.task, a.open.value.step);
    }
  }

  lemma {:induction false} FitsSame(a: seq<Step>, b: seq<Step>, task: nat, step: nat)
    requires SameSteps(a, b)
    ensures Known(a, task, step) <==> Known(b, task, step)
  {
    if Known(a, task, step) {
      var i :| 0 <= i < |a| && a[i].task == task && a[i].number == step;
      assert b[i].task == task;
    }
    if Known(b, task, step) {
      var i :| 0 <= i < |b| && b[i].task == task && b[i].number == step;
      assert a[i].task == task;
    }
  }

  lemma {:induction false} OpenFitsSame(x: seq<Step>, y: seq<Step>, a: Authority, plan: PlanRef)
    requires SameSteps(x, y)
    ensures OpenFits(x, a, plan) <==> OpenFits(y, a, plan)
  {
    if a.open.Some? {
      FitsSame(x, y, a.open.value.task, a.open.value.step);
    }
  }

  lemma {:induction false} CompletedFitsExactly(steps: seq<Step>, closed: seq<Step>, a: Authority)
    requires SameSteps(closed, steps) && a.completed.Some?
    ensures var ids := CompletedIds(a.completed.value);
            CompletedFits(steps, a) <==> ids.Ok? && AllKnown(closed, ids.value)
  {
    var entries := a.completed.value;
    CompletedIdsExactly(entries);
    if CompletedIds(entries).Ok? {
      var ids := CompletedIds(entries).value;
      AllKnownExactly(closed, ids);
      forall k | 0 <= k < |ids|
        ensures Known(closed, ids[k].0, ids[k].1) <==> Known(steps, entries[k].task.value, entries[k].step.value)
      {
        FitsSame(closed, steps, ids[k].0, ids[k].1);
      }
    }
  }

  /** Loading succeeds exactly when there is no authority, or its completed entries and its open record fit
      the plan. */
  lemma {:induction false} LoadsExactly(steps: seq<Step>, authority: Option<Authority>, plan: PlanRef)
    ensures Loaded(steps, authority, plan).Ok? <==>
            authority.None? || (CompletedFits(steps, authority.value) && OpenFits(steps, authority.value, plan))
  {
    if authority.Some? {
      var a := authority.value;
      ClosuresMeaning(Cleared(steps), a.closures);
      var closed := ClosuresApplied(Cleared(steps), a.closures);
      assert SameSteps(closed, steps);
      if a.completed.None? {
        OpenAppliedExactly(closed, a, plan);
        OpenFitsSame(closed, steps, a, plan);
      } else {
        CompletedFitsExactly(steps, closed, a);
        if CompletedIds(a.completed.value).Ok? {
          LoadsMarked(steps, closed, CompletedIds(a.completed.value).value, a, plan);
        }
      }
    }
  }

  lemma {:induction false} LoadsMarked(steps: seq<Step>, closed: seq<Step>, ids: seq<StepId>, a: Authority,
                                       plan: PlanRef)
    requires SameSteps(closed, steps) && NoNotes(closed)
    ensures var marked := CompletedApplied(closed, ids);
            (marked.Ok? && OpenApplied(marked.value, a, plan).Ok?) <==>
            AllKnown(closed, ids) && OpenFits(steps, a, plan)
  {
    CompletedMeaning(closed, ids);
    var marked := CompletedApplied(closed, ids);
    if marked.Ok? {
      OpenAppliedExactly(marked.value, a, plan);
      OpenFitsSame(marked.value, steps, a, plan);
    }
  }

  /** Without authority every step is loaded unchecked and without a note. */
  lemma LoadedWithoutAuthority(steps: seq<Step>, plan: PlanRef)
    ensures var r := Loaded(steps, None, plan);
            && r.Ok? && SameSteps(r.value, steps) && NoNotes(r.value)
            && forall i :: 0 <= i < |steps| ==> !r.value[i].checked
  {
  }

  /** A closure record is scoped to the task of its key, exactly when neither task field contradicts it. */
  lemma ScopedExactly(r: ClosureRecord, task: nat)
    ensures ScopedTask(r) == Some(task) <==>
            && r.keyTask == Some(task)
            && (r.task == Absent || r.task == Number(task)) && (r.taskNumber == Absent || r.taskNumber == Number(task))
  {
  }

  // ---------------------------------------------------------------------------------------
  // The loops that write the steps in place

  method ClearMarkdownState(steps: array<Step>)
    modifies steps
    ensures steps[..] == Cleared(old(steps[..]))
  {
    for i := 0 to steps.Length
      invariant forall k :: 0 <= k < i ==> steps[k] == old(steps[k]).(checked := false, note := None, summary := "")
      invariant forall k :: i <= k < steps.Length ==> steps[k] == old(steps[k])
    {
      steps[i] := steps[i].(checked := false, note := None, summary := "");
    }
  }

  method CheckTask(steps: array<Step>, task: nat)
    modifies steps
    ensures steps[..] == TaskChecked(old(steps[..]), task)
  {
    for i := 0 to steps.Length
      invariant forall k :: 0 <= k < i ==>
                  steps[k] == if old(steps[k]).task == task then old(steps[k]).(checked := true) else old(steps[k])
      invariant forall k :: i <= k < steps.Length ==> steps[k] == old(steps[k])
    {
      if steps[i].task == task {
        steps[i] := steps[i].(checked := true);
      }
    }
  }

  method OverlayClosures(steps: array<Step>, closures: seq<ClosureRecord>)
    modifies steps
    ensures steps[..] == ClosuresApplied(old(steps[..]), closures)
  {
    for i := 0 to |closures|
      invariant steps[..] == ClosuresApplied(old(steps[..]), closures[..i])
    {
      assert closures[..i + 1][..i] == closures[..i];
      var task := ScopedTask(closures[i]);
      if task.Some? {
        CheckTask(steps, task.value);
      }
    }
    assert closures[..|closures|] == closures;
  }

  method FindStep(steps: array<Step>, id: StepId) returns (r: Option<nat>)
    ensures r == FirstIndex(steps[..], id)
  {
    for i := 0 to steps.Length
      invariant forall j :: 0 <= j < i ==> IdOf(steps[j]) != id
    {
      if IdOf(steps[i]) == id {
        ghost var first := FirstIndex(steps[..], id);
        assert first.Some? ==> steps[..][first.value] == steps[first.value];
        assert steps[..][i] == steps[i];
        return Some(i);
      }
    }
    assert forall j :: 0 <= j < |steps[..]| ==> IdOf(steps[..][j]) != id;
    return None;
  }

  method ParseCompleted(entries: seq<CompletedEntry>) returns (r: Outcome<seq<StepId>>)
    ensures r == CompletedIds(entries)
  {
    r := Ok([]);
    for i := 0 to |entries|
      invariant r == CompletedIds(entries[..i])
    {
      assert entries[..i + 1][..i] == entries[..i];
      if r.Ok? {
        var e := entries[i];
        r := if e.task.None? || e.step.None? then Err(MalformedCompleted)
            else Ok(r.value + [(e.task.value, e.step.value)]);
      }
    }
    assert entries[..|entries|] == entries;
  }

  method OverlayCompleted(steps: array<Step>, ids: seq<StepId>) returns (failure: Option<Failure>)
    modifies steps
    ensures CompletedApplied(old(steps[..]), ids) == if failure.Some? then Err(failure.value) else Ok(steps[..])
  {
    for i := 0 to |ids|
      invariant CompletedApplied(old(steps[..]), ids[..i]) == Ok(steps[..])
    {
      assert ids[..i + 1][..i] == ids[..i];
      var at := FindStep(steps, ids[i]);
      if at.None? {
        CompletedStops(old(steps[..]), ids, i + 1);
        return Some(UnknownCompleted);
      }
      steps[at.value] := steps[at.value].(checked := true);
    }
    assert ids[..|ids|] == ids;
    return None;
  }

  lemma {:induction false} CompletedStops(steps: seq<Step>, ids: seq<StepId>, n: nat)
    requires n <= |ids| && CompletedApplied(steps, ids[..n]).Err?
    ensures CompletedApplied(steps, ids) == CompletedApplied(steps, ids[..n])
  {
    if n < |ids| {
      assert ids[..|ids| - 1][..n] == ids[..n];
      CompletedStops(steps, ids[..|ids| - 1], n);
    } else {
      assert ids[..n] == ids;
    }
  }

  method OverlayOpen(steps: array<Step>, a: Authority, plan: PlanRef) returns (failure: Option<Failure>)
    modifies steps
    ensures OpenApplied(old(steps[..]), a, plan) == if failure.Some? then Err(failure.value) else Ok(steps[..])
  {
    if a.openMalformed {
      return Some(OpenUnreadable);
    }
    if a.open.None? || !a.open.value.sharesWorkspace {
      return None;
    }
    var r := a.open.value;
    if plan.modeIsNone && !r.modeIsValid {
      return Some(BadMode);
    }
    if r.planPath != plan.path {
      return Some(WrongPlan);
    }
    if r.planRevision != plan.revision {
      return Some(WrongRevision);
    }
    if r.note.None? {
      return Some(BadNote);
    }
    var at := FindStep(steps, (r.task, r.step));
    if at.None? {
      return Some(UnknownOpen);
    }
    if r.summary == "" {
      return Some(BlankSummary);
    }
    if |r.summary| > MAX_SUMMARY {
      return Some(LongSummary);
    }
    for i := 0 to steps.Length
      invariant forall k :: 0 <= k < i ==> steps[k] == old(steps[k]).(note := None, summary := "")
      invariant forall k :: i <= k < steps.Length ==> steps[k] == old(steps[k])
    {
      steps[i] := steps[i].(note := None, summary := "");
    }
    assert steps[..] == WithoutNotes(old(steps[..]));
    steps[at.value] := steps[at.value].(checked := false, note := r.note, summary := r.summary);
    return None;
  }

  /** Loading as the runtime does it; a failed load is discarded by its caller. */
  method LoadSteps(steps: array<Step>, authority: Option<Authority>, plan: PlanRef) returns (failure: Option<Failure>)
    modifies steps
    ensures Loaded(old(steps[..]), authority, plan) == if failure.Some? then Err(failure.value) else Ok(steps[..])
  {
    ClearMarkdownState(steps);
    if authority.None? {
      return None;
    }
    var a := authority.value;
    OverlayClosures(steps, a.closures);
    if a.completed.Some? {
      var ids := ParseCompleted(a.completed.value);
      if ids.Err? {
        return Some(ids.failure);
      }
      failure := OverlayCompleted(steps, ids.value);
      if failure.Some? {
        return;
      }
    }
    failure := OverlayOpen(steps, a, plan);
  }
}
