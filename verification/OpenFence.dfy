/** A plan whose contract rendering is not stable: a note holds a fence line that nothing closes. */
module OpenFence {
  import opened Lists
  import opened TaskContract
  import opened ContractRender
  import opened NormalForm

  const GOAL := Line(0, Field(Goal, Scalar), "")
  const CONTEXT := Line(0, Field(Context, Exact), "")
  const CONSTRAINTS := Line(0, Field(Constraints, Exact), "")
  const DONE_WHEN := Line(0, Field(DoneWhen, Exact), "")
  const FILES := Line(0, Field(Files, Exact), "")
  const HEADING := Line(0, TaskHeading(Some(1), true), "")
  const NOTE := Line(0, NoteStart, "")
  const OPEN_FENCE := Line(2, Fence, "")

  function Done(number: nat): Line {
    Line(0, Step(true, number, ""), "")
  }

  function Fields(tail: seq<Line>): seq<Line> {
    [GOAL] + ([CONTEXT] + ([CONSTRAINTS] + ([DONE_WHEN] + ([FILES] + tail))))
  }

  lemma {:induction false} NoEntries(body: seq<Line>, f: FieldName, i: nat)
    requires i + 1 < |body| && IsExact(body[i], f) && (forall j :: 0 <= j < i ==> !IsExact(body[j], f))
    requires Starred(body[i + 1]) && !IsExact(body[i + 1], f)
    ensures ListField(body, f)
    decreases i
  {
    var p := (l: Line) => IsExact(l, f);
    assert p(body[i]);
    assert Mentions(body, p);
    if i == 0 {
      assert body[1..][0] == body[1];
      assert EntriesOk(body[1..], f, true);
    } else {
      NoEntries(body[1..], f, i - 1);
    }
  }

  lemma {:induction false} FieldsAreOk(tail: seq<Line>)
    requires forall i :: 0 <= i < |tail| ==> !tail[i].shape.Field? && !tail[i].shape.Legacy?
    ensures FieldsOk(Fields(tail))
  {
    var body := Fields(tail);
    assert body[0] == GOAL && body[1] == CONTEXT && body[2] == CONSTRAINTS && body[3] == DONE_WHEN && body[4] == FILES;
    assert forall i :: 5 <= i < |body| ==> body[i] == tail[i - 5];
    assert FieldsOrdered(body) && !Mentions(body, (l: Line) => l.shape.Legacy?);
    NoEntries(body, Context, 1);
    NoEntries(body, Constraints, 2);
    NoEntries(body, DoneWhen, 3);
    var goal := (l: Line) => IsScalar(l, Goal);
    assert goal(body[0]);
  }

  // One line through the validator, the collector and the renderer

  lemma {:induction false} CheckFirst(c: Check, l: Line, tail: seq<Line>)
    requires CheckLine(c, l).Some?
    ensures StructureOk(c, [l] + tail) == StructureOk(CheckLine(c, l).value, tail)
  {
    assert ([l] + tail)[1..] == tail;
  }

  lemma {:induction false} GatherFirst(g: Gather, l: Line, tail: seq<Line>)
    ensures GatherAll(g, [l] + tail) == GatherAll(GatherLine(g, l), tail)
  {
    assert ([l] + tail)[1..] == tail;
  }

  lemma {:induction false} RunFirst(known: Known, s: State, l: Line, tail: seq<Line>)
    ensures Run(known, s, [l] + tail) ==
            if Dropped(s, l) then Run(known, Next(known, s, l), tail)
                else [Emitted(known, s, l)] + Run(known, Next(known, s, l), tail)
  {
    assert ([l] + tail)[1..] == tail;
  }

  const CHECKED := Check(FilesPart, true, false, false, None, {})
  const GATHERED := Gather(true, false, false, map[])
  const BEGUN := State(Some(1), true, false, false, None)

  lemma {:induction false} ListsCheck(tail: seq<Line>)
    ensures StructureOk(UNCHECKED.(part := List), [CONSTRAINTS] + ([DONE_WHEN] + ([FILES] + tail))) ==
            StructureOk(CHECKED, tail)
  {
    var list := UNCHECKED.(part := List);
    var t4 := [FILES] + tail;
    CheckFirst(list, CONSTRAINTS, [DONE_WHEN] + t4);
    CheckFirst(list, DONE_WHEN, t4);
    CheckFirst(list, FILES, tail);
  }

  lemma {:induction false} FieldsCheck(tail: seq<Line>)
    ensures StructureOk(UNCHECKED, Fields(tail)) == StructureOk(CHECKED, tail)
  {
    var lists := [CONSTRAINTS] + ([DONE_WHEN] + ([FILES] + tail));
    CheckFirst(UNCHECKED, GOAL, [CONTEXT] + lists);
    CheckFirst(UNCHECKED, CONTEXT, lists);
    ListsCheck(tail);
  }

  lemma {:induction false} FieldsGather(tail: seq<Line>)
    ensures GatherAll(NOTHING, Fields(tail)) == GatherAll(GATHERED, tail)
  {
    var t4 := [FILES] + tail;
    var t3 := [DONE_WHEN] + t4;
    var t2 := [CONSTRAINTS] + t3;
    GatherFirst(NOTHING, GOAL, [CONTEXT] + t2);
    GatherFirst(NOTHING, CONTEXT, t2);
    GatherFirst(NOTHING, CONSTRAINTS, t3);
    GatherFirst(NOTHING, DONE_WHEN, t4);
    GatherFirst(NOTHING, FILES, tail);
  }

  lemma {:induction false} ListsRun(known: Known, tail: seq<Line>)
    ensures Run(known, Start(1), [CONSTRAINTS] + ([DONE_WHEN] + ([FILES] + tail)))
         == [CONSTRAINTS] + ([DONE_WHEN] + ([FILES] + Run(known, BEGUN, tail)))
  {
    var t4 := [FILES] + tail;
    RunFirst(known, Start(1), CONSTRAINTS, [DONE_WHEN] + t4);
    RunFirst(known, Start(1), DONE_WHEN, t4);
    RunFirst(known, Start(1), FILES, tail);
  }

  lemma {:induction false} FieldsRun(known: Known, tail: seq<Line>)
    ensures Run(known, Start(1), Fields(tail)) == Fields(Run(known, BEGUN, tail))
  {
    var lists := [CONSTRAINTS] + ([DONE_WHEN] + ([FILES] + tail));
    RunFirst(known, Start(1), GOAL, [CONTEXT] + lists);
    RunFirst(known, Start(1), CONTEXT, lists);
    ListsRun(known, tail);
  }

  lemma {:induction false} OneBlock(body: seq<Line>)
    requires forall i :: 0 <= i < |body| ==> !Head(body[i]) && !Malformed(body[i])
    ensures SplitOk([HEADING] + body) && Blocks([HEADING] + body) == [Block(1, body)]
  {
    var lines := [HEADING] + body;
    assert forall i :: 1 <= i < |lines| ==> lines[i] == body[i - 1];
    assert lines[1..] == body;
    UptoIs(body, |body|);
    assert body[..|body|] == body && body[|body|..] == [];
  }

  ghost predicate StepLines(tail: seq<Line>) {
    forall i :: 0 <= i < |tail| ==> tail[i].shape.Step? || tail[i].shape.NoteStart? || tail[i].shape.Fence?
  }

  lemma {:induction false} BlockKnows(tail: seq<Line>)
    requires StepLines(tail) && StructureOk(CHECKED, tail)
    ensures BlockSteps(Fields(tail)) == GatherAll(GATHERED, tail).steps
  {
    FieldsAreOk(tail);
    FieldsCheck(tail);
    FieldsGather(tail);
  }

  lemma {:induction false} FieldsHeadless(tail: seq<Line>, i: nat)
    requires StepLines(tail) && i < |Fields(tail)|
    ensures !Head(Fields(tail)[i]) && !Malformed(Fields(tail)[i])
  {
    if i >= 5 {
      assert Fields(tail)[i] == tail[i - 5];
    }
  }

  lemma {:induction false} OneBlockKnows(body: seq<Line>)
    requires forall i :: 0 <= i < |body| ==> !Head(body[i]) && !Malformed(body[i])
    ensures KnownSteps([HEADING] + body) == Tagged(1, BlockSteps(body))
  {
    OneBlock(body);
    var blocks := [Block(1, body)];
    assert blocks[..0] == [];
    assert Merged(blocks) == map[] + Tagged(1, BlockSteps(body));
  }

  /** A plan of one task whose block passes the checks. */
  lemma {:induction false} OneBlockRenders(tail: seq<Line>, steps: map<nat, string>)
    requires StepLines(tail) && StructureOk(CHECKED, tail) && GatherAll(GATHERED, tail).steps == steps
    ensures Render([HEADING] + Fields(tail)) == [HEADING] + Fields(Run(Tagged(1, steps), BEGUN, tail))
  {
    var body, known := Fields(tail), Tagged(1, steps);
    BlockKnows(tail);
    forall i: nat | i < |body|
      ensures !Head(body[i]) && !Malformed(body[i])
    {
      FieldsHeadless(tail, i);
    }
    OneBlockKnows(body);
    RunFirst(known, INITIAL, HEADING, body);
    FieldsRun(known, tail);
  }

  lemma TaggedAt(task: nat, steps: map<nat, string>, n: nat)
    ensures ((task, n) in Tagged(task, steps) <==> n in steps)
            && (n in steps ==> Tagged(task, steps)[(task, n)] == steps[n])
  {
  }

  function Before(a: Line, b: Line): seq<Line> {
    [a] + ([b] + [])
  }

  function Noted(a: Line, b: Line): seq<Line> {
    [a] + ([NOTE] + ([OPEN_FENCE] + ([b] + [])))
  }

  predicate FirstSteps(a: Line, b: Line) {
    a.shape.Step? && a.shape.number == 1 && a.shape.title == "" && b.shape.Step? && b.shape.number == 2
        && b.shape.title == ""
  }

  lemma {:induction false} CheckPair(a: Line, b: Line)
    requires FirstSteps(a, b)
    ensures StructureOk(CHECKED, Before(a, b)) && StructureOk(CHECKED, Noted(a, b))
  {
    var c1 := CheckLine(CHECKED, a).value;
    CheckFirst(CHECKED, a, [b] + []);
    CheckFirst(c1, b, []);
    CheckFirst(CHECKED, a, [NOTE] + ([OPEN_FENCE] + ([b] + [])));
    CheckFirst(c1, NOTE, [OPEN_FENCE] + ([b] + []));
    var c2 := c1.(note := Some(0));
    CheckFirst(c2, OPEN_FENCE, [b] + []);
    CheckFirst(c2, b, []);
  }

  lemma {:induction false} GatherPair(a: Line, b: Line)
    requires FirstSteps(a, b)
    ensures GatherAll(GATHERED, Before(a, b)).steps == map[1 := "", 2 := ""]
    ensures GatherAll(GATHERED, Noted(a, b)).steps == map[1 := ""]
  {
    var g1 := GatherLine(GATHERED, a);
    GatherFirst(GATHERED, a, [b] + []);
    GatherFirst(g1, b, []);
    GatherFirst(GATHERED, a, [NOTE] + ([OPEN_FENCE] + ([b] + [])));
    GatherFirst(g1, NOTE, [OPEN_FENCE] + ([b] + []));
    GatherFirst(g1, OPEN_FENCE, [b] + []);
    GatherFirst(g1.(fence := true), b, []);
  }

  lemma {:induction false} RunPair(known: Known, a: Line, b: Line)
    requires FirstSteps(a, b) && Knows(known, Some(1), 1, "") && Knows(known, Some(1), 2, "")
    ensures Run(known, BEGUN, Before(a, b)) == Before(Unmarked(1, ""), Unmarked(2, ""))
  {
    RunFirst(known, BEGUN, a, [b] + []);
    RunFirst(known, Next(known, BEGUN, a), b, []);
  }

  lemma {:induction false} RunNoted(known: Known, a: Line, b: Line)
    requires FirstSteps(a, b) && Knows(known, Some(1), 1, "") && (1, 2) !in known
    ensures Run(known, BEGUN, Noted(a, b)) == Before(Unmarked(1, ""), b)
  {
    var s1 := BEGUN.(pending := true);
    var s2 := BEGUN.(note := Some(0));
    RunFirst(known, BEGUN, a, [NOTE] + ([OPEN_FENCE] + ([b] + [])));
    RunFirst(known, s1, NOTE, [OPEN_FENCE] + ([b] + []));
    RunFirst(known, s2, OPEN_FENCE, [b] + []);
    RunFirst(known, s2, b, []);
  }

  /** The collector takes the fence in the note for the start of fenced detail and misses the second
      step, so that step's mark stays in the first rendering and is taken out by the second. */
  lemma {:induction false} OpenFenceShowsProgress()
    ensures var plan, once, twice := Noted(Done(1), Done(2)), Before(Unmarked(1, ""), Done(2)),
            Before(Unmarked(1, ""), Unmarked(2, ""));
            && Render([HEADING] + Fields(plan)) == [HEADING] + Fields(once)
            && Render([HEADING] + Fields(once)) == [HEADING] + Fields(twice)
            && [HEADING] + Fields(once) != [HEADING] + Fields(twice)
  {
    FirstRendering(Done(1), Done(2));
    SecondRendering(Unmarked(1, ""), Done(2));
    var once, twice := [HEADING] + Fields(Before(Unmarked(1, ""), Done(2))), [HEADING]
        + Fields(Before(Unmarked(1, ""), Unmarked(2, "")));
    assert once[7] == Done(2) && twice[7] == Unmarked(2, "");
  }

  lemma {:induction false} FirstRendering(a: Line, b: Line)
    requires FirstSteps(a, b)
    ensures Render([HEADING] + Fields(Noted(a, b))) == [HEADING] + Fields(Before(Unmarked(1, ""), b))
  {
    var steps := map[1 := ""];
    CheckPair(a, b);
    GatherPair(a, b);
    OneBlockRenders(Noted(a, b), steps);
    TaggedAt(1, steps, 1);
    TaggedAt(1, steps, 2);
    RunNoted(Tagged(1, steps), a, b);
  }

  lemma {:induction false} SecondRendering(a: Line, b: Line)
    requires FirstSteps(a, b)
    ensures Render([HEADING] + Fields(Before(a, b))) == [HEADING] + Fields(Before(Unmarked(1, ""), Unmarked(2, "")))
  {
    var steps := map[1 := "", 2 := ""];
    CheckPair(a, b);
    GatherPair(a, b);
    OneBlockRenders(Before(a, b), steps);
    TaggedAt(1, steps, 1);
    TaggedAt(1, steps, 2);
    RunPair(Tagged(1, steps), a, b);
  }
}
