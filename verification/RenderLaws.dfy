/** What a contract rendering must show: which lines it keeps, in which form, and which it leaves out. */
module RenderLaws {
  import opened Lists
  import opened TaskContract
  import opened ContractRender
  import opened NormalForm
  import opened TaskContractLaws

  const MODE_LINE := Line(0, ExecutionMode, "none")

  /** A line as it may be shown: as it is, as the mode line, or as the unmarked spelling of its step. */
  predicate ShownAs(l: Line, e: Line) {
    || e == l
    || (l.shape.ExecutionMode? && l.indent == 0 && e == MODE_LINE)
    || (l.shape.Step? && e == Line(0, Step(false, l.shape.number, l.shape.title), ""))
  }

  // ---------------------------------------------------------------------------------------
  // Every plan

  /** After anything, after a step whose mark was taken out, or inside the note of one. */
  datatype Place = Anywhere | AfterStep | InNote(indent: nat)

  predicate LeftOut(at: Place, l: Line) {
    match at
    case Anywhere => false
    case AfterStep => l.shape.Blank? || l.shape.NoteStart?
    case InNote(indent) => Continues(indent, l)
  }

  function AfterLeftOut(at: Place, l: Line): Place {
    if at.AfterStep? && l.shape.NoteStart? then InNote(l.indent) else at
  }

  /** `shown` is `lines` in order: only blank lines after an unmarked step, and its note, are left out, these
      always are, and every other line is shown. */
  ghost predicate Shows(at: Place, lines: seq<Line>, shown: seq<Line>)
    decreases lines
  {
    if lines == [] then shown == []
    else if LeftOut(at, lines[0]) then Shows(AfterLeftOut(at, lines[0]), lines[1..], shown)
    else
      && shown != [] && ShownAs(lines[0], shown[0])
      && (Shows(Anywhere, lines[1..], shown[1..])
          || (lines[0].shape.Step? && shown[0] == Unmarked(lines[0].shape.number, lines[0].shape.title)
              && Shows(AfterStep, lines[1..], shown[1..])))
  }

  predicate At(s: State, at: Place) {
    match at
    case Anywhere => !s.pending && s.note.None?
    case AfterStep => s.pending && s.note.None?
    case InNote(indent) => !s.pending && s.note == Some(indent)
  }

  lemma {:induction false} LeftOutIsDropped(s: State, at: Place, l: Line)
    requires At(s, at)
    ensures LeftOut(at, l) <==> Dropped(s, l)
    ensures Dropped(s, l) ==> At(AfterDropped(s, l), AfterLeftOut(at, l))
  {
  }

  lemma {:induction false} EmittedIsShown(known: Known, s: State, l: Line)
    requires !Dropped(s, l)
    ensures ShownAs(l, Emitted(known, s, l))
    ensures var next := AfterEmitted(known, s, l);
            && At(next, if Normalised(known, s, l) then AfterStep else Anywhere)
            && (Normalised(known, s, l) ==> Emitted(known, s, l) == Unmarked(l.shape.number, l.shape.title))
  {
  }

  lemma {:induction false} RunShows(known: Known, s: State, at: Place, lines: seq<Line>)
    requires At(s, at)
    ensures Shows(at, lines, Run(known, s, lines))
    decreases lines
  {
    if lines != [] {
      var l, rest := lines[0], lines[1..];
      LeftOutIsDropped(s, at, l);
      if Dropped(s, l) {
        RunShows(known, AfterDropped(s, l), AfterLeftOut(at, l), rest);
      } else {
        EmittedIsShown(known, s, l);
        var run, after := Run(known, s, lines), AfterEmitted(known, s, l);
        assert run[0] == Emitted(known, s, l) && run[1..] == Run(known, after, rest);
        RunShows(known, after, if Normalised(known, s, l) then AfterStep else Anywhere, rest);
      }
    }
  }

  /** Every rendering shows its plan. */
  lemma {:induction false} RenderShows(lines: seq<Line>)
    ensures Shows(Anywhere, lines, Render(lines))
  {
    RunShows(KnownSteps(lines), INITIAL, Anywhere, lines);
  }

  lemma {:induction false} ShownIsFromPlan(at: Place, lines: seq<Line>, shown: seq<Line>, j: nat)
    requires Shows(at, lines, shown) && j < |shown|
    ensures exists i :: 0 <= i < |lines| && ShownAs(lines[i], shown[j])
    decreases lines
  {
    if lines != [] {
      if LeftOut(at, lines[0]) {
        ShownIsFromPlan(AfterLeftOut(at, lines[0]), lines[1..], shown, j);
        var i :| 0 <= i < |lines[1..]| && ShownAs(lines[1..][i], shown[j]);
        assert ShownAs(lines[i + 1], shown[j]);
      } else if j == 0 {
        assert ShownAs(lines[0], shown[0]);
      } else {
        var next := if Shows(Anywhere, lines[1..], shown[1..]) then Anywhere else AfterStep;
        ShownIsFromPlan(next, lines[1..], shown[1..], j - 1);
        var i :| 0 <= i < |lines[1..]| && ShownAs(lines[1..][i], shown[1..][j - 1]);
        assert ShownAs(lines[i + 1], shown[j]);
      }
    }
  }

  /** Every line of a rendering is a line of the plan, the mode line of one, or the unmarked spelling of a step. */
  lemma {:induction false} RenderedLineIsFromPlan(lines: seq<Line>, j: nat)
    requires j < |Render(lines)|
    ensures exists i :: 0 <= i < |lines| && ShownAs(lines[i], Render(lines)[j])
  {
    RenderShows(lines);
    ShownIsFromPlan(Anywhere, lines, Render(lines), j);
  }

  // ---------------------------------------------------------------------------------------
  // Plans in which nothing can be left out: line by line

  /** The task of the last second-level heading above, if that is a task heading. */
  function TaskAt(lines: seq<Line>, i: nat): Option<nat>
    requires i <= |lines|
  {
    if i == 0 then None
    else if Head(lines[i - 1]) then (if lines[i - 1].shape.TaskHeading? then lines[i - 1].shape.task else None)
    else TaskAt(lines, i - 1)
  }

  /** A Files marker stands above, below that heading. */
  predicate FilesAt(lines: seq<Line>, i: nat)
    requires i <= |lines|
  {
    i > 0 && !Head(lines[i - 1]) && (Marker(lines[i - 1], Files) || FilesAt(lines, i - 1))
  }

  /** An odd number of fences stands above, below that heading. */
  predicate FencedAt(lines: seq<Line>, i: nat)
    requires i <= |lines|
  {
    i > 0 && !Head(lines[i - 1]) && (FencedAt(lines, i - 1) != lines[i - 1].shape.Fence?)
  }

  /** A known step of its task, after the Files marker and outside fences, loses its mark. */
  predicate LosesMark(known: Known, lines: seq<Line>, i: nat)
    requires i < |lines|
  {
    var l, task := lines[i], TaskAt(lines, i);
    && l.shape.Step? && !FencedAt(lines, i) && FilesAt(lines, i)
    && task.Some? && (task.value, l.shape.number) in known && known[(task.value, l.shape.number)] == l.shape.title
  }

  function LineShown(known: Known, lines: seq<Line>, i: nat): Line
    requires i < |lines|
  {
    var l := lines[i];
    if l.shape.ExecutionMode? && l.indent == 0 then MODE_LINE
    else if LosesMark(known, lines, i) then Line(0, Step(false, l.shape.number, l.shape.title), "")
    else l
  }

  ghost predicate Plain(lines: seq<Line>) {
    forall i :: 0 <= i < |lines| ==> !lines[i].shape.Blank? && !lines[i].shape.NoteStart?
  }

  ghost predicate StateAt(s: State, lines: seq<Line>, i: nat)
    requires i <= |lines|
  {
    s.task == TaskAt(lines, i) && s.files == FilesAt(lines, i) && s.fence == FencedAt(lines, i) && s.note.None?
  }

  lemma {:induction false} PlainStep(known: Known, s: State, lines: seq<Line>, i: nat)
    requires i < |lines| && StateAt(s, lines, i) && !lines[i].shape.Blank? && !lines[i].shape.NoteStart?
    ensures !Dropped(s, lines[i]) && Emitted(known, s, lines[i]) == LineShown(known, lines, i)
    ensures StateAt(Next(known, s, lines[i]), lines, i + 1)
  {
  }

  lemma {:induction false} PlainRun(known: Known, s: State, lines: seq<Line>, i: nat)
    requires Plain(lines) && i <= |lines| && StateAt(s, lines, i)
    ensures |Run(known, s, lines[i..])| == |lines| - i
    ensures forall j :: i <= j < |lines| ==> Run(known, s, lines[i..])[j - i] == LineShown(known, lines, j)
    decreases |lines| - i
  {
    if i < |lines| {
      PlainStep(known, s, lines, i);
      var next := Next(known, s, lines[i]);
      PlainRun(known, next, lines, i + 1);
      var run, rest := Run(known, s, lines[i..]), Run(known, next, lines[i + 1..]);
      assert lines[i..][1..] == lines[i + 1..];
      assert run == [LineShown(known, lines, i)] + rest;
      forall j | i <= j < |lines|
        ensures run[j - i] == LineShown(known, lines, j)
      {
        if j > i {
          assert run[j - i] == rest[j - i - 1];
        }
      }
    }
  }

  /** A plan without blank lines and notes is rendered line by line: mode lines lose their value, known steps
      after the Files marker and outside fences lose their mark, and every other line stays as it is. */
  lemma {:induction false} PlainRendering(lines: seq<Line>)
    requires Plain(lines)
    ensures |Render(lines)| == |lines|
    ensures forall i :: 0 <= i < |lines| ==> Render(lines)[i] == LineShown(KnownSteps(lines), lines, i)
  {
    assert lines[0..] == lines;
    PlainRun(KnownSteps(lines), INITIAL, lines, 0);
  }

  lemma {:induction false} InBlock(lines: seq<Line>, h: nat, i: nat)
    requires h < i <= |lines| && TaskHead(lines[h]) && NoHeads(lines, h + 1, i)
    ensures TaskAt(lines, i) == lines[h].shape.task
    ensures FilesAt(lines, i) <==> exists j :: h < j < i && Marker(lines[j], Files)
    ensures (forall j :: h < j < i ==> !lines[j].shape.Fence?) ==> !FencedAt(lines, i)
  {
    if i > h + 1 {
      InBlock(lines, h, i - 1);
    }
  }

  lemma {:induction false} KnownInBlock(lines: seq<Line>, k: nat, body: seq<Line>, i: nat)
    requires SplitOk(lines) && k < |Blocks(lines)| && Blocks(lines)[k].body == body && Valid(body) && Simple(body)
    requires i < |body| && body[i].shape.Step?
    ensures var id := (Blocks(lines)[k].number, body[i].shape.number);
            id in KnownSteps(lines) && KnownSteps(lines)[id] == body[i].shape.title
  {
    BlocksDistinct(lines);
    ValidStepsAreKnown(body, i);
    MergedMeaning(Blocks(lines), k, body[i].shape.number);
  }

  lemma {:induction false} FilesAbove(body: seq<Line>, i: nat)
    requires Valid(body) && Simple(body) && i < |body| && body[i].shape.Step?
    ensures FilesBefore(body, i)
  {
    StructureExactly(body);
    assert Fits(body, i);
  }

  lemma {:induction false} FilesInBlock(lines: seq<Line>, b: Block, h: nat, e: nat, i: nat)
    requires IsBlock(lines, b, h, e) && Valid(b.body) && Simple(b.body) && h < i < e && b.body[i - h - 1].shape.Step?
    ensures exists j :: h < j < i && Marker(lines[j], Files)
  {
    FilesAbove(b.body, i - h - 1);
    var f :| 0 <= f < i - h - 1 && Marker(b.body[f], Files);
    assert lines[h + 1 + f] == b.body[f];
  }

  /** In a plan without blank lines, notes and fences every step of a valid block loses its mark. */
  lemma {:induction false} StepsLoseTheirMarks(lines: seq<Line>, k: nat, h: nat, e: nat, i: nat)
    requires Plain(lines) && SplitOk(lines) && forall j :: 0 <= j < |lines| ==> !lines[j].shape.Fence?
    requires k < |Blocks(lines)| && IsBlock(lines, Blocks(lines)[k], h, e) && Valid(Blocks(lines)[k].body)
    requires h < i < e && lines[i].shape.Step?
    ensures i < |Render(lines)|
    ensures Render(lines)[i] == Line(0, Step(false, lines[i].shape.number, lines[i].shape.title), "")
  {
    PlainRendering(lines);
    assert LosesMark(KnownSteps(lines), lines, i) by {
      var b := Blocks(lines)[k];
      SimpleBody(lines, b, h, e);
      assert b.body[i - h - 1] == lines[i];
      FilesInBlock(lines, b, h, e, i);
      InBlock(lines, h, i);
      KnownInBlock(lines, k, b.body, i - h - 1);
    }
  }

  lemma {:induction false} SimpleBody(lines: seq<Line>, b: Block, h: nat, e: nat)
    requires IsBlock(lines, b, h, e) && Plain(lines) && forall j :: 0 <= j < |lines| ==> !lines[j].shape.Fence?
    ensures Simple(b.body)
  {
    assert forall j :: 0 <= j < |b.body| ==> b.body[j] == lines[h + 1 + j];
  }

  // ---------------------------------------------------------------------------------------
  // What shows

  lemma {:induction false} EqualRunsAreTwins(known: Known, s: State, xs: seq<Line>, ys: seq<Line>)
    requires Alike(xs, ys) && Run(known, s, xs) == Run(known, s, ys)
    ensures Twins(known, s, xs, ys)
    decreases xs
  {
    if xs != [] {
      var x, y := xs[0], ys[0];
      assert AlikeLine(x, y);
      assert Dropped(s, x) == Dropped(s, y) && Next(known, s, x) == Next(known, s, y);
      var next := Next(known, s, x);
      if !Dropped(s, x) {
        var rx, ry := Run(known, next, xs[1..]), Run(known, next, ys[1..]);
        assert [Emitted(known, s, x)] + rx == [Emitted(known, s, y)] + ry;
        ConsEqual(Emitted(known, s, x), rx, Emitted(known, s, y), ry);
      }
      EqualRunsAreTwins(known, next, xs[1..], ys[1..]);
    }
  }

  lemma {:induction false} ConsEqual(a: Line, xs: seq<Line>, b: Line, ys: seq<Line>)
    requires [a] + xs == [b] + ys
    ensures a == b && xs == ys
  {
    assert a == ([a] + xs)[0] && b == ([b] + ys)[0];
    assert xs == ([a] + xs)[1..] && ys == ([b] + ys)[1..];
  }

  /** Two plans of the same shapes have one rendering exactly when they differ in nothing but marks and spelling
      of normalised steps, mode values and lines that are left out. */
  lemma {:induction false} ShowsExactly(xs: seq<Line>, ys: seq<Line>)
    requires Alike(xs, ys)
    ensures Render(xs) == Render(ys) <==> Twins(KnownSteps(xs), INITIAL, xs, ys)
  {
    if Render(xs) == Render(ys) {
      KnownAlike(xs, ys);
      EqualRunsAreTwins(KnownSteps(xs), INITIAL, xs, ys);
    }
    if Twins(KnownSteps(xs), INITIAL, xs, ys) {
      ProgressDoesNotShow(xs, ys);
    }
  }
}
