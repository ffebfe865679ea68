/** Task blocks described line by line: where blocks begin and end, which bodies are well formed, and which
    steps are known, without the machines that decide it. */
module TaskContractLaws {
  import opened Lists
  import opened TaskContract

  // ---------------------------------------------------------------------------------------
  // Lines

  /** A note goes on through blank lines, notes, and deeper lines that are no heading, field or step. */
  lemma ContinuesExactly(indent: nat, l: Line)
    ensures Continues(indent, l) <==>
            match l.shape
            case Blank => true
            case NoteStart => true
            case TaskHeading(_, _) => false
            case Section => false
            case Field(_, _) => false
            case Step(_, _, _) => false
            case _ => l.indent > indent
  {
  }

  /** Field lines by their form: a marker may be indented and padded, a field counts only at the margin, a
      scalar needs a space after its name, and a list field its bare name. */
  lemma FormsExactly(l: Line, f: FieldName)
    ensures Marker(l, f) <==>
            l.shape == Field(f, Exact) || l.shape == Field(f, Padded(true)) || l.shape == Field(f, Padded(false))
    ensures IsScalar(l, f) <==> l.indent == 0 && (l.shape == Field(f, Scalar) || l.shape == Field(f, Padded(true)))
    ensures IsExact(l, f) <==> l.indent == 0 && l.shape == Field(f, Exact)
    ensures IsField(l, f) <==> IsScalar(l, f) || IsExact(l, f)
  {
  }

  /** Headings: at the margin, a second-level heading ends a block and a task heading begins one; a task
      heading without its canonical number, or one level too deep, is malformed. */
  lemma HeadingsExactly(l: Line)
    ensures Head(l) <==> l.indent == 0 && (l.shape.TaskHeading? || l.shape == Section)
    ensures TaskHead(l) <==> l.indent == 0 && l.shape.TaskHeading?
    ensures Malformed(l) <==>
            && l.indent == 0
            && (l.shape == SubTask || (l.shape.TaskHeading? && !(l.shape.canonical && l.shape.task.Some?)))
  {
  }

  /** The lines that begin with two stars. */
  lemma StarredExactly(l: Line)
    ensures Starred(l) <==>
            && l.indent == 0
            && match l.shape
               case Field(_, _) => true
               case NoteStart => true
               case ExecutionMode => true
               case Legacy => true
               case Bold => true
               case _ => false
  {
  }

  /** The order of the fields. */
  lemma OrderExactly()
    ensures Rank(SpecCoverage) < Rank(Goal) < Rank(Context) < Rank(Constraints) < Rank(DoneWhen) < Rank(Files)
  {
  }

  ghost predicate HasLine(body: seq<Line>, shape: Shape) {
    exists i :: 0 <= i < |body| && body[i].indent == 0 && body[i].shape == shape
  }

  /** The fields are in order exactly when there is no legacy field, no field comes twice or too early, there
      is a goal, and the three list fields are there with their entries. */
  lemma {:induction false} FieldsExactly(body: seq<Line>)
    ensures FieldsOk(body) <==>
            && (forall i :: 0 <= i < |body| ==> body[i].shape != Legacy)
            && (forall i, j :: 0 <= i < j < |body| && Named(body[i]) && Named(body[j]) ==>
                  Rank(body[i].shape.name) < Rank(body[j].shape.name))
            && (HasLine(body, Field(Goal, Scalar)) || HasLine(body, Field(Goal, Padded(true))))
            && HasLine(body, Field(Context, Exact)) && EntriesOk(body, Context, false)
            && HasLine(body, Field(Constraints, Exact)) && EntriesOk(body, Constraints, false)
            && HasLine(body, Field(DoneWhen, Exact)) && EntriesOk(body, DoneWhen, false)
  {
    MentionsExact(body, Context);
    MentionsExact(body, Constraints);
    MentionsExact(body, DoneWhen);
    MentionsGoal(body);
  }

  lemma {:induction false} MentionsExact(body: seq<Line>, f: FieldName)
    ensures ListField(body, f) <==> HasLine(body, Field(f, Exact)) && EntriesOk(body, f, false)
  {
    var p := (l: Line) => IsExact(l, f);
    assert Mentions(body, p) <==> HasLine(body, Field(f, Exact)) by {
      assert forall i :: 0 <= i < |body| ==> (p(body[i]) <==> body[i].indent == 0 && body[i].shape == Field(f, Exact));
    }
  }

  lemma {:induction false} MentionsGoal(body: seq<Line>)
    ensures Mentions(body, (l: Line) => IsScalar(l, Goal)) <==>
            HasLine(body, Field(Goal, Scalar)) || HasLine(body, Field(Goal, Padded(true)))
  {
    forall l: Line
      ensures IsScalar(l, Goal) <==>
              l.indent == 0 && (l.shape == Field(Goal, Scalar) || l.shape == Field(Goal, Padded(true)))
    {
      FormsExactly(l, Goal);
    }
  }

  // ---------------------------------------------------------------------------------------
  // Fences and notes

  ghost predicate NoFence(inner: seq<Line>) {
    forall i :: 0 <= i < |inner| ==> !inner[i].shape.Fence?
  }

  /** Inside a fence the validator skips everything up to the closing fence, and does not accept the end. */
  lemma {:induction false} FenceIsSkipped(c: Check, inner: seq<Line>, close: Line, rest: seq<Line>)
    requires c.fence && c.note.None? && NoFence(inner) && close.shape.Fence?
    ensures StructureOk(c, inner + [close] + rest) == StructureOk(c.(fence := false), rest)
    ensures !StructureOk(c, inner)
  {
    var all := inner + [close] + rest;
    if inner == [] {
      assert all[0] == close && all[1..] == rest;
    } else {
      assert all[0] == inner[0] && all[1..] == inner[1..] + [close] + rest;
      assert CheckLine(c, inner[0]) == Some(c);
      FenceIsSkipped(c, inner[1..], close, rest);
    }
  }

  /** A note is skipped as long as it goes on. */
  lemma {:induction false} NoteIsSkipped(c: Check, indent: nat, inner: seq<Line>, rest: seq<Line>)
    requires c.note == Some(indent) && forall i :: 0 <= i < |inner| ==> Continues(indent, inner[i])
    ensures StructureOk(c, inner + rest) == StructureOk(c, rest)
  {
    if inner == [] {
      assert inner + rest == rest;
    } else {
      assert (inner + rest)[0] == inner[0] && (inner + rest)[1..] == inner[1..] + rest;
      assert CheckLine(c, inner[0]) == Some(c);
      NoteIsSkipped(c, indent, inner[1..], rest);
    }
  }

  /** After a step a fence line opens a fence and a note line a note, for the validator. */
  lemma OpensAfterStep(c: Check, l: Line)
    requires c.sawStep && !c.fence && c.note.None?
    ensures l.shape.Fence? ==> CheckLine(c, l) == Some(c.(fence := true))
    ensures l.shape.NoteStart? ==> CheckLine(c, l) == Some(c.(note := Some(l.indent)))
  {
  }

  /** The collector, too, skips what is fenced after a step, and nothing of a note. */
  lemma {:induction false} FenceIsNotGathered(g: Gather, inner: seq<Line>, close: Line, rest: seq<Line>)
    requires g.fence && NoFence(inner) && close.shape.Fence?
    ensures GatherAll(g, inner + [close] + rest) == GatherAll(g.(fence := false), rest)
    ensures GatherAll(g, inner) == g
  {
    var all := inner + [close] + rest;
    if inner == [] {
      assert all[0] == close && all[1..] == rest;
    } else {
      assert all[0] == inner[0] && all[1..] == inner[1..] + [close] + rest;
      FenceIsNotGathered(g, inner[1..], close, rest);
    }
  }

  // ---------------------------------------------------------------------------------------
  // Blocks

  /** Block `k` belongs to the task heading at `h` and holds the lines up to the next second-level heading. */
  ghost predicate IsBlock(lines: seq<Line>, b: Block, h: nat, e: nat) {
    && h < e <= |lines| && TaskHead(lines[h]) && lines[h].shape.task == Some(b.number) && b.body == lines[h + 1..e]
    && NoHeads(lines, h + 1, e) && (e < |lines| ==> Head(lines[e]))
  }

  ghost predicate NoHeads(lines: seq<Line>, from: nat, to: nat)
    requires to <= |lines|
  {
    forall i :: from <= i < to ==> !Head(lines[i])
  }

  lemma {:induction false} UptoEnds(lines: seq<Line>) returns (n: nat)
    ensures n <= |lines| && (forall i :: 0 <= i < n ==> !Head(lines[i])) && (n < |lines| ==> Head(lines[n]))
    ensures Upto(lines) == lines[..n] && Onward(lines) == lines[n..]
  {
    n := 0;
    if lines != [] && !Head(lines[0]) {
      var m := UptoEnds(lines[1..]);
      n := m + 1;
      assert forall i :: 1 <= i < n ==> lines[i] == lines[1..][i - 1];
    }
    UptoIs(lines, n);
  }

  /** The block of the heading at `h`, and what follows it. */
  lemma {:induction false} BlockFrom(lines: seq<Line>, h: nat) returns (e: nat)
    requires h < |lines| && TaskHead(lines[h]) && lines[h].shape.task.Some?
    ensures h < e <= |lines| && IsBlock(lines, Block(lines[h].shape.task.value, lines[h + 1..e]), h, e)
    ensures Blocks(lines[h..]) == [Block(lines[h].shape.task.value, lines[h + 1..e])] + Blocks(lines[e..])
  {
    var rest := lines[h + 1..];
    var m := UptoEnds(rest);
    e := h + 1 + m;
    assert rest[..m] == lines[h + 1..e] && rest[m..] == lines[e..];
    assert forall i :: h < i < |lines| ==> lines[i] == rest[i - h - 1];
    assert lines[h..][0] == lines[h] && lines[h..][1..] == rest;
  }

  lemma {:induction false} BlocksSkipLine(lines: seq<Line>, i: nat)
    requires i < |lines| && !(TaskHead(lines[i]) && lines[i].shape.task.Some?)
    ensures Blocks(lines[i..]) == Blocks(lines[i + 1..])
  {
    assert lines[i..][0] == lines[i] && lines[i..][1..] == lines[i + 1..];
  }

  lemma {:induction false} BlocksFrom(lines: seq<Line>, from: nat, k: nat) returns (h: nat, e: nat)
    requires from <= |lines| && k < |Blocks(lines[from..])|
    ensures IsBlock(lines, Blocks(lines[from..])[k], h, e)
    decreases |lines| - from
  {
    if from < |lines| && TaskHead(lines[from]) && lines[from].shape.task.Some? {
      e := BlockFrom(lines, from);
      h := from;
      if k > 0 {
        h, e := BlocksFrom(lines, e, k - 1);
      }
    } else if from < |lines| {
      BlocksSkipLine(lines, from);
      h, e := BlocksFrom(lines, from + 1, k);
    }
  }

  /** Every block is one. */
  lemma {:induction false} BlocksAreBlocks(lines: seq<Line>, k: nat) returns (h: nat, e: nat)
    requires k < |Blocks(lines)|
    ensures IsBlock(lines, Blocks(lines)[k], h, e)
  {
    assert lines[0..] == lines;
    h, e := BlocksFrom(lines, 0, k);
  }

  lemma {:induction false} HeadingFrom(lines: seq<Line>, from: nat, h: nat) returns (k: nat)
    requires from <= h < |lines| && TaskHead(lines[h]) && lines[h].shape.task.Some?
    ensures k < |Blocks(lines[from..])| && Blocks(lines[from..])[k].number == lines[h].shape.task.value
    decreases |lines| - from
  {
    if TaskHead(lines[from]) && lines[from].shape.task.Some? {
      var e := BlockFrom(lines, from);
      k := 0;
      if h > from {
        var below := HeadingFrom(lines, e, h);
        k := below + 1;
      }
    } else {
      BlocksSkipLine(lines, from);
      k := HeadingFrom(lines, from + 1, h);
    }
  }

  /** And every task heading with a number has one. */
  lemma {:induction false} HeadingsHaveBlocks(lines: seq<Line>, h: nat) returns (k: nat)
    requires h < |lines| && TaskHead(lines[h]) && lines[h].shape.task.Some?
    ensures k < |Blocks(lines)| && Blocks(lines)[k].number == lines[h].shape.task.value
  {
    assert lines[0..] == lines;
    k := HeadingFrom(lines, 0, h);
  }

  // ---------------------------------------------------------------------------------------
  // Entries of a list field

  datatype Entries = Before | Inside | Done

  function EntriesAt(body: seq<Line>, f: FieldName, i: nat): Entries
    requires i <= |body|
  {
    if i == 0 then Before
    else
      var at := EntriesAt(body, f, i - 1);
      if at == Done then Done
      else if IsExact(body[i - 1], f) then Inside
      else if at == Inside && Starred(body[i - 1]) then Done
      else at
  }

  predicate EntryFits(body: seq<Line>, f: FieldName, i: nat)
    requires i < |body|
  {
    var s := body[i].shape;
    EntriesAt(body, f, i) == Inside ==>
      IsExact(body[i], f) || Starred(body[i]) || s.Blank? || s.Dash? || s.Step? || s.BadStep?
  }

  lemma {:induction false} EntriesFrom(body: seq<Line>, f: FieldName, i: nat)
    requires i <= |body| && EntriesAt(body, f, i) != Done
    ensures EntriesOk(body[i..], f, EntriesAt(body, f, i) == Inside) <==>
            forall j :: i <= j < |body| ==> EntryFits(body, f, j)
    decreases |body| - i
  {
    if i < |body| {
      assert body[i..][0] == body[i] && body[i..][1..] == body[i + 1..];
      if EntriesAt(body, f, i + 1) != Done {
        EntriesFrom(body, f, i + 1);
        assert EntriesOk(body[i..], f, EntriesAt(body, f, i) == Inside) <==>
               EntryFits(body, f, i) && EntriesOk(body[i + 1..], f, EntriesAt(body, f, i + 1) == Inside);
      } else {
        DoneStays(body, f, i + 1);
      }
    }
  }

  lemma {:induction false} DoneStays(body: seq<Line>, f: FieldName, i: nat)
    requires i <= |body| && EntriesAt(body, f, i) == Done
    ensures forall j :: i <= j <= |body| ==> EntriesAt(body, f, j) == Done
    decreases |body| - i
  {
    if i < |body| {
      DoneStays(body, f, i + 1);
    }
  }

  /** Between a list field's marker and the next starred line stand only bullets and blank lines. */
  lemma {:induction false} EntriesExactly(body: seq<Line>, f: FieldName)
    ensures EntriesOk(body, f, false) <==> forall i :: 0 <= i < |body| ==> EntryFits(body, f, i)
  {
    assert body[0..] == body;
    EntriesFrom(body, f, 0);
  }

  // ---------------------------------------------------------------------------------------
  // Bodies without notes and fences

  ghost predicate Simple(body: seq<Line>) {
    forall i :: 0 <= i < |body| ==> !body[i].shape.Fence? && !body[i].shape.NoteStart?
  }

  ghost predicate StepBefore(body: seq<Line>, i: nat)
    requires i <= |body|
  {
    exists j :: 0 <= j < i && body[j].shape.Step?
  }

  ghost predicate FilesBefore(body: seq<Line>, i: nat)
    requires i <= |body|
  {
    exists j :: 0 <= j < i && Marker(body[j], Files)
  }

  ghost predicate NumberBefore(body: seq<Line>, i: nat, number: nat)
    requires i <= |body|
  {
    exists j :: 0 <= j < i && body[j].shape.Step? && body[j].shape.number == number
  }

  /** The field that a line opens, if it is a field line the validator knows. */
  predicate Opens(l: Line, f: FieldName) {
    l.shape.Field? && l.shape.name == f && !l.shape.form.Glued?
    && (f == SpecCoverage || f == Goal || !l.shape.form.Scalar?)
  }

  /** The field opened last above. */
  function OpenAt(body: seq<Line>, i: nat): Option<FieldName>
    requires i <= |body|
  {
    if i == 0 then None
    else if body[i - 1].shape.Field? && Opens(body[i - 1], body[i - 1].shape.name) then Some(body[i - 1].shape.name)
    else OpenAt(body, i - 1)
  }

  /** What may stand at a place: steps after the Files marker, with new numbers; after a step nothing but
      steps, blank lines and comments; before it known fields, bullets under the list fields, and anything
      but a malformed step under Files. */
  ghost predicate Fits(body: seq<Line>, i: nat)
    requires i < |body|
  {
    var s, open := body[i].shape, OpenAt(body, i);
    if s.Blank? || s.Comment? then true
    else if s.Step? then FilesBefore(body, i) && !NumberBefore(body, i, s.number)
    else if s.BadStep? || StepBefore(body, i) then false
    else if s.Field? && Opens(body[i], s.name) then true
    else open == Some(Files) || (s.Dash? && open in {Some(Context), Some(Constraints), Some(DoneWhen)})
  }

  ghost predicate CheckedTo(c: Check, body: seq<Line>, i: nat)
    requires i <= |body|
  {
    && c.note.None? && !c.fence && c.sawStep == StepBefore(body, i) && (c.files <==> FilesBefore(body, i))
    && (forall n: nat :: n in c.numbers <==> NumberBefore(body, i, n))
    && (!c.sawStep ==>
          && (c.part == FilesPart <==> OpenAt(body, i) == Some(Files))
          && (c.part == List <==> OpenAt(body, i) in {Some(Context), Some(Constraints), Some(DoneWhen)}))
  }

  lemma {:induction false} BeforeNext(body: seq<Line>, i: nat)
    requires i < |body|
    ensures StepBefore(body, i + 1) <==> StepBefore(body, i) || body[i].shape.Step?
    ensures FilesBefore(body, i + 1) <==> FilesBefore(body, i) || Marker(body[i], Files)
    ensures forall n: nat ::
              NumberBefore(body, i + 1, n) <==>
              NumberBefore(body, i, n) || (body[i].shape.Step? && body[i].shape.number == n)
  {
    forall n: nat
      ensures NumberBefore(body, i + 1, n) <==>
              NumberBefore(body, i, n) || (body[i].shape.Step? && body[i].shape.number == n)
    {
      NumberNext(body, i, n);
    }
  }

  lemma {:induction false} NumberNext(body: seq<Line>, i: nat, n: nat)
    requires i < |body|
    ensures NumberBefore(body, i + 1, n) <==>
            NumberBefore(body, i, n) || (body[i].shape.Step? && body[i].shape.number == n)
  {
    if j :| 0 <= j < i && body[j].shape.Step? && body[j].shape.number == n {
      assert 0 <= j < i + 1;
    }
  }

  lemma {:induction false} CheckFits(c: Check, body: seq<Line>, i: nat)
    requires i < |body| && CheckedTo(c, body, i) && !body[i].shape.Fence? && !body[i].shape.NoteStart?
    ensures CheckLine(c, body[i]).Some? <==> Fits(body, i)
    ensures Fits(body, i) ==> CheckedTo(CheckLine(c, body[i]).value, body, i + 1)
  {
    BeforeNext(body, i);
  }

  lemma {:induction false} StructureFrom(c: Check, body: seq<Line>, i: nat)
    requires Simple(body) && i <= |body| && CheckedTo(c, body, i)
    ensures StructureOk(c, body[i..]) <==> forall j :: i <= j < |body| ==> Fits(body, j)
    decreases |body| - i
  {
    if i < |body| {
      CheckFits(c, body, i);
      assert body[i..][1..] == body[i + 1..];
      if Fits(body, i) {
        StructureFrom(CheckLine(c, body[i]).value, body, i + 1);
      }
    }
  }

  /** A body without notes and fences is well structured exactly when each line fits its place. */
  lemma {:induction false} StructureExactly(body: seq<Line>)
    requires Simple(body)
    ensures StructureOk(UNCHECKED, body) <==> forall i :: 0 <= i < |body| ==> Fits(body, i)
  {
    assert body[0..] == body;
    StructureFrom(UNCHECKED, body, 0);
  }

  ghost predicate GatheredTo(g: Gather, body: seq<Line>, i: nat)
    requires i <= |body|
  {
    && !g.fence && (g.files <==> FilesBefore(body, i))
    && (forall n :: n in g.steps ==> exists j: nat :: LastTitle(body, i, n, j) && body[j].shape.title == g.steps[n])
    && (forall n: nat :: n !in g.steps ==> forall j :: 0 <= j < i ==> !Gathers(body, j, n))
  }

  /** Line `j` is a step of that number after the Files marker. */
  ghost predicate Gathers(body: seq<Line>, j: nat, n: nat)
    requires j < |body|
  {
    body[j].shape.Step? && body[j].shape.number == n && FilesBefore(body, j)
  }

  ghost predicate LastTitle(body: seq<Line>, i: nat, n: nat, j: nat)
    requires i <= |body|
  {
    j < i && Gathers(body, j, n) && forall k :: j < k < i ==> !Gathers(body, k, n)
  }

  lemma {:induction false} GatherStep(g: Gather, body: seq<Line>, i: nat)
    requires i < |body| && GatheredTo(g, body, i) && !body[i].shape.Fence?
    ensures GatheredTo(GatherLine(g, body[i]), body, i + 1)
  {
    BeforeNext(body, i);
    var next := GatherLine(g, body[i]);
    forall n | n in next.steps
      ensures exists j: nat :: LastTitle(body, i + 1, n, j) && body[j].shape.title == next.steps[n]
    {
      if Gathers(body, i, n) {
        assert LastTitle(body, i + 1, n, i);
      } else {
        var j: nat :| LastTitle(body, i, n, j) && body[j].shape.title == g.steps[n];
        assert LastTitle(body, i + 1, n, j);
      }
    }
  }

  lemma {:induction false} GatherFrom(g: Gather, body: seq<Line>, i: nat)
    requires Simple(body) && i <= |body| && GatheredTo(g, body, i)
    ensures GatheredTo(GatherAll(g, body[i..]), body, |body|)
    decreases |body| - i
  {
    if i < |body| {
      GatherStep(g, body, i);
      assert body[i..][1..] == body[i + 1..];
      GatherFrom(GatherLine(g, body[i]), body, i + 1);
    }
  }

  /** In a body without notes and fences the known title of a step number is that of its last line after the
      Files marker, and a number without such a line is not known. */
  lemma {:induction false} GatheredExactly(body: seq<Line>)
    requires Simple(body)
    ensures GatheredTo(GatherAll(NOTHING, body), body, |body|)
  {
    assert body[0..] == body;
    GatherFrom(NOTHING, body, 0);
  }

  lemma {:induction false} NumbersAreUnique(body: seq<Line>, i: nat, j: nat)
    requires i < |body| && j < |body| && body[i].shape.Step? && body[j].shape.Step? && Fits(body, i) && Fits(body, j)
    ensures body[i].shape.number == body[j].shape.number ==> i == j
  {
    assert i < j ==> NumberBefore(body, j, body[i].shape.number);
    assert j < i ==> NumberBefore(body, i, body[j].shape.number);
  }

  lemma {:induction false} KnownTitle(g: Gather, body: seq<Line>, i: nat) returns (j: nat)
    requires GatheredTo(g, body, |body|) && i < |body| && body[i].shape.Step? && FilesBefore(body, i)
    ensures j < |body| && body[j].shape.Step? && body[j].shape.number == body[i].shape.number
    ensures body[i].shape.number in g.steps && g.steps[body[i].shape.number] == body[j].shape.title
  {
    var n := body[i].shape.number;
    assert Gathers(body, i, n);
    j :| LastTitle(body, |body|, n, j) && body[j].shape.title == g.steps[n];
  }

  /** So every step of a valid body without notes and fences is known by its own title. */
  lemma {:induction false} ValidStepsAreKnown(body: seq<Line>, i: nat)
    requires Simple(body) && Valid(body) && i < |body| && body[i].shape.Step?
    ensures body[i].shape.number in BlockSteps(body) && BlockSteps(body)[body[i].shape.number] == body[i].shape.title
  {
    StructureExactly(body);
    GatheredExactly(body);
    assert Fits(body, i);
    var j := KnownTitle(GatherAll(NOTHING, body), body, i);
    assert Fits(body, j);
    NumbersAreUnique(body, i, j);
  }
}
