/** Task blocks of an approved plan: how a plan is split into them, when a block is well formed, and
    which steps of it the runtime knows. Lines are tokens; their order and indentation are the subject. */
module TaskContract {
  import opened Lists

  datatype FieldName = SpecCoverage | Goal | Context | Constraints | DoneWhen | Files

  /** What follows a field's bold name: nothing, only white space, a space and text, or text at once. */
  datatype Form = Exact | Padded(bySpace: bool) | Scalar | Glued

  /** A line by what follows its indentation. A task heading is canonical when `N: ` follows `Task`. */
  datatype Shape =
    | Blank
    | TaskHeading(task: Option<nat>, canonical: bool)
    | Section
    | SubTask
    | Step(checked: bool, number: nat, title: string)
    | BadStep
    | NoteStart
    | Fence
    | ExecutionMode
    | Field(name: FieldName, form: Form)
    | Legacy
    | Comment
    | Dash
    | Bold
    | Other

  /** `text` is what the shape does not say; it is empty for a step written in the canonical spelling,
      and the value for an execution mode line. */
  datatype Line = Line(indent: nat, shape: Shape, text: string)

  predicate Head(l: Line) {
    l.indent == 0 && (l.shape.TaskHeading? || l.shape.Section?)
  }

  predicate TaskHead(l: Line) {
    l.indent == 0 && l.shape.TaskHeading?
  }

  predicate Marker(l: Line, f: FieldName) {
    l.shape.Field? && l.shape.name == f && (l.shape.form.Exact? || l.shape.form.Padded?)
  }

  // ---------------------------------------------------------------------------------------
  // Splitting

  datatype Block = Block(number: nat, body: seq<Line>)

  /** The lines before the next second-level heading, and the lines from it on. */
  function Upto(lines: seq<Line>): (r: seq<Line>)
    ensures |r| <= |lines|
  {
    if lines == [] || Head(lines[0]) then [] else [lines[0]] + Upto(lines[1..])
  }

  function Onward(lines: seq<Line>): (r: seq<Line>)
    ensures |r| <= |lines|
  {
    if lines == [] || Head(lines[0]) then lines else Onward(lines[1..])
  }

  predicate Malformed(l: Line) {
    l.indent == 0 && (l.shape.SubTask? || (l.shape.TaskHeading? && (!l.shape.canonical || l.shape.task.None?)))
  }

  ghost predicate SplitOk(lines: seq<Line>) {
    SplitOkTo(lines, |lines|)
  }

  /** No heading before `n` is malformed and none repeats a task number. */
  ghost predicate SplitOkTo(lines: seq<Line>, n: nat)
    requires n <= |lines|
  {
    && (forall i :: 0 <= i < n ==> !Malformed(lines[i]))
    && (forall i, j :: 0 <= i < j < n && TaskHead(lines[i]) && TaskHead(lines[j]) ==>
        lines[i].shape.task != lines[j].shape.task)
  }

  ghost predicate HasTask(lines: seq<Line>, n: nat, task: Option<nat>)
    requires n <= |lines|
  {
    exists i :: 0 <= i < n && TaskHead(lines[i]) && lines[i].shape.task == task
  }

  function Blocks(lines: seq<Line>): seq<Block>
    decreases |lines|
  {
    if lines == [] then []
    else if TaskHead(lines[0]) && lines[0].shape.task.Some? then
      [Block(lines[0].shape.task.value, Upto(lines[1..]))] + Blocks(Onward(lines[1..]))
    else Blocks(lines[1..])
  }

  lemma {:induction false} UptoIs(lines: seq<Line>, n: nat)
    requires n <= |lines| && (forall i :: 0 <= i < n ==> !Head(lines[i])) && (n < |lines| ==> Head(lines[n]))
    ensures Upto(lines) == lines[..n] && Onward(lines) == lines[n..]
  {
    if n == 0 {
      assert lines[..0] == [] && lines[0..] == lines;
    } else {
      var rest := lines[1..];
      assert !Head(lines[0]);
      assert forall i :: 0 <= i < n - 1 ==> rest[i] == lines[i + 1];
      assert n < |lines| ==> rest[n - 1] == lines[n];
      UptoIs(rest, n - 1);
      assert lines[..n] == [lines[0]] + rest[..n - 1];
      assert rest[n - 1..] == lines[n..];
    }
  }

  /** The block of the heading before `start`, and the index of the next heading. */
  method ReadBlock(lines: seq<Line>, start: nat) returns (ok: bool, next: nat)
    requires start <= |lines|
    ensures start <= next <= |lines|
    ensures ok <==> forall i :: start <= i < next ==> !Malformed(lines[i])
    ensures forall i :: start <= i < next ==> !Head(lines[i])
    ensures ok ==> Upto(lines[start..]) == lines[start..next] && Onward(lines[start..]) == lines[next..]
  {
    next := start;
    while next < |lines| && !Head(lines[next])
      invariant start <= next <= |lines|
      invariant forall i :: start <= i < next ==> !Head(lines[i]) && !Malformed(lines[i])
    {
      if Malformed(lines[next]) {
        next := next + 1;
        return false, next;
      }
      next := next + 1;
    }
    UptoIs(lines[start..], next - start);
    assert lines[start..][..next - start] == lines[start..next] && lines[start..][next - start..] == lines[next..];
    ok := true;
  }

  /** One heading, or one line outside blocks, and the lines up to `next` that hold no heading. */
  lemma SplitExtends(lines: seq<Line>, index: nat, next: nat)
    requires index < next <= |lines| && SplitOkTo(lines, index)
    requires forall i :: index <= i < next ==> !Malformed(lines[i])
    requires forall i :: index < i < next ==> !TaskHead(lines[i])
    requires TaskHead(lines[index]) ==> !HasTask(lines, index, lines[index].shape.task)
    ensures SplitOkTo(lines, next)
    ensures forall t :: HasTask(lines, next, t) <==>
            HasTask(lines, index, t) || (TaskHead(lines[index]) && lines[index].shape.task == t)
  {
    forall i, j | 0 <= i < j < next && TaskHead(lines[i]) && TaskHead(lines[j])
      ensures lines[i].shape.task != lines[j].shape.task
    {
      assert j < index || (j == index && !HasTask(lines, index, lines[index].shape.task));
    }
  }

  lemma BlocksNext(lines: seq<Line>, index: nat, next: nat, blocks: seq<Block>)
    requires index < next <= |lines| && TaskHead(lines[index]) && lines[index].shape.task.Some?
    requires Upto(lines[index + 1..]) == lines[index + 1..next] && Onward(lines[index + 1..]) == lines[next..]
    ensures blocks + Blocks(lines[index..]) ==
            (blocks + [Block(lines[index].shape.task.value, lines[index + 1..next])]) + Blocks(lines[next..])
  {
    assert lines[index..][1..] == lines[index + 1..];
  }

  /** Splitting succeeds exactly when no heading is malformed and no task number repeats. */
  method SplitTaskBlocks(lines: seq<Line>) returns (r: Option<seq<Block>>)
    ensures r.Some? <==> SplitOk(lines)
    ensures r.Some? ==> r.value == Blocks(lines)
  {
    var blocks: seq<Block> := [];
    var seen: set<nat> := {};
    var index := 0;
    ghost var whole := Blocks(lines);
    assert lines[0..] == lines;
    while index < |lines|
      invariant 0 <= index <= |lines|
      invariant SplitOkTo(lines, index)
      invariant forall n: nat :: n in seen <==> HasTask(lines, index, Some(n))
      invariant whole == blocks + Blocks(lines[index..])
    {
      var line := lines[index];
      if Malformed(line) {
        return None;
      }
      if !TaskHead(line) {
        assert lines[index..][1..] == lines[index + 1..];
        SplitExtends(lines, index, index + 1);
        index := index + 1;
        continue;
      }
      var number := line.shape.task.value;
      if number in seen {
        assert HasTask(lines, index, Some(number));
        return None;
      }
      var ok, next := ReadBlock(lines, index + 1);
      if !ok {
        return None;
      }
      SplitExtends(lines, index, next);
      BlocksNext(lines, index, next, blocks);
      seen := seen + {number};
      blocks := blocks + [Block(number, lines[index + 1..next])];
      index := next;
    }
    r := Some(blocks);
  }

  // ---------------------------------------------------------------------------------------
  // Execution notes

  predicate Boundary(l: Line) {
    l.shape.TaskHeading? || l.shape.Section? || l.shape.Field? || l.shape.Step?
  }

  /** A note that starts at `indent` swallows blank lines, further notes and anything indented deeper,
      up to a boundary. */
  predicate Continues(indent: nat, l: Line) {
    l.shape.Blank? || l.shape.NoteStart? || (!Boundary(l) && l.indent > indent)
  }

  // ---------------------------------------------------------------------------------------
  // The fields of a block

  const FIELD_ORDER := [SpecCoverage, Goal, Context, Constraints, DoneWhen, Files]

  predicate Named(l: Line) {
    l.indent == 0 && l.shape.Field? && (l.shape.form.Exact? || l.shape.form == Padded(true) || l.shape.form.Scalar?)
  }

  predicate IsField(l: Line, f: FieldName) {
    Named(l) && l.shape.name == f
  }

  predicate IsScalar(l: Line, f: FieldName) {
    IsField(l, f) && !l.shape.form.Exact?
  }

  predicate IsExact(l: Line, f: FieldName) {
    IsField(l, f) && l.shape.form.Exact?
  }

  function Rank(f: FieldName): nat {
    match f
    case SpecCoverage => 0
    case Goal => 1
    case Context => 2
    case Constraints => 3
    case DoneWhen => 4
    case Files => 5
  }

  /** Each field at most once, and the fields that are present in their fixed order. */
  predicate FieldsOrdered(body: seq<Line>) {
    forall i, j :: 0 <= i < j < |body| && Named(body[i]) && Named(body[j]) ==>
        Rank(body[i].shape.name) < Rank(body[j].shape.name)
  }

  predicate Mentions(body: seq<Line>, p: Line -> bool) {
    exists i :: 0 <= i < |body| && p(body[i])
  }

  /** Whether a line begins with two stars, which ends a list of entries. */
  predicate Starred(l: Line) {
    l.indent == 0 && (l.shape.Field? || l.shape.NoteStart? || l.shape.ExecutionMode? || l.shape.Legacy?
        || l.shape.Bold?)
  }

  predicate EntriesOk(body: seq<Line>, f: FieldName, collecting: bool) {
    if body == [] then true
    else if IsExact(body[0], f) then EntriesOk(body[1..], f, true)
    else if !collecting then EntriesOk(body[1..], f, false)
    else if Starred(body[0]) then true
    else
      var s := body[0].shape;
      (s.Blank? || s.Dash? || s.Step? || s.BadStep?) && EntriesOk(body[1..], f, true)
  }

  predicate ListField(body: seq<Line>, f: FieldName) {
    Mentions(body, (l: Line) => IsExact(l, f)) && EntriesOk(body, f, false)
  }

  predicate FieldsOk(body: seq<Line>) {
    && !Mentions(body, (l: Line) => l.shape.Legacy?)
    && FieldsOrdered(body)
    && Mentions(body, (l: Line) => IsScalar(l, Goal))
    && ListField(body, Context) && ListField(body, Constraints) && ListField(body, DoneWhen)
  }

  // ---------------------------------------------------------------------------------------
  // The structure of a block

  datatype Part = NoPart | List | FilesPart | Steps

  datatype Check = Check(part: Part, files: bool, sawStep: bool, fence: bool, note: Option<nat>, numbers: set<nat>)

  const UNCHECKED := Check(NoPart, false, false, false, None, {})

  function CheckShape(c: Check, s: Shape): Option<Check> {
    match s
    case Step(_, number, _) =>
      if !c.files || number in c.numbers then None
          else Some(c.(sawStep := true, part := Steps, numbers := c.numbers + {number}))
    case BadStep => None
    case Field(name, form) =>
      if c.sawStep then None
      else if (name.SpecCoverage? || name.Goal?) && !form.Glued? then Some(c.(part := NoPart))
      else if (name.Context? || name.Constraints? || name.DoneWhen?)
          && (form.Exact? || form.Padded?) then Some(c.(part := List))
      else if name.Files? && (form.Exact? || form.Padded?) then Some(c.(files := true, part := FilesPart))
      else if c.part.FilesPart? then Some(c)
      else None
    case _ =>
      if !c.sawStep && (c.part.FilesPart? || (c.part.List? && s.Dash?)) then Some(c) else None
  }

  function CheckLine(c: Check, l: Line): Option<Check> {
    if l.shape.Blank? then Some(c)
    else if c.note.Some? && Continues(c.note.value, l) then Some(c)
    else
      var c := c.(note := None);
      if c.fence then Some(c.(fence := !l.shape.Fence?))
      else if c.sawStep && l.shape.Fence? then Some(c.(fence := true))
      else if l.shape.Comment? then Some(c)
      else if c.sawStep && l.shape.NoteStart? then Some(c.(note := Some(l.indent)))
      else CheckShape(c, l.shape)
  }

  predicate StructureOk(c: Check, body: seq<Line>)
    decreases body
  {
    if body == [] then !c.fence
    else
      var next := CheckLine(c, body[0]);
      next.Some? && StructureOk(next.value, body[1..])
  }

  predicate Valid(body: seq<Line>) {
    FieldsOk(body) && StructureOk(UNCHECKED, body)
  }

  // ---------------------------------------------------------------------------------------
  // The steps the runtime knows

  datatype Gather = Gather(files: bool, sawStep: bool, fence: bool, steps: map<nat, string>)

  const NOTHING := Gather(false, false, false, map[])

  /** Notes are not skipped here: a fence inside a note counts. */
  function GatherLine(g: Gather, l: Line): Gather {
    if g.fence then g.(fence := !l.shape.Fence?)
    else if g.sawStep && l.shape.Fence? then g.(fence := true)
    else if Marker(l, Files) then g.(files := true)
    else if g.files && l.shape.Step? then g.(sawStep := true, steps := g.steps[l.shape.number := l.shape.title])
    else g
  }

  function GatherAll(g: Gather, body: seq<Line>): Gather
    decreases body
  {
    if body == [] then g else GatherAll(GatherLine(g, body[0]), body[1..])
  }

  function BlockSteps(body: seq<Line>): map<nat, string> {
    if Valid(body) then GatherAll(NOTHING, body).steps else map[]
  }

  type Known = map<(nat, nat), string>

  function Tagged(task: nat, steps: map<nat, string>): Known {
    map n | n in steps :: (task, n) := steps[n]
  }

  function Merged(blocks: seq<Block>): Known {
    if blocks == [] then map[]
    else
      var last := blocks[|blocks| - 1];
      Merged(blocks[..|blocks| - 1]) + Tagged(last.number, BlockSteps(last.body))
  }

  /** A plan that cannot be split has no known steps. */
  ghost function KnownSteps(lines: seq<Line>): Known {
    if SplitOk(lines) then Merged(Blocks(lines)) else map[]
  }

  ghost predicate DistinctTasks(blocks: seq<Block>) {
    forall i, j :: 0 <= i < j < |blocks| ==> blocks[i].number != blocks[j].number
  }

  lemma {:induction false} MergedNames(blocks: seq<Block>, id: (nat, nat))
    requires id in Merged(blocks)
    ensures exists i :: 0 <= i < |blocks| && blocks[i].number == id.0
  {
    var n := |blocks| - 1;
    if blocks[n].number != id.0 {
      MergedNames(blocks[..n], id);
    }
  }

  /** When task numbers do not repeat, a task's known steps are those of its own block. */
  lemma {:induction false} MergedMeaning(blocks: seq<Block>, i: nat, step: nat)
    requires DistinctTasks(blocks) && i < |blocks|
    ensures var id, steps := (blocks[i].number, step), BlockSteps(blocks[i].body);
            (id in Merged(blocks) <==> step in steps) && (step in steps ==> Merged(blocks)[id] == steps[step])
  {
    var n := |blocks| - 1;
    var id := (blocks[i].number, step);
    if i < n {
      MergedMeaning(blocks[..n], i, step);
      assert id !in Tagged(blocks[n].number, BlockSteps(blocks[n].body));
    } else if id in Merged(blocks[..n]) {
      MergedNames(blocks[..n], id);
    }
  }

  // ---------------------------------------------------------------------------------------
  // The validator and the collector see the same steps

  function CheckedSteps(c: Check, body: seq<Line>): set<nat>
    requires StructureOk(c, body)
    decreases body
  {
    if body == [] then c.numbers else CheckedSteps(CheckLine(c, body[0]).value, body[1..])
  }

  /** No line that the validator skips as part of a note is a fence. */
  predicate NotesWithoutFence(c: Check, body: seq<Line>)
    decreases body
  {
    body == [] || !CheckLine(c, body[0]).Some? ||
    (!(c.note.Some? && Continues(c.note.value, body[0]) && body[0].shape.Fence?)
        && NotesWithoutFence(CheckLine(c, body[0]).value, body[1..]))
  }

  predicate InStep(c: Check, g: Gather) {
    && c.files == g.files && c.sawStep == g.sawStep && c.fence == g.fence && c.numbers == g.steps.Keys
    && (c.note.Some? ==> c.sawStep && !c.fence)
  }

  lemma {:induction false} LineInStep(c: Check, g: Gather, l: Line)
    requires InStep(c, g) && CheckLine(c, l).Some?
    requires !(c.note.Some? && Continues(c.note.value, l) && l.shape.Fence?)
    ensures InStep(CheckLine(c, l).value, GatherLine(g, l))
  {
  }

  /** In a well-formed block whose notes hold no fence, the known steps are the validated ones. */
  lemma {:induction false} KnownAreChecked(c: Check, g: Gather, body: seq<Line>)
    requires InStep(c, g) && StructureOk(c, body) && NotesWithoutFence(c, body)
    ensures GatherAll(g, body).steps.Keys == CheckedSteps(c, body)
    decreases body
  {
    if body != [] {
      LineInStep(c, g, body[0]);
      KnownAreChecked(CheckLine(c, body[0]).value, GatherLine(g, body[0]), body[1..]);
    }
  }

  // ---------------------------------------------------------------------------------------
  // The loops

  predicate Below(l: Line, k: nat) {
    Named(l) && Rank(l.shape.name) < k
  }

  ghost predicate OrderedBelow(body: seq<Line>, k: nat) {
    forall i, j :: 0 <= i < j < |body| && Below(body[i], k) && Below(body[j], k) ==>
        Rank(body[i].shape.name) < Rank(body[j].shape.name)
  }

  /** `previous` is the last position of a field of rank below `k`. */
  ghost predicate LastBelow(body: seq<Line>, k: nat, previous: Option<nat>) {
    && (previous.Some? ==> previous.value < |body| && Below(body[previous.value], k))
    && (forall i: nat :: i < |body| && Below(body[i], k) ==> previous.Some? && i <= previous.value)
  }

  ghost predicate PositionsOf(body: seq<Line>, f: FieldName, at: seq<nat>) {
    && (forall i: nat :: i in at <==> i < |body| && IsField(body[i], f))
    && (forall k, m :: 0 <= k < m < |at| ==> at[k] < at[m])
  }

  method FieldPositions(body: seq<Line>, f: FieldName) returns (at: seq<nat>)
    ensures PositionsOf(body, f, at)
  {
    at := [];
    for i := 0 to |body|
      invariant forall k: nat :: k in at <==> k < i && IsField(body[k], f)
      invariant forall k :: 0 <= k < |at| ==> at[k] < i
      invariant forall k, m :: 0 <= k < m < |at| ==> at[k] < at[m]
    {
      if IsField(body[i], f) {
        at := at + [i];
      }
    }
  }

  lemma OrderedMore(body: seq<Line>, f: FieldName, at: seq<nat>, previous: Option<nat>)
    requires OrderedBelow(body, Rank(f)) && LastBelow(body, Rank(f), previous) && PositionsOf(body, f, at) && |at| <= 1
    requires |at| == 1 && previous.Some? ==> previous.value < at[0]
    ensures OrderedBelow(body, Rank(f) + 1) && LastBelow(body, Rank(f) + 1, if |at| == 1 then Some(at[0]) else previous)
  {
    assert forall l :: Below(l, Rank(f) + 1) ==> Below(l, Rank(f)) || IsField(l, f);
    forall i: nat | i < |body| && IsField(body[i], f)
      ensures |at| == 1 && at[0] == i
    {
      assert i in at;
    }
    assert |at| == 1 ==> at[0] in at;
  }

  lemma OrderBroken(body: seq<Line>, f: FieldName, at: seq<nat>, previous: Option<nat>)
    requires LastBelow(body, Rank(f), previous) && PositionsOf(body, f, at)
    requires |at| > 1 || (|at| == 1 && previous.Some? && at[0] <= previous.value)
    ensures !FieldsOrdered(body)
  {
    assert at[0] in at;
    if |at| > 1 {
      assert at[1] in at;
    } else {
      assert at[0] < previous.value;
    }
  }

  /** The check compares each field only with the nearest earlier field that is present. */
  method EnforceFieldOrder(body: seq<Line>) returns (ok: bool)
    ensures ok == FieldsOrdered(body)
  {
    var previous: Option<nat> := None;
    for k := 0 to |FIELD_ORDER|
      invariant OrderedBelow(body, k) && LastBelow(body, k, previous)
    {
      var field := FIELD_ORDER[k];
      assert Rank(field) == k;
      var at := FieldPositions(body, field);
      if |at| > 1 || (|at| == 1 && previous.Some? && at[0] <= previous.value) {
        OrderBroken(body, field, at, previous);
        return false;
      }
      OrderedMore(body, field, at, previous);
      if |at| == 1 {
        previous := Some(at[0]);
      }
    }
    assert forall l :: Named(l) ==> Below(l, 6);
    ok := true;
  }

  /** The validator as it runs, over flags. */
  method ValidateTaskBody(body: seq<Line>) returns (ok: bool)
    ensures ok == StructureOk(UNCHECKED, body)
  {
    var part, files, sawStep, fence := NoPart, false, false, false;
    var note: Option<nat> := None;
    var numbers: set<nat> := {};
    assert body[0..] == body;
    for i := 0 to |body|
      invariant StructureOk(UNCHECKED, body) ==
                StructureOk(Check(part, files, sawStep, fence, note, numbers), body[i..])
    {
      var line := body[i];
      var s := line.shape;
      assert body[i..][1..] == body[i + 1..];
      if s.Blank? {
        continue;
      }
      if note.Some? {
        if Continues(note.value, line) {
          continue;
        }
        note := None;
      }
      if fence {
        if s.Fence? {
          fence := false;
        }
        continue;
      }
      if sawStep && s.Fence? {
        fence := true;
        continue;
      }
      if s.Comment? {
        continue;
      }
      if sawStep && s.NoteStart? {
        note := Some(line.indent);
        continue;
      }
      if s.BadStep? {
        return false;
      }
      if s.Step? {
        if !files || s.number in numbers {
          return false;
        }
        numbers := numbers + {s.number};
        sawStep, part := true, Steps;
        continue;
      }
      if sawStep {
        return false;
      }
      if s.Field? && (s.name.SpecCoverage? || s.name.Goal?) && !s.form.Glued? {
        part := NoPart;
        continue;
      }
      if Marker(line, Context) || Marker(line, Constraints) || Marker(line, DoneWhen) {
        part := List;
        continue;
      }
      if Marker(line, Files) {
        files, part := true, FilesPart;
        continue;
      }
      if !(part.FilesPart? || (part.List? && s.Dash?)) {
        return false;
      }
    }
    ok := !fence;
  }

  /** The bullets after a field's marker, up to the next line that begins with two stars. */
  method BulletsAfterField(body: seq<Line>, f: FieldName) returns (ok: bool)
    ensures ok == EntriesOk(body, f, false)
  {
    var collecting := false;
    assert body[0..] == body;
    for i := 0 to |body|
      invariant EntriesOk(body, f, false) == EntriesOk(body[i..], f, collecting)
    {
      assert body[i..][1..] == body[i + 1..];
      var s := body[i].shape;
      if IsExact(body[i], f) {
        collecting := true;
      } else if collecting {
        if Starred(body[i]) {
          return true;
        }
        if !s.Blank? && !s.Dash? && !s.Step? && !s.BadStep? {
          return false;
        }
      }
    }
    ok := true;
  }

  method ParseTaskContract(body: seq<Line>) returns (ok: bool)
    ensures ok == Valid(body)
  {
    if Mentions(body, (l: Line) => l.shape.Legacy?) {
      return false;
    }
    ok := EnforceFieldOrder(body);
    if !ok || !Mentions(body, (l: Line) => IsScalar(l, Goal)) {
      return false;
    }
    var lists := [Context, Constraints, DoneWhen];
    for i := 0 to |lists|
      invariant forall k :: 0 <= k < i ==> ListField(body, lists[k])
    {
      ok := BulletsAfterField(body, lists[i]);
      if !ok || !Mentions(body, (l: Line) => IsExact(l, lists[i])) {
        assert !ListField(body, lists[i]);
        return false;
      }
    }
    assert ListField(body, lists[0]) && ListField(body, lists[1]) && ListField(body, lists[2]);
    ok := ValidateTaskBody(body);
  }

  lemma TaggedMore(known: Known, task: nat, steps: map<nat, string>, n: nat, title: string)
    ensures (known + Tagged(task, steps))[(task, n) := title] == known + Tagged(task, steps[n := title])
  {
  }

  /** The collector as it runs: it adds the block's steps to the map shared by all blocks. */
  method CollectKnownTaskSteps(task: nat, body: seq<Line>, known0: Known) returns (known: Known)
    ensures known == known0 + Tagged(task, GatherAll(NOTHING, body).steps)
  {
    known := known0;
    var files, sawStep, fence := false, false, false;
    ghost var steps: map<nat, string> := map[];
    assert body[0..] == body;
    for i := 0 to |body|
      invariant GatherAll(NOTHING, body) == GatherAll(Gather(files, sawStep, fence, steps), body[i..])
      invariant known == known0 + Tagged(task, steps)
    {
      var line := body[i];
      assert body[i..][1..] == body[i + 1..];
      if fence {
        if line.shape.Fence? {
          fence := false;
        }
        continue;
      }
      if sawStep && line.shape.Fence? {
        fence := true;
        continue;
      }
      if Marker(line, Files) {
        files := true;
        continue;
      }
      if files && line.shape.Step? {
        TaggedMore(known0, task, steps, line.shape.number, line.shape.title);
        known := known[(task, line.shape.number) := line.shape.title];
        steps := steps[line.shape.number := line.shape.title];
        sawStep := true;
      }
    }
  }

  method AddBlockSteps(block: Block, known0: Known) returns (known: Known)
    ensures known == known0 + Tagged(block.number, BlockSteps(block.body))
  {
    var ok := ParseTaskContract(block.body);
    if ok {
      known := CollectKnownTaskSteps(block.number, block.body, known0);
    } else {
      known := known0;
    }
  }

  method MergeBlocks(blocks: seq<Block>) returns (known: Known)
    ensures known == Merged(blocks)
  {
    known := map[];
    for i := 0 to |blocks|
      invariant known == Merged(blocks[..i])
    {
      assert blocks[..i + 1][..i] == blocks[..i];
      known := AddBlockSteps(blocks[i], known);
    }
    assert blocks[..|blocks|] == blocks;
  }

  method KnownRuntimeSteps(lines: seq<Line>) returns (known: Known)
    ensures known == KnownSteps(lines)
  {
    var blocks := SplitTaskBlocks(lines);
    known := map[];
    if blocks.None? {
      return;
    }
    known := MergeBlocks(blocks.value);
  }
}
