/** The contract rendering of a plan: step marks, execution notes and the execution mode are taken out,
    so that what is fingerprinted does not depend on progress. */
module ContractRender {
  import opened Lists
  import opened TaskContract

  datatype State = State(task: Option<nat>, files: bool, fence: bool, pending: bool, note: Option<nat>)

  const INITIAL := State(None, false, false, false, None)

  const MODE_NONE := Line(0, ExecutionMode, "none")

  function Unmarked(number: nat, title: string): Line {
    Line(0, Step(false, number, title), "")
  }

  predicate Knows(known: Known, task: Option<nat>, number: nat, title: string) {
    task.Some? && (task.value, number) in known && known[(task.value, number)] == title
  }

  /** Whether a line that is reached in state `s` is dropped: part of a note, or between a step and its note. */
  predicate Dropped(s: State, l: Line) {
    || (s.note.Some? && Continues(s.note.value, l))
    || (s.pending && (l.shape.Blank? || l.shape.NoteStart?))
  }

  function AfterDropped(s: State, l: Line): State {
    if s.note.Some? && Continues(s.note.value, l) then s
    else if l.shape.Blank? then s.(note := None)
    else s.(pending := false, note := Some(l.indent))
  }

  /** Whether a line that is not dropped is a step the renderer normalises. */
  predicate Normalised(known: Known, s: State, l: Line) {
    l.shape.Step? && !s.fence && s.files && Knows(known, s.task, l.shape.number, l.shape.title)
  }

  function Emitted(known: Known, s: State, l: Line): Line {
    if l.shape.ExecutionMode? && l.indent == 0 then MODE_NONE
    else if Normalised(known, s, l) then Unmarked(l.shape.number, l.shape.title)
    else l
  }

  function AfterEmitted(known: Known, s: State, l: Line): State {
    if TaskHead(l) then State(l.shape.task, false, false, false, None)
    else if Head(l) then INITIAL
    else State(s.task, s.files || Marker(l, Files), s.fence != l.shape.Fence?, Normalised(known, s, l), None)
  }

  function Next(known: Known, s: State, l: Line): State {
    if Dropped(s, l) then AfterDropped(s, l) else AfterEmitted(known, s, l)
  }

  function Run(known: Known, s: State, lines: seq<Line>): seq<Line>
    decreases lines
  {
    if lines == [] then []
    else
      var rest := Run(known, Next(known, s, lines[0]), lines[1..]);
      if Dropped(s, lines[0]) then rest else [Emitted(known, s, lines[0])] + rest
  }

  ghost function Render(lines: seq<Line>): seq<Line> {
    Run(KnownSteps(lines), INITIAL, lines)
  }

  function Appended(known: Known, s: State, rendered: seq<Line>, l: Line): seq<Line> {
    if Dropped(s, l) then rendered else rendered + [Emitted(known, s, l)]
  }

  lemma RunNext(known: Known, s: State, lines: seq<Line>, i: nat, rendered: seq<Line>)
    requires i < |lines|
    ensures rendered + Run(known, s, lines[i..]) ==
            Appended(known, s, rendered, lines[i]) + Run(known, Next(known, s, lines[i]), lines[i + 1..])
  {
    assert lines[i..][1..] == lines[i + 1..];
  }

  /** The renderer as it runs, over flags. */
  method ParseContractRender(lines: seq<Line>) returns (rendered: seq<Line>)
    ensures rendered == Render(lines)
  {
    var known := KnownRuntimeSteps(lines);
    rendered := [];
    var task: Option<nat>, note: Option<nat> := None, None;
    var files, fence, pending := false, false, false;
    ghost var whole := Run(known, INITIAL, lines);
    assert lines[0..] == lines;
    for i := 0 to |lines|
      invariant whole == rendered + Run(known, State(task, files, fence, pending, note), lines[i..])
    {
      var line := lines[i];
      RunNext(known, State(task, files, fence, pending, note), lines, i, rendered);
      if note.Some? {
        if Continues(note.value, line) {
          continue;
        }
        note := None;
      }
      if pending {
        if line.shape.Blank? {
          continue;
        }
        pending := false;
        if line.shape.NoteStart? {
          note := Some(line.indent);
          continue;
        }
      }
      if TaskHead(line) {
        task, files, fence := line.shape.task, false, false;
        rendered := rendered + [line];
        continue;
      }
      if Head(line) {
        task, files, fence := None, false, false;
      }
      if Marker(line, Files) {
        files := true;
      }
      if line.shape.Fence? {
        fence := !fence;
        rendered := rendered + [line];
        continue;
      }
      if line.shape.ExecutionMode? && line.indent == 0 {
        rendered := rendered + [MODE_NONE];
        continue;
      }
      if line.shape.Step? {
        if fence || !files || !Knows(known, task, line.shape.number, line.shape.title) {
          rendered := rendered + [line];
          continue;
        }
        rendered := rendered + [Unmarked(line.shape.number, line.shape.title)];
        pending := true;
        continue;
      }
      rendered := rendered + [line];
    }
  }
}
