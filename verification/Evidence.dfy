/** The execution evidence document: the parser whose cursor steps backwards, a forward-only reference
    for it, and the renderer whose output it reads back. */
module Evidence {
  import opened Lists
  import opened Text

  datatype Field =
    | Status | RecordedAt | ExecutionSource | PacketFingerprint | HeadSha | BaseSha | Claim
    | SourceContractPath | SourceContractFingerprint | SourceEvaluation | EvaluatorVerdict | SourceHandoff
    | BaselineHead | BaselineWorktree | VerifyCommand | VerificationSummary | InvalidationReason

  /** A `- ` line as its readers see it: as a scalar, as `path | proof`, as a path, as plain text. A path
      that is not canonical and repo-relative reads as None. */
  datatype BulletText = BulletText(scalar: Option<string>, proven: Option<(Option<string>, string)>,
      path: Option<string>, text: string)

  /** A line by what follows its indentation. */
  datatype Shape =
    | TaskHeading(ids: Option<(Option<nat>, Option<nat>)>)
    | AttemptHeading(number: Option<nat>)
    | OtherHeading
    | Scalar(field: Field, value: Option<string>)
    | CriteriaMarker
    | FilesProvenMarker
    | FilesMarker
    | VerificationMarker
    | OtherBold
    | Bullet(bullet: BulletText)
    | EmptyList
    | Blank
    | Plain

  datatype Line = Line(indented: bool, shape: Shape)

  datatype FileProof = FileProof(path: string, proof: string)

  /** The attempt being read. Fields not seen are absent. */
  datatype Draft = Draft(fields: map<Field, string>, files: seq<string>, proofs: seq<FileProof>, criteria: seq<string>)

  datatype Attempt = Attempt(task: nat, step: nat, number: nat, content: Draft)

  datatype Failure =
    | HeadingMalformed | MissingHeading | NumberMalformed | NumberOutOfOrder | ProofMissing | PathNotCanonical
    | BadStatus | BlankRecordedAt | BadSource | BlankClaim | NoFiles | BlankSummary | BlankReason | ReasonNotReal
    | NothingParsed

  datatype Outcome<T> = Ok(value: T) | Err(failure: Failure)

  const START := Place(None, None, [])
  const EMPTY := Draft(map[], [], [], [])
  const EXECUTING_PLANS := "featureforge:executing-plans"
  const SUBAGENT_DRIVEN := "featureforge:subagent-driven-development"

  // ---------------------------------------------------------------------------------------
  // Reference parser: consumes the lines from the front and never looks back

  predicate EndsAttempt(line: Line) {
    !line.indented && (line.shape.TaskHeading? || line.shape.AttemptHeading?)
  }

  predicate IsBullet(line: Line) {
    !line.indented && line.shape.Bullet?
  }

  function Get(fields: map<Field, string>, f: Field): string {
    if f in fields then fields[f] else ""
  }

  function Assign(fields: map<Field, string>, f: Field, value: Option<string>): map<Field, string> {
    if value.Some? then fields[f := value.value] else fields - {f}
  }

  /** The criterion list takes indented bullets too and skips blank lines and `[]`. */
  function Criteria(lines: seq<Line>, acc: seq<string>): (r: (seq<string>, seq<Line>))
    ensures |r.1| <= |lines|
  {
    if lines == [] then (acc, [])
    else match lines[0].shape
      case Blank => Criteria(lines[1..], acc)
      case EmptyList => Criteria(lines[1..], acc)
      case Bullet(b) => Criteria(lines[1..], if b.scalar.Some? then acc + [b.scalar.value] else acc)
      case _ => (acc, lines)
  }

  function Proven(lines: seq<Line>, d: Draft): (r: (Outcome<Draft>, seq<Line>))
    ensures |r.1| <= |lines|
  {
    if lines == [] || !IsBullet(lines[0]) then (Ok(d), lines)
    else
      var entry := lines[0].shape.bullet.proven;
      if entry.None? then (Err(ProofMissing), lines)
      else if entry.value.0.None? then (Err(PathNotCanonical), lines)
      else
        var path := entry.value.0.value;
        Proven(lines[1..], d.(files := d.files + [path], proofs := d.proofs + [FileProof(path, entry.value.1)]))
  }

  function LegacyFiles(lines: seq<Line>, d: Draft): (r: (Outcome<Draft>, seq<Line>))
    ensures |r.1| <= |lines|
  {
    if lines == [] || !IsBullet(lines[0]) then (Ok(d), lines)
    else if lines[0].shape.bullet.path.None? then (Err(PathNotCanonical), lines)
    else
      var path := lines[0].shape.bullet.path.value;
      LegacyFiles(lines[1..], d.(files := d.files + [path], proofs := d.proofs + [FileProof(path, "sha256:unknown")]))
  }

  /** One line of an attempt, with the list it may open. */
  function BodyLine(lines: seq<Line>, d: Draft): (r: (Outcome<Draft>, seq<Line>))
    requires lines != []
    ensures |r.1| < |lines|
  {
    var shape, rest := lines[0].shape, lines[1..];
    if lines[0].indented then (Ok(d), rest)
    else match shape
      case Scalar(f, value) => (Ok(d.(fields := Assign(d.fields, f, value))), rest)
      case CriteriaMarker =>
        var (criteria, tail) := Criteria(rest, d.criteria);
        (Ok(d.(criteria := criteria)), tail)
      case FilesProvenMarker => Proven(rest, d)
      case FilesMarker => LegacyFiles(rest, d)
      case VerificationMarker =>
        if rest == [] then (Ok(d), [])
        else if IsBullet(rest[0]) then (Ok(d.(fields := Assign(d.fields, VerificationSummary,
            Some(rest[0].shape.bullet.text)))), rest[1..])
        else (Ok(d), rest[1..])
      case _ => (Ok(d), rest)
  }

  /** The lines of one attempt, up to the next heading or the end. */
  function Body(lines: seq<Line>, d: Draft): (r: (Outcome<Draft>, seq<Line>))
    ensures |r.1| <= |lines|
    decreases |lines|
  {
    if lines == [] || EndsAttempt(lines[0]) then (Ok(d), lines)
    else
      var (r, rest) := BodyLine(lines, d);
      if r.Err? then (r, rest) else Body(rest, r.value)
  }

  function Invalid(d: Draft): Option<Failure> {
    var status, reason := Get(d.fields, Status), Get(d.fields, InvalidationReason);
    var source := Get(d.fields, ExecutionSource);
    if status != "Completed" && status != "Invalidated" then Some(BadStatus)
    else if Trim(Get(d.fields, RecordedAt)) == "" then Some(BlankRecordedAt)
    else if source != EXECUTING_PLANS && source != SUBAGENT_DRIVEN then Some(BadSource)
    else if Get(d.fields, Claim) == "" then Some(BlankClaim)
    else if d.files == [] then Some(NoFiles)
    else if Get(d.fields, VerificationSummary) == "" then Some(BlankSummary)
    else if reason == "" then Some(BlankReason)
    else if status == "Invalidated" && reason == "N/A" then Some(ReasonNotReal)
    else None
  }

  /** A missing verify command is read from the summary, by the given reader. */
  function WithCommand(d: Draft, commandOf: string -> Option<string>): Draft {
    if VerifyCommand in d.fields then d
    else d.(fields := Assign(d.fields, VerifyCommand, commandOf(Get(d.fields, VerificationSummary))))
  }

  function Count(attempts: seq<Attempt>, task: nat, step: nat): nat {
    if attempts == [] then 0
    else
      var last := attempts[|attempts| - 1];
      Count(attempts[..|attempts| - 1], task, step) + (if last.task == task && last.step == step then 1 else 0)
  }

  datatype Place = Place(task: Option<nat>, step: Option<nat>, attempts: seq<Attempt>)

  /** An attempt under its heading: the number must be the next one of the current task and step. */
  function ParseAttempt(lines: seq<Line>, number: Option<nat>, p: Place,
      commandOf: string -> Option<string>): (r: (Outcome<Place>, seq<Line>))
    ensures |r.1| <= |lines|
  {
    if p.task.None? || p.step.None? then (Err(MissingHeading), lines)
    else if number.None? then (Err(NumberMalformed), lines)
    else if number.value != Count(p.attempts, p.task.value, p.step.value) + 1 then (Err(NumberOutOfOrder), lines)
    else
      var (r, rest) := Body(lines, EMPTY);
      if r.Err? then (Err(r.failure), rest)
      else if Invalid(r.value).Some? then (Err(Invalid(r.value).value), rest)
      else (Ok(p.(attempts := p.attempts + [Attempt(p.task.value, p.step.value, number.value,
          WithCommand(r.value, commandOf))])), rest)
  }

  function ParseLine(lines: seq<Line>, p: Place, commandOf: string -> Option<string>): (r: (Outcome<Place>, seq<Line>))
    requires lines != []
    ensures |r.1| < |lines|
  {
    if !lines[0].indented && lines[0].shape.TaskHeading? then
      var ids := lines[0].shape.ids;
      (if ids.None? then Err(HeadingMalformed) else Ok(Place(ids.value.0, ids.value.1, p.attempts)), lines[1..])
    else if !lines[0].indented && lines[0].shape.AttemptHeading? then
      ParseAttempt(lines[1..], lines[0].shape.number, p, commandOf)
    else (Ok(p), lines[1..])
  }

  function Parse(lines: seq<Line>, p: Place, commandOf: string -> Option<string>): Outcome<seq<Attempt>>
    decreases |lines|
  {
    if lines == [] then Ok(p.attempts)
    else
      var (r, rest) := ParseLine(lines, p, commandOf);
      if r.Err? then Err(r.failure) else Parse(rest, r.value, commandOf)
  }

  /** `mentionsTask` says whether the text contains `### Task ` anywhere. */
  function ParseDocument(lines: seq<Line>, isV2: bool, mentionsTask: bool,
      commandOf: string -> Option<string>): Outcome<seq<Attempt>> {
    var r := Parse(lines, START, commandOf);
    if r.Ok? && r.value == [] && isV2 && mentionsTask then Err(NothingParsed) else r
  }

  // ---------------------------------------------------------------------------------------
  // What every accepted document satisfies

  ghost predicate ProofsMatch(d: Draft) {
    |d.proofs| == |d.files| && forall i :: 0 <= i < |d.files| ==> d.proofs[i].path == d.files[i]
  }

  /** Numbered 1, 2, ... per task and step, in order; files present and proven position by position. */
  ghost predicate WellNumbered(attempts: seq<Attempt>) {
    forall i :: 0 <= i < |attempts| ==>
      var a := attempts[i];
      && a.number == Count(attempts[..i], a.task, a.step) + 1
      && a.content.files != [] && ProofsMatch(a.content) && Invalid(a.content).None?
  }

  lemma {:induction false} ProvenMatches(lines: seq<Line>, d: Draft)
    requires ProofsMatch(d)
    ensures Proven(lines, d).0.Ok? ==> ProofsMatch(Proven(lines, d).0.value)
  {
    if lines != [] && IsBullet(lines[0]) {
      var entry := lines[0].shape.bullet.proven;
      if entry.Some? && entry.value.0.Some? {
        var path := entry.value.0.value;
        ProvenMatches(lines[1..], d.(files := d.files + [path], proofs := d.proofs + [FileProof(path, entry.value.1)]));
      }
    }
  }

  lemma {:induction false} LegacyMatches(lines: seq<Line>, d: Draft)
    requires ProofsMatch(d)
    ensures LegacyFiles(lines, d).0.Ok? ==> ProofsMatch(LegacyFiles(lines, d).0.value)
  {
    if lines != [] && IsBullet(lines[0]) && lines[0].shape.bullet.path.Some? {
      var path := lines[0].shape.bullet.path.value;
      LegacyMatches(lines[1..], d.(files := d.files + [path], proofs := d.proofs
          + [FileProof(path, "sha256:unknown")]));
    }
  }

  lemma {:induction false} BodyMatches(lines: seq<Line>, d: Draft)
    requires ProofsMatch(d)
    ensures Body(lines, d).0.Ok? ==> ProofsMatch(Body(lines, d).0.value)
    decreases |lines|
  {
    if lines != [] && !EndsAttempt(lines[0]) {
      ProvenMatches(lines[1..], d);
      LegacyMatches(lines[1..], d);
      var (r, rest) := BodyLine(lines, d);
      if r.Ok? {
        BodyMatches(rest, r.value);
      }
    }
  }

  lemma NumberedMore(acc: seq<Attempt>, a: Attempt)
    requires WellNumbered(acc) && a.number == Count(acc, a.task, a.step) + 1
    requires a.content.files != [] && ProofsMatch(a.content) && Invalid(a.content).None?
    ensures WellNumbered(acc + [a])
  {
    var more := acc + [a];
    forall i | 0 <= i < |more|
      ensures more[i].number == Count(more[..i], more[i].task, more[i].step) + 1
      ensures more[i].content.files != [] && ProofsMatch(more[i].content) && Invalid(more[i].content).None?
    {
      if i < |acc| {
        assert more[i] == acc[i] && more[..i] == acc[..i];
      } else {
        assert more[..i] == acc;
      }
    }
  }

  lemma CommandKeepsValid(d: Draft, commandOf: string -> Option<string>)
    ensures Invalid(WithCommand(d, commandOf)) == Invalid(d)
    ensures WithCommand(d, commandOf).files == d.files && WithCommand(d, commandOf).proofs == d.proofs
  {
  }

  lemma {:induction false} AttemptKeepsNumbering(lines: seq<Line>, number: Option<nat>, p: Place,
      commandOf: string -> Option<string>)
    requires WellNumbered(p.attempts)
    ensures var r := ParseAttempt(lines, number, p, commandOf).0; r.Ok? ==> WellNumbered(r.value.attempts)
  {
    var r := ParseAttempt(lines, number, p, commandOf).0;
    if r.Ok? {
      BodyMatches(lines, EMPTY);
      var d := Body(lines, EMPTY).0.value;
      CommandKeepsValid(d, commandOf);
      NumberedMore(p.attempts, Attempt(p.task.value, p.step.value, number.value, WithCommand(d, commandOf)));
    }
  }

  lemma {:induction false} LineKeepsNumbering(lines: seq<Line>, p: Place, commandOf: string -> Option<string>)
    requires lines != [] && WellNumbered(p.attempts)
    ensures var r := ParseLine(lines, p, commandOf).0; r.Ok? ==> WellNumbered(r.value.attempts)
  {
    if !lines[0].indented && lines[0].shape.AttemptHeading? {
      AttemptKeepsNumbering(lines[1..], lines[0].shape.number, p, commandOf);
    }
  }

  /** In every accepted document the attempts of each task and step are numbered 1..k in order, each
      with at least one file and with proofs matching the files position by position. */
  lemma {:induction false} AcceptedIsWellNumbered(lines: seq<Line>, p: Place, commandOf: string -> Option<string>)
    requires WellNumbered(p.attempts)
    ensures var r := Parse(lines, p, commandOf); r.Ok? ==> WellNumbered(r.value)
    decreases |lines|
  {
    if lines != [] {
      LineKeepsNumbering(lines, p, commandOf);
      var (r, rest) := ParseLine(lines, p, commandOf);
      if r.Ok? {
        AcceptedIsWellNumbered(rest, r.value, commandOf);
      }
    }
  }

  // ---------------------------------------------------------------------------------------
  // The parser with a cursor

  /** The lines still to be read; the cursor may stand one past the end. */
  function From(lines: seq<Line>, i: nat): seq<Line> {
    if i <= |lines| then lines[i..] else []
  }

  lemma FromNext(lines: seq<Line>, i: nat)
    requires i < |lines|
    ensures From(lines, i) != [] && From(lines, i)[0] == lines[i] && From(lines, i)[1..] == From(lines, i + 1)
  {
  }

  /** Reads the criterion list; the cursor ends on the last line taken, so that the caller's step
      forward lands on the first line after the list. */
  method ReadCriteria(lines: seq<Line>, marker: nat, criteria0: seq<string>)
      returns (criteria: seq<string>, cursor: nat)
    requires marker < |lines|
    ensures marker <= cursor
    ensures (criteria, From(lines, cursor + 1)) == Criteria(From(lines, marker + 1), criteria0)
  {
    criteria, cursor := criteria0, marker + 1;
    while cursor < |lines|
      invariant marker < cursor <= |lines|
      invariant Criteria(From(lines, marker + 1), criteria0) == Criteria(From(lines, cursor), criteria)
    {
      FromNext(lines, cursor);
      var shape := lines[cursor].shape;
      if shape.Blank? || shape.EmptyList? {
        cursor := cursor + 1;
      } else if shape.Bullet? {
        if shape.bullet.scalar.Some? {
          criteria := criteria + [shape.bullet.scalar.value];
        }
        cursor := cursor + 1;
      } else {
        cursor := cursor - 1;
        return;
      }
    }
  }

  method ReadProven(lines: seq<Line>, marker: nat, d0: Draft) returns (r: Outcome<Draft>, cursor: nat)
    requires marker < |lines|
    ensures marker <= cursor
    ensures r == Proven(From(lines, marker + 1), d0).0
    ensures r.Ok? ==> From(lines, cursor + 1) == Proven(From(lines, marker + 1), d0).1
  {
    var d := d0;
    cursor := marker + 1;
    while cursor < |lines|
      invariant marker < cursor <= |lines|
      invariant Proven(From(lines, marker + 1), d0) == Proven(From(lines, cursor), d)
    {
      FromNext(lines, cursor);
      if !IsBullet(lines[cursor]) {
        cursor := cursor - 1;
        return Ok(d), cursor;
      }
      var entry := lines[cursor].shape.bullet.proven;
      if entry.None? {
        return Err(ProofMissing), cursor;
      }
      if entry.value.0.None? {
        return Err(PathNotCanonical), cursor;
      }
      var path := entry.value.0.value;
      d := d.(files := d.files + [path], proofs := d.proofs + [FileProof(path, entry.value.1)]);
      cursor := cursor + 1;
    }
    r := Ok(d);
  }

  method ReadLegacyFiles(lines: seq<Line>, marker: nat, d0: Draft) returns (r: Outcome<Draft>, cursor: nat)
    requires marker < |lines|
    ensures marker <= cursor
    ensures r == LegacyFiles(From(lines, marker + 1), d0).0
    ensures r.Ok? ==> From(lines, cursor + 1) == LegacyFiles(From(lines, marker + 1), d0).1
  {
    var d := d0;
    cursor := marker + 1;
    while cursor < |lines|
      invariant marker < cursor <= |lines|
      invariant LegacyFiles(From(lines, marker + 1), d0) == LegacyFiles(From(lines, cursor), d)
    {
      FromNext(lines, cursor);
      if !IsBullet(lines[cursor]) {
        cursor := cursor - 1;
        return Ok(d), cursor;
      }
      if lines[cursor].shape.bullet.path.None? {
        return Err(PathNotCanonical), cursor;
      }
      var path := lines[cursor].shape.bullet.path.value;
      d := d.(files := d.files + [path], proofs := d.proofs + [FileProof(path, "sha256:unknown")]);
      cursor := cursor + 1;
    }
    r := Ok(d);
  }

  /** One round of the attempt reader, at a line that does not end the attempt. The caller steps forward
      once more. */
  method ReadBodyLine(lines: seq<Line>, at: nat, d: Draft) returns (r: Outcome<Draft>, cursor: nat)
    requires at < |lines|
    ensures at <= cursor
    ensures From(lines, at) != [] && r == BodyLine(From(lines, at), d).0
    ensures r.Ok? ==> From(lines, cursor + 1) == BodyLine(From(lines, at), d).1
  {
    var line := lines[at];
    FromNext(lines, at);
    r, cursor := Ok(d), at;
    if line.indented {
    } else if line.shape.Scalar? {
      r := Ok(d.(fields := Assign(d.fields, line.shape.field, line.shape.value)));
    } else if line.shape.CriteriaMarker? {
      var criteria, back := ReadCriteria(lines, at, d.criteria);
      r, cursor := Ok(d.(criteria := criteria)), back;
    } else if line.shape.FilesProvenMarker? {
      r, cursor := ReadProven(lines, at, d);
    } else if line.shape.FilesMarker? {
      r, cursor := ReadLegacyFiles(lines, at, d);
    } else if line.shape.VerificationMarker? {
      cursor := at + 1;
      if cursor < |lines| {
        FromNext(lines, cursor);
        if IsBullet(lines[cursor]) {
          r := Ok(d.(fields := Assign(d.fields, VerificationSummary, Some(lines[cursor].shape.bullet.text))));
        }
      }
    }
  }

  lemma {:induction false} BodyStops(lines: seq<Line>, d: Draft)
    requires lines == [] || EndsAttempt(lines[0])
    ensures Body(lines, d) == (Ok(d), lines)
  {
  }

  /** Reads one attempt; on a heading the cursor steps back onto the line before it. Progress is
      measured by the cursor after the step forward that ends each round. */
  method ReadBody(lines: seq<Line>, heading: nat) returns (r: Outcome<Draft>, cursor: nat)
    requires heading < |lines|
    ensures heading <= cursor
    ensures r == Body(From(lines, heading + 1), EMPTY).0
    ensures r.Ok? ==> From(lines, cursor + 1) == Body(From(lines, heading + 1), EMPTY).1
  {
    var d := EMPTY;
    cursor := heading + 1;
    ghost var whole := Body(From(lines, heading + 1), EMPTY);
    while cursor < |lines| && !EndsAttempt(lines[cursor])
      invariant heading < cursor
      invariant whole == Body(From(lines, cursor), d)
      decreases |lines| - cursor
    {
      r, cursor := ReadBodyLine(lines, cursor, d);
      if r.Err? {
        return;
      }
      d := r.value;
      cursor := cursor + 1;
    }
    BodyStops(From(lines, cursor), d);
    r := Ok(d);
    if cursor < |lines| {
      cursor := cursor - 1;
    }
  }

  ghost predicate NextNumbers(next: map<(nat, nat), nat>, attempts: seq<Attempt>) {
    && (forall k :: k in next ==> next[k] == Count(attempts, k.0, k.1) + 1)
    && (forall t: nat, s: nat :: (t, s) !in next ==> Count(attempts, t, s) == 0)
  }

  lemma NextNumbersStep(next: map<(nat, nat), nat>, attempts: seq<Attempt>, a: Attempt)
    requires NextNumbers(next, attempts) && a.number == Count(attempts, a.task, a.step) + 1
    ensures NextNumbers(next[(a.task, a.step) := a.number + 1], attempts + [a])
  {
    var more := attempts + [a];
    assert more[..|attempts|] == attempts;
  }

  method ExpectedNumber(next: map<(nat, nat), nat>, ghost attempts: seq<Attempt>, id: (nat, nat)) returns (n: nat)
    requires NextNumbers(next, attempts)
    ensures n == Count(attempts, id.0, id.1) + 1
  {
    n := if id in next then next[id] else 1;
    assert id == (id.0, id.1);
  }

  /** The attempt heading at `at`: its number must be the next one of the current task and step. */
  method ReadAttempt(lines: seq<Line>, at: nat, p: Place, next: map<(nat, nat), nat>,
      commandOf: string -> Option<string>)
    returns (r: Outcome<Attempt>, cursor: nat)
    requires at < |lines| && NextNumbers(next, p.attempts)
    requires !lines[at].indented && lines[at].shape.AttemptHeading?
    ensures at <= cursor
    ensures var (parsed, rest) := ParseAttempt(From(lines, at + 1), lines[at].shape.number, p, commandOf);
      if r.Err? then parsed == Err(r.failure)
      else
        && parsed == Ok(p.(attempts := p.attempts + [r.value])) && From(lines, cursor + 1) == rest
        && r.value.number == Count(p.attempts, r.value.task, r.value.step) + 1
  {
    var number := lines[at].shape.number;
    cursor := at;
    if p.task.None? || p.step.None? {
      return Err(MissingHeading), cursor;
    }
    if number.None? {
      return Err(NumberMalformed), cursor;
    }
    var id := (p.task.value, p.step.value);
    var expected := ExpectedNumber(next, p.attempts, id);
    if number.value != expected {
      return Err(NumberOutOfOrder), cursor;
    }
    var read, back := ReadBody(lines, at);
    cursor := back;
    if read.Err? {
      return Err(read.failure), cursor;
    }
    var invalid := Invalid(read.value);
    if invalid.Some? {
      return Err(invalid.value), cursor;
    }
    r := Ok(Attempt(id.0, id.1, expected, WithCommand(read.value, commandOf)));
  }

  /** One round of the outer loop. */
  method ReadLine(lines: seq<Line>, at: nat, p: Place, next0: map<(nat, nat), nat>, commandOf: string -> Option<string>)
    returns (r: Outcome<Place>, cursor: nat, next: map<(nat, nat), nat>)
    requires at < |lines| && NextNumbers(next0, p.attempts)
    ensures at <= cursor && From(lines, at) != []
    ensures r == ParseLine(From(lines, at), p, commandOf).0
    ensures r.Ok? ==> From(lines, cursor + 1) == ParseLine(From(lines, at), p, commandOf).1
    ensures r.Ok? ==> NextNumbers(next, r.value.attempts)
  {
    var line := lines[at];
    FromNext(lines, at);
    r, cursor, next := Ok(p), at, next0;
    if !line.indented && line.shape.AttemptHeading? {
      var read, back := ReadAttempt(lines, at, p, next, commandOf);
      if read.Ok? {
        NextNumbersStep(next, p.attempts, read.value);
        next := next[(read.value.task, read.value.step) := read.value.number + 1];
        r, cursor := Ok(p.(attempts := p.attempts + [read.value])), back;
      } else {
        r := Err(read.failure);
      }
    } else if !line.indented && line.shape.TaskHeading? {
      r := if line.shape.ids.None? then Err(HeadingMalformed)
          else Ok(Place(line.shape.ids.value.0, line.shape.ids.value.1, p.attempts));
    }
  }

  /** The parser agrees with the reference on every document, terminating although its inner loops move
      the cursor back; the last test is for a version 2 document that mentions tasks in vain. */
  method ParseEvidenceAttempts(lines: seq<Line>, isV2: bool, mentionsTask: bool, commandOf: string -> Option<string>)
    returns (r: Outcome<seq<Attempt>>)
    ensures r == ParseDocument(lines, isV2, mentionsTask, commandOf)
    ensures r.Ok? ==> WellNumbered(r.value)
  {
    var p := START;
    var next: map<(nat, nat), nat> := map[];
    var cursor: nat := 0;
    assert From(lines, 0) == lines;
    ghost var whole := Parse(lines, START, commandOf);
    while cursor < |lines|
      invariant whole == Parse(From(lines, cursor), p, commandOf)
      invariant NextNumbers(next, p.attempts)
      decreases |lines| - cursor
    {
      var read;
      read, cursor, next := ReadLine(lines, cursor, p, next, commandOf);
      if read.Err? {
        return Err(read.failure);
      }
      p := read.value;
      cursor := cursor + 1;
    }
    if isV2 && p.attempts == [] && mentionsTask {
      return Err(NothingParsed);
    }
    AcceptedIsWellNumbered(lines, START, commandOf);
    r := Ok(p.attempts);
  }
}
