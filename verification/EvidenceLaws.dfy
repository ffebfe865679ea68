/** What the evidence parser accepts and refuses, said of fields, headings and lists. */
module EvidenceLaws {
  import opened Lists
  import opened Text
  import opened Evidence
  import opened EvidenceRender

  // ---------------------------------------------------------------------------------------
  // Contents

  /** An attempt is accepted exactly with one of the two statuses, a time, one of the two sources, a claim, a
      file, a summary and a reason, which for an invalidated attempt is a real one. */
  lemma ValidExactly(d: Draft)
    ensures var status, reason := Get(d.fields, Status), Get(d.fields, InvalidationReason);
            Invalid(d).None? <==>
            && status in {"Completed", "Invalidated"}
            && Trim(Get(d.fields, RecordedAt)) != ""
            && Get(d.fields, ExecutionSource) in
               {"featureforge:executing-plans", "featureforge:subagent-driven-development"}
            && Get(d.fields, Claim) != "" && d.files != [] && Get(d.fields, VerificationSummary) != ""
            && reason != "" && (status == "Invalidated" ==> reason != "N/A")
  {
  }

  /** A missing command is what is read from the summary, and a given one stays. */
  lemma CommandFromSummary(d: Draft, commandOf: Command)
    ensures var e := WithCommand(d, commandOf);
            && (VerifyCommand in d.fields ==> e == d)
            && (VerifyCommand !in d.fields ==>
                  if commandOf(Get(d.fields, VerificationSummary)).None? then VerifyCommand !in e.fields
                  else VerifyCommand in e.fields
                       && Some(e.fields[VerifyCommand]) == commandOf(Get(d.fields, VerificationSummary)))
            && e == d.(fields := e.fields) && forall f :: f != VerifyCommand ==> Get(e.fields, f) == Get(d.fields, f)
  {
  }

  // ---------------------------------------------------------------------------------------
  // Headings

  /** A task heading without a step is refused. */
  lemma MalformedHeadingRefused(rest: seq<Line>, p: Place, commandOf: Command)
    ensures Parse([Line(false, TaskHeading(None))] + rest, p, commandOf) == Err(HeadingMalformed)
  {
  }

  /** An attempt heading is refused without a task and step, without a number, and with any number but the
      next one of its task and step. */
  lemma WrongAttemptRefused(number: Option<nat>, rest: seq<Line>, p: Place, commandOf: Command)
    ensures var r := Parse([Line(false, AttemptHeading(number))] + rest, p, commandOf);
            && (p.task.None? || p.step.None? ==> r == Err(MissingHeading))
            && (p.task.Some? && p.step.Some? ==>
                  && (number.None? ==> r == Err(NumberMalformed))
                  && (number.Some? && number.value != Count(p.attempts, p.task.value, p.step.value) + 1 ==>
                        r == Err(NumberOutOfOrder)))
  {
    assert ([Line(false, AttemptHeading(number))] + rest)[1..] == rest;
  }

  /** Outside attempts every other line is skipped. */
  lemma OtherLinesSkipped(l: Line, rest: seq<Line>, p: Place, commandOf: Command)
    requires l.indented || !(l.shape.TaskHeading? || l.shape.AttemptHeading?)
    ensures Parse([l] + rest, p, commandOf) == Parse(rest, p, commandOf)
  {
    assert ([l] + rest)[1..] == rest;
  }

  /** A document of the second version that mentions tasks but holds no attempt is refused, no other for that. */
  lemma EmptyDocumentRefused(lines: seq<Line>, isV2: bool, mentionsTask: bool, commandOf: Command)
    requires Parse(lines, START, commandOf) == Ok([])
    ensures ParseDocument(lines, isV2, mentionsTask, commandOf) ==
            (if isV2 && mentionsTask then Err(NothingParsed) else Ok([]))
  {
  }

  lemma {:induction false} OfHas(attempts: seq<Attempt>, id: (nat, nat), a: Attempt)
    ensures a in Of(attempts, id) <==> a in attempts && (a.task, a.step) == id
  {
    if attempts != [] {
      var n := |attempts| - 1;
      OfHas(attempts[..n], id, a);
      assert attempts == attempts[..n] + [attempts[n]];
    }
  }

  /** A written document holds exactly the attempts of the plan's steps. */
  lemma {:induction false} GroupedHas(steps: seq<(nat, nat)>, attempts: seq<Attempt>, a: Attempt)
    ensures a in Grouped(steps, attempts) <==> a in attempts && (a.task, a.step) in steps
  {
    if steps != [] {
      OfHas(attempts, steps[0], a);
      GroupedHas(steps[1..], attempts, a);
      assert steps == [steps[0]] + steps[1..];
    }
  }

  // ---------------------------------------------------------------------------------------
  // Lines of an attempt

  /** Inside an attempt an indented line is skipped, whatever it says. */
  lemma IndentedSkipped(s: Shape, tail: seq<Line>, d: Draft)
    ensures Body([Line(true, s)] + tail, d) == Body(tail, d)
  {
    assert ([Line(true, s)] + tail)[1..] == tail;
  }

  /** The line after a verification marker is taken: as the summary when it is a bullet, else not at all. */
  lemma VerificationRead(l: Line, tail: seq<Line>, d: Draft)
    ensures Body([Line(false, VerificationMarker), l] + tail, d) ==
            Body(tail, if !l.indented && l.shape.Bullet?
                       then d.(fields := d.fields[VerificationSummary := l.shape.bullet.text]) else d)
  {
    var lines := [Line(false, VerificationMarker), l] + tail;
    assert lines[1..] == [l] + tail && ([l] + tail)[1..] == tail;
  }

  function LegacyBullets(paths: seq<string>, tail: seq<Line>): seq<Line> {
    if paths == [] then tail
    else [Line(false, Bullet(BulletText(None, None, Some(paths[0]), "")))] + LegacyBullets(paths[1..], tail)
  }

  function UnknownProofs(paths: seq<string>): seq<FileProof> {
    if paths == [] then [] else [FileProof(paths[0], "sha256:unknown")] + UnknownProofs(paths[1..])
  }

  /** A legacy file list is read as its paths, each with an unknown proof. */
  lemma {:induction false} LegacyListRead(paths: seq<string>, tail: seq<Line>, d: Draft)
    requires StopsLists(tail)
    ensures LegacyFiles(LegacyBullets(paths, tail), d)
         == (Ok(d.(files := d.files + paths, proofs := d.proofs + UnknownProofs(paths))), tail)
  {
    if paths == [] {
      assert d.files + [] == d.files && d.proofs + [] == d.proofs;
    } else {
      var p, proof := paths[0], FileProof(paths[0], "sha256:unknown");
      LegacyListRead(paths[1..], tail, d.(files := d.files + [p], proofs := d.proofs + [proof]));
      MoveHead(d.files, paths);
      assert (d.proofs + [proof]) + UnknownProofs(paths[1..]) == d.proofs + UnknownProofs(paths);
      assert LegacyBullets(paths, tail)[1..] == LegacyBullets(paths[1..], tail);
    }
  }

  lemma {:induction false} LegacyFilesRead(paths: seq<string>, tail: seq<Line>, d: Draft)
    requires StopsLists(tail)
    ensures Body([Line(false, FilesMarker)] + LegacyBullets(paths, tail), d)
         == Body(tail, d.(files := d.files + paths, proofs := d.proofs + UnknownProofs(paths)))
  {
    LegacyListRead(paths, tail, d);
    var lines := [Line(false, FilesMarker)] + LegacyBullets(paths, tail);
    assert lines[1..] == LegacyBullets(paths, tail);
  }

  /** A bullet under Files Proven without a proof, or with a path that is not canonical, is refused; so is such a
      path under Files. */
  lemma BadBulletRefused(b: BulletText, tail: seq<Line>, d: Draft)
    ensures b.proven.None? ==>
              Body([Line(false, FilesProvenMarker), Line(false, Bullet(b))] + tail, d).0 == Err(ProofMissing)
    ensures b.proven.Some? && b.proven.value.0.None? ==>
              Body([Line(false, FilesProvenMarker), Line(false, Bullet(b))] + tail, d).0 == Err(PathNotCanonical)
    ensures b.path.None? ==>
              Body([Line(false, FilesMarker), Line(false, Bullet(b))] + tail, d).0 == Err(PathNotCanonical)
  {
    var bullet := [Line(false, Bullet(b))] + tail;
    assert ([Line(false, FilesProvenMarker), Line(false, Bullet(b))] + tail)[1..] == bullet;
    assert ([Line(false, FilesMarker), Line(false, Bullet(b))] + tail)[1..] == bullet;
  }

  /** In the criterion list blank lines, `[]` and bullets without an id are passed over, and indented bullets
      count. */
  lemma CriteriaRead(l: Line, tail: seq<Line>, acc: seq<string>)
    ensures l.shape.Blank? || l.shape.EmptyList? ==> Criteria([l] + tail, acc) == Criteria(tail, acc)
    ensures l.shape.Bullet? ==>
              Criteria([l] + tail, acc) ==
              Criteria(tail, if l.shape.bullet.scalar.Some? then acc + [l.shape.bullet.scalar.value] else acc)
    ensures !l.shape.Blank? && !l.shape.EmptyList? && !l.shape.Bullet? ==>
              Criteria([l] + tail, acc) == (acc, [l] + tail)
  {
    assert ([l] + tail)[1..] == tail;
  }
}
