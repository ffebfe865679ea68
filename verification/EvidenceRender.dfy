/** The evidence document the runtime writes, and what its own parser reads back from it. Each function
    puts its lines in front of `tail`. */
module EvidenceRender {
  import opened Lists
  import opened Evidence
  import opened Text

  // ---------------------------------------------------------------------------------------
  // Rendering

  const REQUIRED: set<Field> := {Status, RecordedAt, ExecutionSource, Claim, VerificationSummary, InvalidationReason}
  const DEFAULTED: set<Field> := {PacketFingerprint, HeadSha}

  /** What is written for an attempt: the required fields always, two fields as "unknown" when absent,
      and only the files that carry a proof. */
  function Written(d: Draft): Draft {
    d.(fields := map f | f in d.fields.Keys + REQUIRED + DEFAULTED ::
         if f in d.fields then d.fields[f] else if f in DEFAULTED then "unknown" else "",
       files := Paths(d.proofs))
  }

  function Paths(proofs: seq<FileProof>): seq<string> {
    if proofs == [] then [] else [proofs[0].path] + Paths(proofs[1..])
  }

  function Scalars(fs: seq<Field>, m: map<Field, string>, tail: seq<Line>): seq<Line> {
    if fs == [] then tail
    else if fs[0] in m then [Line(false, Scalar(fs[0], Some(m[fs[0]])))] + Scalars(fs[1..], m, tail)
    else Scalars(fs[1..], m, tail)
  }

  function CriterionBullets(ids: seq<string>, tail: seq<Line>): seq<Line> {
    if ids == [] then tail
    else
      [Line(false, Bullet(BulletText(Some(ids[0]), None, None, ids[0])))] + CriterionBullets(ids[1..], tail)
  }

  function ProofBullets(proofs: seq<FileProof>, tail: seq<Line>): seq<Line> {
    if proofs == [] then tail
    else
      [Line(false, Bullet(BulletText(None, Some((Some(proofs[0].path), proofs[0].proof)), None, "")))]
      + ProofBullets(proofs[1..], tail)
  }

  const BEFORE_NUMBERS := [Status, RecordedAt, ExecutionSource]
  const BEFORE_CRITERIA := [PacketFingerprint, HeadSha, BaseSha, Claim, SourceContractPath, SourceContractFingerprint,
      SourceEvaluation, EvaluatorVerdict]
  const BEFORE_FILES := [SourceHandoff, BaselineHead, BaselineWorktree]
  const AFTER_FILES := [VerifyCommand, VerificationSummary, InvalidationReason]

  function AfterFiles(d: Draft, tail: seq<Line>): seq<Line> {
    [Line(false, FilesProvenMarker)] + ProofBullets(d.proofs, Scalars(AFTER_FILES, Written(d).fields, tail))
  }

  function AfterCriteria(d: Draft, tail: seq<Line>): seq<Line> {
    Scalars(BEFORE_FILES, Written(d).fields, AfterFiles(d, tail))
  }

  function FromCriteria(d: Draft, tail: seq<Line>): seq<Line> {
    if d.criteria == [] then AfterCriteria(d, tail)
    else [Line(false, CriteriaMarker)] + CriterionBullets(d.criteria, AfterCriteria(d, tail))
  }

  /** The two lines between the first blocks repeat the task and step number; nothing reads them. */
  function AttemptBody(d: Draft, tail: seq<Line>): seq<Line> {
    Scalars(BEFORE_NUMBERS, Written(d).fields,
      [Line(false, OtherBold), Line(false, OtherBold)]
          + Scalars(BEFORE_CRITERIA, Written(d).fields, FromCriteria(d, tail)))
  }

  /** Attempts, each after a blank line. */
  function AttemptLines(attempts: seq<Attempt>, tail: seq<Line>): seq<Line> {
    if attempts == [] then tail
    else
      [Line(false, Blank), Line(false, AttemptHeading(Some(attempts[0].number)))]
      + AttemptBody(attempts[0].content, AttemptLines(attempts[1..], tail))
  }

  function Of(attempts: seq<Attempt>, id: (nat, nat)): seq<Attempt> {
    if attempts == [] then []
    else
      var last := attempts[|attempts| - 1];
      Of(attempts[..|attempts| - 1], id) + (if (last.task, last.step) == id then [last] else [])
  }

  /** The first attempt of a step directly follows the step's heading. */
  function StepLines(steps: seq<(nat, nat)>, attempts: seq<Attempt>): seq<Line> {
    if steps == [] then []
    else
      var own, rest := Of(attempts, steps[0]), StepLines(steps[1..], attempts);
      if own == [] then rest
      else
        [Line(false, Blank), Line(false, TaskHeading(Some((Some(steps[0].0), Some(steps[0].1)))))]
        + AttemptLines(own, rest)[1..]
  }

  const HEADER: seq<Line> :=
    [Line(false, OtherHeading), Line(false, Blank), Line(false, OtherBold), Line(false, OtherBold),
        Line(false, OtherBold),
     Line(false, OtherBold), Line(false, OtherBold), Line(false, OtherBold), Line(false, Blank),
         Line(false, OtherHeading)]

  function Document(steps: seq<(nat, nat)>, attempts: seq<Attempt>): seq<Line> {
    HEADER + StepLines(steps, attempts)
  }

  // ---------------------------------------------------------------------------------------
  // Reading one attempt back

  function Filled(fields: map<Field, string>, fs: seq<Field>, m: map<Field, string>): map<Field, string> {
    fields + map f | f in fs && f in m :: m[f]
  }

  lemma {:induction false} ReadScalar(f: Field, value: string, tail: seq<Line>, d: Draft)
    ensures Body([Line(false, Scalar(f, Some(value)))] + tail, d) == Body(tail, d.(fields := d.fields[f := value]))
  {
    assert ([Line(false, Scalar(f, Some(value)))] + tail)[1..] == tail;
  }

  lemma FilledNext(fields: map<Field, string>, fs: seq<Field>, m: map<Field, string>)
    requires fs != []
    ensures Filled(fields, fs, m) == Filled(if fs[0] in m then fields[fs[0] := m[fs[0]]] else fields, fs[1..], m)
  {
    assert fs == [fs[0]] + fs[1..];
  }

  lemma {:induction false} ReadScalars(fs: seq<Field>, m: map<Field, string>, tail: seq<Line>, d: Draft)
    ensures Body(Scalars(fs, m, tail), d) == Body(tail, d.(fields := Filled(d.fields, fs, m)))
  {
    if fs == [] {
      assert Filled(d.fields, fs, m) == d.fields;
    } else {
      FilledNext(d.fields, fs, m);
      var rest := Scalars(fs[1..], m, tail);
      if fs[0] in m {
        ReadScalar(fs[0], m[fs[0]], rest, d);
        ReadScalars(fs[1..], m, tail, d.(fields := d.fields[fs[0] := m[fs[0]]]));
      } else {
        ReadScalars(fs[1..], m, tail, d);
      }
    }
  }

  predicate StopsLists(tail: seq<Line>) {
    tail == [] || (!tail[0].shape.Bullet? && !tail[0].shape.Blank? && !tail[0].shape.EmptyList?)
  }

  lemma {:induction false} ReadCriterionBullets(ids: seq<string>, tail: seq<Line>, acc: seq<string>)
    requires StopsLists(tail)
    ensures Criteria(CriterionBullets(ids, tail), acc) == (acc + ids, tail)
  {
    if ids == [] {
      assert acc + ids == acc;
    } else {
      ReadCriterionBullets(ids[1..], tail, acc + [ids[0]]);
      MoveHead(acc, ids);
      assert CriterionBullets(ids, tail)[1..] == CriterionBullets(ids[1..], tail);
    }
  }

  lemma {:induction false} ReadProofBullets(proofs: seq<FileProof>, tail: seq<Line>, d: Draft)
    requires StopsLists(tail)
    ensures Proven(ProofBullets(proofs, tail), d) ==
            (Ok(d.(files := d.files + Paths(proofs), proofs := d.proofs + proofs)), tail)
  {
    if proofs == [] {
      assert d.files + [] == d.files && d.proofs + [] == d.proofs;
    } else {
      var p := proofs[0];
      ReadProofBullets(proofs[1..], tail, d.(files := d.files + [p.path], proofs := d.proofs
          + [FileProof(p.path, p.proof)]));
      MoveHead(d.proofs, proofs);
      assert (d.files + [p.path]) + Paths(proofs[1..]) == d.files + Paths(proofs);
      assert ProofBullets(proofs, tail)[1..] == ProofBullets(proofs[1..], tail);
    }
  }

  lemma {:induction false} SkipLines(lines: seq<Line>, tail: seq<Line>, d: Draft)
    requires forall l :: l in lines ==> l == Line(false, OtherBold) || l == Line(false, Blank)
    ensures Body(lines + tail, d) == Body(tail, d)
  {
    if lines == [] {
      assert lines + tail == tail;
    } else {
      assert lines[0] in lines && (lines + tail)[1..] == lines[1..] + tail;
      assert forall l :: l in lines[1..] ==> l in lines;
      SkipLines(lines[1..], tail, d);
    }
  }

  lemma {:induction false} ScalarsStart(fs: seq<Field>, m: map<Field, string>, tail: seq<Line>, f: Field)
    requires f in fs && f in m
    ensures StopsLists(Scalars(fs, m, tail))
  {
    if fs[0] !in m {
      ScalarsStart(fs[1..], m, tail, f);
    }
  }

  lemma {:induction false} ReadFiles(d: Draft, tail: seq<Line>, e: Draft)
    ensures var read := e.(files := e.files + Paths(d.proofs), proofs := e.proofs + d.proofs);
            Body(AfterFiles(d, tail), e) == Body(tail,
                read.(fields := Filled(e.fields, AFTER_FILES, Written(d).fields)))
  {
    var m := Written(d).fields;
    var scalars := Scalars(AFTER_FILES, m, tail);
    assert AFTER_FILES[1] == VerificationSummary;
    ScalarsStart(AFTER_FILES, m, tail, VerificationSummary);
    var bullets := ProofBullets(d.proofs, scalars);
    ReadProofBullets(d.proofs, scalars, e);
    var read := e.(files := e.files + Paths(d.proofs), proofs := e.proofs + d.proofs);
    assert Body(AfterFiles(d, tail), e) == Body(scalars, read) by {
      assert AfterFiles(d, tail)[1..] == bullets;
    }
    ReadScalars(AFTER_FILES, m, tail, read);
  }

  lemma {:induction false} ScalarsStop(fs: seq<Field>, m: map<Field, string>, tail: seq<Line>)
    requires StopsLists(tail)
    ensures StopsLists(Scalars(fs, m, tail))
  {
    if fs != [] && fs[0] !in m {
      ScalarsStop(fs[1..], m, tail);
    }
  }

  lemma {:induction false} ReadFromCriteria(d: Draft, tail: seq<Line>, e: Draft)
    ensures Body(FromCriteria(d, tail), e) == Body(AfterCriteria(d, tail), e.(criteria := e.criteria + d.criteria))
  {
    if d.criteria == [] {
      assert e.criteria + d.criteria == e.criteria;
    } else {
      ScalarsStop(BEFORE_FILES, Written(d).fields, AfterFiles(d, tail));
      ReadCriterionBullets(d.criteria, AfterCriteria(d, tail), e.criteria);
      assert FromCriteria(d, tail)[1..] == CriterionBullets(d.criteria, AfterCriteria(d, tail));
    }
  }

  predicate InSomeBlock(f: Field) {
    f in BEFORE_NUMBERS || f in BEFORE_CRITERIA || f in BEFORE_FILES || f in AFTER_FILES
  }

  lemma EveryFieldHasABlock(f: Field)
    ensures InSomeBlock(f)
  {
    match f {
      case Status => assert f == BEFORE_NUMBERS[0];
      case RecordedAt => assert f == BEFORE_NUMBERS[1];
      case ExecutionSource => assert f == BEFORE_NUMBERS[2];
      case PacketFingerprint => assert f == BEFORE_CRITERIA[0];
      case HeadSha => assert f == BEFORE_CRITERIA[1];
      case BaseSha => assert f == BEFORE_CRITERIA[2];
      case Claim => assert f == BEFORE_CRITERIA[3];
      case SourceContractPath => assert f == BEFORE_CRITERIA[4];
      case SourceContractFingerprint => assert f == BEFORE_CRITERIA[5];
      case SourceEvaluation => assert f == BEFORE_CRITERIA[6];
      case EvaluatorVerdict => assert f == BEFORE_CRITERIA[7];
      case SourceHandoff => assert f == BEFORE_FILES[0];
      case BaselineHead => assert f == BEFORE_FILES[1];
      case BaselineWorktree => assert f == BEFORE_FILES[2];
      case VerifyCommand => assert f == AFTER_FILES[0];
      case VerificationSummary => assert f == AFTER_FILES[1];
      case InvalidationReason => assert f == AFTER_FILES[2];
    }
  }

  lemma {:induction false} FilledByAll(m: map<Field, string>, a: seq<Field>, b: seq<Field>, c: seq<Field>,
      d: seq<Field>)
    requires forall f: Field :: f in a || f in b || f in c || f in d
    ensures Filled(Filled(Filled(Filled(map[], a, m), b, m), c, m), d, m) == m
  {
    var r := Filled(Filled(Filled(Filled(map[], a, m), b, m), c, m), d, m);
    assert forall f :: f in r <==> f in m;
  }

  lemma {:induction false} FieldsAreFilled(m: map<Field, string>)
    ensures Filled(Filled(Filled(Filled(map[], BEFORE_NUMBERS, m), BEFORE_CRITERIA, m), BEFORE_FILES, m), AFTER_FILES,
            m) == m
  {
    forall f: Field
      ensures f in BEFORE_NUMBERS || f in BEFORE_CRITERIA || f in BEFORE_FILES || f in AFTER_FILES
    {
      EveryFieldHasABlock(f);
    }
    FilledByAll(m, BEFORE_NUMBERS, BEFORE_CRITERIA, BEFORE_FILES, AFTER_FILES);
  }

  lemma {:induction false} ReadUpToCriteria(d: Draft, tail: seq<Line>)
    ensures var m := Written(d).fields;
            Body(AttemptBody(d, tail), EMPTY) ==
            Body(FromCriteria(d, tail), EMPTY.(fields := Filled(Filled(map[], BEFORE_NUMBERS, m), BEFORE_CRITERIA, m)))
  {
    var m := Written(d).fields;
    var second := Scalars(BEFORE_CRITERIA, m, FromCriteria(d, tail));
    var e := EMPTY.(fields := Filled(map[], BEFORE_NUMBERS, m));
    ReadScalars(BEFORE_NUMBERS, m, [Line(false, OtherBold), Line(false, OtherBold)] + second, EMPTY);
    SkipLines([Line(false, OtherBold), Line(false, OtherBold)], second, e);
    ReadScalars(BEFORE_CRITERIA, m, FromCriteria(d, tail), e);
  }

  lemma {:induction false} ReadAfterCriteria(d: Draft, tail: seq<Line>, e: Draft)
    requires e.files == [] && e.proofs == []
    ensures var m := Written(d).fields;
            Body(AfterCriteria(d, tail), e) ==
            Body(tail, Draft(Filled(Filled(e.fields, BEFORE_FILES, m), AFTER_FILES, m), Paths(d.proofs), d.proofs,
                e.criteria))
  {
    var m := Written(d).fields;
    ReadScalars(BEFORE_FILES, m, AfterFiles(d, tail), e);
    ReadFiles(d, tail, e.(fields := Filled(e.fields, BEFORE_FILES, m)));
    assert [] + Paths(d.proofs) == Paths(d.proofs) && [] + d.proofs == d.proofs;
  }

  /** The lines of any attempt read back as what was written, whatever follows them. */
  lemma {:induction false} AttemptReadsBack(d: Draft, tail: seq<Line>)
    ensures Body(AttemptBody(d, tail), EMPTY) == Body(tail, Written(d))
  {
    var m := Written(d).fields;
    var e := EMPTY.(fields := Filled(Filled(map[], BEFORE_NUMBERS, m), BEFORE_CRITERIA, m));
    ReadUpToCriteria(d, tail);
    ReadFromCriteria(d, tail, e);
    assert [] + d.criteria == d.criteria;
    ReadAfterCriteria(d, tail, e.(criteria := d.criteria));
    FieldsAreFilled(m);
  }

  // ---------------------------------------------------------------------------------------
  // Reading the document back

  type Command = string -> Option<string>

  /** An attempt after it was written and read again. */
  function Reread(a: Attempt, commandOf: Command): Attempt {
    a.(content := WithCommand(Written(a.content), commandOf))
  }

  function RereadAll(attempts: seq<Attempt>, commandOf: Command): seq<Attempt> {
    if attempts == [] then [] else [Reread(attempts[0], commandOf)] + RereadAll(attempts[1..], commandOf)
  }

  /** The attempts in the order of the plan's steps; those of unknown steps are not written. */
  function Grouped(steps: seq<(nat, nat)>, attempts: seq<Attempt>): seq<Attempt> {
    if steps == [] then [] else Of(attempts, steps[0]) + Grouped(steps[1..], attempts)
  }

  lemma {:induction false} PathsAreFiles(files: seq<string>, proofs: seq<FileProof>)
    requires |proofs| == |files| && forall i :: 0 <= i < |files| ==> proofs[i].path == files[i]
    ensures Paths(proofs) == files
  {
    if proofs != [] {
      PathsAreFiles(files[1..], proofs[1..]);
      assert files == [files[0]] + files[1..];
    }
  }

  lemma WrittenStaysValid(d: Draft)
    requires Invalid(d).None? && ProofsMatch(d)
    ensures Invalid(Written(d)).None? && ProofsMatch(Written(d)) && Written(d).files == d.files
  {
    PathsAreFiles(d.files, d.proofs);
    assert forall f :: f in REQUIRED ==> Get(Written(d).fields, f) == Get(d.fields, f);
  }

  lemma {:induction false} WrittenExactly(d: Draft)
    requires Invalid(d).None? && ProofsMatch(d)
    ensures Written(d) == d <==> PacketFingerprint in d.fields && HeadSha in d.fields
    ensures PacketFingerprint in Written(d).fields && HeadSha in Written(d).fields
    ensures VerifyCommand in Written(d).fields <==> VerifyCommand in d.fields
  {
    PathsAreFiles(d.files, d.proofs);
    assert forall f :: f in REQUIRED ==> f in d.fields;
    if PacketFingerprint in d.fields && HeadSha in d.fields {
      assert Written(d).fields == d.fields;
    }
  }

  lemma {:induction false} CommandExactly(d: Draft, commandOf: Command)
    ensures WithCommand(d, commandOf) == d <==>
            VerifyCommand in d.fields || commandOf(Get(d.fields, VerificationSummary)).None?
    ensures forall f :: f != VerifyCommand ==> (f in WithCommand(d, commandOf).fields <==> f in d.fields)
  {
    assert VerifyCommand !in d.fields ==> d.fields - {VerifyCommand} == d.fields;
  }

  /** A valid attempt survives being written and read exactly when the three optional values that the
      writer or the reader would otherwise make up are accounted for. */
  lemma {:induction false} RereadExactly(a: Attempt, commandOf: Command)
    requires Invalid(a.content).None? && ProofsMatch(a.content)
    ensures Reread(a, commandOf) == a <==>
            && PacketFingerprint in a.content.fields && HeadSha in a.content.fields
            && (VerifyCommand in a.content.fields || commandOf(Get(a.content.fields, VerificationSummary)).None?)
  {
    WrittenExactly(a.content);
    CommandExactly(a.content, commandOf);
    CommandExactly(Written(a.content), commandOf);
  }

  lemma {:induction false} CommandIsSettled(d: Draft, commandOf: Command)
    ensures var c := WithCommand(d, commandOf);
            && Get(c.fields, VerificationSummary) == Get(d.fields, VerificationSummary)
            && (VerifyCommand in c.fields || commandOf(Get(c.fields, VerificationSummary)).None?)
  {
  }

  /** Writing and reading again changes nothing more. */
  lemma {:induction false} RereadTwice(a: Attempt, commandOf: Command)
    requires Invalid(a.content).None? && ProofsMatch(a.content)
    ensures Reread(Reread(a, commandOf), commandOf) == Reread(a, commandOf)
  {
    var w := Written(a.content);
    WrittenStaysValid(a.content);
    WrittenExactly(a.content);
    CommandKeepsValid(w, commandOf);
    CommandExactly(w, commandOf);
    CommandIsSettled(w, commandOf);
    RereadExactly(Reread(a, commandOf), commandOf);
  }

  /** The end of the document, or a blank line before a heading. */
  predicate EndsHere(tail: seq<Line>) {
    tail == [] || (|tail| >= 2 && tail[0] == Line(false, Blank) && EndsAttempt(tail[1]))
  }

  lemma EndReadsBack(tail: seq<Line>, d: Draft)
    requires EndsHere(tail)
    ensures Body(tail, d) == (Ok(d), if tail == [] then [] else tail[1..])
  {
    if tail != [] {
      var rest := tail[1..];
      assert rest[0] == tail[1];
      assert Body(rest, d) == (Ok(d), rest);
    }
  }

  lemma SkipBlank(tail: seq<Line>, task: Option<nat>, step: Option<nat>, acc: seq<Attempt>, commandOf: Command)
    requires EndsHere(tail)
    ensures tail != [] ==>
              Parse(tail, Place(task, step, acc), commandOf) == Parse(tail[1..], Place(task, step, acc), commandOf)
  {
  }

  lemma {:induction false} HeadingReadsBack(a: Attempt, acc: seq<Attempt>, tail: seq<Line>, commandOf: Command)
    requires EndsHere(tail) && Invalid(a.content).None? && ProofsMatch(a.content)
             && a.number == Count(acc, a.task, a.step) + 1
    ensures Parse([Line(false, AttemptHeading(Some(a.number)))]
            + AttemptBody(a.content, tail), Place(Some(a.task), Some(a.step), acc), commandOf)
         == Parse(tail, Place(Some(a.task), Some(a.step), acc + [Reread(a, commandOf)]), commandOf)
  {
    var body := AttemptBody(a.content, tail);
    var lines := [Line(false, AttemptHeading(Some(a.number)))] + body;
    assert lines[1..] == body;
    AttemptReadsBack(a.content, tail);
    EndReadsBack(tail, Written(a.content));
    WrittenStaysValid(a.content);
    SkipBlank(tail, Some(a.task), Some(a.step), acc + [Reread(a, commandOf)], commandOf);
  }

  lemma {:induction false} CountMore(acc: seq<Attempt>, a: Attempt, task: nat, step: nat)
    ensures Count(acc + [a], task, step) == Count(acc, task, step) + (if a.task == task && a.step == step then 1 else 0)
  {
    assert (acc + [a])[..|acc|] == acc;
  }

  /** Valid attempts of one step, numbered on from `next`. */
  ghost predicate Consecutive(attempts: seq<Attempt>, id: (nat, nat), next: nat) {
    forall j :: 0 <= j < |attempts| ==>
      var a := attempts[j];
      (a.task, a.step) == id && a.number == next + j && Invalid(a.content).None? && ProofsMatch(a.content)
  }

  lemma {:induction false} NextReadsBack(a: Attempt, acc: seq<Attempt>, tail: seq<Line>, commandOf: Command)
    requires EndsHere(tail) && Invalid(a.content).None? && ProofsMatch(a.content)
             && a.number == Count(acc, a.task, a.step) + 1
    ensures var lines := [Line(false, Blank), Line(false, AttemptHeading(Some(a.number)))]
            + AttemptBody(a.content, tail);
            EndsHere(lines) && Parse(lines, Place(Some(a.task), Some(a.step), acc), commandOf)
                            == Parse(tail, Place(Some(a.task), Some(a.step), acc + [Reread(a, commandOf)]), commandOf)
  {
    var lines := [Line(false, Blank), Line(false, AttemptHeading(Some(a.number)))] + AttemptBody(a.content, tail);
    assert lines[1..] == [Line(false, AttemptHeading(Some(a.number)))] + AttemptBody(a.content, tail);
    HeadingReadsBack(a, acc, tail, commandOf);
    SkipBlank(lines, Some(a.task), Some(a.step), acc, commandOf);
  }

  lemma {:induction false} RereadNext(attempts: seq<Attempt>, acc: seq<Attempt>, commandOf: Command)
    requires attempts != []
    ensures (acc + [Reread(attempts[0], commandOf)]) + RereadAll(attempts[1..], commandOf) ==
            acc + RereadAll(attempts, commandOf)
  {
  }

  lemma {:induction false} ConsecutiveNext(attempts: seq<Attempt>, id: (nat, nat), acc: seq<Attempt>,
      commandOf: Command)
    requires attempts != [] && Consecutive(attempts, id, Count(acc, id.0, id.1) + 1)
    ensures Consecutive(attempts[1..], id, Count(acc + [Reread(attempts[0], commandOf)], id.0, id.1) + 1)
  {
    CountMore(acc, Reread(attempts[0], commandOf), id.0, id.1);
    var rest := attempts[1..];
    assert forall j :: 0 <= j < |rest| ==> rest[j] == attempts[j + 1];
  }

  lemma {:induction false} AttemptsReadBack(attempts: seq<Attempt>, id: (nat, nat), acc: seq<Attempt>,
      tail: seq<Line>, commandOf: Command)
    requires EndsHere(tail) && Consecutive(attempts, id, Count(acc, id.0, id.1) + 1)
    ensures EndsHere(AttemptLines(attempts, tail))
    ensures Parse(AttemptLines(attempts, tail), Place(Some(id.0), Some(id.1), acc), commandOf)
         == Parse(tail, Place(Some(id.0), Some(id.1), acc + RereadAll(attempts, commandOf)), commandOf)
    decreases attempts
  {
    if attempts == [] {
      assert acc + RereadAll(attempts, commandOf) == acc;
    } else {
      ConsecutiveNext(attempts, id, acc, commandOf);
      RereadNext(attempts, acc, commandOf);
      AttemptsReadBack(attempts[1..], id, acc + [Reread(attempts[0], commandOf)], tail, commandOf);
      NextReadsBack(attempts[0], acc, AttemptLines(attempts[1..], tail), commandOf);
    }
  }

  lemma {:induction false} OfIsConsecutive(attempts: seq<Attempt>, id: (nat, nat))
    requires WellNumbered(attempts)
    ensures Consecutive(Of(attempts, id), id, 1) && |Of(attempts, id)| == Count(attempts, id.0, id.1)
  {
    if attempts != [] {
      var n := |attempts| - 1;
      NumberedFront(attempts);
      OfIsConsecutive(attempts[..n], id);
      if (attempts[n].task, attempts[n].step) == id {
        ConsecutiveMore(Of(attempts[..n], id), id, attempts[n]);
      }
    }
  }

  lemma {:induction false} NumberedFront(attempts: seq<Attempt>)
    requires attempts != [] && WellNumbered(attempts)
    ensures var n := |attempts| - 1;
            && WellNumbered(attempts[..n]) && attempts[n].number ==
                Count(attempts[..n], attempts[n].task, attempts[n].step) + 1
            && Invalid(attempts[n].content).None? && ProofsMatch(attempts[n].content)
  {
    var n := |attempts| - 1;
    var rest := attempts[..n];
    forall i | 0 <= i < n
      ensures var a := rest[i];
              && a.number == Count(rest[..i], a.task, a.step) + 1
              && a.content.files != [] && ProofsMatch(a.content) && Invalid(a.content).None?
    {
      assert attempts[..i] == rest[..i] && attempts[i] == rest[i];
    }
  }

  lemma {:induction false} ConsecutiveMore(own: seq<Attempt>, id: (nat, nat), a: Attempt)
    requires Consecutive(own, id, 1) && (a.task, a.step) == id && a.number == |own| + 1
    requires Invalid(a.content).None? && ProofsMatch(a.content)
    ensures Consecutive(own + [a], id, 1)
  {
    assert forall j :: 0 <= j < |own| ==> (own + [a])[j] == own[j];
  }

  lemma {:induction false} CountOthers(acc: seq<Attempt>, attempts: seq<Attempt>, id: (nat, nat), task: nat,
      step: nat, commandOf: Command)
    requires (forall j :: 0 <= j < |attempts| ==> (attempts[j].task, attempts[j].step) == id) && id != (task, step)
    ensures Count(acc + RereadAll(attempts, commandOf), task, step) == Count(acc, task, step)
    decreases attempts
  {
    if attempts == [] {
      assert acc + RereadAll(attempts, commandOf) == acc;
    } else {
      var b := Reread(attempts[0], commandOf);
      CountMore(acc, b, task, step);
      CountOthers(acc + [b], attempts[1..], id, task, step, commandOf);
      RereadNext(attempts, acc, commandOf);
    }
  }

  lemma {:induction false} StepLinesEnd(steps: seq<(nat, nat)>, attempts: seq<Attempt>)
    ensures EndsHere(StepLines(steps, attempts))
  {
    if steps != [] && Of(attempts, steps[0]) == [] {
      StepLinesEnd(steps[1..], attempts);
    }
  }

  lemma {:induction false} RereadAllConcat(xs: seq<Attempt>, ys: seq<Attempt>, commandOf: Command)
    ensures RereadAll(xs + ys, commandOf) == RereadAll(xs, commandOf) + RereadAll(ys, commandOf)
  {
    if xs == [] {
      assert xs + ys == ys;
    } else {
      assert (xs + ys)[1..] == xs[1..] + ys;
      RereadAllConcat(xs[1..], ys, commandOf);
    }
  }

  /** One step's heading and attempts. */
  lemma {:induction false} StepReadsBack(id: (nat, nat), own: seq<Attempt>, tail: seq<Line>, task: Option<nat>,
      step: Option<nat>, acc: seq<Attempt>, commandOf: Command)
    requires own != [] && EndsHere(tail) && Consecutive(own, id, 1) && Count(acc, id.0, id.1) == 0
    ensures var heading := [Line(false, Blank), Line(false, TaskHeading(Some((Some(id.0), Some(id.1)))))];
            Parse(heading + AttemptLines(own, tail)[1..], Place(task, step, acc), commandOf)
            == Parse(tail, Place(Some(id.0), Some(id.1), acc + RereadAll(own, commandOf)), commandOf)
  {
    var lines := AttemptLines(own, tail);
    var heading := [Line(false, Blank), Line(false, TaskHeading(Some((Some(id.0), Some(id.1)))))];
    var all := heading + lines[1..];
    AttemptsReadBack(own, id, acc, tail, commandOf);
    SkipBlank(lines, Some(id.0), Some(id.1), acc, commandOf);
    assert all[1..][1..] == lines[1..];
    assert all[1..][0] == heading[1];
    SkipBlank(all, task, step, acc, commandOf);
  }

  lemma {:induction false} CountRest(steps: seq<(nat, nat)>, own: seq<Attempt>, acc: seq<Attempt>, commandOf: Command)
    requires Distinct(steps) && steps != [] && forall id :: id in steps ==> Count(acc, id.0, id.1) == 0
    requires forall j :: 0 <= j < |own| ==> (own[j].task, own[j].step) == steps[0]
    ensures Distinct(steps[1..])
    ensures forall id :: id in steps[1..] ==> Count(acc + RereadAll(own, commandOf), id.0, id.1) == 0
  {
    forall other | other in steps[1..]
      ensures Count(acc + RereadAll(own, commandOf), other.0, other.1) == 0
    {
      assert other in steps && other != steps[0];
      CountOthers(acc, own, steps[0], other.0, other.1, commandOf);
    }
  }

  lemma {:induction false} RereadGroup(own: seq<Attempt>, rest: seq<Attempt>, acc: seq<Attempt>, commandOf: Command)
    ensures (acc + RereadAll(own, commandOf)) + RereadAll(rest, commandOf) == acc + RereadAll(own + rest, commandOf)
  {
    RereadAllConcat(own, rest, commandOf);
  }

  lemma {:induction false} StepsReadBack(steps: seq<(nat, nat)>, attempts: seq<Attempt>, task: Option<nat>,
      step: Option<nat>, acc: seq<Attempt>, commandOf: Command)
    requires Distinct(steps) && WellNumbered(attempts)
    requires forall id :: id in steps ==> Count(acc, id.0, id.1) == 0
    ensures Parse(StepLines(steps, attempts), Place(task, step, acc), commandOf) ==
            Ok(acc + RereadAll(Grouped(steps, attempts), commandOf))
    decreases steps
  {
    if steps == [] {
      assert acc + RereadAll(Grouped(steps, attempts), commandOf) == acc;
    } else {
      var id, rest := steps[0], steps[1..];
      var own := Of(attempts, id);
      OfIsConsecutive(attempts, id);
      var more := acc + RereadAll(own, commandOf);
      CountRest(steps, own, acc, commandOf);
      RereadGroup(own, Grouped(rest, attempts), acc, commandOf);
      if own == [] {
        assert more == acc;
        StepsReadBack(rest, attempts, task, step, acc, commandOf);
      } else {
        StepLinesEnd(rest, attempts);
        assert id in steps;
        StepReadsBack(id, own, StepLines(rest, attempts), task, step, acc, commandOf);
        StepsReadBack(rest, attempts, Some(id.0), Some(id.1), more, commandOf);
      }
    }
  }

  lemma {:induction false} SkipHeader(lines: seq<Line>, tail: seq<Line>, commandOf: Command)
    requires forall i :: 0 <= i < |lines| ==> var s := lines[i].shape; s.OtherHeading? || s.OtherBold? || s.Blank?
    ensures Parse(lines + tail, START, commandOf) == Parse(tail, START, commandOf)
  {
    if lines == [] {
      assert lines + tail == tail;
    } else {
      assert (lines + tail)[1..] == lines[1..] + tail;
      SkipHeader(lines[1..], tail, commandOf);
    }
  }

  lemma {:induction false} SkipDocumentHeader(tail: seq<Line>, commandOf: Command)
    ensures Parse(HEADER + tail, START, commandOf) == Parse(tail, START, commandOf)
  {
    SkipHeader(HEADER, tail, commandOf);
  }

  /** The parser accepts every document written for well-numbered evidence, and reads from it the
      attempts of the plan's steps, in plan order, as they were written. */
  lemma {:induction false} DocumentReadsBack(steps: seq<(nat, nat)>, attempts: seq<Attempt>, commandOf: Command)
    requires Distinct(steps) && WellNumbered(attempts)
    ensures Parse(Document(steps, attempts), START, commandOf) == Ok(RereadAll(Grouped(steps, attempts), commandOf))
  {
    var all := RereadAll(Grouped(steps, attempts), commandOf);
    assert [] + all == all;
    StepsReadBack(steps, attempts, None, None, [], commandOf);
    SkipDocumentHeader(StepLines(steps, attempts), commandOf);
  }

  // ---------------------------------------------------------------------------------------
  // Every valid attempt is read from some document

  function PlainLists(d: Draft): seq<Line> {
    [Line(false, CriteriaMarker)]
    + CriterionBullets(d.criteria, [Line(false, FilesProvenMarker)] + ProofBullets(d.proofs, []))
  }

  /** The fields that are present, the criteria and the files, with nothing made up. */
  function PlainBody(d: Draft): seq<Line> {
    var m := d.fields;
    Scalars(BEFORE_NUMBERS, m,
      Scalars(BEFORE_CRITERIA, m, Scalars(BEFORE_FILES, m, Scalars(AFTER_FILES, m, PlainLists(d)))))
  }

  function PlainDocument(d: Draft): seq<Line> {
    [Line(false, TaskHeading(Some((Some(1), Some(1))))), Line(false, AttemptHeading(Some(1)))] + PlainBody(d)
  }

  lemma {:induction false} ReadPlainLists(d: Draft, e: Draft)
    requires e.files == [] && e.proofs == [] && e.criteria == [] && ProofsMatch(d)
    ensures Body(PlainLists(d), e) == (Ok(e.(criteria := d.criteria, files := d.files, proofs := d.proofs)), [])
  {
    var files := [Line(false, FilesProvenMarker)] + ProofBullets(d.proofs, []);
    var f := e.(criteria := d.criteria);
    assert Body(PlainLists(d), e) == Body(files, f) by {
      ReadCriterionBullets(d.criteria, files, []);
      assert [] + d.criteria == d.criteria;
      assert PlainLists(d)[1..] == CriterionBullets(d.criteria, files);
    }
    ReadPlainFiles(d, f);
  }

  lemma {:induction false} ReadPlainFiles(d: Draft, e: Draft)
    requires e.files == [] && e.proofs == [] && ProofsMatch(d)
    ensures Body([Line(false, FilesProvenMarker)] + ProofBullets(d.proofs, []), e)
         == (Ok(e.(files := d.files, proofs := d.proofs)), [])
  {
    var lines := [Line(false, FilesProvenMarker)] + ProofBullets(d.proofs, []);
    PathsAreFiles(d.files, d.proofs);
    ReadProofBullets(d.proofs, [], e);
    assert lines[1..] == ProofBullets(d.proofs, []);
    assert [] + d.files == d.files && [] + d.proofs == d.proofs;
  }

  lemma {:induction false} ReadPlainBody(d: Draft)
    requires ProofsMatch(d)
    ensures Body(PlainBody(d), EMPTY) == (Ok(d), [])
  {
    var m := d.fields;
    var lists := PlainLists(d);
    var last := Scalars(AFTER_FILES, m, lists);
    var third := Scalars(BEFORE_FILES, m, last);
    var m1 := Filled(map[], BEFORE_NUMBERS, m);
    var m2 := Filled(m1, BEFORE_CRITERIA, m);
    var m3 := Filled(m2, BEFORE_FILES, m);
    ReadScalars(BEFORE_NUMBERS, m, Scalars(BEFORE_CRITERIA, m, third), EMPTY);
    ReadScalars(BEFORE_CRITERIA, m, third, EMPTY.(fields := m1));
    ReadScalars(BEFORE_FILES, m, last, EMPTY.(fields := m2));
    ReadScalars(AFTER_FILES, m, lists, EMPTY.(fields := m3));
    FieldsAreFilled(m);
    ReadPlainLists(d, EMPTY.(fields := m));
  }

  lemma {:induction false} ReadOnlyAttempt(body: seq<Line>, d: Draft, commandOf: Command)
    requires Body(body, EMPTY) == (Ok(d), []) && Invalid(d).None?
    ensures Parse([Line(false, AttemptHeading(Some(1)))] + body, Place(Some(1), Some(1), []), commandOf)
         == Ok([Attempt(1, 1, 1, WithCommand(d, commandOf))])
  {
    var a := Attempt(1, 1, 1, WithCommand(d, commandOf));
    var lines := [Line(false, AttemptHeading(Some(1)))] + body;
    assert lines[1..] == body;
    assert [] + [a] == [a];
    assert Parse([], Place(Some(1), Some(1), [a]), commandOf) == Ok([a]);
  }

  /** Every valid content, with or without the optional values, is what some document reads as. */
  lemma {:induction false} EveryAttemptIsRead(d: Draft, commandOf: Command)
    requires Invalid(d).None? && ProofsMatch(d)
    ensures Parse(PlainDocument(d), START, commandOf) == Ok([Attempt(1, 1, 1, WithCommand(d, commandOf))])
  {
    ReadPlainBody(d);
    var lines := PlainDocument(d);
    assert lines[1..] == [Line(false, AttemptHeading(Some(1)))] + PlainBody(d);
    ReadOnlyAttempt(PlainBody(d), d, commandOf);
  }

  const SAMPLE := Draft(
    map[Status := "Completed", RecordedAt := "t", ExecutionSource := EXECUTING_PLANS, Claim := "c",
        VerifyCommand := "v",
        VerificationSummary := "s", InvalidationReason := "N/A"],
    ["f"], [FileProof("f", "p")], [])

  /** An attempt read from a document without a packet fingerprint is written with one and read back so. */
  lemma {:induction false} AReadAttemptCanChange(commandOf: Command)
    ensures var a := Attempt(1, 1, 1, SAMPLE);
            && Parse(PlainDocument(SAMPLE), START, commandOf) == Ok([a])
            && Parse(Document([(1, 1)], [a]), START, commandOf) == Ok([Reread(a, commandOf)])
            && Reread(a, commandOf) != a && Reread(a, commandOf).content.fields[PacketFingerprint] == "unknown"
  {
    SampleIsValid();
    SampleHasNoPacket();
    EveryAttemptIsRead(SAMPLE, commandOf);
    UnknownPacket(Attempt(1, 1, 1, SAMPLE), commandOf);
    OneAttemptReadsBack(Attempt(1, 1, 1, SAMPLE), commandOf);
  }

  lemma {:induction false} UnknownPacket(a: Attempt, commandOf: Command)
    requires PacketFingerprint !in a.content.fields && VerifyCommand in a.content.fields
    ensures WithCommand(a.content, commandOf) == a.content && Reread(a, commandOf) != a
    ensures PacketFingerprint in Reread(a, commandOf).content.fields
    ensures Reread(a, commandOf).content.fields[PacketFingerprint] == "unknown"
  {
  }

  lemma {:induction false} SampleHasNoPacket()
    ensures PacketFingerprint !in SAMPLE.fields && VerifyCommand in SAMPLE.fields
  {
  }

  lemma {:induction false} SampleIsValid()
    ensures Invalid(SAMPLE).None? && ProofsMatch(SAMPLE)
  {
    assert TrimStart("t") == "t" && TrimEnd("t") == "t";
  }

  lemma {:induction false} OneAttemptReadsBack(a: Attempt, commandOf: Command)
    requires a.number == 1 && Invalid(a.content).None? && ProofsMatch(a.content)
    ensures Parse(Document([(a.task, a.step)], [a]), START, commandOf) == Ok([Reread(a, commandOf)])
  {
    var id: (nat, nat) := (a.task, a.step);
    var steps: seq<(nat, nat)> := [id];
    assert [a][..0] == [] && steps[1..] == [] && [a][1..] == [];
    assert Of([a], id) == [a] && Grouped(steps, [a]) == [a];
    assert RereadAll([a], commandOf) == [Reread(a, commandOf)];
    assert Count([], a.task, a.step) == 0;
    NumberedMore([], a);
    assert [] + [a] == [a];
    DocumentReadsBack(steps, [a], commandOf);
  }
}
