/** The plan sources that a fidelity review is accepted for. Approval rewrites the Workflow State
    header of the plan; a review recorded before the rewrite has to stay valid after it. */
module PlanIdentity {
  import opened Lists

  datatype Ending = Lf | CrLf | EndOfText

  /** One line with the way it ends. */
  datatype Segment = Segment(body: string, ending: Ending)

  datatype Plan = Plan(source: string, workflowState: string, lastReviewedBy: string)

  const DRAFT := "Draft"
  const APPROVED := "Engineering Approved"
  const WRITING_PLANS := "writing-plans"
  const ENG_REVIEW := "plan-eng-review"
  const STATE_HEADER := "**Workflow State:** "
  const REVIEWER_HEADER := "**Last Reviewed By:** "

  // ---------------------------------------------------------------------------------------
  // Lines

  function LineEnd(s: string): (n: nat)
    requires s != []
    ensures 0 < n <= |s| && (n < |s| ==> s[n - 1] == '\n')
    ensures forall i :: 0 <= i < n - 1 ==> s[i] != '\n'
  {
    if s[0] == '\n' || |s| == 1 then 1 else 1 + LineEnd(s[1..])
  }

  function SegmentOf(line: string): Segment
    requires line != []
  {
    var n := |line|;
    if line[n - 1] != '\n' then Segment(line, EndOfText)
    else if n >= 2 && line[n - 2] == '\r' then Segment(line[..n - 2], CrLf)
    else Segment(line[..n - 1], Lf)
  }

  function Segments(s: string): seq<Segment>
    decreases |s|
  {
    if s == [] then []
    else [SegmentOf(s[..LineEnd(s)])] + Segments(s[LineEnd(s)..])
  }

  function TextOf(seg: Segment): string {
    seg.body + match seg.ending case Lf => "\n" case CrLf => "\r\n" case EndOfText => ""
  }

  function Joined(segs: seq<Segment>): string {
    if segs == [] then [] else TextOf(segs[0]) + Joined(segs[1..])
  }

  ghost predicate WellFormedLine(seg: Segment, last: bool) {
    && '\n' !in seg.body
    && (seg.ending == Lf ==> seg.body == [] || seg.body[|seg.body| - 1] != '\r')
    && (seg.ending == EndOfText ==> last && seg.body != [])
  }

  ghost predicate WellFormed(segs: seq<Segment>) {
    forall i :: 0 <= i < |segs| ==> WellFormedLine(segs[i], i == |segs| - 1)
  }

  /** A line as `split_inclusive` cuts it: a line feed can only be its last character. */
  ghost predicate IsLine(line: string) {
    line != [] && forall i :: 0 <= i < |line| - 1 ==> line[i] != '\n'
  }

  lemma {:induction false} SegmentOfLine(line: string, last: bool)
    requires IsLine(line) && (line[|line| - 1] == '\n' || last)
    ensures TextOf(SegmentOf(line)) == line && WellFormedLine(SegmentOf(line), last)
  {
    var n := |line|;
    if line[n - 1] != '\n' {
      OpenLine(line);
    } else if n >= 2 && line[n - 2] == '\r' {
      CrLfLine(line);
    } else {
      LfLine(line);
    }
  }

  lemma {:induction false} OpenLine(line: string)
    requires IsLine(line) && line[|line| - 1] != '\n'
    ensures SegmentOf(line) == Segment(line, EndOfText) && TextOf(SegmentOf(line)) == line
    ensures WellFormedLine(SegmentOf(line), true)
  {
    assert line + "" == line;
  }

  lemma {:induction false} CrLfLine(line: string)
    requires IsLine(line) && |line| >= 2 && line[|line| - 1] == '\n' && line[|line| - 2] == '\r'
    ensures TextOf(SegmentOf(line)) == line && WellFormedLine(SegmentOf(line), false)
  {
    var body := line[..|line| - 2];
    assert forall i :: 0 <= i < |body| ==> body[i] == line[i];
    assert line == body + "\r\n";
  }

  lemma {:induction false} LfLine(line: string)
    requires IsLine(line) && line[|line| - 1] == '\n' && (|line| == 1 || line[|line| - 2] != '\r')
    ensures TextOf(SegmentOf(line)) == line && WellFormedLine(SegmentOf(line), false)
  {
    var body := line[..|line| - 1];
    assert forall i :: 0 <= i < |body| ==> body[i] == line[i];
    assert line == body + "\n";
  }

  lemma {:induction false} LineOfSegment(seg: Segment, last: bool)
    requires WellFormedLine(seg, last)
    ensures IsLine(TextOf(seg)) && SegmentOf(TextOf(seg)) == seg
    ensures TextOf(seg)[|TextOf(seg)| - 1] == '\n' || last
  {
    var line, n := TextOf(seg), |seg.body|;
    assert line[..n] == seg.body;
    forall i | 0 <= i < |line| - 1
      ensures line[i] != '\n'
    {
      if i < n {
        assert line[i] == seg.body[i] && seg.body[i] in seg.body;
      }
    }
    if seg.ending == EndOfText {
      assert line == seg.body && line[n - 1] in seg.body;
    }
  }

  lemma {:induction false} WellFormedCons(seg: Segment, rest: seq<Segment>)
    ensures WellFormed([seg] + rest) <==> WellFormedLine(seg, rest == []) && WellFormed(rest)
  {
    var segs := [seg] + rest;
    assert forall i :: 0 <= i < |rest| ==> segs[i + 1] == rest[i];
    if WellFormed(segs) {
      assert WellFormedLine(segs[0], 0 == |segs| - 1);
      forall i | 0 <= i < |rest|
        ensures WellFormedLine(rest[i], i == |rest| - 1)
      {
        assert WellFormedLine(segs[i + 1], i + 1 == |segs| - 1);
      }
    }
    if WellFormedLine(seg, rest == []) && WellFormed(rest) {
      forall i | 0 <= i < |segs|
        ensures WellFormedLine(segs[i], i == |segs| - 1)
      {
        if i > 0 {
          assert WellFormedLine(rest[i - 1], i - 1 == |rest| - 1);
        }
      }
    }
  }

  lemma {:induction false} FirstLine(s: string)
    requires s != []
    ensures var line, rest := s[..LineEnd(s)], s[LineEnd(s)..];
            TextOf(SegmentOf(line)) + rest == s && WellFormedLine(SegmentOf(line), rest == [])
  {
    var n := LineEnd(s);
    var line, rest := s[..n], s[n..];
    assert s == line + rest;
    SegmentOfLine(line, rest == []);
  }

  lemma {:induction false} FirstSegment(seg: Segment, segs: seq<Segment>, rest: string)
    requires WellFormed(segs) && Joined(segs) == rest && (rest == [] <==> segs == []) && WellFormedLine(seg, rest == [])
    ensures WellFormed([seg] + segs) && Joined([seg] + segs) == TextOf(seg) + rest
  {
    WellFormedCons(seg, segs);
    assert ([seg] + segs)[1..] == segs;
  }

  /** Cutting into lines and joining them again gives the text back, line endings included. */
  lemma {:induction false} SegmentsWellFormed(s: string)
    ensures WellFormed(Segments(s)) && Joined(Segments(s)) == s
    decreases |s|
  {
    if s != [] {
      var rest := s[LineEnd(s)..];
      SegmentsWellFormed(rest);
      FirstLine(s);
      FirstSegment(SegmentOf(s[..LineEnd(s)]), Segments(rest), rest);
    }
  }

  /** Conversely well-formed lines are what cutting their joined text yields. */
  lemma {:induction false} SegmentsOfJoined(segs: seq<Segment>)
    requires WellFormed(segs)
    ensures Segments(Joined(segs)) == segs
  {
    if segs != [] {
      var line, rest := TextOf(segs[0]), Joined(segs[1..]);
      assert segs == [segs[0]] + segs[1..];
      WellFormedCons(segs[0], segs[1..]);
      SegmentsOfJoined(segs[1..]);
      LineOfSegment(segs[0], segs[1..] == []);
      LineEndIs(line, rest);
      var s := line + rest;
      assert s[..|line|] == line && s[|line|..] == rest;
    }
  }

  lemma {:induction false} LineEndIs(line: string, rest: string)
    requires IsLine(line) && (line[|line| - 1] == '\n' || rest == [])
    ensures LineEnd(line + rest) == |line|
  {
    var s := line + rest;
    assert s[0] == line[0];
    if |line| > 1 {
      assert s[1..] == line[1..] + rest;
      LineEndIs(line[1..], rest);
    }
  }

  // ---------------------------------------------------------------------------------------
  // Headers

  function Value(prefix: string, body: string): Option<string> {
    if prefix <= body then Some(body[|prefix|..]) else None
  }

  /** The value of the first line that carries the header. */
  function Header(prefix: string, segs: seq<Segment>): Option<string> {
    if segs == [] then None
    else if Value(prefix, segs[0].body).Some? then Value(prefix, segs[0].body)
    else Header(prefix, segs[1..])
  }

  predicate ReviewerValid(state: string, reviewer: string) {
    (state == DRAFT && (reviewer == WRITING_PLANS || reviewer == ENG_REVIEW))
        || (state == APPROVED && reviewer == ENG_REVIEW)
  }

  /** The header part of reading a plan. */
  function Parse(source: string): Option<Plan> {
    var segs := Segments(source);
    var state, reviewer := Header(STATE_HEADER, segs), Header(REVIEWER_HEADER, segs);
    if state.None? || reviewer.None? || !ReviewerValid(state.value, reviewer.value) then None
    else Some(Plan(source, state.value, reviewer.value))
  }

  /** The first line equal to `from` replaced by `to`, its ending kept. */
  function ReplaceFirst(segs: seq<Segment>, from: string, to: string): seq<Segment> {
    if segs == [] then []
    else if segs[0].body == from then [segs[0].(body := to)] + segs[1..]
    else [segs[0]] + ReplaceFirst(segs[1..], from, to)
  }

  function SourceWithState(plan: Plan, state: string): string {
    Joined(ReplaceFirst(Segments(plan.source), STATE_HEADER + plan.workflowState, STATE_HEADER + state))
  }

  function AcceptedSources(plan: Plan): set<string> {
    {plan.source} + if plan.lastReviewedBy ==
        ENG_REVIEW then {SourceWithState(plan, DRAFT), SourceWithState(plan, APPROVED)} else {}
  }

  function AcceptedFingerprints(hash: string -> string, plan: Plan): set<string> {
    set s | s in AcceptedSources(plan) :: hash(s)
  }

  /** The source whose fingerprint is put in the review template. */
  function ReviewedSource(plan: Plan): string {
    if plan.lastReviewedBy == ENG_REVIEW then SourceWithState(plan, APPROVED) else plan.source
  }

  // ---------------------------------------------------------------------------------------
  // The header line

  /** The line of the first header with this prefix. */
  lemma {:induction false} HeaderLine(prefix: string, segs: seq<Segment>) returns (k: nat)
    requires Header(prefix, segs).Some?
    ensures k < |segs| && segs[k].body == prefix + Header(prefix, segs).value
    ensures forall i :: 0 <= i < k ==> Value(prefix, segs[i].body).None?
  {
    if Value(prefix, segs[0].body).Some? {
      k := 0;
    } else {
      var j := HeaderLine(prefix, segs[1..]);
      k := j + 1;
      forall i | 0 <= i < k
        ensures Value(prefix, segs[i].body).None?
      {
        if i > 0 {
          assert segs[i] == segs[1..][i - 1];
        }
      }
    }
  }

  lemma {:induction false} HeaderAt(prefix: string, segs: seq<Segment>, k: nat)
    requires k < |segs| && Value(prefix, segs[k].body).Some?
    requires forall i :: 0 <= i < k ==> Value(prefix, segs[i].body).None?
    ensures Header(prefix, segs) == Value(prefix, segs[k].body)
  {
    if k > 0 {
      HeaderAt(prefix, segs[1..], k - 1);
    }
  }

  /** The line replaced is the header line itself, whatever lines come before and after it. */
  lemma {:induction false} ReplaceAt(segs: seq<Segment>, k: nat, from: string, to: string)
    requires k < |segs| && segs[k].body == from
    requires forall i :: 0 <= i < k ==> segs[i].body != from
    ensures ReplaceFirst(segs, from, to) == segs[k := segs[k].(body := to)]
  {
    if k > 0 {
      ReplaceAt(segs[1..], k - 1, from, to);
      assert segs[k := segs[k].(body := to)] == [segs[0]] + segs[1..][k - 1 := segs[k].(body := to)];
    }
  }

  lemma {:induction false} OtherHeaderUnchanged(prefix: string, segs: seq<Segment>, k: nat, body: string)
    requires k < |segs| && Value(prefix, segs[k].body).None? && Value(prefix, body).None?
    ensures Header(prefix, segs[k := segs[k].(body := body)]) == Header(prefix, segs)
  {
    var changed := segs[k := segs[k].(body := body)];
    if k > 0 {
      OtherHeaderUnchanged(prefix, segs[1..], k - 1, body);
      assert changed[1..] == segs[1..][k - 1 := segs[k].(body := body)];
    } else {
      assert changed[1..] == segs[1..];
    }
  }

  lemma {:induction false} HeaderText(state: string)
    requires state == DRAFT || state == APPROVED
    ensures '\n' !in STATE_HEADER + state && '\r' !in STATE_HEADER + state
    ensures Value(STATE_HEADER, STATE_HEADER + state) == Some(state)
    ensures Value(REVIEWER_HEADER, STATE_HEADER + state).None?
  {
    var body := STATE_HEADER + state;
    assert body[2] == 'W' && REVIEWER_HEADER[2] == 'L';
  }

  /** For a parsed plan: the source is its lines with the header at line `k`, and rewriting the state
      rewrites exactly that line. */
  lemma {:induction false} RewriteIsOneLine(plan: Plan, state: string) returns (k: nat)
    requires Parse(plan.source) == Some(plan)
    requires state == DRAFT || state == APPROVED
    ensures var segs := Segments(plan.source);
            && k < |segs| && segs[k].body == STATE_HEADER + plan.workflowState
            && (forall i :: 0 <= i < k ==> Value(STATE_HEADER, segs[i].body).None?)
            && Segments(SourceWithState(plan, state)) == segs[k := segs[k].(body := STATE_HEADER + state)]
            && SourceWithState(plan, state) == Joined(segs[k := segs[k].(body := STATE_HEADER + state)])
  {
    var segs := Segments(plan.source);
    k := HeaderLine(STATE_HEADER, segs);
    var from, to := STATE_HEADER + plan.workflowState, STATE_HEADER + state;
    HeaderText(plan.workflowState);
    HeaderText(state);
    ReplaceAt(segs, k, from, to);
    SegmentsWellFormed(plan.source);
    var changed := segs[k := segs[k].(body := to)];
    forall i | 0 <= i < |changed|
      ensures WellFormedLine(changed[i], i == |changed| - 1)
    {
      assert WellFormedLine(segs[i], i == |segs| - 1);
    }
    SegmentsOfJoined(changed);
  }

  // ---------------------------------------------------------------------------------------
  // Approval keeps the accepted set

  /** Rewriting the state to what it already is changes nothing. */
  lemma {:induction false} RewriteToSame(plan: Plan)
    requires Parse(plan.source) == Some(plan)
    ensures SourceWithState(plan, plan.workflowState) == plan.source
  {
    var k := RewriteIsOneLine(plan, plan.workflowState);
    var segs := Segments(plan.source);
    assert segs[k := segs[k].(body := STATE_HEADER + plan.workflowState)] == segs;
    SegmentsWellFormed(plan.source);
  }

  function Flipped(plan: Plan, state: string): Plan {
    Plan(SourceWithState(plan, state), state, plan.lastReviewedBy)
  }

  /** A rewritten plan of an engineering review parses again, to the same reviewer and the new state. */
  lemma {:induction false} FlippedParses(plan: Plan, state: string)
    requires Parse(plan.source) == Some(plan) && plan.lastReviewedBy == ENG_REVIEW
    requires state == DRAFT || state == APPROVED
    ensures Parse(SourceWithState(plan, state)) == Some(Flipped(plan, state))
  {
    var k := RewriteIsOneLine(plan, state);
    var segs := Segments(plan.source);
    var to := STATE_HEADER + state;
    var changed := segs[k := segs[k].(body := to)];
    HeaderText(state);
    HeaderText(plan.workflowState);
    HeaderAt(STATE_HEADER, changed, k);
    OtherHeaderUnchanged(REVIEWER_HEADER, segs, k, to);
  }

  /** Rewriting twice is rewriting once. */
  lemma {:induction false} RewriteTwice(plan: Plan, first: string, second: string)
    requires Parse(plan.source) == Some(plan) && plan.lastReviewedBy == ENG_REVIEW
    requires (first == DRAFT || first == APPROVED) && (second == DRAFT || second == APPROVED)
    ensures SourceWithState(Flipped(plan, first), second) == SourceWithState(plan, second)
  {
    FlippedParses(plan, first);
    var k := RewriteIsOneLine(plan, first);
    var k' := RewriteIsOneLine(plan, second);
    var j := RewriteIsOneLine(Flipped(plan, first), second);
    var segs := Segments(plan.source);
    var changed := Segments(SourceWithState(plan, first));
    HeaderText(plan.workflowState);
    HeaderText(first);
    assert Value(STATE_HEADER, segs[k].body).Some? && Value(STATE_HEADER, segs[k'].body).Some?;
    assert k == k';
    assert Value(STATE_HEADER, changed[j].body).Some? && Value(STATE_HEADER, changed[k].body).Some?;
    assert j == k;
    assert changed[k := changed[k].(body := STATE_HEADER + second)] ==
        segs[k := segs[k].(body := STATE_HEADER + second)];
  }

  /** For every parsed plan last reviewed by the engineering review, moving its header between Draft
      and Engineering Approved leaves the set of accepted sources, and so of fingerprints, unchanged. */
  lemma {:induction false} ApprovalKeepsAccepted(plan: Plan, state: string)
    requires Parse(plan.source) == Some(plan) && plan.lastReviewedBy == ENG_REVIEW
    requires state == DRAFT || state == APPROVED
    ensures Parse(SourceWithState(plan, state)) == Some(Flipped(plan, state))
    ensures AcceptedSources(Flipped(plan, state)) == AcceptedSources(plan)
    ensures forall hash: string -> string ::
              AcceptedFingerprints(hash, Flipped(plan, state)) == AcceptedFingerprints(hash, plan)
  {
    FlippedParses(plan, state);
    RewriteToSame(plan);
    RewriteTwice(plan, state, DRAFT);
    RewriteTwice(plan, state, APPROVED);
    assert AcceptedSources(plan) == {SourceWithState(plan, DRAFT), SourceWithState(plan, APPROVED)};
  }

  /** The rewrite keeps every line ending and every other line. */
  lemma {:induction false} RewriteKeepsEndings(plan: Plan, state: string) returns (k: nat)
    requires Parse(plan.source) == Some(plan)
    requires state == DRAFT || state == APPROVED
    ensures |Segments(SourceWithState(plan, state))| == |Segments(plan.source)|
    ensures forall i :: 0 <= i < |Segments(plan.source)| ==>
              && Segments(SourceWithState(plan, state))[i].ending == Segments(plan.source)[i].ending
              && (i != k ==> Segments(SourceWithState(plan, state))[i] == Segments(plan.source)[i])
  {
    k := RewriteIsOneLine(plan, state);
    var before, after := Segments(plan.source), Segments(SourceWithState(plan, state));
    forall i | 0 <= i < |before|
      ensures after[i].ending == before[i].ending && (i != k ==> after[i] == before[i])
    {
    }
  }

  /** The template never asks for a fingerprint that the check would refuse. */
  lemma {:induction false} TemplateIsAccepted(plan: Plan)
    ensures ReviewedSource(plan) in AcceptedSources(plan)
  {
  }

  /** A source is a plan exactly when its first headers name one of the three accepted combinations. */
  lemma ParseExactly(source: string, plan: Plan)
    ensures Parse(source) == Some(plan) <==>
            && plan.source == source
            && Header("**Workflow State:** ", Segments(source)) == Some(plan.workflowState)
            && Header("**Last Reviewed By:** ", Segments(source)) == Some(plan.lastReviewedBy)
            && ((plan.workflowState == "Draft" && plan.lastReviewedBy in {"writing-plans", "plan-eng-review"})
                || (plan.workflowState == "Engineering Approved" && plan.lastReviewedBy == "plan-eng-review"))
  {
  }

  /** For the engineering review exactly the two rewritten sources are accepted, one of which is its own. */
  lemma {:induction false} AcceptedExactly(plan: Plan, source: string)
    requires Parse(plan.source) == Some(plan) && plan.lastReviewedBy == "plan-eng-review"
    ensures source in AcceptedSources(plan) <==>
            source == SourceWithState(plan, "Draft") || source == SourceWithState(plan, "Engineering Approved")
    ensures ReviewedSource(plan) == SourceWithState(plan, "Engineering Approved")
  {
    RewriteToSame(plan);
  }

  /** Only the engineering review has this tolerance: for any other reviewer a source is accepted
      exactly when it is the plan's own. */
  lemma {:induction false} OthersAcceptOnlyOwnSource(plan: Plan, source: string)
    requires plan.lastReviewedBy != ENG_REVIEW
    ensures source in AcceptedSources(plan) <==> source == plan.source
  {
  }

  /** What the lines still to be read come to. */
  function Remaining(segs: seq<Segment>, from: string, to: string, replaced: bool): seq<Segment> {
    if replaced then segs else ReplaceFirst(segs, from, to)
  }

  function Rewritten(seg: Segment, from: string, to: string, replaced: bool): Segment {
    if !replaced && seg.body == from then seg.(body := to) else seg
  }

  lemma {:induction false} RemainingNext(written: seq<Segment>, segs: seq<Segment>, i: nat, from: string, to: string,
      replaced: bool)
    requires i < |segs|
    ensures written + Remaining(segs[i..], from, to, replaced)
         == (written + [Rewritten(segs[i], from, to, replaced)])
            + Remaining(segs[i + 1..], from, to, replaced || segs[i].body == from)
  {
    assert segs[i..] == [segs[i]] + segs[i + 1..];
    assert segs[i..][1..] == segs[i + 1..];
    var seg := Rewritten(segs[i], from, to, replaced);
    assert Remaining(segs[i..], from, to, replaced)
        == [seg] + Remaining(segs[i + 1..], from, to, replaced || segs[i].body == from);
  }

  /** The rewriting loop over the lines, with its flag. */
  method RewriteLines(segs: seq<Segment>, from: string, to: string) returns (output: string, replaced: bool)
    ensures output == Joined(ReplaceFirst(segs, from, to))
    ensures !replaced ==> ReplaceFirst(segs, from, to) == segs
  {
    output, replaced := "", false;
    ghost var written: seq<Segment>, whole := [], ReplaceFirst(segs, from, to);
    assert segs[0..] == segs && written + whole == whole;
    for i := 0 to |segs|
      invariant output == Joined(written)
      invariant whole == written + Remaining(segs[i..], from, to, replaced)
      invariant !replaced ==> written == segs[..i]
    {
      RemainingNext(written, segs, i, from, to, replaced);
      var seg := Rewritten(segs[i], from, to, replaced);
      replaced := replaced || segs[i].body == from;
      JoinedAppend(written, seg);
      output := output + TextOf(seg);
      written := written + [seg];
    }
    assert segs[|segs|..] == [] && written + [] == written;
  }

  method PlanSourceWithWorkflowState(plan: Plan, state: string) returns (rewritten: string)
    ensures rewritten == SourceWithState(plan, state)
  {
    var output, replaced := RewriteLines(Segments(plan.source), STATE_HEADER + plan.workflowState, STATE_HEADER
        + state);
    if replaced {
      rewritten := output;
    } else {
      SegmentsWellFormed(plan.source);
      rewritten := plan.source;
    }
  }

  lemma {:induction false} JoinedAppend(segs: seq<Segment>, seg: Segment)
    ensures Joined(segs + [seg]) == Joined(segs) + TextOf(seg)
  {
    if segs == [] {
      assert segs + [seg] == [seg];
      assert Joined([seg]) == TextOf(seg) + Joined([]);
    } else {
      JoinedAppend(segs[1..], seg);
      assert (segs + [seg])[1..] == segs[1..] + [seg];
    }
  }
}
