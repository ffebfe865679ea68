/** Contract rendering is a normal form: marks, notes and the execution mode do not show, and rendering
    again changes nothing. */
module NormalForm {
  import opened Lists
  import opened TaskContract
  import opened ContractRender

  // ---------------------------------------------------------------------------------------
  // Known steps do not depend on marks or on text the shapes leave out

  predicate AlikeLine(a: Line, b: Line) {
    && a.indent == b.indent
    && (a.shape == b.shape
        || (a.shape.Step? && b.shape.Step? && a.shape.number == b.shape.number && a.shape.title == b.shape.title))
  }

  ghost predicate Alike(xs: seq<Line>, ys: seq<Line>) {
    |xs| == |ys| && forall i :: 0 <= i < |xs| ==> AlikeLine(xs[i], ys[i])
  }

  lemma {:induction false} UptoAlike(xs: seq<Line>, ys: seq<Line>)
    requires Alike(xs, ys)
    ensures Alike(Upto(xs), Upto(ys)) && Alike(Onward(xs), Onward(ys))
  {
    if xs != [] && !Head(xs[0]) {
      UptoAlike(xs[1..], ys[1..]);
    }
  }

  lemma {:induction false} MentionsAlike(xs: seq<Line>, ys: seq<Line>, p: Line -> bool)
    requires |xs| == |ys| && forall i :: 0 <= i < |xs| ==> p(xs[i]) == p(ys[i])
    ensures Mentions(xs, p) == Mentions(ys, p)
  {
    assert Mentions(xs, p) ==> exists i :: 0 <= i < |ys| && p(ys[i]);
    assert Mentions(ys, p) ==> exists i :: 0 <= i < |xs| && p(xs[i]);
  }

  lemma {:induction false} EntriesAlike(xs: seq<Line>, ys: seq<Line>, f: FieldName, collecting: bool)
    requires Alike(xs, ys)
    ensures EntriesOk(xs, f, collecting) == EntriesOk(ys, f, collecting)
    decreases xs
  {
    if xs != [] {
      EntriesAlike(xs[1..], ys[1..], f, true);
      EntriesAlike(xs[1..], ys[1..], f, false);
    }
  }

  lemma {:induction false} FieldsAlike(xs: seq<Line>, ys: seq<Line>)
    requires Alike(xs, ys)
    ensures FieldsOk(xs) == FieldsOk(ys)
  {
    MentionsAlike(xs, ys, (l: Line) => l.shape.Legacy?);
    MentionsAlike(xs, ys, (l: Line) => IsScalar(l, Goal));
    assert FieldsOrdered(xs) == FieldsOrdered(ys);
    ListAlike(xs, ys, Context);
    ListAlike(xs, ys, Constraints);
    ListAlike(xs, ys, DoneWhen);
  }

  lemma {:induction false} ListAlike(xs: seq<Line>, ys: seq<Line>, f: FieldName)
    requires Alike(xs, ys)
    ensures ListField(xs, f) == ListField(ys, f)
  {
    MentionsAlike(xs, ys, (l: Line) => IsExact(l, f));
    EntriesAlike(xs, ys, f, false);
  }

  lemma {:induction false} StructureAlike(xs: seq<Line>, ys: seq<Line>, c: Check)
    requires Alike(xs, ys)
    ensures StructureOk(c, xs) == StructureOk(c, ys)
    decreases xs
  {
    if xs != [] {
      assert CheckLine(c, xs[0]) == CheckLine(c, ys[0]);
      if CheckLine(c, xs[0]).Some? {
        StructureAlike(xs[1..], ys[1..], CheckLine(c, xs[0]).value);
      }
    }
  }

  lemma {:induction false} GatherAlike(xs: seq<Line>, ys: seq<Line>, g: Gather)
    requires Alike(xs, ys)
    ensures GatherAll(g, xs) == GatherAll(g, ys)
    decreases xs
  {
    if xs != [] {
      GatherAlike(xs[1..], ys[1..], GatherLine(g, xs[0]));
    }
  }

  lemma {:induction false} ValidAlike(xs: seq<Line>, ys: seq<Line>)
    requires Alike(xs, ys)
    ensures Valid(xs) == Valid(ys) && BlockSteps(xs) == BlockSteps(ys)
  {
    FieldsAlike(xs, ys);
    StructureAlike(xs, ys, UNCHECKED);
    GatherAlike(xs, ys, NOTHING);
  }

  ghost predicate AlikeBlocks(bs: seq<Block>, cs: seq<Block>) {
    |bs| == |cs| && forall i :: 0 <= i < |bs| ==> bs[i].number == cs[i].number && Alike(bs[i].body, cs[i].body)
  }

  lemma {:induction false} BlocksAlike(xs: seq<Line>, ys: seq<Line>)
    requires Alike(xs, ys)
    ensures AlikeBlocks(Blocks(xs), Blocks(ys))
    decreases |xs|
  {
    if xs != [] {
      if TaskHead(xs[0]) && xs[0].shape.task.Some? {
        UptoAlike(xs[1..], ys[1..]);
        BlocksAlike(Onward(xs[1..]), Onward(ys[1..]));
      } else {
        BlocksAlike(xs[1..], ys[1..]);
      }
    }
  }

  lemma {:induction false} MergedAlike(bs: seq<Block>, cs: seq<Block>)
    requires AlikeBlocks(bs, cs)
    ensures Merged(bs) == Merged(cs)
  {
    if bs != [] {
      var n := |bs| - 1;
      FrontAlike(bs, cs);
      MergedAlike(bs[..n], cs[..n]);
      ValidAlike(bs[n].body, cs[n].body);
      assert Tagged(bs[n].number, BlockSteps(bs[n].body)) == Tagged(cs[n].number, BlockSteps(cs[n].body));
    }
  }

  lemma {:induction false} FrontAlike(bs: seq<Block>, cs: seq<Block>)
    requires AlikeBlocks(bs, cs) && bs != []
    ensures AlikeBlocks(bs[..|bs| - 1], cs[..|bs| - 1])
  {
  }

  lemma {:induction false} SplitAlike(xs: seq<Line>, ys: seq<Line>)
    requires Alike(xs, ys)
    ensures SplitOk(xs) ==> SplitOk(ys)
  {
  }

  lemma {:induction false} KnownAlike(xs: seq<Line>, ys: seq<Line>)
    requires Alike(xs, ys)
    ensures KnownSteps(xs) == KnownSteps(ys)
  {
    SplitAlike(xs, ys);
    SplitAlike(ys, xs);
    BlocksAlike(xs, ys);
    MergedAlike(Blocks(xs), Blocks(ys));
  }

  // ---------------------------------------------------------------------------------------
  // What does not show

  /** The two plans differ only in the mark or spelling of steps the renderer normalises, in the value of
      execution mode lines, and in the text of lines it drops. */
  ghost predicate Twins(known: Known, s: State, xs: seq<Line>, ys: seq<Line>)
    decreases xs
  {
    |xs| == |ys| &&
    (xs != [] ==>
      && AlikeLine(xs[0], ys[0])
      && (xs[0] == ys[0] || Dropped(s, xs[0]) || Normalised(known, s, xs[0])
          || (xs[0].shape.ExecutionMode? && xs[0].indent == 0))
      && Twins(known, Next(known, s, xs[0]), xs[1..], ys[1..]))
  }

  lemma {:induction false} TwinsAlike(known: Known, s: State, xs: seq<Line>, ys: seq<Line>)
    requires Twins(known, s, xs, ys)
    ensures Alike(xs, ys)
    decreases xs
  {
    if xs != [] {
      TwinsAlike(known, Next(known, s, xs[0]), xs[1..], ys[1..]);
      assert xs == [xs[0]] + xs[1..] && ys == [ys[0]] + ys[1..];
    }
  }

  lemma {:induction false} TwinsRunAlike(known: Known, s: State, xs: seq<Line>, ys: seq<Line>)
    requires Twins(known, s, xs, ys)
    ensures Run(known, s, xs) == Run(known, s, ys)
    decreases xs
  {
    if xs != [] {
      assert Dropped(s, xs[0]) == Dropped(s, ys[0]) && Next(known, s, xs[0]) == Next(known, s, ys[0]);
      TwinsRunAlike(known, Next(known, s, xs[0]), xs[1..], ys[1..]);
    }
  }

  /** Flipping the marks of normalised steps, changing the execution mode or rewording notes leaves the
      rendering unchanged. */
  lemma {:induction false} ProgressDoesNotShow(xs: seq<Line>, ys: seq<Line>)
    requires Twins(KnownSteps(xs), INITIAL, xs, ys)
    ensures Render(xs) == Render(ys)
  {
    TwinsAlike(KnownSteps(xs), INITIAL, xs, ys);
    KnownAlike(xs, ys);
    TwinsRunAlike(KnownSteps(xs), INITIAL, xs, ys);
  }

  // ---------------------------------------------------------------------------------------
  // No more known steps

  ghost predicate NoMore(more: Known, known: Known) {
    forall id :: id in more ==> id in known && more[id] == known[id]
  }

  // ---------------------------------------------------------------------------------------
  // The blocks of the output are the rendered blocks

  function Start(task: nat): State {
    State(Some(task), false, false, false, None)
  }

  lemma {:induction false} UptoRun(known: Known, s: State, lines: seq<Line>)
    ensures Upto(Run(known, s, lines)) == Run(known, s, Upto(lines))
    ensures Onward(Run(known, s, lines)) == Run(known, INITIAL, Onward(lines))
    decreases lines
  {
    if lines != [] {
      var l, rest := lines[0], lines[1..];
      var run := Run(known, s, lines);
      var after := Run(known, Next(known, s, l), rest);
      if Head(l) {
        assert run == [l] + after;
      } else {
        UptoRun(known, Next(known, s, l), rest);
        assert Upto(lines)[0] == l && Upto(lines)[1..] == Upto(rest);
        if !Dropped(s, l) {
          assert run[0] == Emitted(known, s, l) && run[1..] == after;
        }
      }
    }
  }

  ghost predicate RenderedBlocks(known: Known, bs: seq<Block>, cs: seq<Block>) {
    |bs| == |cs| && forall i :: 0 <= i < |bs| ==>
        cs[i] == Block(bs[i].number, Run(known, Start(bs[i].number), bs[i].body))
  }

  lemma {:induction false} BlocksRun(known: Known, s: State, lines: seq<Line>)
    ensures RenderedBlocks(known, Blocks(lines), Blocks(Run(known, s, lines)))
    decreases |lines|
  {
    if lines != [] {
      var l, rest := lines[0], lines[1..];
      var run := Run(known, s, lines);
      var after := Run(known, Next(known, s, l), rest);
      if TaskHead(l) && l.shape.task.Some? {
        BlocksRun(known, INITIAL, Onward(rest));
        BlockRun(known, s, lines);
      } else {
        BlocksRun(known, Next(known, s, l), rest);
        if !Dropped(s, l) {
          assert run[0] == Emitted(known, s, l) && run[1..] == after;
        }
      }
    }
  }

  lemma {:induction false} BlockRun(known: Known, s: State, lines: seq<Line>)
    requires lines != [] && TaskHead(lines[0]) && lines[0].shape.task.Some?
    ensures var task, rest := lines[0].shape.task.value, lines[1..];
            Blocks(Run(known, s, lines)) == [Block(task, Run(known, Start(task), Upto(rest)))]
                + Blocks(Run(known, INITIAL, Onward(rest)))
  {
    var run := Run(known, s, lines);
    UptoRun(known, Next(known, s, lines[0]), lines[1..]);
    assert run[0] == lines[0] && run[1..] == Run(known, Next(known, s, lines[0]), lines[1..]);
  }

  lemma {:induction false} OnwardKeeps(lines: seq<Line>)
    ensures |Onward(lines)| <= |lines| && Onward(lines) == lines[|lines| - |Onward(lines)|..]
  {
    if lines != [] && !Head(lines[0]) {
      OnwardKeeps(lines[1..]);
      assert lines[1..][|lines[1..]| - |Onward(lines)|..] == lines[|lines| - |Onward(lines)|..];
    }
  }

  lemma SuffixSplits(lines: seq<Line>, n: nat)
    requires n <= |lines| && SplitOk(lines)
    ensures SplitOk(lines[n..])
  {
    var rest := lines[n..];
    assert forall i :: 0 <= i < |rest| ==> rest[i] == lines[n + i];
  }

  lemma {:induction false} AfterBlock(lines: seq<Line>) returns (n: nat)
    requires lines != []
    ensures 1 <= n <= |lines| && Onward(lines[1..]) == lines[n..]
  {
    OnwardKeeps(lines[1..]);
    n := |lines| - |Onward(lines[1..])|;
  }

  /** The heading of block `i`. */
  lemma {:induction false} BlockHead(lines: seq<Line>, i: nat) returns (at: nat)
    requires i < |Blocks(lines)|
    ensures at < |lines| && TaskHead(lines[at]) && lines[at].shape.task == Some(Blocks(lines)[i].number)
    decreases |lines|
  {
    if !(TaskHead(lines[0]) && lines[0].shape.task.Some?) {
      var below := BlockHead(lines[1..], i);
      at := below + 1;
    } else if i == 0 {
      at := 0;
    } else {
      var n := AfterBlock(lines);
      assert Blocks(lines)[i] == Blocks(lines[n..])[i - 1];
      var below := BlockHead(lines[n..], i - 1);
      at := n + below;
    }
  }

  lemma {:induction false} BlocksDistinct(lines: seq<Line>)
    requires SplitOk(lines)
    ensures DistinctTasks(Blocks(lines))
    decreases |lines|
  {
    if lines != [] {
      if TaskHead(lines[0]) && lines[0].shape.task.Some? {
        var n := AfterBlock(lines);
        var rest := lines[n..];
        SuffixSplits(lines, n);
        BlocksDistinct(rest);
        forall j | 0 <= j < |Blocks(rest)|
          ensures Blocks(rest)[j].number != lines[0].shape.task.value
        {
          var at := BlockHead(rest, j);
          assert rest[at] == lines[n + at];
        }
      } else {
        SuffixSplits(lines, 1);
        BlocksDistinct(lines[1..]);
      }
    }
  }

  // ---------------------------------------------------------------------------------------
  // Tasks without known steps are rendered as they are

  lemma {:induction false} UnknownStays(known: Known, s: State, lines: seq<Line>)
    requires !s.pending && s.note.None? && forall n: nat :: s.task.Some? ==> (s.task.value, n) !in known
    requires known == map[] || Upto(lines) == lines
    ensures Alike(lines, Run(known, s, lines))
    decreases lines
  {
    if lines != [] {
      var l, rest := lines[0], lines[1..];
      assert known != map[] ==> Upto(lines)[1..] == Upto(rest);
      UnknownStays(known, Next(known, s, l), rest);
      assert lines == [l] + rest;
    }
  }

  // ---------------------------------------------------------------------------------------
  // Dropping notes with paired fences does not change what is collected

  /** Every run of dropped lines that is followed by another line of the same block holds an even number
      of fences; `odd` says whether the current run holds an odd number so far. */
  predicate Balanced(known: Known, s: State, odd: bool, lines: seq<Line>)
    decreases lines
  {
    lines == [] ||
    if Dropped(s, lines[0]) then Balanced(known, Next(known, s, lines[0]), odd != lines[0].shape.Fence?, lines[1..])
    else (Head(lines[0]) || !odd) && Balanced(known, Next(known, s, lines[0]), false, lines[1..])
  }

  /** No dropped line is a fence. */
  predicate PlainNotes(known: Known, s: State, lines: seq<Line>)
    decreases lines
  {
    lines == [] || (!(Dropped(s, lines[0]) && lines[0].shape.Fence?)
        && PlainNotes(known, Next(known, s, lines[0]), lines[1..]))
  }

  lemma {:induction false} PlainIsBalanced(known: Known, s: State, lines: seq<Line>)
    requires PlainNotes(known, s, lines)
    ensures Balanced(known, s, false, lines)
    decreases lines
  {
    if lines != [] {
      PlainIsBalanced(known, Next(known, s, lines[0]), lines[1..]);
    }
  }

  lemma {:induction false} BalancedUpto(known: Known, s: State, odd: bool, lines: seq<Line>)
    requires Balanced(known, s, odd, lines)
    ensures Balanced(known, s, odd, Upto(lines)) && Balanced(known, INITIAL, false, Onward(lines))
    decreases lines
  {
    if lines != [] && !Head(lines[0]) {
      var l, rest := lines[0], lines[1..];
      BalancedUpto(known, Next(known, s, l), if Dropped(s, l) then odd != l.shape.Fence? else false, rest);
      assert Upto(lines)[0] == l && Upto(lines)[1..] == Upto(rest);
    }
  }

  lemma {:induction false} BlockBalanced(known: Known, s: State, odd: bool, lines: seq<Line>, i: nat)
    requires Balanced(known, s, odd, lines) && i < |Blocks(lines)|
    ensures Balanced(known, Start(Blocks(lines)[i].number), false, Blocks(lines)[i].body)
    decreases |lines|
  {
    var l, rest := lines[0], lines[1..];
    if TaskHead(l) && l.shape.task.Some? {
      BalancedUpto(known, Start(l.shape.task.value), false, rest);
      if i > 0 {
        BlockBalanced(known, INITIAL, false, Onward(rest), i - 1);
      }
    } else {
      BlockBalanced(known, Next(known, s, l), if Dropped(s, l) then odd != l.shape.Fence? else false, rest, i);
    }
  }

  /** `g` collects over the source, `h` over the rendering. */
  predicate SameUpToNote(s: State, odd: bool, g: Gather, h: Gather) {
    && g.files == h.files && g.sawStep == h.sawStep && g.steps == h.steps
    && g.fence == (h.fence != (odd && g.sawStep)) && (g.fence || h.fence ==> g.sawStep)
  }

  lemma {:induction false} GatherDropped(s: State, odd: bool, g: Gather, h: Gather, l: Line)
    requires SameUpToNote(s, odd, g, h) && Dropped(s, l)
    ensures SameUpToNote(s, odd != l.shape.Fence?, GatherLine(g, l), h)
  {
    assert !l.shape.Step? && !Marker(l, Files);
  }

  lemma {:induction false} GatherKept(known: Known, s: State, odd: bool, lines: seq<Line>, g: Gather, h: Gather)
    requires SameUpToNote(s, odd, g, h) && Balanced(known, s, odd, lines) && Upto(lines) == lines
    ensures GatherAll(g, lines).steps == GatherAll(h, Run(known, s, lines)).steps
    decreases lines
  {
    if lines != [] {
      var l, rest := lines[0], lines[1..];
      assert Upto(lines)[1..] == Upto(rest);
      if Dropped(s, l) {
        GatherDropped(s, odd, g, h, l);
        GatherKept(known, Next(known, s, l), odd != l.shape.Fence?, rest, GatherLine(g, l), h);
      } else {
        var e := Emitted(known, s, l);
        assert g == h && GatherLine(h, e) == GatherLine(g, l);
        GatherKept(known, Next(known, s, l), false, rest, GatherLine(g, l), GatherLine(g, l));
        var run := Run(known, s, lines);
        assert run[0] == e && run[1..] == Run(known, Next(known, s, l), rest);
      }
    }
  }

  // ---------------------------------------------------------------------------------------
  // Rendering twice

  lemma {:induction false} UptoOnce(lines: seq<Line>)
    ensures Upto(Upto(lines)) == Upto(lines)
  {
    if lines != [] && !Head(lines[0]) {
      UptoOnce(lines[1..]);
      assert Upto(lines)[1..] == Upto(lines[1..]);
    }
  }

  lemma {:induction false} BodyIsHeadless(lines: seq<Line>, i: nat)
    requires i < |Blocks(lines)|
    ensures Upto(Blocks(lines)[i].body) == Blocks(lines)[i].body
    decreases |lines|
  {
    if TaskHead(lines[0]) && lines[0].shape.task.Some? {
      if i == 0 {
        UptoOnce(lines[1..]);
      } else {
        BodyIsHeadless(Onward(lines[1..]), i - 1);
      }
    } else {
      BodyIsHeadless(lines[1..], i);
    }
  }

  lemma {:induction false} InvalidStaysInvalid(lines: seq<Line>, i: nat)
    requires SplitOk(lines) && i < |Blocks(lines)| && !Valid(Blocks(lines)[i].body)
    ensures !Valid(Run(KnownSteps(lines), Start(Blocks(lines)[i].number), Blocks(lines)[i].body))
  {
    var known, b := KnownSteps(lines), Blocks(lines)[i];
    BodyIsHeadless(lines, i);
    BlocksDistinct(lines);
    forall n: nat
      ensures (b.number, n) !in known
    {
      MergedMeaning(Blocks(lines), i, n);
    }
    UnknownStays(known, Start(b.number), b.body);
    ValidAlike(b.body, Run(known, Start(b.number), b.body));
  }

  /** A rendered block knows no step that its source did not know. */
  lemma {:induction false} BlockKnowsNoMore(lines: seq<Line>, i: nat, step: nat)
    requires SplitOk(lines) && i < |Blocks(lines)|
    requires Balanced(KnownSteps(lines), INITIAL, false, lines)
    ensures var b := Blocks(lines)[i];
            var more := BlockSteps(Run(KnownSteps(lines), Start(b.number), b.body));
            step in more ==> step in BlockSteps(b.body) && more[step] == BlockSteps(b.body)[step]
  {
    var known, b := KnownSteps(lines), Blocks(lines)[i];
    if Valid(b.body) {
      BodyIsHeadless(lines, i);
      BlockBalanced(known, INITIAL, false, lines, i);
      GatherKept(known, Start(b.number), false, b.body, NOTHING, NOTHING);
    } else {
      InvalidStaysInvalid(lines, i);
    }
  }

  lemma {:induction false} KnownNoMore(lines: seq<Line>)
    requires Balanced(KnownSteps(lines), INITIAL, false, lines)
    ensures NoMore(KnownSteps(Render(lines)), KnownSteps(lines))
  {
    var known, rendered := KnownSteps(lines), Render(lines);
    if !SplitOk(lines) {
      UnknownStays(known, INITIAL, lines);
      KnownAlike(lines, rendered);
    } else if SplitOk(rendered) {
      var bs, cs := Blocks(lines), Blocks(rendered);
      BlocksRun(known, INITIAL, lines);
      BlocksDistinct(lines);
      BlocksDistinct(rendered);
      forall id | id in KnownSteps(rendered)
        ensures id in known && KnownSteps(rendered)[id] == known[id]
      {
        MergedNames(cs, id);
        var i :| 0 <= i < |cs| && cs[i].number == id.0;
        MergedMeaning(cs, i, id.1);
        MergedMeaning(bs, i, id.1);
        BlockKnowsNoMore(lines, i, id.1);
      }
    }
  }

  // ---------------------------------------------------------------------------------------
  // Exactly when rendering again changes nothing

  /** No line is dropped and each is emitted as it is. */
  predicate Settled(known: Known, s: State, lines: seq<Line>)
    decreases lines
  {
    lines == [] ||
    (!Dropped(s, lines[0]) && Emitted(known, s, lines[0]) == lines[0]
        && Settled(known, Next(known, s, lines[0]), lines[1..]))
  }

  lemma {:induction false} RunNoLonger(known: Known, s: State, lines: seq<Line>)
    ensures |Run(known, s, lines)| <= |lines|
    decreases lines
  {
    if lines != [] {
      RunNoLonger(known, Next(known, s, lines[0]), lines[1..]);
    }
  }

  lemma {:induction false} SettledExactly(known: Known, s: State, lines: seq<Line>)
    ensures Run(known, s, lines) == lines <==> Settled(known, s, lines)
    decreases lines
  {
    if lines != [] {
      var rest := Run(known, Next(known, s, lines[0]), lines[1..]);
      RunNoLonger(known, Next(known, s, lines[0]), lines[1..]);
      SettledExactly(known, Next(known, s, lines[0]), lines[1..]);
      var run := Run(known, s, lines);
      if !Dropped(s, lines[0]) {
        assert run == [Emitted(known, s, lines[0])] + rest;
        assert run[0] == Emitted(known, s, lines[0]) && run[1..] == rest;
        assert lines == [lines[0]] + lines[1..];
      }
    }
  }

  predicate ClosesUp(l: Line) {
    l.shape.Blank? || l.shape.NoteStart?
  }

  /** A step that `more` makes the renderer normalise and `known` does not. */
  predicate NewlyKnown(known: Known, more: Known, s: State, l: Line) {
    Normalised(more, s, l) && !Normalised(known, s, l)
  }

  /** Each newly known step that is reached outside fences after the Files block is written without a
      mark already, in the canonical spelling, and is not followed by a blank line or a note. */
  predicate NewStepsSettled(known: Known, more: Known, s: State, lines: seq<Line>)
    decreases lines
  {
    lines == [] ||
    (&& (NewlyKnown(known, more, s, lines[0]) ==>
           lines[0] == Unmarked(lines[0].shape.number, lines[0].shape.title) && (|lines| > 1 ==> !ClosesUp(lines[1])))
     && NewStepsSettled(known, more, AfterEmitted(more, s, lines[0]), lines[1..]))
  }

  /** `t` runs over the output of `s`; `afterNew` says that its last line was a newly known step. */
  predicate TracksNew(s: State, t: State, afterNew: bool) {
    && t.task == s.task && t.files == s.files && t.fence == s.fence && t.note.None?
    && (t.pending ==> s.pending || s.note.Some? || afterNew)
    && (afterNew ==> t.pending && !s.pending && s.note.None?)
  }

  /** One emitted line in the second rendering. */
  lemma {:induction false} EmittedOnceMore(known: Known, more: Known, s: State, t: State, afterNew: bool, l: Line)
    requires TracksNew(s, t, afterNew) && !Dropped(s, l)
    ensures var e := Emitted(known, s, l);
            && (Dropped(t, e) <==> afterNew && ClosesUp(e))
            && (Emitted(more, t, e) == e <==>
                (NewlyKnown(known, more, t, e) ==> e == Unmarked(e.shape.number, e.shape.title)))
            && TracksNew(Next(known, s, l), AfterEmitted(more, t, e), NewlyKnown(known, more, t, e))
  {
  }

  lemma {:induction false} SettledByNewSteps(known: Known, more: Known, s: State, t: State, afterNew: bool,
      lines: seq<Line>)
    requires TracksNew(s, t, afterNew)
    ensures var run := Run(known, s, lines);
            Settled(more, t, run) <==>
            (afterNew && run != [] ==> !ClosesUp(run[0])) && NewStepsSettled(known, more, t, run)
    decreases lines
  {
    if lines != [] {
      var l, rest := lines[0], lines[1..];
      var after := Next(known, s, l);
      if Dropped(s, l) {
        SettledByNewSteps(known, more, after, t, afterNew, rest);
      } else {
        var e := Emitted(known, s, l);
        EmittedOnceMore(known, more, s, t, afterNew, l);
        SettledByNewSteps(known, more, after, AfterEmitted(more, t, e), NewlyKnown(known, more, t, e), rest);
        var run := Run(known, s, lines);
        assert run[0] == e && run[1..] == Run(known, after, rest);
        assert |run| > 1 ==> run[1] == run[1..][0];
      }
    }
  }

  /** For every plan: rendering twice equals rendering once exactly when the steps that the rendering
      knows and its source did not are settled in it. */
  lemma {:induction false} RenderTwiceExactly(lines: seq<Line>)
    ensures Render(Render(lines)) == Render(lines) <==>
            NewStepsSettled(KnownSteps(lines), KnownSteps(Render(lines)), INITIAL, Render(lines))
  {
    var known, rendered := KnownSteps(lines), Render(lines);
    SettledExactly(KnownSteps(rendered), INITIAL, rendered);
    SettledByNewSteps(known, KnownSteps(rendered), INITIAL, INITIAL, false, lines);
  }

  lemma {:induction false} NoNewSteps(known: Known, more: Known, s: State, lines: seq<Line>)
    requires NoMore(more, known)
    ensures NewStepsSettled(known, more, s, lines)
    decreases lines
  {
    if lines != [] {
      NoNewSteps(known, more, AfterEmitted(more, s, lines[0]), lines[1..]);
    }
  }

  /** So it does whenever the fences inside dropped notes are paired, for then there is no such step. */
  lemma {:induction false} RenderTwice(lines: seq<Line>)
    requires Balanced(KnownSteps(lines), INITIAL, false, lines)
    ensures Render(Render(lines)) == Render(lines)
  {
    KnownNoMore(lines);
    NoNewSteps(KnownSteps(lines), KnownSteps(Render(lines)), INITIAL, Render(lines));
    RenderTwiceExactly(lines);
  }

  /** In particular when notes contain no fence at all. */
  lemma {:induction false} RenderTwicePlain(lines: seq<Line>)
    requires PlainNotes(KnownSteps(lines), INITIAL, lines)
    ensures Render(Render(lines)) == Render(lines)
  {
    PlainIsBalanced(KnownSteps(lines), INITIAL, lines);
    RenderTwice(lines);
  }
}
