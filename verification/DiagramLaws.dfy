/** What pictures draw: labels are read as they are written, straight arrows draw their edge, the walk
    follows the characters, and nothing is drawn without them. */
module DiagramLaws {
  import opened Reachability
  import opened Diagram

  // ---------------------------------------------------------------------------------------
  // Labels

  /** Decimal writing without leading zeros. */
  function Decimal(n: nat): (s: string)
    ensures s != [] && forall i :: 0 <= i < |s| ==> IsDigit(s[i])
  {
    if n < 10 then ['0' + (n as char)] else Decimal(n / 10) + ['0' + ((n % 10) as char)]
  }

  /** A written number is read back. */
  lemma {:induction false} DecimalReadsBack(n: nat)
    ensures NumberValue(Decimal(n)) == n
  {
    var s := Decimal(n);
    if n < 10 {
      assert s[..0] == [];
      assert NumberValue([]) == 0;
    } else {
      DecimalReadsBack(n / 10);
      assert s[..|s| - 1] == Decimal(n / 10);
    }
  }

  lemma {:induction false} DigitsEndIs(line: string, i: nat, e: nat)
    requires i <= e <= |line| && (forall k :: i <= k < e ==> IsDigit(line[k])) && (e < |line| ==> !IsDigit(line[e]))
    ensures DigitsEnd(line, i) == e
    decreases e - i
  {
    if i < e {
      DigitsEndIs(line, i + 1, e);
    }
  }

  /** A label for task `n`, with anything before it and no digit after it, is the node of task `n`. */
  lemma {:induction false} LabelReadsBack(before: string, n: nat, after: string, row: nat)
    requires after != [] ==> !IsDigit(after[0])
    ensures var line := before + LABEL + Decimal(n) + after;
            && LabelAt(line, |before|)
            && NodeAt(line, row, |before|) == Node(n, row, |before|, |before| + 4 + |Decimal(n)|)
  {
    var digits := Decimal(n);
    var line := before + LABEL + digits + after;
    var at, end := |before|, |before| + 5 + |digits|;
    assert line[at..at + 5] == LABEL;
    assert forall k :: 0 <= k < |digits| ==> line[at + 5 + k] == digits[k];
    assert forall k :: at + 5 <= k < end ==> line[k] == digits[k - at - 5];
    assert end < |line| ==> line[end] == after[0];
    DigitsEndIs(line, at + 5, end);
    assert line[at + 5..end] == digits;
    DecimalReadsBack(n);
  }

  /** It is a node of the diagram exactly when the number fits 32 bits. */
  lemma {:induction false} LabelIsNode(before: string, n: nat, after: string)
    requires after != [] ==> !IsDigit(after[0])
    ensures IsNode([before + LABEL + Decimal(n) + after], Node(n, 0, |before|, |before| + 4 + |Decimal(n)|)) <==>
            n <= 4294967295
  {
    LabelReadsBack(before, n, after, 0);
  }

  /** Padding keeps the line and adds only spaces. */
  lemma PadExactly(line: string, width: nat)
    ensures |Pad(line, width)| == (if |line| < width then width else |line|)
    ensures forall i :: 0 <= i < |Pad(line, width)| ==> Pad(line, width)[i] == (if i < |line| then line[i] else ' ')
  {
  }

  // ---------------------------------------------------------------------------------------
  // Steps of the walk

  /** One step, character by character: pipes and heads go down, dashes sideways, corners both ways and
      down, and arrow heads to the right, always onto another connector. */
  lemma StepsByCharacter(grid: Grid, a: Cell, b: Cell)
    requires InGrid(grid, a) && InGrid(grid, b)
    ensures var ch, down := grid[a.0][a.1], b == (a.0 + 1, a.1);
            var left, right := a.1 > 0 && b == (a.0, a.1 - 1), b == (a.0, a.1 + 1);
            StepsTo(grid, a, b) <==>
            && grid[b.0][b.1] in {'|', '-', '+', 'v', '>'}
            && ((ch in {'|', 'v'} && down) || (ch == '-' && (left || right)) || (ch == '+' && (down || left || right))
                || (ch == '>' && right))
  {
  }

  /** The walk never goes up. */
  lemma {:induction false} WalksNeverGoUp(grid: Grid, width: nat, a: Cell, b: Cell)
    requires Padded(grid, width) && Reaches(Walks(grid, width), a, b)
    ensures a.0 <= b.0
  {
    var g := Walks(grid, width);
    var p: seq<Cell> :| PathFromTo(g, p, a, b);
    for i := 1 to |p|
      invariant forall k :: 0 <= k < i ==> a.0 <= p[k].0
    {
      assert p[i - 1 + 1] in Succ(g, p[i - 1]);
    }
  }

  /** A picture without connector characters draws nothing. */
  lemma NothingDrawn(grid: Grid, width: nat, s: Node, t: Node)
    requires forall c: Cell :: InGrid(grid, c) ==> grid[c.0][c.1] !in {'|', '-', '+', 'v', '>'}
    ensures !Draws(grid, width, s, t)
  {
    assert forall start: Cell :: IsStart(grid, s, start) ==> ConnectorAt(grid, start);
  }

  /** Every edge drawn into a label ends at a connector right above it or at most two columns before it. */
  lemma DrawnIntoTouched(grid: Grid, width: nat, s: Node, t: Node)
    requires Draws(grid, width, s, t)
    ensures s.task != t.task
    ensures exists c: Cell :: InGrid(grid, c) && grid[c.0][c.1] in {'|', '-', '+', 'v', '>'}
              && ((c.0 + 1 == t.row && t.start <= c.1 <= t.end) || (c.0 == t.row && c.1 <= t.start <= c.1 + 2))
  {
    var start :| IsStart(grid, s, start) && DrawsFrom(grid, width, s, start, t);
    var c :| Reaches(Walks(grid, width), start, c) && ConnectorAt(grid, c) && Touches(c, t);
  }

  // ---------------------------------------------------------------------------------------
  // Straight arrows

  lemma {:induction false} RunsRight(grid: Grid, width: nat, row: nat, i: nat, j: nat)
    requires Padded(grid, width) && row < |grid| && i <= j < width
    requires forall k :: i <= k <= j ==> grid[row][k] == '-' || grid[row][k] == '>'
    ensures Reaches(Walks(grid, width), (row, i), (row, j))
    decreases j - i
  {
    var g := Walks(grid, width);
    if i == j {
      ReachesSelf(g, (row, i));
    } else {
      RunsRight(grid, width, row, i, j - 1);
      WalksSucc(grid, width, (row, j - 1));
      assert StepsTo(grid, (row, j - 1), (row, j));
      ReachesByEdge(g, (row, j - 1), (row, j));
      ReachesTransitive(g, (row, i), (row, j - 1), (row, j));
    }
  }

  /** `Task a  --->  Task b`: dashes and heads after the source, ending at most two columns before the
      target, draw the edge. */
  lemma {:induction false} ArrowDraws(grid: Grid, width: nat, s: Node, t: Node, i: nat, j: nat)
    requires Padded(grid, width) && s.row == t.row < |grid| && s.task != t.task
    requires s.end < i <= j < width && j <= t.start <= j + 2
    requires forall k :: s.end < k < i ==> grid[s.row][k] == ' '
    requires forall k :: i <= k <= j ==> grid[s.row][k] == '-' || grid[s.row][k] == '>'
    ensures Draws(grid, width, s, t)
  {
    RunsRight(grid, width, s.row, i, j);
    assert RightStart(grid, s, (s.row, i));
    assert ConnectorAt(grid, (s.row, j)) && Touches((s.row, j), t);
    assert IsStart(grid, s, (s.row, i)) && DrawsFrom(grid, width, s, (s.row, i), t);
  }

  lemma {:induction false} RunsDown(grid: Grid, width: nat, col: nat, i: nat, j: nat)
    requires Padded(grid, width) && i <= j < |grid| && col < width
    requires forall k :: i <= k <= j ==> grid[k][col] == '|' || grid[k][col] == 'v'
    ensures Reaches(Walks(grid, width), (i, col), (j, col))
    decreases j - i
  {
    var g := Walks(grid, width);
    if i == j {
      ReachesSelf(g, (i, col));
    } else {
      RunsDown(grid, width, col, i, j - 1);
      WalksSucc(grid, width, (j - 1, col));
      assert StepsTo(grid, (j - 1, col), (j, col));
      ReachesByEdge(g, (j - 1, col), (j, col));
      ReachesTransitive(g, (i, col), (j - 1, col), (j, col));
    }
  }

  /** A pipe that starts right under the source and ends right above the target draws the edge. */
  lemma {:induction false} PipeDraws(grid: Grid, width: nat, s: Node, t: Node, col: nat)
    requires Padded(grid, width) && s.task != t.task && col < width
    requires s.row + 1 < t.row <= |grid| && s.start <= col <= s.end && t.start <= col <= t.end
    requires forall k :: s.row < k < t.row ==> grid[k][col] == '|' || grid[k][col] == 'v'
    ensures Draws(grid, width, s, t)
  {
    var start, end := (s.row + 1, col), (t.row - 1, col);
    RunsDown(grid, width, col, s.row + 1, t.row - 1);
    assert BelowStart(grid, s, start);
    assert ConnectorAt(grid, end) && Touches(end, t);
    assert IsStart(grid, s, start) && DrawsFrom(grid, width, s, start, t);
  }
}
