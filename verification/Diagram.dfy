/** The reader of the ASCII dependency diagram: task labels are nodes, and an edge is drawn by
    connector characters that lead from one label to another. */
module Diagram {
  import opened Lists
  import opened Reachability

  type Task = nat
  type Edge = (Task, Task)
  type Cell = (nat, nat)                 // (row, column)
  type Grid = seq<seq<char>>

  const MAX_U32: nat := 0xFFFF_FFFF
  const LABEL := "Task "

  /** A label occupies columns `start` to `end`, both included, of its row. */
  datatype Node = Node(task: Task, row: nat, start: nat, end: nat)

  // ---------------------------------------------------------------------------------------
  // Specification

  predicate IsConnector(ch: char) {
    ch == '|' || ch == '-' || ch == '+' || ch == 'v' || ch == '>'
  }

  ghost predicate Padded(grid: Grid, width: nat) {
    width > 0 && forall r :: 0 <= r < |grid| ==> |grid[r]| == width
  }

  ghost predicate InGrid(grid: Grid, c: Cell) {
    c.0 < |grid| && c.1 < |grid[c.0]|
  }

  ghost predicate ConnectorAt(grid: Grid, c: Cell) {
    InGrid(grid, c) && IsConnector(grid[c.0][c.1])
  }

  ghost predicate LiesIn(grid: Grid, node: Node) {
    node.row < |grid| && node.start <= node.end < |grid[node.row]|
  }

  ghost function Cells(grid: Grid, width: nat): set<Cell> {
    set r, c | 0 <= r < |grid| && 0 <= c < width :: (r, c)
  }

  /** Directions a connector character may be left in. */
  predicate GoesDown(ch: char) { ch == '|' || ch == '+' || ch == 'v' }
  predicate GoesLeft(ch: char) { ch == '-' || ch == '+' }
  predicate GoesRight(ch: char) { ch == '-' || ch == '+' || ch == '>' }

  /** One step of the walk: to an adjacent connector, in a direction the character allows. */
  ghost predicate StepsTo(grid: Grid, a: Cell, b: Cell) {
    && ConnectorAt(grid, a) && ConnectorAt(grid, b)
    && var ch := grid[a.0][a.1];
       || (GoesDown(ch) && b == (a.0 + 1, a.1))
       || (GoesLeft(ch) && a.1 > 0 && b == (a.0, a.1 - 1))
       || (GoesRight(ch) && b == (a.0, a.1 + 1))
  }

  ghost function Walks(grid: Grid, width: nat): map<Cell, set<Cell>> {
    map a | a in Cells(grid, width) :: set b | b in Cells(grid, width) && StepsTo(grid, a, b)
  }

  /** The cell is directly above the label, or up to two columns to its left. */
  predicate Touches(c: Cell, node: Node) {
    || (c.0 + 1 == node.row && node.start <= c.1 <= node.end)
    || (c.0 == node.row && c.1 <= node.start <= c.1 + 2)
  }

  /** The first character right of the label that is not a space, when it is a connector. */
  ghost predicate RightStart(grid: Grid, node: Node, c: Cell) {
    && c.0 == node.row && c.1 > node.end && ConnectorAt(grid, c)
    && forall k :: node.end < k < c.1 ==> grid[node.row][k] == ' '
  }

  ghost predicate UnderLabel(grid: Grid, node: Node, c: Cell) {
    node.start <= c.1 <= node.end && ConnectorAt(grid, c)
  }

  /** A connector under the label, in the first of the next four rows that has one; only the very
      next row is looked at once a start to the right is known. */
  ghost predicate BelowStart(grid: Grid, node: Node, c: Cell) {
    && node.row < c.0 <= node.row + 4 && UnderLabel(grid, node, c)
    && (forall r, k :: node.row < r < c.0 ==> !UnderLabel(grid, node, (r, k)))
    && (c.0 == node.row + 1 || !exists d :: RightStart(grid, node, d))
  }

  ghost predicate IsStart(grid: Grid, node: Node, c: Cell) {
    RightStart(grid, node, c) || BelowStart(grid, node, c)
  }

  ghost predicate DrawsFrom(grid: Grid, width: nat, source: Node, start: Cell, target: Node) {
    && source.task != target.task
    && exists c :: Reaches(Walks(grid, width), start, c) && ConnectorAt(grid, c) && Touches(c, target)
  }

  /** The diagram draws (s, t): a connector reachable from one of s's starts touches t. */
  ghost predicate Draws(grid: Grid, width: nat, source: Node, target: Node) {
    exists start :: IsStart(grid, source, start) && DrawsFrom(grid, width, source, start, target)
  }

  // ---------------------------------------------------------------------------------------
  // The walk

  method DependencyNeighbors(grid: Grid, width: nat, a: Cell) returns (neighbors: seq<Cell>)
    requires Padded(grid, width) && ConnectorAt(grid, a)
    ensures forall b :: b in neighbors <==> StepsTo(grid, a, b)
  {
    neighbors := [];
    var ch := grid[a.0][a.1];
    var lastCol := |grid[a.0]| - 1;
    if GoesDown(ch) && a.0 + 1 < |grid| && IsConnector(grid[a.0 + 1][a.1]) {
      neighbors := neighbors + [(a.0 + 1, a.1)];
    }
    if GoesLeft(ch) && a.1 > 0 && IsConnector(grid[a.0][a.1 - 1]) {
      neighbors := neighbors + [(a.0, a.1 - 1)];
    }
    if GoesRight(ch) && a.1 < lastCol && IsConnector(grid[a.0][a.1 + 1]) {
      neighbors := neighbors + [(a.0, a.1 + 1)];
    }
  }

  ghost predicate Explored(g: map<Cell, set<Cell>>, start: Cell, seen: set<Cell>, queue: seq<Cell>) {
    && (start in seen || start in queue)
    && (forall c :: c in seen || c in queue ==> Reaches(g, start, c))
    && (forall c, d :: c in seen && d in Succ(g, c) ==> d in seen || d in queue)
  }

  lemma ExploredAll(g: map<Cell, set<Cell>>, start: Cell, seen: set<Cell>)
    requires Explored(g, start, seen, [])
    ensures forall c :: c in seen <==> Reaches(g, start, c)
  {
    forall c | Reaches(g, start, c)
      ensures c in seen
    {
      ClosedHoldsReachable(g, seen, start, c);
    }
  }

  lemma ExploreSkip(g: map<Cell, set<Cell>>, start: Cell, seen: set<Cell>, queue: seq<Cell>, cell: Cell)
    requires Explored(g, start, seen, queue + [cell]) && cell in seen
    ensures Explored(g, start, seen, queue)
  {
    forall c | c in queue
      ensures c in queue + [cell]
    {
    }
  }

  ghost predicate AllInGrid(grid: Grid, queue: seq<Cell>) {
    forall c :: c in queue ==> InGrid(grid, c)
  }

  lemma ExploreNext(g: map<Cell, set<Cell>>, start: Cell, seen: set<Cell>, queue: seq<Cell>, cell: Cell,
                    neighbors: seq<Cell>)
    requires Explored(g, start, seen, queue + [cell])
    requires forall d :: d in neighbors <==> d in Succ(g, cell)
    ensures Explored(g, start, seen + {cell}, queue + neighbors)
  {
    assert cell in queue + [cell];
    forall d | d in neighbors
      ensures Reaches(g, start, d)
    {
      ReachesByEdge(g, cell, d);
      ReachesTransitive(g, start, cell, d);
    }
    forall c | c in queue
      ensures c in queue + [cell]
    {
    }
  }

  lemma WalksSucc(grid: Grid, width: nat, a: Cell)
    requires Padded(grid, width) && InGrid(grid, a)
    ensures a in Cells(grid, width)
    ensures forall b :: b in Succ(Walks(grid, width), a) <==> StepsTo(grid, a, b)
  {
    forall b | StepsTo(grid, a, b)
      ensures b in Cells(grid, width)
    {
      assert b == (b.0, b.1);
    }
    assert a == (a.0, a.1);
  }

  lemma {:induction false} CellsFinite(cells: set<Cell>, seen: set<Cell>, cell: Cell)
    requires cell in cells && cell !in seen
    ensures |cells - (seen + {cell})| < |cells - seen|
  {
    assert cells - seen == (cells - (seen + {cell})) + {cell};
  }

  /** A visited connector touches the label of the edge's head. */
  ghost predicate TouchedFrom(grid: Grid, seen: set<Cell>, nodes: seq<Node>, source: Node, e: Edge) {
    && e.0 == source.task && e.1 != source.task
    && exists j, c :: 0 <= j < |nodes| && nodes[j].task == e.1 && c in seen && ConnectorAt(grid, c)
        && Touches(c, nodes[j])
  }

  ghost predicate DrawnFrom(grid: Grid, width: nat, nodes: seq<Node>, source: Node, start: Cell, e: Edge) {
    && e.0 == source.task
    && exists j :: 0 <= j < |nodes| && nodes[j].task == e.1 && DrawsFrom(grid, width, source, start, nodes[j])
  }

  lemma TouchedIsDrawn(grid: Grid, width: nat, nodes: seq<Node>, source: Node, start: Cell, seen: set<Cell>, e: Edge)
    requires forall c :: c in seen <==> Reaches(Walks(grid, width), start, c)
    ensures TouchedFrom(grid, seen, nodes, source, e) <==> DrawnFrom(grid, width, nodes, source, start, e)
  {
    if TouchedFrom(grid, seen, nodes, source, e) {
      var j, c :| 0 <= j < |nodes| && nodes[j].task == e.1 && c in seen && ConnectorAt(grid, c) && Touches(c, nodes[j]);
      assert DrawsFrom(grid, width, source, start, nodes[j]);
    }
    if DrawnFrom(grid, width, nodes, source, start, e) {
      var j :| 0 <= j < |nodes| && nodes[j].task == e.1 && DrawsFrom(grid, width, source, start, nodes[j]);
      var c :| Reaches(Walks(grid, width), start, c) && ConnectorAt(grid, c) && Touches(c, nodes[j]);
      assert c in seen;
    }
  }

  lemma TouchedGrows(grid: Grid, seen: set<Cell>, cell: Cell, nodes: seq<Node>, source: Node, e: Edge)
    ensures TouchedFrom(grid, seen + {cell}, nodes, source, e)
            <==> TouchedFrom(grid, seen, nodes, source, e) || TouchedFrom(grid, {cell}, nodes, source, e)
  {
  }

  /** `edges` is `edges0` and the edges of the source to labels that visited connectors touch. */
  ghost predicate AddsTouched(edges: set<Edge>, edges0: set<Edge>, grid: Grid, seen: set<Cell>, nodes: seq<Node>,
      source: Node) {
    forall e: Edge :: e in edges <==> e in edges0 || TouchedFrom(grid, seen, nodes, source, e)
  }

  lemma AddsTouchedMore(edges0: set<Edge>, edges1: set<Edge>, edges2: set<Edge>, grid: Grid, seen: set<Cell>,
      cell: Cell, nodes: seq<Node>,
                        source: Node)
    requires AddsTouched(edges1, edges0, grid, seen, nodes, source)
             && AddsTouched(edges2, edges1, grid, {cell}, nodes, source)
    ensures AddsTouched(edges2, edges0, grid, seen + {cell}, nodes, source)
  {
    forall e: Edge
      ensures e in edges2 <==> e in edges0 || TouchedFrom(grid, seen + {cell}, nodes, source, e)
    {
      TouchedGrows(grid, seen, cell, nodes, source, e);
    }
  }

  lemma AllTouchedAreDrawn(edges: set<Edge>, edges0: set<Edge>, grid: Grid, width: nat, nodes: seq<Node>, source: Node,
                           start: Cell, seen: set<Cell>)
    requires AddsTouched(edges, edges0, grid, seen, nodes, source)
    requires forall c :: c in seen <==> Reaches(Walks(grid, width), start, c)
    ensures forall e: Edge :: e in edges <==> e in edges0 || DrawnFrom(grid, width, nodes, source, start, e)
  {
    forall e: Edge
      ensures TouchedFrom(grid, seen, nodes, source, e) <==> DrawnFrom(grid, width, nodes, source, start, e)
    {
      TouchedIsDrawn(grid, width, nodes, source, start, seen, e);
    }
  }

  method MarkTargets(grid: Grid, nodes: seq<Node>, source: Node, cell: Cell, edges0: set<Edge>)
      returns (edges: set<Edge>)
    requires ConnectorAt(grid, cell)
    ensures AddsTouched(edges, edges0, grid, {cell}, nodes, source)
  {
    edges := edges0;
    for j := 0 to |nodes|
      invariant AddsTouched(edges, edges0, grid, {cell}, nodes[..j], source)
    {
      var target := nodes[j];
      if target.task != source.task && Touches(cell, target) {
        edges := edges + {(source.task, target.task)};
      }
      assert nodes[..j + 1][j] == target;
      assert forall k :: 0 <= k < j ==> nodes[..j + 1][k] == nodes[..j][k];
    }
    assert nodes[..|nodes|] == nodes;
  }

  /** A visited cell: its targets are marked and its neighbours returned, if it is a connector. */
  method VisitCell(grid: Grid, width: nat, nodes: seq<Node>, source: Node, cell: Cell, edges0: set<Edge>)
    returns (edges: set<Edge>, neighbors: seq<Cell>)
    requires Padded(grid, width) && InGrid(grid, cell)
    ensures AddsTouched(edges, edges0, grid, {cell}, nodes, source)
    ensures forall b :: b in neighbors <==> b in Succ(Walks(grid, width), cell)
    ensures AllInGrid(grid, neighbors)
    ensures cell in Cells(grid, width)
  {
    WalksSucc(grid, width, cell);
    edges, neighbors := edges0, [];
    if IsConnector(grid[cell.0][cell.1]) {
      edges := MarkTargets(grid, nodes, source, cell, edges);
      neighbors := DependencyNeighbors(grid, width, cell);
    }
  }

  /** Follows the connectors from one start with a stack and a visited set. It never leaves the
      grid, and each round either visits a new cell or shortens the stack. */
  method FollowDependencyEdges(grid: Grid, width: nat, nodes: seq<Node>, source: Node, start: Cell, edges0: set<Edge>)
    returns (edges: set<Edge>)
    requires Padded(grid, width) && InGrid(grid, start)
    ensures forall e: Edge :: e in edges <==> e in edges0 || DrawnFrom(grid, width, nodes, source, start, e)
  {
    ghost var g := Walks(grid, width);
    edges := edges0;
    var queue := [start];
    var seen: set<Cell> := {};
    ReachesSelf(g, start);
    while queue != []
      invariant Explored(g, start, seen, queue)
      invariant AllInGrid(grid, queue)
      invariant AddsTouched(edges, edges0, grid, seen, nodes, source)
      decreases |Cells(grid, width) - seen|, |queue|
    {
      var cell, rest := queue[|queue| - 1], queue[..|queue| - 1];
      assert queue == rest + [cell];
      if cell in seen {
        ExploreSkip(g, start, seen, rest, cell);
        queue := rest;
        continue;
      }
      var marked, neighbors := VisitCell(grid, width, nodes, source, cell, edges);
      ExploreNext(g, start, seen, rest, cell, neighbors);
      CellsFinite(Cells(grid, width), seen, cell);
      AddsTouchedMore(edges0, edges, marked, grid, seen, cell, nodes, source);
      edges, seen, queue := marked, seen + {cell}, rest + neighbors;
    }
    ExploredAll(g, start, seen);
    AllTouchedAreDrawn(edges, edges0, grid, width, nodes, source, start, seen);
  }

  // ---------------------------------------------------------------------------------------
  // Starts of a label

  method DependencyStarts(grid: Grid, width: nat, node: Node) returns (starts: set<Cell>)
    requires Padded(grid, width) && LiesIn(grid, node)
    ensures forall c :: c in starts <==> IsStart(grid, node, c)
  {
    starts := {};
    var col := node.end + 1;
    while col < width && grid[node.row][col] == ' '
      invariant node.end < col <= width
      invariant forall k :: node.end < k < col ==> grid[node.row][k] == ' '
    {
      col := col + 1;
    }
    if col < width && IsConnector(grid[node.row][col]) {
      assert RightStart(grid, node, (node.row, col));
      starts := {(node.row, col)};
    }
    ghost var right := starts;
    assert forall c :: c in right <==> RightStart(grid, node, c);
    var below := BelowStarts(grid, width, node, starts != {});
    starts := starts + below;
    assert right == {} || exists d :: d in right;
  }

  method BelowStarts(grid: Grid, width: nat, node: Node, haveRight: bool) returns (below: set<Cell>)
    requires Padded(grid, width) && LiesIn(grid, node)
    requires haveRight <==> exists d :: RightStart(grid, node, d)
    ensures forall c :: c in below <==> BelowStart(grid, node, c)
  {
    below := {};
    var row := node.row + 1;
    while row <= node.row + 4 && row < |grid|
      invariant node.row < row <= node.row + 5
      invariant below == {}
      invariant haveRight ==> row == node.row + 1
      invariant forall r, k :: node.row < r < row ==> !UnderLabel(grid, node, (r, k))
    {
      for col := node.start to node.end + 1
        invariant forall c :: c in below <==> c.0 == row && c.1 < col && UnderLabel(grid, node, c)
      {
        if IsConnector(grid[row][col]) {
          below := below + {(row, col)};
        }
      }
      if haveRight || below != {} {
        assert below != {} ==> exists c :: c in below;
        return;
      }
      forall k: nat
        ensures !UnderLabel(grid, node, (row, k))
      {
        var c := (row, k);
        assert c in below <==> c.0 == row && c.1 < node.end + 1 && UnderLabel(grid, node, c);
      }
      row := row + 1;
    }
  }

  // ---------------------------------------------------------------------------------------
  // Labels

  predicate IsDigit(ch: char) { '0' <= ch <= '9' }

  function NumberValue(digits: string): nat
    requires forall i :: 0 <= i < |digits| ==> IsDigit(digits[i])
  {
    if digits == [] then 0
    else
      var last := digits[|digits| - 1];
      assert IsDigit(last);
      NumberValue(digits[..|digits| - 1]) * 10 + ((last - '0') as nat)
  }

  function DigitsEnd(line: string, i: nat): (e: nat)
    requires i <= |line|
    ensures i <= e <= |line| && (e < |line| ==> !IsDigit(line[e]))
    ensures forall k :: i <= k < e ==> IsDigit(line[k])
    decreases |line| - i
  {
    if i < |line| && IsDigit(line[i]) then DigitsEnd(line, i + 1) else i
  }

  predicate LabelAt(line: string, at: nat) {
    at + 5 < |line| && line[at..at + 5] == LABEL && IsDigit(line[at + 5])
  }

  function NodeAt(line: string, row: nat, at: nat): Node
    requires LabelAt(line, at)
  {
    var end := DigitsEnd(line, at + 5);
    Node(NumberValue(line[at + 5..end]), row, at, end - 1)
  }

  /** A node stands for one label whose number fits 32 bits. */
  ghost predicate IsNode(lines: seq<string>, n: Node) {
    && n.row < |lines| && LabelAt(lines[n.row], n.start)
    && n == NodeAt(lines[n.row], n.row, n.start) && n.task <= MAX_U32
  }

  method NodesOfLine(line: string, row: nat) returns (nodes: seq<Node>)
    ensures forall n :: n in nodes <==>
              LabelAt(line, n.start) && n == NodeAt(line, row, n.start) && n.task <= MAX_U32
  {
    nodes := [];
    var index := 0;
    while index + 5 <= |line|
      invariant forall n :: n in nodes <==>
                  n.start < index && LabelAt(line, n.start) && n == NodeAt(line, row, n.start) && n.task <= MAX_U32
    {
      if line[index..index + 5] == LABEL {
        var numberEnd := DigitsEnd(line, index + 5);
        if numberEnd > index + 5 {
          assert LabelAt(line, index);
          NoLabelInside(line, index);
          var task := NumberValue(line[index + 5..numberEnd]);
          if task <= MAX_U32 {
            nodes := nodes + [Node(task, row, index, numberEnd - 1)];
          }
          index := numberEnd;
          continue;
        }
      }
      index := index + 1;
    }
  }

  /** Labels do not overlap, so jumping past one misses none. */
  lemma NoLabelInside(line: string, at: nat)
    requires LabelAt(line, at)
    ensures forall k :: at < k < DigitsEnd(line, at + 5) ==> !LabelAt(line, k)
  {
    forall k | at < k < DigitsEnd(line, at + 5)
      ensures !LabelAt(line, k)
    {
      LabelStartsWithT(line, k);
      assert line[k] != 'T' by {
        if k < at + 5 {
          assert line[at..at + 5][k - at] == line[k];
        }
      }
    }
  }

  lemma LabelStartsWithT(line: string, at: nat)
    ensures LabelAt(line, at) ==> line[at] == 'T'
  {
    if LabelAt(line, at) {
      assert line[at..at + 5][0] == line[at];
    }
  }

  method DiagramNodes(lines: seq<string>) returns (nodes: seq<Node>)
    ensures forall n :: n in nodes <==> IsNode(lines, n)
  {
    nodes := [];
    for row := 0 to |lines|
      invariant forall n :: n in nodes <==> n.row < row && IsNode(lines, n)
    {
      var found := NodesOfLine(lines[row], row);
      nodes := nodes + found;
    }
  }

  // ---------------------------------------------------------------------------------------
  // The whole reader

  function Width(lines: seq<string>): (w: nat)
    ensures forall i :: 0 <= i < |lines| ==> |lines[i]| <= w
  {
    if lines == [] then 0
    else
      var w := Width(lines[..|lines| - 1]);
      if |lines[|lines| - 1]| > w then |lines[|lines| - 1]| else w
  }

  function Pad(line: string, width: nat): string {
    if |line| < width then line + seq(width - |line|, _ => ' ') else line
  }

  function PadAll(lines: seq<string>): (grid: Grid)
    ensures |grid| == |lines|
    ensures forall r :: 0 <= r < |lines| ==> grid[r] == Pad(lines[r], Width(lines)) && |grid[r]| == Width(lines)
  {
    seq(|lines|, r requires 0 <= r < |lines| => Pad(lines[r], Width(lines)))
  }

  ghost predicate Pictured(lines: seq<string>, grid: Grid, width: nat, e: Edge) {
    exists s, t :: IsNode(lines, s) && IsNode(lines, t) && e == (s.task, t.task) && Draws(grid, width, s, t)
  }

  ghost predicate DrawnBefore(grid: Grid, width: nat, nodes: seq<Node>, n: nat, e: Edge)
    requires n <= |nodes|
  {
    exists k :: 0 <= k < n && DrawnBy(grid, width, nodes, nodes[k], e)
  }

  method FollowNodes(grid: Grid, width: nat, nodes: seq<Node>) returns (edges: set<Edge>)
    requires Padded(grid, width) && forall n :: n in nodes ==> LiesIn(grid, n)
    ensures forall e: Edge :: e in edges <==> DrawnBefore(grid, width, nodes, |nodes|, e)
  {
    edges := {};
    for i := 0 to |nodes|
      invariant forall e: Edge :: e in edges <==> DrawnBefore(grid, width, nodes, i, e)
    {
      var node := nodes[i];
      assert node in nodes;
      var starts := DependencyStarts(grid, width, node);
      edges := FollowAll(grid, width, nodes, node, starts, edges);
      assert forall e: Edge :: DrawnBefore(grid, width, nodes, i + 1, e) <==>
          DrawnBefore(grid, width, nodes, i, e) || DrawnBy(grid, width, nodes, node, e);
    }
  }

  /** A diagram is refused exactly when it has no label; otherwise the result holds exactly the
      edges that the padded picture draws. */
  method ParseDependencyDiagramEdges(lines: seq<string>) returns (r: Option<set<Edge>>)
    ensures r.None? <==> forall n :: !IsNode(lines, n)
    ensures r.Some? ==> forall e: Edge :: e in r.value <==> Pictured(lines, PadAll(lines), Width(lines), e)
  {
    var width := Width(lines);
    if width == 0 {
      return None;
    }
    var grid := PadAll(lines);
    var nodes := DiagramNodes(lines);
    if nodes == [] {
      return None;
    }
    assert nodes[0] in nodes;
    var edges := FollowNodes(grid, width, nodes);
    forall e: Edge
      ensures e in edges <==> Pictured(lines, grid, width, e)
    {
      DrawnIsPictured(lines, grid, width, nodes, e);
    }
    r := Some(edges);
  }

  lemma DrawnIsPictured(lines: seq<string>, grid: Grid, width: nat, nodes: seq<Node>, e: Edge)
    requires forall n :: n in nodes <==> IsNode(lines, n)
    ensures DrawnBefore(grid, width, nodes, |nodes|, e) <==> Pictured(lines, grid, width, e)
  {
    if k :| 0 <= k < |nodes| && DrawnBy(grid, width, nodes, nodes[k], e) {
      DrawnByDraws(grid, width, nodes, nodes[k], e);
      assert nodes[k] in nodes;
    }
    if Pictured(lines, grid, width, e) {
      var s, t :| IsNode(lines, s) && IsNode(lines, t) && e == (s.task, t.task) && Draws(grid, width, s, t);
      assert s in nodes && t in nodes;
      DrawsDrawnBy(grid, width, nodes, s, t);
    }
  }

  ghost predicate DrawnBy(grid: Grid, width: nat, nodes: seq<Node>, source: Node, e: Edge) {
    exists start :: IsStart(grid, source, start) && DrawnFrom(grid, width, nodes, source, start, e)
  }

  lemma DrawnByDraws(grid: Grid, width: nat, nodes: seq<Node>, source: Node, e: Edge)
    requires DrawnBy(grid, width, nodes, source, e)
    ensures exists t :: t in nodes && e == (source.task, t.task) && Draws(grid, width, source, t)
  {
    var start :| IsStart(grid, source, start) && DrawnFrom(grid, width, nodes, source, start, e);
    var j :| 0 <= j < |nodes| && nodes[j].task == e.1 && DrawsFrom(grid, width, source, start, nodes[j]);
    assert nodes[j] in nodes && Draws(grid, width, source, nodes[j]);
  }

  lemma DrawsDrawnBy(grid: Grid, width: nat, nodes: seq<Node>, s: Node, t: Node)
    requires t in nodes && Draws(grid, width, s, t)
    ensures DrawnBy(grid, width, nodes, s, (s.task, t.task))
  {
    var start :| IsStart(grid, s, start) && DrawsFrom(grid, width, s, start, t);
    var j :| 0 <= j < |nodes| && nodes[j] == t;
    assert DrawnFrom(grid, width, nodes, s, start, (s.task, t.task));
  }

  method FollowAll(grid: Grid, width: nat, nodes: seq<Node>, source: Node, starts: set<Cell>, edges0: set<Edge>)
    returns (edges: set<Edge>)
    requires Padded(grid, width)
    requires forall c :: c in starts <==> IsStart(grid, source, c)
    ensures forall e: Edge :: e in edges <==> e in edges0 || DrawnBy(grid, width, nodes, source, e)
  {
    edges := edges0;
    var rest := starts;
    while rest != {}
      invariant rest <= starts
      invariant forall e: Edge :: e in edges <==>
                  e in edges0 || exists c :: c in starts && c !in rest && DrawnFrom(grid, width, nodes, source, c, e)
      decreases |rest|
    {
      var start :| start in rest;
      edges := FollowDependencyEdges(grid, width, nodes, source, start, edges);
      rest := rest - {start};
    }
  }
}
