/** Execution topology of a plan: the dependency relation that the Execution Strategy claims,
    its transitive closure, and the write conflicts that the closure leaves unordered. */
module Topology {
  import opened Lists
  import opened Reachability
  import Diagram

  type Task = Diagram.Task
  type Edge = Diagram.Edge               // (dependency, dependent)
  type Dependencies = map<Task, set<Task>>

  datatype Directive =
    | Serial(tasks: seq<Task>, dependencies: seq<Task>)
    | Parallel(tasks: seq<Task>, dependencies: seq<Task>)
    | Last(tasks: seq<Task>)

  datatype TaskScope = TaskScope(task: Task, paths: seq<string>)

  datatype Analysis = Analysis(
    dependencies: Dependencies,
    edges: set<Edge>,
    closure: Dependencies,
    diagramMalformed: bool,
    diagramMismatch: bool,
    hotspots: set<string>)

  // ---------------------------------------------------------------------------------------
  // Specification

  /** Insertion into a strictly increasing list; equal values are merged. */
  function Insert(x: Task, xs: seq<Task>): seq<Task> {
    if xs == [] then [x]
    else if x < xs[0] then [x] + xs
    else if x == xs[0] then xs
    else [xs[0]] + Insert(x, xs[1..])
  }

  function SortedDistinct(xs: seq<Task>): seq<Task> {
    if xs == [] then [] else Insert(xs[0], SortedDistinct(xs[1..]))
  }

  ghost predicate Increasing(xs: seq<Task>) {
    forall i, j :: 0 <= i < j < |xs| ==> xs[i] < xs[j]
  }

  /** Every listed dependency before one task. */
  function Fan(dependencies: seq<Task>, task: Task): set<Edge> {
    if dependencies == [] then {}
    else Fan(dependencies[..|dependencies| - 1], task) + {(dependencies[|dependencies| - 1], task)}
  }

  /** Every listed dependency before every listed task. */
  function FanAll(dependencies: seq<Task>, tasks: seq<Task>): set<Edge> {
    if tasks == [] then {}
    else FanAll(dependencies, tasks[..|tasks| - 1]) + Fan(dependencies, tasks[|tasks| - 1])
  }

  /** Each listed task before the next one. */
  function Chain(tasks: seq<Task>): set<Edge> {
    if |tasks| < 2 then {}
    else Chain(tasks[..|tasks| - 1]) + {(tasks[|tasks| - 2], tasks[|tasks| - 1])}
  }

  /** The edges that one serial or parallel directive contributes. */
  function DirectiveEdges(d: Directive): set<Edge> {
    match d
    case Serial(tasks, dependencies) =>
      var sorted := SortedDistinct(tasks);
      (if sorted == [] then {} else Fan(dependencies, sorted[0])) + Chain(sorted)
    case Parallel(tasks, dependencies) => FanAll(dependencies, SortedDistinct(tasks))
    case Last(_) => {}
  }

  function StrategyEdges(ds: seq<Directive>): set<Edge> {
    if ds == [] then {} else StrategyEdges(ds[..|ds| - 1]) + DirectiveEdges(ds[|ds| - 1])
  }

  /** Tasks of `prior` from which no edge leads to another task of `prior`. */
  function Sinks(prior: set<Task>, edges: set<Edge>): set<Task> {
    set p | p in prior && !exists q :: q in prior && (p, q) in edges
  }

  function Others(tasks: seq<Task>, task: Task): set<Task> {
    set t | t in tasks && t != task
  }

  function LastEdges(tasks: seq<Task>, edges: set<Edge>, task: Task): set<Edge> {
    edges + Into(Sinks(Others(tasks, task), edges), task)
  }

  function Into(from: set<Task>, task: Task): set<Edge> {
    set p | p in from :: (p, task)
  }

  function AllLastEdges(tasks: seq<Task>, edges: set<Edge>, ds: seq<Directive>): set<Edge> {
    if ds == [] then edges
    else
      var before := AllLastEdges(tasks, edges, ds[..|ds| - 1]);
      var d := ds[|ds| - 1];
      if d.Last? && d.tasks != [] then LastEdges(tasks, before, d.tasks[0]) else before
  }

  function ExpectedEdges(tasks: seq<Task>, ds: seq<Directive>): set<Edge> {
    AllLastEdges(tasks, StrategyEdges(ds), ds)
  }

  /** The edge set and the dependency map describe one relation. */
  ghost predicate SameRelation(edges: set<Edge>, deps: Dependencies) {
    forall a: Task, b: Task :: (a, b) in edges <==> a in Succ(deps, b)
  }

  ghost predicate DependsOn(deps: Dependencies, task: Task, on: Task) {
    ReachesPlus(deps, task, on)
  }

  ghost predicate IsClosureOf(closure: Dependencies, deps: Dependencies) {
    && closure.Keys == deps.Keys
    && forall t, x :: t in deps ==> (x in closure[t] <==> DependsOn(deps, t, x))
  }

  function TaskNumbers(scopes: seq<TaskScope>): (tasks: seq<Task>) {
    seq(|scopes|, i requires 0 <= i < |scopes| => scopes[i].task)
  }

  ghost predicate Writes(scopes: seq<TaskScope>, task: Task, path: string) {
    exists k :: 0 <= k < |scopes| && scopes[k].task == task && path in scopes[k].paths
  }

  /** Two distinct tasks write the path and neither waits for the other. */
  ghost predicate UnorderedWriters(scopes: seq<TaskScope>, deps: Dependencies, path: string) {
    exists a, b :: a != b && Writes(scopes, a, path) && Writes(scopes, b, path)
                   && !DependsOn(deps, a, b) && !DependsOn(deps, b, a)
  }

  // ---------------------------------------------------------------------------------------
  // Facts about the specification

  lemma {:induction false} InsertHas(x: Task, xs: seq<Task>)
    ensures forall y :: y in Insert(x, xs) <==> y == x || y in xs
  {
    if xs != [] {
      assert forall y :: y in xs <==> y == xs[0] || y in xs[1..];
      InsertHas(x, xs[1..]);
    }
  }

  lemma {:induction false} IncreasingCons(x: Task, xs: seq<Task>)
    requires Increasing(xs) && forall y :: y in xs ==> x < y
    ensures Increasing([x] + xs)
  {
    assert forall i :: 0 <= i < |xs| ==> xs[i] in xs;
  }

  lemma {:induction false} InsertKeepsOrder(x: Task, xs: seq<Task>)
    requires Increasing(xs)
    ensures Increasing(Insert(x, xs))
    ensures forall y :: y in Insert(x, xs) <==> y == x || y in xs
  {
    InsertHas(x, xs);
    if xs != [] && x > xs[0] {
      InsertKeepsOrder(x, xs[1..]);
      InsertHas(x, xs[1..]);
      IncreasingCons(xs[0], Insert(x, xs[1..]));
    }
  }

  /** Sorting and de-duplicating keeps exactly the listed tasks, each once. */
  lemma {:induction false} SortedDistinctMeaning(xs: seq<Task>)
    ensures Increasing(SortedDistinct(xs))
    ensures forall y :: y in SortedDistinct(xs) <==> y in xs
  {
    if xs != [] {
      SortedDistinctMeaning(xs[1..]);
      InsertKeepsOrder(xs[0], SortedDistinct(xs[1..]));
    }
  }

  // ---------------------------------------------------------------------------------------
  // Which edges a strategy claims

  predicate NoneBetween(tasks: seq<Task>, a: Task, b: Task) {
    forall c :: c in tasks ==> !(a < c < b)
  }

  predicate LeastOf(tasks: seq<Task>, b: Task) {
    b in tasks && forall c :: c in tasks ==> b <= c
  }

  /** The directive puts `a` before `b`: a listed dependency before the least task of a series or before
      every task of a group, and each task of a series before the next greater one. */
  predicate Says(d: Directive, a: Task, b: Task) {
    match d
    case Serial(tasks, dependencies) =>
      || (a in dependencies && LeastOf(tasks, b))
      || (a in tasks && b in tasks && a < b && NoneBetween(tasks, a, b))
    case Parallel(tasks, dependencies) => a in dependencies && b in tasks
    case Last(_) => false
  }

  ghost predicate SaidBy(ds: seq<Directive>, a: Task, b: Task) {
    exists i :: 0 <= i < |ds| && Says(ds[i], a, b)
  }

  predicate AllBelow(xs: seq<Task>, b: Task) {
    forall x :: x in xs ==> x < b
  }

  lemma {:induction false} IncreasingFront(xs: seq<Task>)
    requires Increasing(xs) && xs != []
    ensures Increasing(xs[..|xs| - 1]) && AllBelow(xs[..|xs| - 1], xs[|xs| - 1])
  {
  }

  lemma {:induction false} InFront(xs: seq<Task>, x: Task)
    requires xs != []
    ensures x in xs <==> x in xs[..|xs| - 1] || x == xs[|xs| - 1]
  {
    assert xs == xs[..|xs| - 1] + [xs[|xs| - 1]];
  }

  lemma {:induction false} BetweenInFront(xs: seq<Task>, a: Task, b: Task)
    requires Increasing(xs) && xs != [] && b in xs[..|xs| - 1]
    ensures NoneBetween(xs, a, b) <==> NoneBetween(xs[..|xs| - 1], a, b)
  {
    var front, last := xs[..|xs| - 1], xs[|xs| - 1];
    IncreasingFront(xs);
    assert b < last;
    forall c: Task
      ensures c in xs <==> c in front || c == last
    {
      InFront(xs, c);
    }
    if NoneBetween(front, a, b) {
      forall c | c in xs
        ensures !(a < c < b)
      {
        assert c in front || c == last;
      }
    }
  }

  /** The chain over an increasing list links exactly the neighbours. */
  lemma {:induction false} ChainHas(xs: seq<Task>, a: Task, b: Task)
    requires Increasing(xs)
    ensures (a, b) in Chain(xs) <==> a in xs && b in xs && a < b && NoneBetween(xs, a, b)
  {
    if xs != [] {
      InFront(xs, a);
      InFront(xs, b);
      IncreasingFront(xs);
    }
    if |xs| >= 2 {
      var n := |xs| - 1;
      ChainHas(xs[..n], a, b);
      if b == xs[n] {
        LastLink(xs, a);
      } else if b in xs[..n] {
        BetweenInFront(xs, a, b);
      }
    }
  }

  lemma {:induction false} LastLink(xs: seq<Task>, a: Task)
    requires Increasing(xs) && |xs| >= 2
    ensures var b := xs[|xs| - 1];
            a == xs[|xs| - 2] <==> a in xs && a < b && NoneBetween(xs, a, b)
  {
    var m := xs[|xs| - 2];
    assert m in xs;
    if a in xs && a < xs[|xs| - 1] && a != m {
      var i :| 0 <= i < |xs| && xs[i] == a;
      assert i < |xs| - 2 && a < m < xs[|xs| - 1];
    }
    if a == m {
      forall c | c in xs
        ensures !(a < c < xs[|xs| - 1])
      {
        var i :| 0 <= i < |xs| && xs[i] == c;
      }
    }
  }

  lemma {:induction false} FirstIsLeast(tasks: seq<Task>, b: Task)
    requires SortedDistinct(tasks) != []
    ensures b == SortedDistinct(tasks)[0] <==> LeastOf(tasks, b)
  {
    var sorted := SortedDistinct(tasks);
    SortedDistinctMeaning(tasks);
    assert sorted[0] in sorted;
    forall c | c in tasks
      ensures sorted[0] <= c
    {
      assert c in sorted;
      var i :| 0 <= i < |sorted| && sorted[i] == c;
    }
  }

  lemma {:induction false} FanAllHas(dependencies: seq<Task>, tasks: seq<Task>, a: Task, b: Task)
    ensures (a, b) in FanAll(dependencies, tasks) <==> a in dependencies && b in tasks
  {
    if tasks != [] {
      var n := |tasks| - 1;
      FanAllHas(dependencies, tasks[..n], a, b);
      FanHas(dependencies, tasks[n]);
      InFront(tasks, b);
    }
  }

  /** The edges of one directive are exactly those it says. */
  lemma {:induction false} DirectiveSays(d: Directive, a: Task, b: Task)
    ensures (a, b) in DirectiveEdges(d) <==> Says(d, a, b)
  {
    match d
    case Serial(tasks, dependencies) =>
      var sorted := SortedDistinct(tasks);
      SortedDistinctMeaning(tasks);
      ChainHas(sorted, a, b);
      assert NoneBetween(sorted, a, b) <==> NoneBetween(tasks, a, b);
      if sorted != [] {
        FirstIsLeast(tasks, b);
        FanHas(dependencies, sorted[0]);
      } else {
        assert b !in sorted;
      }
    case Parallel(tasks, dependencies) =>
      SortedDistinctMeaning(tasks);
      FanAllHas(dependencies, SortedDistinct(tasks), a, b);
    case Last(_) =>
  }

  lemma {:induction false} StrategySays(ds: seq<Directive>, a: Task, b: Task)
    ensures (a, b) in StrategyEdges(ds) <==> SaidBy(ds, a, b)
  {
    if ds != [] {
      var n := |ds| - 1;
      var front := ds[..n];
      StrategySays(front, a, b);
      DirectiveSays(ds[n], a, b);
      if SaidBy(front, a, b) {
        var i :| 0 <= i < |front| && Says(front[i], a, b);
        assert Says(ds[i], a, b);
      }
      if SaidBy(ds, a, b) {
        var i :| 0 <= i < |ds| && Says(ds[i], a, b);
        assert i == n || Says(front[i], a, b);
      }
    }
  }

  predicate PlacedLast(ds: seq<Directive>, b: Task) {
    exists i :: 0 <= i < |ds| && ds[i].Last? && ds[i].tasks != [] && ds[i].tasks[0] == b
  }

  lemma {:induction false} LastOnlyAddsIntoItsTask(tasks: seq<Task>, edges: set<Edge>, ds: seq<Directive>,
                                                   a: Task, b: Task)
    requires !PlacedLast(ds, b)
    ensures (a, b) in AllLastEdges(tasks, edges, ds) <==> (a, b) in edges
  {
    if ds != [] {
      var n := |ds| - 1;
      assert forall i :: 0 <= i < n ==> ds[..n][i] == ds[i];
      LastOnlyAddsIntoItsTask(tasks, edges, ds[..n], a, b);
    }
  }

  /** The claimed relation: into every task that is not placed last lead exactly the edges that some
      directive says; into a task placed last, also those from the sinks of the others. */
  lemma {:induction false} ExpectedExactly(tasks: seq<Task>, ds: seq<Directive>, a: Task, b: Task)
    ensures SaidBy(ds, a, b) ==> (a, b) in ExpectedEdges(tasks, ds)
    ensures !PlacedLast(ds, b) ==> ((a, b) in ExpectedEdges(tasks, ds) <==> SaidBy(ds, a, b))
  {
    StrategySays(ds, a, b);
    LastEdgesGrow(tasks, StrategyEdges(ds), ds, 0);
    if !PlacedLast(ds, b) {
      LastOnlyAddsIntoItsTask(tasks, StrategyEdges(ds), ds, a, b);
    }
  }

  lemma {:induction false} ChainReaches(xs: seq<Task>, deps: Dependencies, i: nat, j: nat)
    requires Increasing(xs) && i < j < |xs|
    requires forall k :: 0 <= k < |xs| - 1 ==> xs[k] in Succ(deps, xs[k + 1])
    ensures DependsOn(deps, xs[j], xs[i])
  {
    var m := j - 1;
    assert xs[m] in Succ(deps, xs[m + 1]);
    ReachesByEdge(deps, xs[j], xs[m]);
    if i < m {
      ChainReaches(xs, deps, i, m);
      PlusReaches(deps, xs[m], xs[i]);
      PlusFromParts(deps, xs[j], xs[m], xs[i]);
    }
  }

  /** In the relation of any strategy a later task of a series depends on every earlier one. */
  lemma {:induction false} SeriesIsOrdered(tasks: seq<Task>, ds: seq<Directive>, k: nat, a: Task, b: Task,
                                           deps: Dependencies)
    requires k < |ds| && ds[k].Serial? && a in ds[k].tasks && b in ds[k].tasks && a < b
    requires SameRelation(ExpectedEdges(tasks, ds), deps)
    ensures DependsOn(deps, b, a)
  {
    var xs := SortedDistinct(ds[k].tasks);
    SortedDistinctMeaning(ds[k].tasks);
    var i :| 0 <= i < |xs| && xs[i] == a;
    var j :| 0 <= j < |xs| && xs[j] == b;
    assert i < j;
    forall m | 0 <= m < |xs| - 1
      ensures xs[m] in Succ(deps, xs[m + 1])
    {
      NeighboursSaid(ds[k], m);
      assert SaidBy(ds, xs[m], xs[m + 1]);
      ExpectedExactly(tasks, ds, xs[m], xs[m + 1]);
    }
    ChainReaches(xs, deps, i, j);
  }

  lemma {:induction false} NeighboursSaid(d: Directive, m: nat)
    requires d.Serial? && m + 1 < |SortedDistinct(d.tasks)|
    ensures Says(d, SortedDistinct(d.tasks)[m], SortedDistinct(d.tasks)[m + 1])
  {
    var xs := SortedDistinct(d.tasks);
    SortedDistinctMeaning(d.tasks);
    assert xs[m] in xs && xs[m + 1] in xs;
    forall c | c in d.tasks
      ensures !(xs[m] < c < xs[m + 1])
    {
      assert c in xs;
      var i :| 0 <= i < |xs| && xs[i] == c;
    }
  }

  /** The edges among a set of tasks, read from dependent to dependency. */
  ghost function Among(prior: set<Task>, edges: set<Edge>): Dependencies {
    map b | b in prior :: set a | a in prior && (a, b) in edges
  }

  /** In an acyclic relation some sink depends, through zero or more edges, on `p`. */
  lemma SinkAbove(prior: set<Task>, edges: set<Edge>, p: Task, visited: set<Task>) returns (sink: Task)
    requires Acyclic(Among(prior, edges))
    requires p in prior && visited <= prior
    requires forall v :: v in visited ==> ReachesPlus(Among(prior, edges), p, v)
    ensures sink in Sinks(prior, edges) && Reaches(Among(prior, edges), sink, p)
    decreases |prior - visited|
  {
    var g := Among(prior, edges);
    if q :| q in prior && (p, q) in edges {
      assert p in Succ(g, q);
      ReachesByEdge(g, q, p);
      var visited' := visited + {p};
      forall v | v in visited'
        ensures ReachesPlus(g, q, v)
      {
        if v != p {
          PlusFromParts(g, q, p, v);
        }
      }
      assert p !in visited;
      assert prior - visited' < prior - visited;
      SubsetSmaller(prior - visited', prior - visited);
      sink := SinkAbove(prior, edges, q, visited');
      ReachesTransitive(g, sink, q, p);
    } else {
      sink := p;
      ReachesSelf(g, p);
    }
  }

  lemma {:induction false} SubsetSmaller<T>(a: set<T>, b: set<T>)
    requires a < b
    ensures |a| < |b|
  {
    assert b == a + (b - a);
    assert |b| == |a| + |b - a|;
  }

  /** `Execute Task N last`: although only the sinks of the other tasks are linked to the task,
      it depends on every other task when the edges among the others are acyclic. */
  lemma LastDependsOnAll(tasks: seq<Task>, before: set<Edge>, task: Task, deps: Dependencies)
    requires Acyclic(Among(Others(tasks, task), before))
    requires forall a: Task, b: Task :: (a, b) in LastEdges(tasks, before, task) ==> a in Succ(deps, b)
    ensures forall p :: p in Others(tasks, task) ==> DependsOn(deps, task, p)
  {
    var prior := Others(tasks, task);
    var g := Among(prior, before);
    forall x: Task
      ensures Succ(g, x) <= Succ(deps, x)
    {
      forall a | a in Succ(g, x)
        ensures a in Succ(deps, x)
      {
        assert (a, x) in LastEdges(tasks, before, task);
      }
    }
    forall p | p in prior
      ensures DependsOn(deps, task, p)
    {
      var sink := SinkAbove(prior, before, p, {});
      assert (sink, task) in LastEdges(tasks, before, task);
      SubgraphReaches(g, deps, sink, p);
      ReachesByEdge(deps, task, sink);
      PlusFromParts(deps, task, sink, p);
    }
  }

  /** `d` is a sink of the other tasks, or the task waited for it already. */
  predicate StartsLast(tasks: seq<Task>, before: set<Edge>, task: Task, d: Task) {
    d in Sinks(Others(tasks, task), before) || (d, task) in before
  }

  /** Exactly what the task placed last depends on, cycles or not: `p` such that a sink of the others, or
      a task it waited for already, depends on `p` or is `p` before the directive is applied. */
  lemma LastDependsExactly(tasks: seq<Task>, before: set<Edge>, task: Task, deps0: Dependencies, deps: Dependencies,
      p: Task)
    requires SameRelation(before, deps0) && SameRelation(LastEdges(tasks, before, task), deps)
    ensures DependsOn(deps, task, p) <==> exists d :: StartsLast(tasks, before, task, d) && Reaches(deps0, d, p)
  {
    forall x: Task, a: Task
      ensures a in Succ(deps, x) <==> a in Succ(deps0, x) || (x == task && StartsLast(tasks, before, task, a))
    {
      assert a in Succ(deps, x) <==> (a, x) in LastEdges(tasks, before, task);
      assert a in Succ(deps0, x) <==> (a, x) in before;
    }
    assert forall x: Task :: x != task ==> Succ(deps0, x) == Succ(deps, x);
    PlusByFirstEdge(deps0, deps, task, p);
  }

  /** On two tasks that wait for each other there is no sink, and the task placed last waits for neither. */
  lemma LastSkipsCycle(deps0: Dependencies, deps: Dependencies)
    requires SameRelation({(1, 2), (2, 1)}, deps0) && SameRelation(LastEdges([1, 2, 3], {(1, 2), (2, 1)}, 3), deps)
    ensures !DependsOn(deps, 3, 1) && !DependsOn(deps, 3, 2)
  {
    var before: set<Edge> := {(1, 2), (2, 1)};
    var prior := Others([1, 2, 3], 3);
    assert prior == {1, 2};
    assert (1, 2) in before && (2, 1) in before;
    assert forall d :: !StartsLast([1, 2, 3], before, 3, d);
    LastDependsExactly([1, 2, 3], before, 3, deps0, deps, 1);
    LastDependsExactly([1, 2, 3], before, 3, deps0, deps, 2);
  }

  /** When a sink hangs below the cycle the task placed last still waits for all of it. */
  lemma LastReachesCycle(deps0: Dependencies, deps: Dependencies)
    requires SameRelation({(1, 2), (2, 1), (2, 3)}, deps0)
             && SameRelation(LastEdges([1, 2, 3, 4], {(1, 2), (2, 1), (2, 3)}, 4), deps)
    ensures DependsOn(deps, 4, 1) && DependsOn(deps, 4, 2) && DependsOn(deps, 4, 3)
  {
    var before: set<Edge> := {(1, 2), (2, 1), (2, 3)};
    assert StartsLast([1, 2, 3, 4], before, 4, 3);
    assert (2, 3) in before && (1, 2) in before;
    ReachesSelf(deps0, 3);
    ReachesByEdge(deps0, 3, 2);
    ReachesByEdge(deps0, 2, 1);
    ReachesTransitive(deps0, 3, 2, 1);
    LastDependsExactly([1, 2, 3, 4], before, 4, deps0, deps, 1);
    LastDependsExactly([1, 2, 3, 4], before, 4, deps0, deps, 2);
    LastDependsExactly([1, 2, 3, 4], before, 4, deps0, deps, 3);
  }

  /** Later directives only add edges, so what `last` established stays true. */
  lemma {:induction false} LastEdgesGrow(tasks: seq<Task>, edges: set<Edge>, ds: seq<Directive>, k: nat)
    requires k <= |ds|
    ensures AllLastEdges(tasks, edges, ds[..k]) <= AllLastEdges(tasks, edges, ds)
  {
    if k < |ds| {
      LastEdgesGrow(tasks, edges, ds[..|ds| - 1], k);
      assert ds[..|ds| - 1][..k] == ds[..k];
    } else {
      assert ds[..k] == ds;
    }
  }

  /** The final relation of a whole strategy: each `last` directive whose other tasks were
      acyclic when it was applied makes its task depend on every other task. */
  lemma StrategyLastDependsOnAll(tasks: seq<Task>, ds: seq<Directive>, k: nat, deps: Dependencies)
    requires k < |ds| && ds[k].Last? && ds[k].tasks != []
    requires SameRelation(ExpectedEdges(tasks, ds), deps)
    requires Acyclic(Among(Others(tasks, ds[k].tasks[0]), AllLastEdges(tasks, StrategyEdges(ds), ds[..k])))
    ensures forall p :: p in Others(tasks, ds[k].tasks[0]) ==> DependsOn(deps, ds[k].tasks[0], p)
  {
    var base := StrategyEdges(ds);
    var before := AllLastEdges(tasks, base, ds[..k]);
    assert ds[..k + 1][..k] == ds[..k];
    assert AllLastEdges(tasks, base, ds[..k + 1]) == LastEdges(tasks, before, ds[k].tasks[0]);
    LastEdgesGrow(tasks, base, ds, k + 1);
    LastDependsOnAll(tasks, before, ds[k].tasks[0], deps);
  }

  lemma {:induction false} NoMoreLast(tasks: seq<Task>, edges: set<Edge>, ds: seq<Directive>, k: nat)
    requires k <= |ds| && forall j :: k <= j < |ds| ==> !ds[j].Last?
    ensures AllLastEdges(tasks, edges, ds) == AllLastEdges(tasks, edges, ds[..k])
  {
    if k < |ds| {
      NoMoreLast(tasks, edges, ds[..|ds| - 1], k);
      assert ds[..|ds| - 1][..k] == ds[..k];
    } else {
      assert ds[..k] == ds;
    }
  }

  /** In the relation of a whole strategy the task of its final `last` directive depends on exactly these. */
  lemma StrategyLastDependsExactly(tasks: seq<Task>, ds: seq<Directive>, k: nat, deps0: Dependencies,
      deps: Dependencies, p: Task)
    requires k < |ds| && ds[k].Last? && ds[k].tasks != [] && forall j :: k < j < |ds| ==> !ds[j].Last?
    requires SameRelation(AllLastEdges(tasks, StrategyEdges(ds), ds[..k]), deps0)
             && SameRelation(ExpectedEdges(tasks, ds), deps)
    ensures DependsOn(deps, ds[k].tasks[0], p) <==>
            exists d :: StartsLast(tasks, AllLastEdges(tasks, StrategyEdges(ds), ds[..k]), ds[k].tasks[0], d)
                && Reaches(deps0, d, p)
  {
    var before := AllLastEdges(tasks, StrategyEdges(ds), ds[..k]);
    assert ds[..k + 1][..k] == ds[..k];
    NoMoreLast(tasks, StrategyEdges(ds), ds, k + 1);
    assert ExpectedEdges(tasks, ds) == LastEdges(tasks, before, ds[k].tasks[0]);
    LastDependsExactly(tasks, before, ds[k].tasks[0], deps0, deps, p);
  }

  // ---------------------------------------------------------------------------------------
  // The analysis

  /** Adds one edge to both views of the relation. */
  method Link(deps0: Dependencies, edges0: set<Edge>, on: Task, task: Task)
    returns (deps: Dependencies, edges: set<Edge>)
    requires SameRelation(edges0, deps0)
    ensures edges == edges0 + {(on, task)} && SameRelation(edges, deps)
    ensures deps0.Keys <= deps.Keys
  {
    deps := deps0[task := Succ(deps0, task) + {on}];
    edges := edges0 + {(on, task)};
  }

  method ApplySerial(d: Directive, deps0: Dependencies, edges0: set<Edge>)
    returns (deps: Dependencies, edges: set<Edge>)
    requires d.Serial? && SameRelation(edges0, deps0)
    ensures edges == edges0 + DirectiveEdges(d) && SameRelation(edges, deps)
    ensures deps0.Keys <= deps.Keys
  {
    deps, edges := deps0, edges0;
    var sorted := SortedDistinct(d.tasks);
    if sorted != [] {
      deps := deps[sorted[0] := Succ(deps, sorted[0])];
      deps, edges := LinkAll(deps, edges, d.dependencies, sorted[0]);
    }
    deps, edges := LinkChain(deps, edges, sorted);
  }

  method LinkChain(deps0: Dependencies, edges0: set<Edge>, tasks: seq<Task>)
    returns (deps: Dependencies, edges: set<Edge>)
    requires SameRelation(edges0, deps0)
    ensures edges == edges0 + Chain(tasks) && SameRelation(edges, deps)
    ensures deps0.Keys <= deps.Keys
  {
    deps, edges := deps0, edges0;
    if tasks == [] {
      return;
    }
    for i := 1 to |tasks|
      invariant SameRelation(edges, deps) && deps0.Keys <= deps.Keys
      invariant edges == edges0 + Chain(tasks[..i])
    {
      assert tasks[..i + 1][..i] == tasks[..i];
      deps, edges := Link(deps, edges, tasks[i - 1], tasks[i]);
    }
    assert tasks[..|tasks|] == tasks;
  }

  method LinkAll(deps0: Dependencies, edges0: set<Edge>, dependencies: seq<Task>, task: Task)
    returns (deps: Dependencies, edges: set<Edge>)
    requires SameRelation(edges0, deps0)
    ensures edges == edges0 + Fan(dependencies, task) && SameRelation(edges, deps)
    ensures deps0.Keys <= deps.Keys
  {
    deps, edges := deps0, edges0;
    for j := 0 to |dependencies|
      invariant SameRelation(edges, deps) && deps0.Keys <= deps.Keys
      invariant edges == edges0 + Fan(dependencies[..j], task)
    {
      assert dependencies[..j + 1][..j] == dependencies[..j];
      deps, edges := Link(deps, edges, dependencies[j], task);
    }
    assert dependencies[..|dependencies|] == dependencies;
  }

  method ApplyParallel(d: Directive, deps0: Dependencies, edges0: set<Edge>)
    returns (deps: Dependencies, edges: set<Edge>)
    requires d.Parallel? && SameRelation(edges0, deps0)
    ensures edges == edges0 + DirectiveEdges(d) && SameRelation(edges, deps)
    ensures deps0.Keys <= deps.Keys
  {
    deps, edges := deps0, edges0;
    var sorted := SortedDistinct(d.tasks);
    for i := 0 to |sorted|
      invariant SameRelation(edges, deps) && deps0.Keys <= deps.Keys
      invariant edges == edges0 + FanAll(d.dependencies, sorted[..i])
    {
      assert sorted[..i + 1][..i] == sorted[..i];
      deps := deps[sorted[i] := Succ(deps, sorted[i])];
      deps, edges := LinkAll(deps, edges, d.dependencies, sorted[i]);
    }
    assert sorted[..|sorted|] == sorted;
  }

  /** The sinks are found by striking out every prior task that has an edge to a prior task. */
  method SinkTasks(prior: set<Task>, edges: set<Edge>) returns (sinks: set<Task>)
    ensures sinks == Sinks(prior, edges)
  {
    sinks := prior;
    var rest := edges;
    while rest != {}
      invariant rest <= edges
      invariant sinks == Sinks(prior, edges - rest)
      decreases |rest|
    {
      var e :| e in rest;
      if e.0 in prior && e.1 in prior {
        sinks := sinks - {e.0};
      }
      assert edges - (rest - {e}) == (edges - rest) + {e};
      assert forall p, q :: (p, q) == e <==> p == e.0 && q == e.1;
      rest := rest - {e};
    }
    assert edges - {} == edges;
  }

  lemma {:induction false} FanHas(xs: seq<Task>, task: Task)
    ensures forall e: Edge :: e in Fan(xs, task) <==> e.1 == task && e.0 in xs
  {
    if xs != [] {
      var n := |xs| - 1;
      FanHas(xs[..n], task);
      assert xs == xs[..n] + [xs[n]];
    }
  }

  lemma FanIsInto(xs: seq<Task>, sinks: set<Task>, task: Task)
    requires forall x :: x in xs <==> x in sinks
    ensures Fan(xs, task) == Into(sinks, task)
  {
    FanHas(xs, task);
  }

  /** The members of a set in some order. */
  method Listed(s: set<Task>) returns (xs: seq<Task>)
    ensures forall x :: x in xs <==> x in s
  {
    xs := [];
    var rest := s;
    while rest != {}
      invariant rest <= s && forall x :: x in xs <==> x in s && x !in rest
      decreases |rest|
    {
      var x :| x in rest;
      xs, rest := xs + [x], rest - {x};
    }
  }

  method ApplyLast(tasks: seq<Task>, task: Task, deps0: Dependencies, edges0: set<Edge>)
    returns (deps: Dependencies, edges: set<Edge>)
    requires SameRelation(edges0, deps0)
    ensures edges == LastEdges(tasks, edges0, task) && SameRelation(edges, deps)
    ensures deps0.Keys <= deps.Keys
  {
    var sinks := SinkTasks(Others(tasks, task), edges0);
    var order := Listed(sinks);
    FanIsInto(order, sinks, task);
    deps, edges := LinkAll(deps0, edges0, order, task);
  }

  method ApplyDirectives(deps0: Dependencies, ds: seq<Directive>) returns (deps: Dependencies, edges: set<Edge>)
    requires SameRelation({}, deps0)
    ensures edges == StrategyEdges(ds) && SameRelation(edges, deps)
    ensures deps0.Keys <= deps.Keys
  {
    deps, edges := deps0, {};
    for i := 0 to |ds|
      invariant edges == StrategyEdges(ds[..i]) && SameRelation(edges, deps)
      invariant deps0.Keys <= deps.Keys
    {
      assert ds[..i + 1][..i] == ds[..i];
      match ds[i]
      case Serial(_, _) => deps, edges := ApplySerial(ds[i], deps, edges);
      case Parallel(_, _) => deps, edges := ApplyParallel(ds[i], deps, edges);
      case Last(_) =>
    }
    assert ds[..|ds|] == ds;
  }

  method BuildDependencies(tasks: seq<Task>, ds: seq<Directive>)
    returns (deps: Dependencies, edges: set<Edge>)
    ensures edges == ExpectedEdges(tasks, ds) && SameRelation(edges, deps)
    ensures forall t :: t in tasks ==> t in deps
  {
    deps, edges := ApplyDirectives(map t | t in tasks :: {}, ds);
    ghost var base := edges;
    for i := 0 to |ds|
      invariant edges == AllLastEdges(tasks, base, ds[..i]) && SameRelation(edges, deps)
      invariant forall t :: t in tasks ==> t in deps
    {
      assert ds[..i + 1][..i] == ds[..i];
      if ds[i].Last? && ds[i].tasks != [] {
        deps, edges := ApplyLast(tasks, ds[i].tasks[0], deps, edges);
      }
    }
    assert ds[..|ds|] == ds;
  }

  ghost function Mentioned(direct: Dependencies): set<Task> {
    set t, x | t in direct && x in direct[t] :: x
  }

  lemma MarkShrinks(direct: Dependencies, seen0: set<Task>, seen: set<Task>, d: Task)
    requires seen0 <= seen && d !in seen && d in Mentioned(direct)
    ensures |Mentioned(direct) - (seen + {d})| < |Mentioned(direct) - seen0|
  {
    assert d in Mentioned(direct) - seen0;
    SubsetSmaller(Mentioned(direct) - (seen + {d}), Mentioned(direct) - seen0);
  }

  /** What a finished search from `task` has newly marked: tasks it reaches, with their successors marked. */
  ghost predicate Explored(direct: Dependencies, task: Task, collected: set<Task>, seen: set<Task>) {
    forall x :: x in collected ==> Succ(direct, x) <= seen && ReachesPlus(direct, task, x)
  }

  lemma ExploredMore(direct: Dependencies, task: Task, d: Task, collected: set<Task>, seen: set<Task>,
                     more: set<Task>, seen': set<Task>)
    requires Explored(direct, task, collected, seen) && seen <= seen'
    requires d in Succ(direct, task) && Succ(direct, d) <= seen'
    requires Explored(direct, d, more, seen')
    ensures Explored(direct, task, collected + {d} + more, seen')
  {
    ReachesByEdge(direct, task, d);
    forall x | x in more
      ensures ReachesPlus(direct, task, x)
    {
      PlusReaches(direct, d, x);
      PlusFromParts(direct, task, d, x);
    }
  }

  lemma SetsMore(seen0: set<Task>, collected: set<Task>, seen: set<Task>, d: Task, more: set<Task>, seen': set<Task>)
    requires seen == seen0 + collected && collected !! seen0 && d !in seen
    requires seen' == seen + {d} + more && more !! (seen + {d})
    ensures seen' == seen0 + (collected + {d} + more) && (collected + {d} + more) !! seen0
  {
  }

  /** Depth-first collection with one visited set shared by the whole search. It terminates on
      cyclic maps because each recursive call has marked one more mentioned task. */
  method CollectDependencies(task: Task, direct: Dependencies, seen0: set<Task>)
    returns (collected: set<Task>, seen: set<Task>)
    requires seen0 <= Mentioned(direct)
    ensures seen <= Mentioned(direct) && seen == seen0 + collected && collected !! seen0
    ensures Succ(direct, task) <= seen && Explored(direct, task, collected, seen)
    decreases |Mentioned(direct) - seen0|
  {
    collected, seen := {}, seen0;
    var rest := Succ(direct, task);
    while rest != {}
      invariant rest <= Succ(direct, task) <= seen + rest
      invariant seen <= Mentioned(direct) && seen == seen0 + collected && collected !! seen0
      invariant Explored(direct, task, collected, seen)
      decreases |rest|
    {
      var d :| d in rest;
      rest := rest - {d};
      if d !in seen {
        assert d in Mentioned(direct);
        MarkShrinks(direct, seen0, seen, d);
        var more, seen' := CollectDependencies(d, direct, seen + {d});
        ExploredMore(direct, task, d, collected, seen, more, seen');
        SetsMore(seen0, collected, seen, d, more, seen');
        collected, seen := collected + {d} + more, seen';
      }
    }
  }

  lemma PlusReaches(g: Dependencies, a: Task, b: Task)
    requires ReachesPlus(g, a, b)
    ensures Reaches(g, a, b)
  {
    var c :| c in Succ(g, a) && Reaches(g, c, b);
    ReachesByEdge(g, a, c);
    ReachesTransitive(g, a, c, b);
  }

  method DependenciesOf(task: Task, direct: Dependencies) returns (collected: set<Task>)
    ensures forall x :: x in collected <==> DependsOn(direct, task, x)
  {
    var seen;
    collected, seen := CollectDependencies(task, direct, {});
    assert Closed(direct, collected);
    forall x | ReachesPlus(direct, task, x)
      ensures x in collected
    {
      var c :| c in Succ(direct, task) && Reaches(direct, c, x);
      ClosedHoldsReachable(direct, collected, c, x);
    }
  }

  /** For every map, cyclic or not: each task is given exactly what it reaches by one or more edges. */
  method TransitiveDependencies(direct: Dependencies) returns (closure: Dependencies)
    ensures IsClosureOf(closure, direct)
  {
    closure := map[];
    var rest := direct.Keys;
    while rest != {}
      invariant rest <= direct.Keys && closure.Keys == direct.Keys - rest
      invariant forall t, x :: t in closure ==> (x in closure[t] <==> DependsOn(direct, t, x))
      decreases |rest|
    {
      var t :| t in rest;
      var collected := DependenciesOf(t, direct);
      closure := closure[t := collected];
      rest := rest - {t};
    }
  }

  predicate Ordered(closure: Dependencies, a: Task, b: Task) {
    b in Succ(closure, a) || a in Succ(closure, b)
  }

  method HasUnorderedPair(tasks: seq<Task>, closure: Dependencies) returns (conflict: bool)
    ensures conflict <==> exists i, j :: 0 <= i < j < |tasks| && !Ordered(closure, tasks[i], tasks[j])
  {
    for left := 0 to |tasks|
      invariant forall i, j :: 0 <= i < left && i < j < |tasks| ==> Ordered(closure, tasks[i], tasks[j])
    {
      for right := left + 1 to |tasks|
        invariant forall j :: left < j < right ==> Ordered(closure, tasks[left], tasks[j])
      {
        if !Ordered(closure, tasks[left], tasks[right]) {
          return true;
        }
      }
    }
    return false;
  }

  function WritersOf(index: map<string, seq<Task>>, path: string): seq<Task> {
    if path in index then index[path] else []
  }

  ghost predicate AllIncreasing(index: map<string, seq<Task>>) {
    forall path :: path in index ==> Increasing(index[path])
  }

  /** `index` is `index0` with `task` added to the writers of each of the paths. */
  ghost predicate AddsWriter(index: map<string, seq<Task>>, index0: map<string, seq<Task>>, task: Task,
      paths: seq<string>) {
    forall path, t :: t in WritersOf(index, path) <==> t in WritersOf(index0, path) || (t == task && path in paths)
  }

  lemma {:induction false} AddsWriterMore(index0: map<string, seq<Task>>, index: map<string, seq<Task>>, task: Task,
      paths: seq<string>,
                                          path: string)
    requires AddsWriter(index, index0, task, paths)
    ensures AddsWriter(index[path := Insert(task, WritersOf(index, path))], index0, task, paths + [path])
  {
    var more := index[path := Insert(task, WritersOf(index, path))];
    InsertHas(task, WritersOf(index, path));
    forall p, t
      ensures t in WritersOf(more, p) <==> t in WritersOf(index0, p) || (t == task && p in paths + [path])
    {
      if p == path {
        assert path == (paths + [path])[|paths|];
      } else {
        assert WritersOf(more, p) == WritersOf(index, p);
      }
    }
  }

  method AddWriter(index0: map<string, seq<Task>>, entry: TaskScope) returns (index: map<string, seq<Task>>)
    requires AllIncreasing(index0)
    ensures AllIncreasing(index)
    ensures AddsWriter(index, index0, entry.task, entry.paths)
  {
    index := index0;
    for j := 0 to |entry.paths|
      invariant AllIncreasing(index)
      invariant AddsWriter(index, index0, entry.task, entry.paths[..j])
    {
      var path := entry.paths[j];
      var known := WritersOf(index, path);
      InsertKeepsOrder(entry.task, known);
      AddsWriterMore(index0, index, entry.task, entry.paths[..j], path);
      assert entry.paths[..j + 1] == entry.paths[..j] + [path];
      index := index[path := Insert(entry.task, known)];
    }
    assert entry.paths[..|entry.paths|] == entry.paths;
  }

  /** The writers of each path, in the index that `overlapping_scopes` builds. */
  method WritersByPath(scopes: seq<TaskScope>) returns (index: map<string, seq<Task>>)
    ensures forall path, t :: t in WritersOf(index, path) <==> Writes(scopes, t, path)
    ensures AllIncreasing(index)
  {
    index := map[];
    for i := 0 to |scopes|
      invariant forall path, t :: t in WritersOf(index, path) <==> Writes(scopes[..i], t, path)
      invariant AllIncreasing(index)
    {
      var entry := scopes[i];
      index := AddWriter(index, entry);
      forall t, path
        ensures Writes(scopes[..i + 1], t, path) <==>
                Writes(scopes[..i], t, path) || (t == entry.task && path in entry.paths)
      {
        WritesPrefix(scopes, i, t, path);
      }
    }
    assert scopes[..|scopes|] == scopes;
  }

  lemma WritesPrefix(scopes: seq<TaskScope>, i: nat, t: Task, path: string)
    requires i < |scopes|
    ensures Writes(scopes[..i + 1], t, path) <==>
            Writes(scopes[..i], t, path) || (t == scopes[i].task && path in scopes[i].paths)
  {
    var long, short := scopes[..i + 1], scopes[..i];
    assert forall k :: 0 <= k < i ==> long[k] == short[k];
    assert long[i] == scopes[i];
    if Writes(short, t, path) {
      var k :| 0 <= k < |short| && short[k].task == t && path in short[k].paths;
      assert long[k].task == t;
    }
    if Writes(long, t, path) {
      var k :| 0 <= k < |long| && long[k].task == t && path in long[k].paths;
      if k < i {
        assert short[k].task == t;
      }
    }
  }

  method IsHotspot(ghost scopes: seq<TaskScope>, ghost deps: Dependencies, closure: Dependencies, ghost path: string,
      writers: seq<Task>)
    returns (conflict: bool)
    requires IsClosureOf(closure, deps) && Increasing(writers)
    requires forall k :: 0 <= k < |scopes| ==> scopes[k].task in deps
    requires forall t :: t in writers <==> Writes(scopes, t, path)
    ensures conflict <==> UnorderedWriters(scopes, deps, path)
  {
    PairsAreWriters(scopes, deps, closure, path, writers);
    conflict := HasUnorderedPair(writers, closure);
  }

  /** A hotspot is reported for a path exactly when two of its writers are unordered. */
  method HotspotConflicts(scopes: seq<TaskScope>, deps: Dependencies, closure: Dependencies)
    returns (hotspots: set<string>)
    requires IsClosureOf(closure, deps)
    requires forall k :: 0 <= k < |scopes| ==> scopes[k].task in deps
    ensures forall path :: path in hotspots <==> UnorderedWriters(scopes, deps, path)
  {
    var index := WritersByPath(scopes);
    hotspots := {};
    var rest := index.Keys;
    while rest != {}
      invariant rest <= index.Keys && hotspots <= index.Keys - rest
      invariant forall path :: path in index && path !in rest ==>
                  (path in hotspots <==> UnorderedWriters(scopes, deps, path))
      decreases |rest|
    {
      var path :| path in rest;
      rest := rest - {path};
      var conflict := IsHotspot(scopes, deps, closure, path, index[path]);
      if conflict {
        hotspots := hotspots + {path};
      }
    }
    forall path | path !in index
      ensures !UnorderedWriters(scopes, deps, path)
    {
    }
  }

  lemma PairsAreWriters(scopes: seq<TaskScope>, deps: Dependencies, closure: Dependencies, path: string,
                        writers: seq<Task>)
    requires IsClosureOf(closure, deps) && Increasing(writers)
    requires forall k :: 0 <= k < |scopes| ==> scopes[k].task in deps
    requires forall t :: t in writers <==> Writes(scopes, t, path)
    ensures (exists i, j :: 0 <= i < j < |writers| && !Ordered(closure, writers[i], writers[j]))
            <==> UnorderedWriters(scopes, deps, path)
  {
    forall a, b | a in writers && b in writers
      ensures Ordered(closure, a, b) <==> DependsOn(deps, a, b) || DependsOn(deps, b, a)
    {
      assert Writes(scopes, a, path) && Writes(scopes, b, path);
    }
    if i, j :| 0 <= i < j < |writers| && !Ordered(closure, writers[i], writers[j]) {
      assert writers[i] in writers && writers[j] in writers;
    }
    if UnorderedWriters(scopes, deps, path) {
      var a, b :| a != b && Writes(scopes, a, path) && Writes(scopes, b, path)
                  && !DependsOn(deps, a, b) && !DependsOn(deps, b, a);
      assert a in writers && b in writers;
      var i :| 0 <= i < |writers| && writers[i] == a;
      var j :| 0 <= j < |writers| && writers[j] == b;
      assert !Ordered(closure, writers[i], writers[j]) && !Ordered(closure, writers[j], writers[i]);
    }
  }

  /** The picture draws exactly the dependency relation. */
  ghost predicate PicturesRelation(lines: seq<string>, deps: Dependencies) {
    forall a: Task, b: Task ::
      Diagram.Pictured(lines, Diagram.PadAll(lines), Diagram.Width(lines), (a, b)) <==> a in Succ(deps, b)
  }

  lemma PictureMatch(lines: seq<string>, drawn: set<Edge>, edges: set<Edge>, deps: Dependencies)
    requires SameRelation(edges, deps)
    requires forall e: Edge :: e in drawn <==> Diagram.Pictured(lines, Diagram.PadAll(lines), Diagram.Width(lines), e)
    ensures drawn == edges <==> PicturesRelation(lines, deps)
  {
    if PicturesRelation(lines, deps) {
      forall e: Edge
        ensures e in drawn <==> e in edges
      {
        assert e == (e.0, e.1);
      }
    }
  }

  /** One run of the analysis; `diagram` holds the lines of the diagram section when there is one.
      A diagram that draws no complaint is the very relation that decides the hotspots. */
  method AnalyzeExecutionTopology(scopes: seq<TaskScope>, ds: seq<Directive>, diagram: Option<seq<string>>)
    returns (a: Analysis)
    ensures SameRelation(a.edges, a.dependencies) && IsClosureOf(a.closure, a.dependencies)
    ensures a.edges == ExpectedEdges(TaskNumbers(scopes), ds)
    ensures forall x: Task, y: Task :: !PlacedLast(ds, y) ==> ((x, y) in a.edges <==> SaidBy(ds, x, y))
    ensures forall path :: path in a.hotspots <==> UnorderedWriters(scopes, a.dependencies, path)
    ensures a.diagramMalformed <==> diagram.Some? && forall n :: !Diagram.IsNode(diagram.value, n)
    ensures diagram.Some? && !a.diagramMalformed ==>
              (!a.diagramMismatch <==> PicturesRelation(diagram.value, a.dependencies))
  {
    var tasks := TaskNumbers(scopes);
    var deps, edges := BuildDependencies(tasks, ds);
    forall x: Task, y: Task
      ensures !PlacedLast(ds, y) ==> ((x, y) in edges <==> SaidBy(ds, x, y))
    {
      ExpectedExactly(tasks, ds, x, y);
    }
    forall k | 0 <= k < |scopes|
      ensures scopes[k].task in deps
    {
      assert tasks[k] in tasks;
    }
    var closure := TransitiveDependencies(deps);
    var malformed, mismatch := false, false;
    if diagram.Some? {
      var parsed := Diagram.ParseDependencyDiagramEdges(diagram.value);
      match parsed
      case Some(drawn) =>
        if drawn != edges {
          mismatch := true;
        }
        PictureMatch(diagram.value, drawn, edges, deps);
      case None => malformed := true;
    }
    var hotspots := HotspotConflicts(scopes, deps, closure);
    a := Analysis(deps, edges, closure, malformed, mismatch, hotspots);
  }
}
