/** Finite directed graphs given by successor sets, and what can be reached in them. */
module Reachability {

  function Succ<T>(g: map<T, set<T>>, x: T): set<T> {
    if x in g then g[x] else {}
  }

  ghost predicate IsPath<T>(g: map<T, set<T>>, p: seq<T>) {
    |p| >= 1 && forall i :: 0 <= i < |p| - 1 ==> p[i + 1] in Succ(g, p[i])
  }

  ghost predicate PathFromTo<T>(g: map<T, set<T>>, p: seq<T>, a: T, b: T) {
    IsPath(g, p) && p[0] == a && p[|p| - 1] == b
  }

  /** Zero or more edges. */
  ghost predicate Reaches<T(!new)>(g: map<T, set<T>>, a: T, b: T) {
    exists p: seq<T> :: PathFromTo(g, p, a, b)
  }

  /** One or more edges. */
  ghost predicate ReachesPlus<T(!new)>(g: map<T, set<T>>, a: T, b: T) {
    exists c :: c in Succ(g, a) && Reaches(g, c, b)
  }

  ghost predicate Acyclic<T(!new)>(g: map<T, set<T>>) {
    forall x :: !ReachesPlus(g, x, x)
  }

  ghost predicate Closed<T>(g: map<T, set<T>>, s: set<T>) {
    forall x :: x in s ==> Succ(g, x) <= s
  }

  ghost predicate Subgraph<T(!new)>(g: map<T, set<T>>, h: map<T, set<T>>) {
    forall x :: Succ(g, x) <= Succ(h, x)
  }

  lemma ReachesSelf<T(!new)>(g: map<T, set<T>>, a: T)
    ensures Reaches(g, a, a)
  {
    assert PathFromTo(g, [a], a, a);
  }

  lemma ReachesTransitive<T(!new)>(g: map<T, set<T>>, a: T, b: T, c: T)
    requires Reaches(g, a, b) && Reaches(g, b, c)
    ensures Reaches(g, a, c)
  {
    var p :| PathFromTo(g, p, a, b);
    var q :| PathFromTo(g, q, b, c);
    var r := p + q[1..];
    forall i | 0 <= i < |r| - 1
      ensures r[i + 1] in Succ(g, r[i])
    {
      if i < |p| - 1 {
        assert r[i] == p[i] && r[i + 1] == p[i + 1];
      } else {
        assert r[i] == q[i - |p| + 1] && r[i + 1] == q[i - |p| + 2];
      }
    }
    assert PathFromTo(g, r, a, c);
  }

  lemma ReachesByEdge<T(!new)>(g: map<T, set<T>>, a: T, b: T)
    requires b in Succ(g, a)
    ensures Reaches(g, a, b) && ReachesPlus(g, a, b)
  {
    assert PathFromTo(g, [a, b], a, b);
    ReachesSelf(g, b);
  }

  /** An edge followed by a path, or a path followed by an edge, is a path of one or more edges. */
  lemma PlusFromParts<T(!new)>(g: map<T, set<T>>, a: T, b: T, c: T)
    requires (ReachesPlus(g, a, b) && Reaches(g, b, c)) || (Reaches(g, a, b) && ReachesPlus(g, b, c))
    ensures ReachesPlus(g, a, c) && Reaches(g, a, c)
  {
    if Reaches(g, a, b) && ReachesPlus(g, b, c) {
      var d :| d in Succ(g, b) && Reaches(g, d, c);
      ReachesByEdge(g, b, d);
      ReachesTransitive(g, b, d, c);
      ReachesTransitive(g, a, b, c);
      var p :| PathFromTo(g, p, a, b);
      if |p| > 1 {
        assert p[1] in Succ(g, p[0]);
        assert PathFromTo(g, p[1..], p[1], b);
        ReachesTransitive(g, p[1], b, c);
      }
    } else {
      var d :| d in Succ(g, a) && Reaches(g, d, b);
      ReachesTransitive(g, d, b, c);
      ReachesByEdge(g, a, d);
      ReachesTransitive(g, a, d, c);
    }
  }

  /** A closed set holds everything reachable from its members. */
  lemma ClosedHoldsReachable<T(!new)>(g: map<T, set<T>>, s: set<T>, a: T, b: T)
    requires Closed(g, s) && a in s && Reaches(g, a, b)
    ensures b in s
  {
    var p :| PathFromTo(g, p, a, b);
    for i := 1 to |p|
      invariant forall k :: 0 <= k < i ==> p[k] in s
    {
      assert p[i - 1 + 1] in Succ(g, p[i - 1]);
    }
  }

  lemma SubgraphReaches<T(!new)>(g: map<T, set<T>>, h: map<T, set<T>>, a: T, b: T)
    requires Subgraph(g, h) && Reaches(g, a, b)
    ensures Reaches(h, a, b)
  {
    var p :| PathFromTo(g, p, a, b);
    forall i | 0 <= i < |p| - 1
      ensures p[i + 1] in Succ(h, p[i])
    {
      assert Succ(g, p[i]) <= Succ(h, p[i]);
    }
    assert PathFromTo(h, p, a, b);
  }

  /** A path of `h` that starts with an edge from `a`, cut after its last visit to `a`: the rest is a path
      of any graph that has the same edges from everything but `a`. */
  lemma {:induction false} CutAtLastVisit<T(!new)>(g: map<T, set<T>>, h: map<T, set<T>>, a: T, p: seq<T>, b: T)
      returns (d: T)
    requires forall x :: x != a ==> Succ(g, x) == Succ(h, x)
    requires p != [] && PathFromTo(h, p, p[0], b) && p[0] in Succ(h, a)
    ensures d in Succ(h, a) && Reaches(g, d, b)
    decreases |p|
  {
    if i :| 0 <= i < |p| - 1 && p[i] == a {
      var rest := p[i + 1..];
      assert p[i + 1] in Succ(h, p[i]);
      forall j | 0 <= j < |rest| - 1
        ensures rest[j + 1] in Succ(h, rest[j])
      {
        assert p[i + 1 + j + 1] in Succ(h, p[i + 1 + j]);
      }
      d := CutAtLastVisit(g, h, a, rest, b);
    } else {
      d := p[0];
      assert PathFromTo(g, p, d, b);
    }
  }

  /** What `a` reaches after its own edges have been changed. */
  lemma PlusByFirstEdge<T(!new)>(g: map<T, set<T>>, h: map<T, set<T>>, a: T, b: T)
    requires Subgraph(g, h) && forall x :: x != a ==> Succ(g, x) == Succ(h, x)
    ensures ReachesPlus(h, a, b) <==> exists d :: d in Succ(h, a) && Reaches(g, d, b)
  {
    if ReachesPlus(h, a, b) {
      var c :| c in Succ(h, a) && Reaches(h, c, b);
      var p :| PathFromTo(h, p, c, b);
      var d := CutAtLastVisit(g, h, a, p, b);
    }
    if d :| d in Succ(h, a) && Reaches(g, d, b) {
      SubgraphReaches(g, h, d, b);
    }
  }
}
