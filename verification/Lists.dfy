/** Lists without repetition, as the runtime keeps them in plain vectors. */
module Lists {

  datatype Option<+T> = None | Some(value: T)

  ghost predicate Distinct<T>(xs: seq<T>) {
    forall i, j :: 0 <= i < j < |xs| ==> xs[i] != xs[j]
  }

  /** `xs` with every occurrence of `x` dropped, order kept. */
  function Without<T(==,!new)>(xs: seq<T>, x: T): (r: seq<T>)
    ensures x !in r && |r| <= |xs|
    ensures forall y :: y in r <==> y in xs && y != x
  {
    if xs == [] then []
    else if xs[|xs| - 1] == x then Without(xs[..|xs| - 1], x)
    else Without(xs[..|xs| - 1], x) + [xs[|xs| - 1]]
  }

  function WithUnique<T(==,!new)>(xs: seq<T>, x: T): (r: seq<T>)
    ensures forall y :: y in r <==> y in xs || y == x
  {
    if x in xs then xs else xs + [x]
  }

  function AllWithout<T(==,!new)>(xs: seq<T>, drop: seq<T>): (r: seq<T>)
    ensures forall y :: y in r <==> y in xs && y !in drop
  {
    if drop == [] then xs else Without(AllWithout(xs, drop[..|drop| - 1]), drop[|drop| - 1])
  }

  function AllWithUnique<T(==,!new)>(xs: seq<T>, add: seq<T>): (r: seq<T>)
    ensures forall y :: y in r <==> y in xs || y in add
  {
    if add == [] then xs else WithUnique(AllWithUnique(xs, add[..|add| - 1]), add[|add| - 1])
  }

  /** A list that does not hold `x` is left exactly as it is. */
  lemma {:induction false} WithoutAbsent<T(!new)>(xs: seq<T>, x: T)
    requires x !in xs
    ensures Without(xs, x) == xs
  {
    if xs != [] {
      WithoutAbsent(xs[..|xs| - 1], x);
    }
  }

  lemma {:induction false} WithoutLast<T(!new)>(xs: seq<T>, x: T)
    requires x !in xs
    ensures Without(xs + [x], x) == xs
  {
    assert (xs + [x])[..|xs|] == xs;
    WithoutAbsent(xs, x);
  }

  lemma {:induction false} WithoutDistinct<T(!new)>(xs: seq<T>, x: T)
    requires Distinct(xs)
    ensures Distinct(Without(xs, x))
  {
    if xs != [] {
      var rest := xs[..|xs| - 1];
      WithoutDistinct(rest, x);
      var kept := Without(rest, x);
      assert forall i :: 0 <= i < |kept| ==> kept[i] in rest;
    }
  }

  lemma {:induction false} AllWithoutAbsent<T(!new)>(xs: seq<T>, drop: seq<T>)
    requires forall x :: x in drop ==> x !in xs
    ensures AllWithout(xs, drop) == xs
  {
    if drop != [] {
      AllWithoutAbsent(xs, drop[..|drop| - 1]);
      WithoutAbsent(xs, drop[|drop| - 1]);
    }
  }

  /** Dropping is a filter, so it distributes over concatenation. */
  lemma {:induction false} WithoutConcat<T(!new)>(xs: seq<T>, ys: seq<T>, x: T)
    ensures Without(xs + ys, x) == Without(xs, x) + Without(ys, x)
  {
    if ys == [] {
      assert xs + ys == xs;
    } else {
      assert (xs + ys)[..|xs + ys| - 1] == xs + ys[..|ys| - 1];
      WithoutConcat(xs, ys[..|ys| - 1], x);
    }
  }

  lemma {:induction false} AllWithoutConcat<T(!new)>(xs: seq<T>, ys: seq<T>, drop: seq<T>)
    ensures AllWithout(xs + ys, drop) == AllWithout(xs, drop) + AllWithout(ys, drop)
  {
    if drop != [] {
      var rest := drop[..|drop| - 1];
      AllWithoutConcat(xs, ys, rest);
      WithoutConcat(AllWithout(xs, rest), AllWithout(ys, rest), drop[|drop| - 1]);
    }
  }

  /** Pushing appends a block made only of the pushed values. */
  lemma {:induction false} AllWithUniqueAppends<T(!new)>(xs: seq<T>, add: seq<T>)
    ensures xs <= AllWithUnique(xs, add)
    ensures forall y :: y in AllWithUnique(xs, add)[|xs|..] ==> y in add
  {
    if add != [] {
      var rest := add[..|add| - 1];
      AllWithUniqueAppends(xs, rest);
      var r := AllWithUnique(xs, rest);
      assert AllWithUnique(xs, add)[|xs|..] == r[|xs|..]
          || AllWithUnique(xs, add)[|xs|..] == r[|xs|..] + [add[|add| - 1]];
    }
  }

  lemma AppendLast<T>(xs: seq<T>, ys: seq<T>)
    requires ys != []
    ensures xs + ys == (xs + ys[..|ys| - 1]) + [ys[|ys| - 1]]
  {
    assert ys == ys[..|ys| - 1] + [ys[|ys| - 1]];
  }

  lemma MoveHead<T>(xs: seq<T>, ys: seq<T>)
    requires ys != []
    ensures (xs + [ys[0]]) + ys[1..] == xs + ys
  {
    assert ys == [ys[0]] + ys[1..];
  }

  lemma HeadIsMember<T(!new)>(xs: seq<T>)
    ensures xs == [] || xs[0] in xs
  {
  }

  lemma {:induction false} AllDropped<T(!new)>(xs: seq<T>, drop: seq<T>)
    requires forall x :: x in xs ==> x in drop
    ensures AllWithout(xs, drop) == []
  {
    HeadIsMember(AllWithout(xs, drop));
  }

  /** Superseding a set of values and pushing some of them back is idempotent. */
  lemma {:induction false} ReplaceTwice<T(!new)>(xs: seq<T>, drop: seq<T>, add: seq<T>)
    requires forall x :: x in add ==> x in drop
    ensures var once := AllWithUnique(AllWithout(xs, drop), add);
            AllWithUnique(AllWithout(once, drop), add) == once
  {
    var base := AllWithout(xs, drop);
    var once := AllWithUnique(base, add);
    AllWithUniqueAppends(base, add);
    var tail := once[|base|..];
    assert once == base + tail;
    AllWithoutConcat(base, tail, drop);
    AllWithoutAbsent(base, drop);
    AllDropped(tail, drop);
    assert base + [] == base;
  }

  method RemoveValue<T(==,!new)>(xs: seq<T>, x: T) returns (r: seq<T>)
    ensures r == Without(xs, x)
  {
    r := [];
    for i := 0 to |xs|
      invariant r == Without(xs[..i], x)
    {
      assert xs[..i + 1][..i] == xs[..i];
      if xs[i] != x {
        r := r + [xs[i]];
      }
    }
    assert xs[..|xs|] == xs;
  }

  method PushUnique<T(==,!new)>(xs: seq<T>, x: T) returns (r: seq<T>)
    ensures r == WithUnique(xs, x)
  {
    for i := 0 to |xs|
      invariant x !in xs[..i]
    {
      if xs[i] == x {
        return xs;
      }
    }
    r := xs + [x];
  }

  method RemoveAll<T(==,!new)>(xs: seq<T>, drop: seq<T>) returns (r: seq<T>)
    ensures r == AllWithout(xs, drop)
  {
    r := xs;
    for i := 0 to |drop|
      invariant r == AllWithout(xs, drop[..i])
    {
      assert drop[..i + 1][..i] == drop[..i];
      r := RemoveValue(r, drop[i]);
    }
    assert drop[..|drop|] == drop;
  }

  method PushAllUnique<T(==,!new)>(xs: seq<T>, add: seq<T>) returns (r: seq<T>)
    ensures r == AllWithUnique(xs, add)
  {
    r := xs;
    for i := 0 to |add|
      invariant r == AllWithUnique(xs, add[..i])
    {
      assert add[..i + 1][..i] == add[..i];
      r := PushUnique(r, add[i]);
    }
    assert add[..|add|] == add;
  }
}
