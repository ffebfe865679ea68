/** Text the way the runtime's ordered maps and identifiers use it: byte order, trimming. */
module Text {

  /** The order in which an ordered map keeps its string keys. */
  predicate Le(a: string, b: string) {
    a == [] || (b != [] && (a[0] < b[0] || (a[0] == b[0] && Le(a[1..], b[1..]))))
  }

  lemma {:induction false} LeTotal(a: string, b: string)
    ensures Le(a, b) || Le(b, a)
  {
    if a != [] && b != [] && a[0] == b[0] {
      LeTotal(a[1..], b[1..]);
    }
  }

  lemma {:induction false} LeAntisymmetric(a: string, b: string)
    requires Le(a, b) && Le(b, a)
    ensures a == b
  {
    if a != [] {
      LeAntisymmetric(a[1..], b[1..]);
      assert a == [a[0]] + a[1..] && b == [b[0]] + b[1..];
    }
  }

  lemma {:induction false} LeTransitive(a: string, b: string, c: string)
    requires Le(a, b) && Le(b, c)
    ensures Le(a, c)
  {
    if a != [] && a[0] == b[0] && b[0] == c[0] {
      LeTransitive(a[1..], b[1..], c[1..]);
    }
  }

  predicate IsLeast(least: string, keys: set<string>) {
    least in keys && forall k :: k in keys ==> Le(least, k)
  }

  lemma {:induction false} LeastExists(keys: set<string>) returns (least: string)
    requires keys != {}
    ensures IsLeast(least, keys)
    decreases |keys|
  {
    var k :| k in keys;
    if keys == {k} {
      least := k;
      LeTotal(k, k);
    } else {
      var rest := keys - {k};
      assert keys == rest + {k};
      assert rest != {};
      var l := LeastExists(rest);
      LeTotal(k, l);
      LeTotal(k, k);
      if Le(l, k) {
        least := l;
      } else {
        least := k;
        forall j | j in keys
          ensures Le(k, j)
        {
          if j != k {
            LeTransitive(k, l, j);
          }
        }
      }
    }
  }

  ghost predicate Ascending(keys: seq<string>) {
    forall i, j :: 0 <= i < j < |keys| ==> Le(keys[i], keys[j]) && keys[i] != keys[j]
  }

  /** The keys of an ordered map, in the order in which it is iterated. */
  method SortedKeys(keys: set<string>) returns (sorted: seq<string>)
    ensures Ascending(sorted)
    ensures forall k :: k in sorted <==> k in keys
  {
    sorted := [];
    var rest := keys;
    while rest != {}
      invariant rest <= keys
      invariant Ascending(sorted)
      invariant forall k :: k in sorted <==> k in keys && k !in rest
      invariant forall i, k :: 0 <= i < |sorted| && k in rest ==> Le(sorted[i], k)
      decreases |rest|
    {
      ghost var least := LeastExists(rest);
      var k :| k in rest && forall j :: j in rest ==> Le(k, j);
      assert forall i :: 0 <= i < |sorted| ==> sorted[i] in sorted;
      sorted := sorted + [k];
      rest := rest - {k};
    }
  }

  // ---------------------------------------------------------------------------------------

  predicate IsSpace(c: char) {
    c == ' ' || c == '\t' || c == '\n' || c == '\r'
  }

  function TrimStart(s: string): (r: string)
    ensures r == [] || !IsSpace(r[0])
  {
    if s != [] && IsSpace(s[0]) then TrimStart(s[1..]) else s
  }

  function TrimEnd(s: string): (r: string)
    ensures r <= s && (r == [] || !IsSpace(r[|r| - 1]))
  {
    if s != [] && IsSpace(s[|s| - 1]) then TrimEnd(s[..|s| - 1]) else s
  }

  function Trim(s: string): string {
    TrimEnd(TrimStart(s))
  }

  lemma TrimTwice(s: string)
    ensures Trim(Trim(s)) == Trim(s)
  {
    var t := Trim(s);
    assert TrimStart(t) == t;
    assert TrimEnd(t) == t;
  }
}
