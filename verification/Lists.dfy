/** Lists without one element, and lists of lists, one behind the other, with what their order matters for. */
module Lists {
  /** A list without one element. */
  function RemoveAt<T>(s: seq<T>, i: nat): (r: seq<T>)
    requires i < |s|
    ensures |r| == |s| - 1
    ensures forall j :: 0 <= j < |r| ==> r[j] == s[if j < i then j else j + 1]
    ensures multiset(s) == multiset(r) + multiset{s[i]}
  {
    assert s == s[..i] + [s[i]] + s[i + 1..];
    s[..i] + s[i + 1..]
  }

  /** The lists that the elements stand for, one behind the other. */
  function Flat<T, U>(part: T -> seq<U>, s: seq<T>): seq<U> {
    if s == [] then [] else Flat(part, s[..|s| - 1]) + part(s[|s| - 1])
  }

  lemma FlatStep<T, U>(part: T -> seq<U>, s: seq<T>, x: T)
    ensures Flat(part, s + [x]) == Flat(part, s) + part(x)
  {
    assert (s + [x])[..|s|] == s;
  }

  lemma Associative<U>(x: seq<U>, y: seq<U>, z: seq<U>)
    ensures (x + y) + z == x + (y + z)
  {
  }

  lemma {:induction false} FlatOfConcat<T, U>(part: T -> seq<U>, a: seq<T>, b: seq<T>)
    ensures Flat(part, a + b) == Flat(part, a) + Flat(part, b)
  {
    if b == [] {
      assert a + b == a;
    } else {
      var init, last := b[..|b| - 1], b[|b| - 1];
      FlatOfConcat(part, a, init);
      FlatStep(part, a + init, last);
      assert a + b == (a + init) + [last];
      Associative(Flat(part, a), Flat(part, init), part(last));
    }
  }

  lemma Without<T>(a: seq<T>, x: T, l: seq<T>, r: seq<T>)
    requires multiset(a + [x]) == multiset(l + [x] + r)
    ensures multiset(a) == multiset(l + r)
  {
    assert multiset(a) == multiset(a + [x]) - multiset{x};
    assert multiset(l + r) == multiset(l + [x] + r) - multiset{x};
  }

  /** Taking one element out takes its list out. */
  lemma FlatWithout<T, U>(part: T -> seq<U>, l: seq<T>, x: T, r: seq<T>)
    ensures multiset(Flat(part, l + [x] + r)) == multiset(Flat(part, l + r)) + multiset(part(x))
  {
    FlatOfConcat(part, l + [x], r);
    FlatOfConcat(part, l, r);
    FlatStep(part, l, x);
  }

  /** As a multiset, the result does not depend on the order. */
  lemma {:induction false} FlatOfPermutation<T, U>(part: T -> seq<U>, a: seq<T>, b: seq<T>)
    requires multiset(a) == multiset(b)
    ensures multiset(Flat(part, a)) == multiset(Flat(part, b))
    decreases |a|
  {
    if a == [] {
      assert |multiset(b)| == 0;
    } else {
      var init, last := a[..|a| - 1], a[|a| - 1];
      assert a == init + [last];
      assert last in multiset(a);
      var j :| 0 <= j < |b| && b[j] == last;
      var l, r := b[..j], b[j + 1..];
      assert b == l + [last] + r;
      Without(init, last, l, r);
      FlatOfPermutation(part, init, l + r);
      FlatWithout(part, l, last, r);
      FlatStep(part, init, last);
    }
  }

  lemma SameLength<T, U>(part: T -> seq<U>, a: seq<T>, b: seq<T>)
    requires multiset(a) == multiset(b)
    ensures |Flat(part, a)| == |Flat(part, b)|
  {
    FlatOfPermutation(part, a, b);
    assert |multiset(Flat(part, a))| == |Flat(part, a)|;
    assert |multiset(Flat(part, b))| == |Flat(part, b)|;
  }
}
