/** Finite sets of natural numbers: least element, sorted order, initial ranges, sizes. */
module Sets {

  lemma {:induction false} FindMin(s: set<nat>) returns (m: nat)
    requires s != {}
    ensures m in s && forall x :: x in s ==> m <= x
    decreases |s|
  {
    m :| m in s;
    var t := s - {m};
    if t == {} {
      assert s == {m};
    } else {
      var k := FindMin(t);
      assert s == t + {m};
      m := if m <= k then m else k;
    }
  }

  function Min(s: set<nat>): (m: nat)
    requires s != {}
    ensures m in s && forall x :: x in s ==> m <= x
  {
    assert exists m :: m in s && forall x :: x in s ==> m <= x by { var m := FindMin(s); }
    var m :| m in s && forall x :: x in s ==> m <= x;
    m
  }

  predicate Increasing(xs: seq<nat>) {
    forall i, j :: 0 <= i < j < |xs| ==> xs[i] < xs[j]
  }

  /** The elements of a set in increasing order: ORDER BY chunk_index ASC, or sorted(...). */
  function Sorted(s: set<nat>): (xs: seq<nat>)
    ensures forall x :: x in xs <==> x in s
    ensures |xs| == |s|
    ensures Increasing(xs)
  {
    if s == {} then [] else var m := Min(s); [m] + Sorted(s - {m})
  }

  lemma AllButFirst(a: seq<nat>)
    requires |a| > 0 && Increasing(a)
    ensures Increasing(a[1..])
    ensures forall x :: x in a[1..] <==> x in a && x != a[0]
  {
    var rest := a[1..];
    assert forall j :: 0 <= j < |rest| ==> rest[j] == a[j + 1];
    assert a == [a[0]] + rest;
  }

  /** An increasing sequence is determined by its elements. */
  lemma {:induction false} SameOrder(a: seq<nat>, b: seq<nat>)
    requires Increasing(a) && Increasing(b) && forall x :: x in a <==> x in b
    ensures a == b
    decreases |a|
  {
    assert |a| > 0 ==> a[0] in a;
    assert |b| > 0 ==> b[0] in b;
    if |a| > 0 {
      assert a[0] in b && b[0] in a;
      assert a[0] == b[0];
      AllButFirst(a);
      AllButFirst(b);
      SameOrder(a[1..], b[1..]);
      assert a == [a[0]] + a[1..] && b == [b[0]] + b[1..];
    }
  }

  /** {0, ..., n - 1} */
  function Range(n: nat): (s: set<nat>)
    ensures forall i: nat :: i in s <==> i < n
  {
    if n == 0 then {} else Range(n - 1) + {n - 1}
  }

  lemma {:induction false} RangeSize(n: nat)
    ensures |Range(n)| == n
  {
    if n > 0 {
      RangeSize(n - 1);
    }
  }

  /** 0, ..., n - 1 in order. */
  function Upto(n: nat): seq<nat> {
    seq(n, i => i)
  }

  lemma SortedRange(n: nat)
    ensures Sorted(Range(n)) == Upto(n)
  {
    forall x: nat
      ensures x in Upto(n) <==> x < n
    {
      if x < n { assert Upto(n)[x] == x; }
    }
    SameOrder(Sorted(Range(n)), Upto(n));
  }

  lemma SubsetSize<T>(a: set<T>, b: set<T>)
    requires a <= b
    ensures |a| <= |b|
    ensures |a| == |b| ==> a == b
  {
    assert b == a + (b - a);
  }

  lemma DifferenceSize<T>(a: set<T>, b: set<T>)
    requires a <= b
    ensures |b - a| == |b| - |a|
  {
    assert b == a + (b - a);
  }
}
