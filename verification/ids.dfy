/** Researcher and bug identifiers, and the counting facts the matching proofs need. */
module Ids {

  /** Capacity of every fixed-size array in the program: identifiers go up to 10000. */
  const Capacity := 10000

  function Min(a: int, b: int): int {
    if a <= b then a else b
  }

  /** The identifiers 1..n. */
  ghost function Range(n: int): (ids: set<int>)
    ensures forall x :: x in ids <==> 1 <= x <= n
    decreases n
  {
    if n <= 0 then {} else Range(n - 1) + {n}
  }

  /** There are exactly n identifiers 1..n. */
  lemma {:induction false} RangeSize(n: nat)
    ensures |Range(n)| == n
  {
    if n > 0 {
      RangeSize(n - 1);
    }
  }

  /** An injection from xs into ys shows that xs is no larger than ys. */
  lemma {:induction false} InjectionBound<A, B>(xs: set<A>, ys: set<B>, f: A -> B)
    requires forall x | x in xs :: f(x) in ys
    requires forall x, x' | x in xs && x' in xs && f(x) == f(x') :: x == x'
    ensures |xs| <= |ys|
    decreases xs
  {
    if xs != {} {
      var x :| x in xs;
      InjectionBound(xs - {x}, ys - {f(x)}, f);
    }
  }

  /** A subset is no larger than its superset, and a proper subset is smaller. */
  lemma SubsetBound<A>(xs: set<A>, ys: set<A>)
    requires xs <= ys
    ensures |xs| <= |ys|
    ensures xs < ys ==> |xs| < |ys|
  {
    assert ys == xs + (ys - xs);
  }

  /** A set of identifiers 1..n holds at most n of them. */
  lemma RangeSubsetBound(xs: set<int>, n: nat)
    requires forall x | x in xs :: 1 <= x <= n
    ensures |xs| <= n
  {
    RangeSize(n);
    SubsetBound(xs, Range(n));
  }
}
