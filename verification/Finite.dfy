/** Sequences without repetition and the finite sets they cover. */
module Finite {
  ghost predicate Distinct<T>(q: seq<T>) { forall i, j :: 0 <= i < j < |q| ==> q[i] != q[j] }

  ghost function Elems(q: seq<int>): set<int> { set x | x in q }

  /** The numbers from 0 up to a bound. */
  function Below(n: nat): (s: set<int>)
    ensures forall i :: i in s <==> 0 <= i < n
    ensures |s| == n
  {
    if n == 0 then {} else Below(n - 1) + {n - 1}
  }

  lemma SubsetSize(a: set<int>, b: set<int>)
    requires a <= b
    ensures |a| <= |b|
  {
    assert b == a + (b - a);
  }

  /** A sequence without repetition has as many members as places. */
  lemma {:induction false} DistinctSize(q: seq<int>)
    requires Distinct(q)
    ensures |Elems(q)| == |q|
  {
    if q != [] {
      DistinctSize(q[..|q| - 1]);
      assert Elems(q) == Elems(q[..|q| - 1]) + {q[|q| - 1]};
    }
  }
}
