/** Cardinalities of finite sets. */
module Counting {
  /** The numbers below `n`. */
  ghost function Upto(n: nat): (s: set<nat>)
    ensures forall i: nat :: i in s <==> i < n
    ensures |s| == n
  {
    if n == 0 then {} else Upto(n - 1) + {n - 1}
  }

  lemma SubsetSize<T>(x: set<T>, y: set<T>)
    requires x <= y
    ensures |x| <= |y|
    ensures |x| == |y| ==> x == y
  {
    assert y == x + (y - x);
    assert |y| == |x| + |y - x|;
  }
}
