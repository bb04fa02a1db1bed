/** Sizes of finite sets of integers. */
module Counting {

  ghost function UpTo(n: nat): (s: set<int>)
    ensures forall i :: i in s <==> 0 < i <= n
    ensures |s| == n
  {
    if n == 0 then {} else UpTo(n - 1) + {n}
  }

  /** The n numbers from lo on. */
  function Range(lo: nat, n: nat): (s: set<nat>)
    ensures forall i :: i in s <==> lo <= i < lo + n
  {
    if n == 0 then {} else Range(lo, n - 1) + {lo + n - 1}
  }

  lemma {:induction false} SubsetSize<T>(a: set<T>, b: set<T>)
    requires a <= b
    ensures |a| <= |b|
    decreases a
  {
    if a != {} {
      var x :| x in a;
      SubsetSize(a - {x}, b - {x});
    }
  }
}
