/** Sizes of finite sets. */
module FiniteSets {

  lemma {:induction false} SubsetSize<T>(a: set<T>, b: set<T>)
    requires a <= b
    ensures |a| <= |b|
    ensures |a| == |b| ==> a == b
  {
    if a == {} {
    } else {
      var x :| x in a;
      SubsetSize(a - {x}, b - {x});
    }
  }

  lemma {:induction false} IntervalSize(s: set<int>, n: nat)
    requires forall i :: i in s <==> 0 <= i < n
    ensures |s| == n
  {
    if n == 0 {
      assert forall i :: i !in s;
    } else {
      IntervalSize(s - {n - 1}, n - 1);
    }
  }
}
