/** Sizes of finite sets. */
module Sets {
  lemma {:induction false} Below(s: set<nat>, n: nat)
    requires forall t :: t in s ==> t < n
    ensures |s| <= n && (|s| == n ==> forall t: nat :: t < n ==> t in s)
  {
    if n > 0 {
      Below(s - {n - 1}, n - 1);
    } else {
      assert s == {};
    }
  }

  lemma {:induction false} Subset(a: set<nat>, b: set<nat>)
    requires a <= b
    ensures |a| <= |b| && (|a| == |b| ==> a == b)
  {
    if a != {} {
      var x :| x in a;
      Subset(a - {x}, b - {x});
    }
  }
}
