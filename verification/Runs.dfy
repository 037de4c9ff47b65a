/** Properties of all points of a run. */
module Runs {
  /** What holds at the start and is kept exactly by the steps that are not bad holds all along exactly if no
      step is bad. */
  lemma {:induction false} AllAlong(n: nat, good: nat -> bool, bad: nat -> bool)
    requires good(0) && forall i: nat | i < n && good(i) :: good(i + 1) <==> !bad(i)
    ensures (forall i: nat | i <= n :: good(i)) <==> (forall i: nat | i < n :: !bad(i))
  {
    if forall i: nat | i < n :: !bad(i) {
      for i := 0 to n
        invariant forall j: nat | j <= i :: good(j)
      {
        assert good(i) && !bad(i);
      }
    } else {
      var i: nat :| i < n && bad(i);
      assert good(i) ==> !good(i + 1);
    }
  }
}
