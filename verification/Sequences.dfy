/** A fact about sequences that the modules share. */
module Sequences {

  lemma SliceOfSlice<T>(s: seq<T>, lo: nat, hi: nat, i: nat, j: nat)
    requires lo <= hi <= |s| && i <= j <= hi - lo
    ensures s[lo..hi][i..j] == s[lo + i..lo + j]
  {
    assert |s[lo..hi][i..j]| == |s[lo + i..lo + j]|;
    assert forall k | 0 <= k < j - i :: s[lo..hi][i..j][k] == s[lo + i..lo + j][k];
  }
}
