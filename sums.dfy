/**
  The sum of a sequence of counts, shared by the component sizes and the
  degree vector.
 */
module Sums {

  function Sum(s: seq<int>): (t: int) {
    if |s| == 0 then 0 else Sum(s[..|s| - 1]) + s[|s| - 1]
  }

  /** Adding k to one entry adds k to the sum. */
  lemma {:induction false} SumBumpAt(s: seq<int>, i: int, k: int)
    requires 0 <= i < |s|
    ensures Sum(s[i := s[i] + k]) == Sum(s) + k
  {
    var t := s[i := s[i] + k];
    assert t[..|t| - 1] == if i == |s| - 1 then s[..|s| - 1] else s[..|s| - 1][i := s[i] + k];
    if i < |s| - 1 {
      SumBumpAt(s[..|s| - 1], i, k);
    }
  }

  /** A sequence of zeros sums to zero. */
  lemma {:induction false} ZeroSum(count: nat)
    ensures Sum(seq(count, k => 0)) == 0
  {
    if count > 0 {
      ZeroSum(count - 1);
      assert seq(count, k => 0)[..count - 1] == seq(count - 1, k => 0);
    }
  }
}
