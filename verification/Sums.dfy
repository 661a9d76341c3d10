/** Sums of sequences. */
module Sums {
  ghost function Sum(s: seq<int>): int {
    if s == [] then 0 else Sum(s[..|s| - 1]) + s[|s| - 1]
  }

  lemma SumAppend(s: seq<int>, v: int)
    ensures Sum(s + [v]) == Sum(s) + v
  {
    assert (s + [v])[..|s|] == s;
  }

  lemma {:induction false} SumUpdate(s: seq<int>, i: int, v: int)
    requires 0 <= i < |s|
    ensures Sum(s[i := v]) == Sum(s) - s[i] + v
  {
    var s' := s[i := v];
    if i == |s| - 1 {
      assert s'[..|s| - 1] == s[..|s| - 1];
    } else {
      assert s'[..|s| - 1] == s[..|s| - 1][i := v];
      SumUpdate(s[..|s| - 1], i, v);
    }
  }

  lemma {:induction false} SumZero(s: seq<int>)
    requires forall i | 0 <= i < |s| :: s[i] == 0
    ensures Sum(s) == 0
  {
    if s != [] { SumZero(s[..|s| - 1]); }
  }

  lemma {:induction false} SumNotNegative(s: seq<int>)
    requires forall i | 0 <= i < |s| :: s[i] >= 0
    ensures Sum(s) >= 0
  {
    if s != [] { SumNotNegative(s[..|s| - 1]); }
  }

  /** Two entries are no more than all of them. */
  lemma SumPair(s: seq<int>, i: int, j: int)
    requires 0 <= i < |s| && 0 <= j < |s| && i != j && forall k | 0 <= k < |s| :: s[k] >= 0
    ensures Sum(s) >= s[i] + s[j]
  {
    SumUpdate(s, i, 0);
    SumUpdate(s[i := 0], j, 0);
    SumNotNegative(s[i := 0][j := 0]);
  }

  lemma {:induction false} SumDoubled(s: seq<int>, t: seq<int>)
    requires |s| == |t| && forall i | 0 <= i < |s| :: t[i] == 2 * s[i]
    ensures Sum(t) == 2 * Sum(s)
  {
    if s != [] { SumDoubled(s[..|s| - 1], t[..|t| - 1]); }
  }
}
