/**
 * Choosing how many change points to keep: with `cost[k]` the cost of the
 * segmentation that uses the first `k` change points found, keep the `k`
 * that minimises `cost[k] + penalty * k`, the smallest such `k` on ties.
 */
module Selection {
  import opened Failures

  /** `k` is the first index at which `s` takes its minimum. */
  predicate IsFirstMin(s: seq<real>, k: int) {
    && 0 <= k < |s|
    && (forall j :: 0 <= j < |s| ==> s[k] <= s[j])
    && (forall j :: 0 <= j < k ==> s[k] < s[j])
  }

  /** The first minimum of a sequence is unique. */
  lemma FirstMinUnique(s: seq<real>, k1: int, k2: int)
    requires IsFirstMin(s, k1) && IsFirstMin(s, k2)
    ensures k1 == k2
  {
    assert s[k1] <= s[k2] && s[k2] <= s[k1];
  }

  /** `which_min`: the index of the first smallest element. */
  method WhichMin(a: array<real>) returns (idx: int)
    requires a.Length >= 1
    ensures IsFirstMin(a[..], idx)
  {
    idx := 0;
    for i := 1 to a.Length
      invariant 0 <= idx < i
      invariant forall j :: 0 <= j < i ==> a[idx] <= a[j]
      invariant forall j :: 0 <= j < idx ==> a[idx] < a[j]
    {
      if a[i] < a[idx] {
        idx := i;
      }
    }
  }

  /** The cost of keeping `k` change points, plus `penalty` for each of them. */
  function Penalized(cost: seq<real>, penalty: real): seq<real> {
    seq(|cost|, k requires 0 <= k < |cost| => cost[k] + penalty * (k as real))
  }

  /**
   * `binSegPredCpp`: the first `k` change points, for the `k` that minimises
   * the penalised cost; a negative penalty is refused.
   */
  method BinSegPred(bkps: seq<int>, cost: seq<real>, penalty: real) returns (r: Result<seq<int>>)
    requires penalty >= 0.0 ==> 1 <= |cost| <= |bkps| + 1
    ensures penalty < 0.0 ==> r == Failure(NegativePenalty)
    ensures penalty >= 0.0 ==> r.Success?
    ensures r.Success? ==>
      && IsFirstMin(Penalized(cost, penalty), |r.value|)
      && r.value == bkps[..|r.value|]
  {
    if penalty < 0.0 {
      return Failure(NegativePenalty);
    }

    var penCost := new real[|cost|];
    for i := 0 to |cost|
      invariant forall j :: 0 <= j < i ==> penCost[j] == cost[j] + penalty * (j as real)
    {
      penCost[i] := cost[i] + penalty * (i as real);
    }
    ghost var pen := Penalized(cost, penalty);
    assert |penCost[..]| == |pen| && forall j :: 0 <= j < |pen| ==> penCost[..][j] == pen[j];
    assert penCost[..] == pen;

    var minIdx := WhichMin(penCost);
    if minIdx == 0 {
      return Success([]);
    }
    return Success(bkps[0..minIdx]);
  }

  /**
   * A larger penalty never keeps more change points: if `k1` is chosen under
   * `p1` and `k2` under `p2 > p1`, then `k2 <= k1`.
   */
  lemma PenaltyMonotone(cost: seq<real>, p1: real, p2: real, k1: int, k2: int)
    requires p1 < p2
    requires IsFirstMin(Penalized(cost, p1), k1)
    requires IsFirstMin(Penalized(cost, p2), k2)
    ensures k2 <= k1
  {
    var a, b := k1 as real, k2 as real;
    var s1, s2 := Penalized(cost, p1), Penalized(cost, p2);
    assert s1[k1] <= s1[k2] && s2[k2] <= s2[k1];
    assert cost[k1] + p1 * a <= cost[k2] + p1 * b;
    assert cost[k2] + p2 * b <= cost[k1] + p2 * a;
    var d := b - a;
    assert p1 * d == p1 * b - p1 * a;
    assert p2 * d == p2 * b - p2 * a;
    assert (p2 - p1) * d == p2 * d - p1 * d;
    NonPositiveFactor(p2 - p1, d);
  }

  /** A product that is not positive, with a positive first factor, has a second factor that is not positive. */
  lemma NonPositiveFactor(x: real, y: real)
    requires x > 0.0 && x * y <= 0.0
    ensures y <= 0.0
  {
  }

  /**
   * When the penalty is at least every single drop `cost[i] - cost[i + 1]`,
   * no change point is kept, whatever the costs.
   */
  lemma LargePenaltyKeepsNone(cost: seq<real>, penalty: real)
    requires |cost| >= 1
    requires forall i :: 0 <= i < |cost| - 1 ==> penalty >= cost[i] - cost[i + 1]
    ensures IsFirstMin(Penalized(cost, penalty), 0)
  {
    var p := Penalized(cost, penalty);
    forall j | 0 <= j < |cost| ensures p[0] <= p[j] {
      PenalizedAtLeastFirst(cost, penalty, j);
    }
  }

  /** Adding up the drops: `cost[j] + penalty * j` never falls below `cost[0]`. */
  lemma {:induction false} PenalizedAtLeastFirst(cost: seq<real>, penalty: real, j: int)
    requires 0 <= j < |cost|
    requires forall i :: 0 <= i < |cost| - 1 ==> penalty >= cost[i] - cost[i + 1]
    ensures cost[j] + penalty * (j as real) >= cost[0]
  {
    if j > 0 {
      PenalizedAtLeastFirst(cost, penalty, j - 1);
      assert penalty >= cost[j - 1] - cost[j];
      MulSucc(penalty, (j - 1) as real);
      assert (j as real) == ((j - 1) as real) + 1.0;
    }
  }

  lemma MulSucc(p: real, x: real)
    ensures p * (x + 1.0) == p * x + p
  {
  }

  /**
   * With no penalty and strictly decreasing costs every change point is kept.
   */
  lemma ZeroPenaltyKeepsAll(cost: seq<real>)
    requires |cost| >= 1
    requires forall i, j :: 0 <= i < j < |cost| ==> cost[j] < cost[i]
    ensures IsFirstMin(Penalized(cost, 0.0), |cost| - 1)
  {
    var p := Penalized(cost, 0.0);
    assert forall j :: 0 <= j < |cost| ==> p[j] == cost[j];
  }

  /**
   * With no penalty, a last split whose gain is exactly zero is dropped: the
   * costs `[2, 1, 1]` keep one of the two change points.
   */
  lemma ZeroPenaltyDropsZeroGain()
    ensures IsFirstMin(Penalized([2.0, 1.0, 1.0], 0.0), 1)
  {
    var p := Penalized([2.0, 1.0, 1.0], 0.0);
    assert p[0] == 2.0 && p[1] == 1.0 && p[2] == 1.0;
  }
}
