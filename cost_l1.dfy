/**
 * What the robust cost computes: a sum of absolute deviations, so it is
 * never negative, and it vanishes on a range whose rows are all equal.
 */
module CostL1Facts {
  import opened Linalg
  import opened MedianStats
  import opened Costs

  lemma {:induction false} SumNonNegative(v: seq<real>)
    requires forall d :: 0 <= d < |v| ==> v[d] >= 0.0
    ensures Sum(v) >= 0.0
  {
    if |v| > 0 {
      SumNonNegative(v[..|v| - 1]);
    }
  }

  lemma {:induction false} SumZero(v: seq<real>)
    requires forall d :: 0 <= d < |v| ==> v[d] == 0.0
    ensures Sum(v) == 0.0
  {
    if |v| > 0 {
      SumZero(v[..|v| - 1]);
    }
  }

  lemma {:induction false} AccuNonNegative(M: Matrix)
    requires forall i, d :: 0 <= i < |M| && 0 <= d < |M[i]| ==> M[i][d] >= 0.0
    ensures Accu(M) >= 0.0
  {
    if |M| > 0 {
      AccuNonNegative(M[..|M| - 1]);
      SumNonNegative(M[|M| - 1]);
    }
  }

  lemma {:induction false} AccuZero(M: Matrix)
    requires forall i, d :: 0 <= i < |M| && 0 <= d < |M[i]| ==> M[i][d] == 0.0
    ensures Accu(M) == 0.0
  {
    if |M| > 0 {
      AccuZero(M[..|M| - 1]);
      SumZero(M[|M| - 1]);
    }
  }

  /** The robust cost is never negative. */
  lemma L1EvalNonNegative(c: CostL1, s: int, e: int)
    requires c.Valid()
    requires s >= e - 1 || 0 <= s < e <= c.nr
    ensures c.Eval(s, e) >= 0.0
  {
    if s < e - 1 {
      var segment := c.X[s..e];
      var med := ColumnMedians(segment);
      AccuNonNegative(AbsDeviations(segment, med));
    }
  }

  /** The robust cost of a range whose rows are all the same is zero. */
  lemma L1EvalZeroOnConstantRows(c: CostL1, s: int, e: int)
    requires c.Valid()
    requires 0 <= s < e <= c.nr
    requires forall i :: s <= i < e ==> c.X[i] == c.X[s]
    ensures c.Eval(s, e) == 0.0
  {
    if s < e - 1 {
      var segment := c.X[s..e];
      var med := ColumnMedians(segment);
      forall d | 0 <= d < |med| ensures med[d] == segment[0][d] {
        var col := seq(|segment|, i requires 0 <= i < |segment| => segment[i][d]);
        MedianOfConstant(col, segment[0][d]);
      }
      AccuZero(AbsDeviations(segment, med));
    }
  }

  /** The robust cost of `[s, e)` depends only on the rows `s .. e-1`. */
  lemma L1EvalLocal(c1: CostL1, c2: CostL1, s: int, e: int)
    requires c1.Valid() && c2.Valid()
    requires 0 <= s < e <= c1.nr && e <= c2.nr
    requires c1.X[s..e] == c2.X[s..e]
    ensures c1.Eval(s, e) == c2.Eval(s, e)
  {
  }
}
