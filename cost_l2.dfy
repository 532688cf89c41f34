/**
 * What the quadratic cost computes: over exact reals its closed form over
 * prefix sums is the sum, over the rows of the range and every column, of the
 * squared deviation from that column's mean over the range.
 */
module CostL2Facts {
  import opened Linalg
  import opened Costs

  /** Mean of column `d` over the rows `s .. e-1`. */
  function Mean(X: Matrix, d: nat, s: int, e: int): real
    requires 0 <= s < e <= |X|
    requires forall i :: s <= i < e ==> d < |X[i]|
  {
    ColumnSum(X, d, s, e) / ((e - s) as real)
  }

  /** Sum of `(X[i][d] - m)^2` over the rows `s .. e-1`. */
  function ColumnSqDev(X: Matrix, d: nat, s: int, e: int, m: real): real
    requires 0 <= s <= e <= |X|
    requires forall i :: s <= i < e ==> d < |X[i]|
    decreases e - s
  {
    if e == s then 0.0
    else ColumnSqDev(X, d, s, e - 1, m) + (X[e - 1][d] - m) * (X[e - 1][d] - m)
  }

  /** Squared deviations from the column means, summed over the first `k` columns. */
  function SSECols(X: Matrix, s: int, e: int, k: nat): real
    requires 0 <= s < e <= |X| && Rectangular(X)
    requires k <= |X[s]|
  {
    if k == 0 then 0.0
    else SSECols(X, s, e, k - 1) + ColumnSqDev(X, k - 1, s, e, Mean(X, k - 1, s, e))
  }

  /** The brute-force quadratic cost of the rows `s .. e-1`. */
  function SSE(X: Matrix, s: int, e: int): real
    requires 0 <= s < e <= |X| && Rectangular(X)
  {
    SSECols(X, s, e, |X[s]|)
  }

  /** `Q - 2 m S + L m^2`: the sum of `(x - m)^2` over `L` values whose squares sum to `Q` and that sum to `S`. */
  function Expanded(q: real, t: real, len: real, m: real): real {
    q - 2.0 * m * t + len * m * m
  }

  /** Adding one row to the expanded sum of squared deviations. */
  lemma ExpandStep(a: real, q: real, t: real, len: real, x: real, m: real, a': real, q': real, t': real, len': real)
    requires a == Expanded(q, t, len, m)
    requires a' == a + (x - m) * (x - m) && q' == q + x * x && t' == t + x && len' == len + 1.0
    ensures a' == Expanded(q', t', len', m)
  {
    assert (x - m) * (x - m) == x * x - 2.0 * m * x + m * m;
    assert 2.0 * m * (t + x) == 2.0 * m * t + 2.0 * m * x;
    assert (len + 1.0) * m * m == len * m * m + m * m;
  }

  lemma {:induction false} ExpandSqDev(X: Matrix, d: nat, s: int, e: int, m: real)
    requires 0 <= s <= e <= |X|
    requires forall i :: s <= i < e ==> d < |X[i]|
    ensures ColumnSqDev(X, d, s, e, m) == Expanded(ColumnSum(Squares(X), d, s, e), ColumnSum(X, d, s, e), (e - s) as real, m)
    decreases e - s
  {
    if e > s {
      ExpandSqDev(X, d, s, e - 1, m);
      var x := X[e - 1][d];
      var a, q, t := ColumnSqDev(X, d, s, e - 1, m), ColumnSum(Squares(X), d, s, e - 1), ColumnSum(X, d, s, e - 1);
      var len := (e - 1 - s) as real;
      assert Squares(X)[e - 1][d] == x * x;
      ExpandStep(a, q, t, len, x, m, ColumnSqDev(X, d, s, e, m), ColumnSum(Squares(X), d, s, e), ColumnSum(X, d, s, e), (e - s) as real);
    }
  }

  /** `Q - S^2 / L`: one column of the closed form. */
  function ClosedForm(Q: real, S: real, L: real): real
    requires L > 0.0
  {
    Q - S * S / L
  }

  /** `sum(Q) - |S|^2 / L`: the closed form `Cost_L2::eval` evaluates. */
  function VecClosedForm(Q: seq<real>, S: seq<real>, L: real): real
    requires L > 0.0
  {
    Sum(Q) - SumSq(S) / L
  }

  /**
   * Per column: the squared deviations from a value `m` with
   * `m * len == S` (the mean) sum to `Q - m * S`.
   */
  lemma ColumnDevAtMean(X: Matrix, d: nat, s: int, e: int, m: real)
    requires 0 <= s < e <= |X|
    requires forall i :: s <= i < e ==> d < |X[i]|
    requires m * ((e - s) as real) == ColumnSum(X, d, s, e)
    ensures ColumnSqDev(X, d, s, e, m) == ColumnSum(Squares(X), d, s, e) - m * ColumnSum(X, d, s, e)
  {
    ExpandSqDev(X, d, s, e, m);
    var L := (e - s) as real;
    assert L * m * m == (m * L) * m;
  }

  lemma ColumnDevAtMeanValue(X: Matrix, d: nat, s: int, e: int, m: real, t: real, L: real)
    requires 0 <= s < e <= |X|
    requires forall i :: s <= i < e ==> d < |X[i]|
    requires t == ColumnSum(X, d, s, e) && L == (e - s) as real
    requires m * L == t && m * t == t * t / L
    ensures ColumnSqDev(X, d, s, e, m) == ClosedForm(ColumnSum(Squares(X), d, s, e), t, L)
  {
    ColumnDevAtMean(X, d, s, e, m);
  }

  lemma MeanTimesSum(t: real, L: real)
    requires L > 0.0
    ensures (t / L) * L == t
    ensures (t / L) * t == t * t / L
  {
  }

  /** Per column: squared deviations from the mean are `Q - S^2 / len`. */
  lemma ColumnClosedForm(X: Matrix, d: nat, s: int, e: int)
    requires 0 <= s < e <= |X|
    requires forall i :: s <= i < e ==> d < |X[i]|
    ensures ColumnSqDev(X, d, s, e, Mean(X, d, s, e))
      == ClosedForm(ColumnSum(Squares(X), d, s, e), ColumnSum(X, d, s, e), (e - s) as real)
  {
    var t := ColumnSum(X, d, s, e);
    var L := (e - s) as real;
    var m := Mean(X, d, s, e);
    assert m * L == t && m * t == t * t / L by {
      assert m == t / L;
      MeanTimesSum(t, L);
    }
    ColumnDevAtMeanValue(X, d, s, e, m, t, L);
  }

  /** The vector closed form is the sum of the per-column ones. */
  lemma VecClosedFormSnoc(Q: seq<real>, S: seq<real>, k: nat, L: real)
    requires L > 0.0 && 0 < k <= |Q| && k <= |S|
    ensures VecClosedForm(Q[..k], S[..k], L)
      == VecClosedForm(Q[..k - 1], S[..k - 1], L) + ClosedForm(Q[k - 1], S[k - 1], L)
  {
    assert Q[..k][..k - 1] == Q[..k - 1];
    assert S[..k][..k - 1] == S[..k - 1];
    var a := SumSq(S[..k - 1]);
    var b := S[k - 1] * S[k - 1];
    assert SumSq(S[..k]) == a + b;
    assert (a + b) / L == a / L + b / L;
  }

  lemma {:induction false} SSEColsClosedForm(X: Matrix, s: int, e: int, k: nat, Q: seq<real>, S: seq<real>)
    requires 0 <= s < e <= |X| && Rectangular(X)
    requires k <= |X[s]| && k <= |Q| && k <= |S|
    requires forall d :: 0 <= d < k ==>
      Q[d] == ColumnSum(Squares(X), d, s, e) && S[d] == ColumnSum(X, d, s, e)
    ensures SSECols(X, s, e, k) == VecClosedForm(Q[..k], S[..k], (e - s) as real)
  {
    if k > 0 {
      var L := (e - s) as real;
      SSEColsClosedForm(X, s, e, k - 1, Q, S);
      ColumnClosedForm(X, k - 1, s, e);
      VecClosedFormSnoc(Q, S, k, L);
    }
  }

  lemma {:induction false} SSEColsSingleRow(X: Matrix, s: int, k: nat)
    requires 0 <= s < |X| && Rectangular(X) && k <= |X[s]|
    ensures SSECols(X, s, s + 1, k) == 0.0
  {
    if k > 0 {
      SSEColsSingleRow(X, s, k - 1);
      var x := X[s][k - 1];
      assert ColumnSum(X, k - 1, s, s + 1) == ColumnSum(X, k - 1, s, s) + x == x;
      assert Mean(X, k - 1, s, s + 1) == x;
      assert ColumnSqDev(X, k - 1, s, s + 1, x) == ColumnSqDev(X, k - 1, s, s, x) + (x - x) * (x - x);
    }
  }

  /**
   * The closed form `Cost_L2::eval` evaluates from the prefix sums equals the
   * brute-force sum of squared deviations from the per-column segment mean.
   */
  lemma L2EvalIsSSE(c: CostL2, X: Matrix, s: int, e: int)
    requires c.Represents(X)
    requires 0 <= s < e <= |X|
    ensures c.Eval(s, e) == SSE(X, s, e)
  {
    var w := Width(X);
    assert |X[s]| == w;
    if e == s + 1 {
      SSEColsSingleRow(X, s, w);
    } else {
      var Q := SubRows(c.csXsq[e], c.csXsq[s]);
      var S := SubRows(c.csX[e], c.csX[s]);
      forall d | 0 <= d < w
        ensures Q[d] == ColumnSum(Squares(X), d, s, e) && S[d] == ColumnSum(X, d, s, e)
      {
        ColumnSumSplit(Squares(X), d, s, e);
        ColumnSumSplit(X, d, s, e);
      }
      SSEColsClosedForm(X, s, e, w, Q, S);
      assert Q[..w] == Q && S[..w] == S;
      assert c.Eval(s, e) == VecClosedForm(Q, S, (e - s) as real);
    }
  }

  lemma {:induction false} ColumnSqDevNonNegative(X: Matrix, d: nat, s: int, e: int, m: real)
    requires 0 <= s <= e <= |X|
    requires forall i :: s <= i < e ==> d < |X[i]|
    ensures ColumnSqDev(X, d, s, e, m) >= 0.0
    decreases e - s
  {
    if e > s {
      ColumnSqDevNonNegative(X, d, s, e - 1, m);
      SquareNonNegative(X[e - 1][d] - m);
    }
  }

  lemma SquareNonNegative(y: real)
    ensures y * y >= 0.0
  {
    if y < 0.0 {
      assert y * y == (-y) * (-y);
    }
  }

  lemma {:induction false} SSEColsNonNegative(X: Matrix, s: int, e: int, k: nat)
    requires 0 <= s < e <= |X| && Rectangular(X) && k <= |X[s]|
    ensures SSECols(X, s, e, k) >= 0.0
  {
    if k > 0 {
      SSEColsNonNegative(X, s, e, k - 1);
      ColumnSqDevNonNegative(X, k - 1, s, e, Mean(X, k - 1, s, e));
    }
  }

  /** Over exact reals the quadratic cost is never negative. */
  lemma L2EvalNonNegative(c: CostL2, X: Matrix, s: int, e: int)
    requires c.Represents(X)
    requires s >= e - 1 || 0 <= s < e <= |X|
    ensures c.Eval(s, e) >= 0.0
  {
    if s < e - 1 {
      L2EvalIsSSE(c, X, s, e);
      SSEColsNonNegative(X, s, e, |X[s]|);
    }
  }

  lemma {:induction false} ColumnSqDevLocal(X: Matrix, Y: Matrix, d: nat, s: int, e: int, m: real)
    requires 0 <= s <= e <= |X| && e <= |Y|
    requires forall i :: s <= i < e ==> X[i] == Y[i] && d < |X[i]|
    ensures ColumnSqDev(X, d, s, e, m) == ColumnSqDev(Y, d, s, e, m)
    decreases e - s
  {
    if e > s {
      ColumnSqDevLocal(X, Y, d, s, e - 1, m);
    }
  }

  lemma {:induction false} SSEColsLocal(X: Matrix, Y: Matrix, s: int, e: int, k: nat)
    requires 0 <= s < e <= |X| && e <= |Y| && Rectangular(X) && Rectangular(Y)
    requires X[s..e] == Y[s..e]
    requires k <= |X[s]|
    ensures SSECols(X, s, e, k) == SSECols(Y, s, e, k)
  {
    assert forall i :: s <= i < e ==> X[i] == X[s..e][i - s] == Y[i];
    if k > 0 {
      SSEColsLocal(X, Y, s, e, k - 1);
      ColumnSumLocal(X, Y, k - 1, s, e);
      ColumnSqDevLocal(X, Y, k - 1, s, e, Mean(X, k - 1, s, e));
    }
  }

  /** The quadratic cost of `[s, e)` depends only on the rows `s .. e-1` of the signal. */
  lemma L2EvalLocal(c1: CostL2, X: Matrix, c2: CostL2, Y: Matrix, s: int, e: int)
    requires c1.Represents(X) && c2.Represents(Y)
    requires 0 <= s < e <= |X| && e <= |Y|
    requires X[s..e] == Y[s..e]
    ensures c1.Eval(s, e) == c2.Eval(s, e)
  {
    L2EvalIsSSE(c1, X, s, e);
    L2EvalIsSSE(c2, Y, s, e);
    assert X[s] == X[s..e][0] == Y[s];
    SSEColsLocal(X, Y, s, e, |X[s]|);
  }
}
