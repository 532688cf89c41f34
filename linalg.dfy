/**
 * Exact-real stand-ins for the Armadillo operations the cost models use:
 * matrices as sequences of rows, row arithmetic, `sum`, the squared
 * Euclidean norm, element-wise squares and column sums over a row range.
 */
module Linalg {

  type Matrix = seq<seq<real>>

  /** Every row has the same number of columns as the first one. */
  predicate Rectangular(X: Matrix) {
    forall i :: 0 <= i < |X| ==> |X[i]| == |X[0]|
  }

  /** Number of columns (0 for a matrix without rows). */
  function Width(X: Matrix): nat {
    if |X| == 0 then 0 else |X[0]|
  }

  function Zeros(n: nat): seq<real> {
    seq(n, _ => 0.0)
  }

  /** Element-wise `a + b` of two rows. */
  function AddRows(a: seq<real>, b: seq<real>): seq<real>
    requires |a| == |b|
  {
    seq(|a|, d requires 0 <= d < |a| => a[d] + b[d])
  }

  /** Element-wise `a - b` of two rows. */
  function SubRows(a: seq<real>, b: seq<real>): seq<real>
    requires |a| == |b|
  {
    seq(|a|, d requires 0 <= d < |a| => a[d] - b[d])
  }

  /** `arma::sum` of a row vector. */
  function Sum(v: seq<real>): real {
    if |v| == 0 then 0.0 else Sum(v[..|v| - 1]) + v[|v| - 1]
  }

  /** `pow(norm(v, 2), 2)`: the squared Euclidean norm, over exact reals. */
  function SumSq(v: seq<real>): real {
    if |v| == 0 then 0.0 else SumSq(v[..|v| - 1]) + v[|v| - 1] * v[|v| - 1]
  }

  /** `arma::pow(X, 2)`: every entry squared. */
  function Squares(X: Matrix): (Y: Matrix)
    ensures |Y| == |X|
    ensures forall i :: 0 <= i < |X| ==> |Y[i]| == |X[i]|
  {
    seq(|X|, i requires 0 <= i < |X| =>
      seq(|X[i]|, d requires 0 <= d < |X[i]| => X[i][d] * X[i][d]))
  }

  /** Sum of column `d` over the rows `s .. e-1`. */
  function ColumnSum(X: Matrix, d: nat, s: int, e: int): real
    requires 0 <= s <= e <= |X|
    requires forall i :: s <= i < e ==> d < |X[i]|
    decreases e - s
  {
    if e == s then 0.0 else ColumnSum(X, d, s, e - 1) + X[e - 1][d]
  }

  /** A column sum over `[0, e)` is the one over `[0, s)` plus the one over `[s, e)`. */
  lemma {:induction false} ColumnSumSplit(X: Matrix, d: nat, s: int, e: int)
    requires 0 <= s <= e <= |X|
    requires forall i :: 0 <= i < e ==> d < |X[i]|
    ensures ColumnSum(X, d, 0, e) == ColumnSum(X, d, 0, s) + ColumnSum(X, d, s, e)
    decreases e - s
  {
    if e > s {
      ColumnSumSplit(X, d, s, e - 1);
    }
  }

  /** A column sum reads only the rows of its range. */
  lemma {:induction false} ColumnSumLocal(X: Matrix, Y: Matrix, d: nat, s: int, e: int)
    requires 0 <= s <= e <= |X| && e <= |Y|
    requires forall i :: s <= i < e ==> X[i] == Y[i] && d < |X[i]|
    ensures ColumnSum(X, d, s, e) == ColumnSum(Y, d, s, e)
    decreases e - s
  {
    if e > s {
      ColumnSumLocal(X, Y, d, s, e - 1);
    }
  }
}
