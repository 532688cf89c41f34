/**
 * The cost models of the segmentation engine: a cost is a function of a
 * half-open row range `[start, end)` of an n x d signal. `CostModel` is the
 * common interface (`eval`, `size`); its three variants are the closed-form
 * quadratic cost over prefix sums, the median-based absolute-deviation cost,
 * and a cost supplied from outside as a total, pure function of the range.
 *
 * Every field is `const`: a cost object is never changed after
 * construction, so evaluating it is a function and cannot change it.
 */
module Costs {
  import opened Linalg
  import opened MedianStats

  /**
   * Prefix sums of the columns of `X`: an (|X| + 1)-row matrix whose row 0 is
   * zero and whose row `i + 1` is row `i` plus row `i` of `X`, so that row `i`
   * holds the column sums of the first `i` rows. The matrix must have a row:
   * filling rows `1 .. 0` of the result is an indexing error in the library.
   */
  method GetCumSum(X: Matrix) returns (cs: Matrix)
    requires |X| >= 1 && Rectangular(X)
    ensures |cs| == |X| + 1
    ensures forall i :: 0 <= i < |cs| ==> |cs[i]| == Width(X)
    ensures cs[0] == Zeros(Width(X))
    ensures forall i :: 0 <= i < |X| ==> cs[i + 1] == AddRows(cs[i], X[i])
    ensures forall i, d :: 0 <= i < |cs| && 0 <= d < Width(X) ==> cs[i][d] == ColumnSum(X, d, 0, i)
  {
    var nc := Width(X);
    cs := [Zeros(nc)];
    for i := 0 to |X|
      invariant |cs| == i + 1
      invariant forall r :: 0 <= r < |cs| ==> |cs[r]| == nc
      invariant cs[0] == Zeros(nc)
      invariant forall r :: 0 <= r < i ==> cs[r + 1] == AddRows(cs[r], X[r])
    {
      assert |X[i]| == nc;
      cs := cs + [AddRows(cs[i], X[i])];
    }
    forall i, d | 0 <= i < |cs| && 0 <= d < nc ensures cs[i][d] == ColumnSum(X, d, 0, i) {
      PrefixSumColumn(X, cs, i, d);
    }
  }

  /** A row of prefix sums built by the recurrence holds the column sums of the rows before it. */
  lemma {:induction false} PrefixSumColumn(X: Matrix, cs: Matrix, i: int, d: int)
    requires Rectangular(X) && |cs| == |X| + 1
    requires forall r :: 0 <= r < |cs| ==> |cs[r]| == Width(X)
    requires cs[0] == Zeros(Width(X))
    requires forall r :: 0 <= r < |X| ==> cs[r + 1] == AddRows(cs[r], X[r])
    requires 0 <= i < |cs| && 0 <= d < Width(X)
    ensures cs[i][d] == ColumnSum(X, d, 0, i)
    decreases i
  {
    if i > 0 {
      PrefixSumColumn(X, cs, i - 1, d);
      assert cs[i] == AddRows(cs[i - 1], X[i - 1]);
    }
  }

  /** The multivariate quadratic (L2) cost, evaluated from stored prefix sums. */
  class CostL2 {
    const csX: Matrix
    const csXsq: Matrix
    const nr: int

    predicate Valid() {
      && nr >= 0
      && |csX| == nr + 1
      && |csXsq| == nr + 1
      && Rectangular(csX)
      && (forall i :: 0 <= i <= nr ==> |csXsq[i]| == |csX[0]|)
    }

    /** The prefix sums stored are those of `X` and of its element-wise squares. */
    ghost predicate Represents(X: Matrix) {
      && Valid()
      && Rectangular(X)
      && nr == |X|
      && |csX[0]| == Width(X)
      && (forall i, d :: 0 <= i <= nr && 0 <= d < Width(X) ==>
            csX[i][d] == ColumnSum(X, d, 0, i))
      && (forall i, d :: 0 <= i <= nr && 0 <= d < Width(X) ==>
            csXsq[i][d] == ColumnSum(Squares(X), d, 0, i))
    }

    constructor (inputMat: Matrix)
      requires |inputMat| >= 1 && Rectangular(inputMat)
      ensures Represents(inputMat)
      ensures Size() == |inputMat|
    {
      var sq := Squares(inputMat);
      assert Width(sq) == Width(inputMat);
      var a := GetCumSum(inputMat);
      var b := GetCumSum(sq);
      csX := a;
      csXsq := b;
      nr := |inputMat|;
    }

    /**
     * Sum over the columns of the squared-value sums over `[start, end)`,
     * minus the squared norm of the value sums divided by the length.
     */
    function Eval(start: int, end: int): (r: real)
      requires Valid()
      requires start >= end - 1 || 0 <= start < end <= nr
      ensures start >= end - 1 ==> r == 0.0
    {
      if start >= end - 1 then 0.0
      else
        var len := end - start;
        Sum(SubRows(csXsq[end], csXsq[start]))
          - SumSq(SubRows(csX[end], csX[start])) / (len as real)
    }

    function Size(): int {
      nr
    }
  }

  /** The robust (L1) cost: absolute deviations from the per-column median. */
  class CostL1 {
    const X: Matrix
    const nr: int

    predicate Valid() {
      Rectangular(X) && nr == |X|
    }

    constructor (inputMat: Matrix)
      requires Rectangular(inputMat)
      ensures Valid() && X == inputMat
      ensures Size() == |inputMat|
    {
      X := inputMat;
      nr := |inputMat|;
    }

    function Eval(start: int, end: int): (r: real)
      requires Valid()
      requires start >= end - 1 || 0 <= start < end <= nr
      ensures start >= end - 1 ==> r == 0.0
    {
      if start >= end - 1 then 0.0
      else
        var segment := X[start..end];
        var med := ColumnMedians(segment);
        Accu(AbsDeviations(segment, med))
    }

    function Size(): int {
      nr
    }
  }

  /** `arma::median(segment, 0)`: the median of every column. */
  function ColumnMedians(segment: Matrix): (med: seq<real>)
    requires |segment| > 0 && Rectangular(segment)
    ensures |med| == Width(segment)
  {
    seq(Width(segment), d requires 0 <= d < Width(segment) =>
      Median(seq(|segment|, i requires 0 <= i < |segment| => segment[i][d])))
  }

  /** `abs(segment.each_row() - med)`. */
  function AbsDeviations(segment: Matrix, med: seq<real>): (D: Matrix)
    requires forall i :: 0 <= i < |segment| ==> |segment[i]| == |med|
    ensures |D| == |segment|
  {
    seq(|segment|, i requires 0 <= i < |segment| =>
      seq(|med|, d requires 0 <= d < |med| => Abs(segment[i][d] - med[d])))
  }

  function Abs(x: real): real {
    if x < 0.0 then -x else x
  }

  /** `arma::accu`: the sum of every entry of a matrix. */
  function Accu(M: Matrix): real {
    if |M| == 0 then 0.0 else Accu(M[..|M| - 1]) + Sum(M[|M| - 1])
  }

  /**
   * A cost supplied by the caller as an evaluator and a declared length. The
   * evaluator is a total, pure function of the range; a failing call into it
   * is not modelled.
   */
  class RCost {
    const costFun: (int, int) -> real
    const n: int

    constructor (costFun: (int, int) -> real, n: int)
      ensures Size() == n
      ensures forall s, e :: Eval(s, e) == costFun(s, e)
    {
      this.costFun := costFun;
      this.n := n;
    }

    function Eval(start: int, end: int): real {
      costFun(start, end)
    }

    function Size(): int {
      n
    }
  }

  /** The cost interface the engine is written against. */
  datatype CostModel = L2(l2: CostL2) | L1(l1: CostL1) | External(ext: RCost)
  {
    predicate Valid() {
      match this
      case L2(c) => c.Valid()
      case L1(c) => c.Valid()
      case External(_) => true
    }

    function Size(): int {
      match this
      case L2(c) => c.Size()
      case L1(c) => c.Size()
      case External(c) => c.Size()
    }

    /** The ranges `eval` accepts: any range for an external cost. */
    predicate Defined(start: int, end: int) {
      External? || start >= end - 1 || 0 <= start < end <= Size()
    }

    function Eval(start: int, end: int): real
      requires Valid() && Defined(start, end)
    {
      match this
      case L2(c) => c.Eval(start, end)
      case L1(c) => c.Eval(start, end)
      case External(c) => c.Eval(start, end)
    }

    /**
     * The cost as the engine sees it through the interface: `eval` on every
     * range it accepts, and 0 on the others, where the library's row
     * indexing raises a bounds error.
     */
    function Evaluator(): (f: (int, int) -> real)
      ensures forall s, e :: Valid() && Defined(s, e) ==> f(s, e) == Eval(s, e)
    {
      (s, e) => if Valid() && Defined(s, e) then Eval(s, e) else 0.0
    }
  }
}
