/**
 * One step of binary segmentation: given a region `[start, end)`, find the
 * admissible change point that minimises the cost of the two halves, and
 * report how much it lowers the cost of the region (its gain).
 *
 * Admissible change points lie on the grid `start, start + jump, ...` and
 * leave at least `minSize` observations on each side. A region shorter than
 * `minLen` is never split; such a region gets the "unsplittable" entry,
 * which stands for a gain of minus infinity.
 */
module SplitSearch {

  // ---------------------------------------------------------------------
  // Integer facts about strides
  // ---------------------------------------------------------------------

  lemma MulAtLeast(k: int, j: int)
    requires k >= 1 && j >= 1
    ensures k * j >= j
  {
    assert k * j == (k - 1) * j + j;
  }

  /** Quotient and remainder are determined by `a == q * j + r, 0 <= r < j`. */
  lemma DivModUnique(a: int, j: int, q: int, r: int)
    requires j >= 1 && a == q * j + r && 0 <= r < j
    ensures a / j == q && a % j == r
  {
    var q', r' := a / j, a % j;
    assert a == q' * j + r';
    assert (q - q') * j == r' - r;
    if q > q' {
      MulAtLeast(q - q', j);
    } else if q < q' {
      MulAtLeast(q' - q, j);
    }
  }

  lemma ModStep(a: int, j: int)
    requires j >= 1
    ensures (a + j) % j == a % j
  {
    DivModUnique(a + j, j, a / j + 1, a % j);
  }

  lemma MultipleMod(k: int, j: int)
    requires j >= 1
    ensures (k * j) % j == 0 && (k * j) / j == k
  {
    DivModUnique(k * j, j, k, 0);
  }

  /** A positive multiple of `j` is at least `j`. */
  lemma PositiveMultiple(d: int, j: int)
    requires j >= 1 && d > 0 && d % j == 0
    ensures d >= j
  {
    var q := d / j;
    assert d == q * j;
    if q > 0 {
      MulAtLeast(q, j);
    }
  }

  lemma ModDiff(a: int, b: int, j: int)
    requires j >= 1 && a % j == 0 && b % j == 0
    ensures (a - b) % j == 0
  {
    DivModUnique(a - b, j, a / j - b / j, 0);
  }

  /** `ceil(a / b)` for positive integers. */
  function CeilDiv(a: int, b: int): (k: int)
    requires a >= 1 && b >= 1
    ensures k >= 1 && k * b >= a && (k - 1) * b < a
  {
    var k := (a + b - 1) / b;
    var r := (a + b - 1) % b;
    assert a + b - 1 == k * b + r;
    k
  }

  /**
   * `2 * ceil(minSize / jump) * jump`: twice the smallest multiple of `jump`
   * that is at least `minSize`.
   */
  function MinLen(minSize: int, jump: int): (m: int)
    requires minSize >= 1 && jump >= 1
    ensures m % 2 == 0
    ensures (m / 2) % jump == 0
    ensures minSize <= m / 2 < minSize + jump
  {
    var k := CeilDiv(minSize, jump);
    var half := k * jump;
    MultipleMod(k, jump);
    assert (k - 1) * jump == half - jump;
    assert 2 * k * jump == 2 * half;
    assert (2 * half) / 2 == half && (2 * half) % 2 == 0;
    2 * k * jump
  }

  /** With a unit stride the threshold is exactly twice the minimum size. */
  lemma UnitStrideMinLen(minSize: int)
    requires minSize >= 1
    ensures MinLen(minSize, 1) == 2 * minSize
  {
  }

  // ---------------------------------------------------------------------
  // Admissible change points
  // ---------------------------------------------------------------------

  /** `cp` is on the stride grid of the region and leaves `minSize` on each side. */
  predicate IsCandidate(cp: int, start: int, end: int, minSize: int, jump: int)
    requires jump >= 1
  {
    && start <= cp <= end
    && (cp - start) % jump == 0
    && cp - start >= minSize
    && end - cp >= minSize
  }

  predicate Increasing(s: seq<int>) {
    forall i, j :: 0 <= i < j < |s| ==> s[i] < s[j]
  }

  /** The grid points `x, x + jump, ... <= end` that leave `minSize` on each side. */
  function CandidatesFrom(x: int, start: int, end: int, minSize: int, jump: int): seq<int>
    requires jump >= 1
    decreases if x <= end then end - x + 1 else 0
  {
    if x > end then []
    else
      (if x - start >= minSize && end - x >= minSize then [x] else [])
        + CandidatesFrom(x + jump, start, end, minSize, jump)
  }

  lemma {:induction false} CandidatesFromFacts(x: int, start: int, end: int, minSize: int, jump: int)
    requires jump >= 1 && x >= start && (x - start) % jump == 0
    ensures forall c :: c in CandidatesFrom(x, start, end, minSize, jump) <==>
      IsCandidate(c, start, end, minSize, jump) && c >= x
    ensures Increasing(CandidatesFrom(x, start, end, minSize, jump))
    decreases if x <= end then end - x + 1 else 0
  {
    var r := CandidatesFrom(x, start, end, minSize, jump);
    if x <= end {
      ModStep(x - start, jump);
      assert (x + jump - start) % jump == 0;
      CandidatesFromFacts(x + jump, start, end, minSize, jump);
      var head := if x - start >= minSize && end - x >= minSize then [x] else [];
      var tail := CandidatesFrom(x + jump, start, end, minSize, jump);
      assert r == head + tail;
      forall c | IsCandidate(c, start, end, minSize, jump) && c > x
        ensures c >= x + jump
      {
        ModDiff(c - start, x - start, jump);
        assert c - x == (c - start) - (x - start);
        PositiveMultiple(c - x, jump);
      }
      forall c ensures c in r <==> IsCandidate(c, start, end, minSize, jump) && c >= x {
        if c == x {
          assert c !in tail;
        }
      }
      forall i, j | 0 <= i < j < |r| ensures r[i] < r[j] {
        if |head| == 1 && i == 0 {
          assert r[j] == tail[j - 1] && r[j] in tail;
        } else {
          assert r[i] == tail[i - |head|] && r[j] == tail[j - |head|];
        }
      }
    }
  }

  /**
   * `regspace(start, jump, end)` filtered to the points leaving `minSize` on
   * both sides: exactly the admissible change points, in increasing order.
   */
  function Candidates(start: int, end: int, minSize: int, jump: int): (r: seq<int>)
    requires jump >= 1
    ensures forall c :: c in r <==> IsCandidate(c, start, end, minSize, jump)
    ensures Increasing(r)
  {
    assert (start - start) % jump == 0;
    CandidatesFromFacts(start, start, end, minSize, jump);
    CandidatesFrom(start, start, end, minSize, jump)
  }

  /** A region of length at least `minLen` has an admissible change point: its `minLen / 2`-th point. */
  lemma CandidateExists(start: int, end: int, minSize: int, jump: int)
    requires minSize >= 1 && jump >= 1
    requires end - start >= MinLen(minSize, jump)
    ensures IsCandidate(start + MinLen(minSize, jump) / 2, start, end, minSize, jump)
  {
  }

  /**
   * A region of length exactly `minLen` has one admissible change point, its
   * midpoint.
   */
  lemma MidpointIsOnlyCandidate(start: int, end: int, minSize: int, jump: int)
    requires minSize >= 1 && jump >= 1
    requires end - start == MinLen(minSize, jump)
    ensures IsCandidate(start + (end - start) / 2, start, end, minSize, jump)
    ensures forall c :: IsCandidate(c, start, end, minSize, jump) ==> c == start + (end - start) / 2
  {
    var h := (end - start) / 2;
    forall c | IsCandidate(c, start, end, minSize, jump) ensures c == start + h {
      var d := c - start;
      ModDiff(h, d, jump);
      if d < h {
        PositiveMultiple(h - d, jump);
      } else if d > h {
        ModDiff(d, h, jump);
        PositiveMultiple(d - h, jump);
      }
    }
  }

  /** With a unit stride, a region shorter than `minLen` has no admissible change point. */
  lemma UnitStrideShortRegionHasNoCandidate(start: int, end: int, minSize: int, c: int)
    requires minSize >= 1
    requires end - start < MinLen(minSize, 1)
    ensures !IsCandidate(c, start, end, minSize, 1)
  {
  }

  /**
   * With a stride above one the threshold is conservative: a region of
   * length 7 with `minSize == 3` and `jump == 2` is shorter than `minLen == 8`
   * and so is never split, though the change point at offset 4 leaves at
   * least 3 observations on each side.
   */
  lemma StridedShortRegionMayHaveCandidate()
    ensures MinLen(3, 2) == 8
    ensures IsCandidate(4, 0, 7, 3, 2)
  {
    assert CeilDiv(3, 2) == 2;
  }

  // ---------------------------------------------------------------------
  // Queue entries
  // ---------------------------------------------------------------------

  /**
   * An entry of the priority queue. `Unsplittable` is the entry for a region
   * too short to split (gain minus infinity, errors plus infinity); `Split`
   * records the chosen change point, the gain, and the costs of the left
   * half, the right half and their sum.
   */
  datatype Segment =
    | Unsplittable(start: int, end: int)
    | Split(start: int, end: int, cp: int, gain: real, lErr: real, rErr: real, err: real)
  {
    /** The queue order: by gain, with minus infinity below every finite gain. */
    predicate Less(other: Segment) {
      other.Split? && (Unsplittable? || gain < other.gain)
    }

    /** The fit stops when it pops this entry: its gain is negative or minus infinity. */
    predicate Rejected() {
      Unsplittable? || gain < 0.0
    }
  }

  /**
   * The queue order is a strict order in which an unsplittable entry ranks
   * below every split and nothing ranks below it.
   */
  lemma LessIsStrictOrder(a: Segment, b: Segment, c: Segment)
    ensures !a.Less(a)
    ensures a.Less(b) ==> !b.Less(a)
    ensures a.Less(b) && b.Less(c) ==> a.Less(c)
    ensures a.Unsplittable? && b.Split? ==> a.Less(b)
    ensures a.Less(b) ==> b.Split?
  {
  }

  /** An entry is accepted exactly when it is a split of non-negative gain. */
  lemma RejectedIffNoGain(a: Segment)
    ensures !a.Rejected() <==> a.Split? && a.gain >= 0.0
    ensures a.Rejected() && !a.Unsplittable? ==> a.gain < 0.0
  {
  }

  /** The cost of the two halves when `[start, end)` is cut at `c`. */
  function SplitCost(cost: (int, int) -> real, start: int, c: int, end: int): real
    requires 0 <= start <= c <= end
  {
    cost(start, c) + cost(c, end)
  }

  /**
   * `seg` is what the split search must return for `[start, end)` when the
   * cost of the whole region is `total`: the unsplittable entry exactly when
   * the region is shorter than `minLen`; otherwise the admissible change
   * point with the least split cost (the first one among equals), its two
   * costs, their sum, and the gain `total - err`.
   */
  ghost predicate IsOptimalSplit(seg: Segment, cost: (int, int) -> real, start: int, end: int,
                                 minSize: int, jump: int, total: real)
    requires 0 <= start <= end
    requires minSize >= 1 && jump >= 1
  {
    && seg.start == start
    && seg.end == end
    && (seg.Unsplittable? <==> end - start < MinLen(minSize, jump))
    && (seg.Split? ==>
          && IsCandidate(seg.cp, start, end, minSize, jump)
          && seg.lErr == cost(start, seg.cp)
          && seg.rErr == cost(seg.cp, end)
          && seg.err == seg.lErr + seg.rErr
          && seg.gain == total - seg.err
          && (forall c :: IsCandidate(c, start, end, minSize, jump) ==>
                seg.err <= SplitCost(cost, start, c, end))
          && (forall c :: IsCandidate(c, start, end, minSize, jump) && c < seg.cp ==>
                seg.err < SplitCost(cost, start, c, end)))
  }

  /** The optimal split of a region is unique: ties go to the leftmost change point. */
  lemma OptimalSplitUnique(s1: Segment, s2: Segment, cost: (int, int) -> real, start: int, end: int,
                           minSize: int, jump: int, total: real)
    requires 0 <= start <= end
    requires minSize >= 1 && jump >= 1
    requires IsOptimalSplit(s1, cost, start, end, minSize, jump, total)
    requires IsOptimalSplit(s2, cost, start, end, minSize, jump, total)
    ensures s1 == s2
  {
  }

  /** A split never leaves a half shorter than `minSize`, and its gain is the drop in cost. */
  lemma OptimalSplitHalves(seg: Segment, cost: (int, int) -> real, start: int, end: int,
                           minSize: int, jump: int)
    requires 0 <= start <= end
    requires minSize >= 1 && jump >= 1
    requires IsOptimalSplit(seg, cost, start, end, minSize, jump, cost(start, end))
    requires seg.Split?
    ensures start + minSize <= seg.cp <= end - minSize
    ensures cost(start, end) - seg.gain == cost(start, seg.cp) + cost(seg.cp, end)
  {
  }

  /** The running minimum of the scan: plus infinity before the first candidate. */
  datatype Bound = Infinity | Finite(value: real)
  {
    /** `x < this` */
    predicate Above(x: real) {
      Infinity? || x < value
    }
  }

  /** Every entry of `cps` lies inside `[start, end]`. */
  predicate Within(cps: seq<int>, start: int, end: int) {
    forall j :: 0 <= j < |cps| ==> start <= cps[j] <= end
  }

  /**
   * After scanning the first `i` entries of `cps`: entry `best` has the
   * least split cost `err == lErr + rErr` among them, and every earlier
   * entry costs strictly more.
   */
  ghost predicate ScanSoFar(cost: (int, int) -> real, start: int, end: int, cps: seq<int>, i: int,
                            best: int, lErr: real, rErr: real, err: real)
    requires 0 <= start <= end && Within(cps, start, end)
  {
    && 0 <= best < i <= |cps|
    && lErr == cost(start, cps[best])
    && rErr == cost(cps[best], end)
    && err == lErr + rErr
    && (forall j :: 0 <= j < i ==> err <= SplitCost(cost, start, cps[j], end))
    && (forall j :: 0 <= j < best ==> err < SplitCost(cost, start, cps[j], end))
  }

  /** Entry `i` beats the minimum so far (or is the first one): it becomes the minimum. */
  lemma ScanTake(cost: (int, int) -> real, start: int, end: int, cps: seq<int>, i: int,
                 best: int, lErr: real, rErr: real, err: real, newL: real, newR: real)
    requires 0 <= start <= end && Within(cps, start, end)
    requires 0 <= i < |cps|
    requires i == 0 || (ScanSoFar(cost, start, end, cps, i, best, lErr, rErr, err) && newL + newR < err)
    requires newL == cost(start, cps[i]) && newR == cost(cps[i], end)
    ensures ScanSoFar(cost, start, end, cps, i + 1, i, newL, newR, newL + newR)
  {
  }

  /** Entry `i` does not beat the minimum so far: the minimum stays. */
  lemma ScanKeep(cost: (int, int) -> real, start: int, end: int, cps: seq<int>, i: int,
                 best: int, lErr: real, rErr: real, err: real)
    requires 0 <= start <= end && Within(cps, start, end)
    requires 0 <= i < |cps|
    requires ScanSoFar(cost, start, end, cps, i, best, lErr, rErr, err)
    requires err <= SplitCost(cost, start, cps[i], end)
    ensures ScanSoFar(cost, start, end, cps, i + 1, best, lErr, rErr, err)
  {
  }

  /**
   * A scan of the whole candidate list yields the optimal split of the
   * region: what holds of the list holds of every admissible change point.
   */
  lemma ScanFindsOptimum(cost: (int, int) -> real, start: int, end: int, minSize: int, jump: int,
                         cps: seq<int>, best: int, lErr: real, rErr: real, err: real, total: real)
    requires 0 <= start <= end
    requires minSize >= 1 && jump >= 1
    requires end - start > MinLen(minSize, jump)
    requires cps == Candidates(start, end, minSize, jump) && Within(cps, start, end)
    requires ScanSoFar(cost, start, end, cps, |cps|, best, lErr, rErr, err)
    ensures IsOptimalSplit(Split(start, end, cps[best], total - err, lErr, rErr, err),
                           cost, start, end, minSize, jump, total)
  {
    assert cps[best] in cps;
    forall c | IsCandidate(c, start, end, minSize, jump)
      ensures err <= SplitCost(cost, start, c, end)
      ensures c < cps[best] ==> err < SplitCost(cost, start, c, end)
    {
      var j :| 0 <= j < |cps| && cps[j] == c;
      if c < cps[best] && j >= best {
        assert false;
      }
    }
  }

  /**
   * `miniOptHeapCpp`: the optimal split of `[start, end)`. A negative
   * `totalErr` means "not known" and the cost of the region is evaluated.
   */
  method MiniOpt(cost: (int, int) -> real, start: int, end: int, minLen: int,
                 minSize: int, jump: int, totalErr: real) returns (seg: Segment)
    requires 0 <= start <= end
    requires minSize >= 1 && jump >= 1 && minLen == MinLen(minSize, jump)
    ensures IsOptimalSplit(seg, cost, start, end, minSize, jump,
                           if totalErr < 0.0 then cost(start, end) else totalErr)
  {
    var len := end - start;
    var total := totalErr;
    if total < 0.0 {
      total := cost(start, end);
    }

    if len < minLen {
      return Unsplittable(start, end);
    } else if len == minLen {
      var cp := start + len / 2;
      MidpointIsOnlyCandidate(start, end, minSize, jump);
      var lErr := cost(start, cp);
      var rErr := cost(cp, end);
      var err := lErr + rErr;
      return Split(start, end, cp, total - err, lErr, rErr, err);
    }

    var minErr := Infinity;
    var cp := start;
    var minlErr := 0.0;
    var minrErr := 0.0;
    ghost var best := 0;
    var allBkps := Candidates(start, end, minSize, jump);
    forall j | 0 <= j < |allBkps| ensures start <= allBkps[j] <= end {
      assert allBkps[j] in allBkps;
    }
    for i := 0 to |allBkps|
      invariant minErr.Infinity? <==> i == 0
      invariant i > 0 ==> && ScanSoFar(cost, start, end, allBkps, i, best, minlErr, minrErr, minErr.value)
                          && cp == allBkps[best]
    {
      var tempCp := allBkps[i];
      var lErr := cost(start, tempCp);
      var rErr := cost(tempCp, end);
      var err := lErr + rErr;
      if minErr.Above(err) {
        ghost var sofar := if i == 0 then 0.0 else minErr.value;
        ScanTake(cost, start, end, allBkps, i, best, minlErr, minrErr, sofar, lErr, rErr);
        minErr := Finite(err);
        minlErr := lErr;
        minrErr := rErr;
        cp := tempCp;
        best := i;
      } else {
        ScanKeep(cost, start, end, allBkps, i, best, minlErr, minrErr, minErr.value);
      }
    }

    CandidateExists(start, end, minSize, jump);
    assert start + minLen / 2 in allBkps;
    ScanFindsOptimum(cost, start, end, minSize, jump, allBkps, best, minlErr, minrErr, minErr.value, total);
    seg := Split(start, end, cp, total - minErr.value, minlErr, minrErr, minErr.value);
  }
}
