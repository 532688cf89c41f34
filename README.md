# Binary segmentation change-point detection, modelled in Dafny

This project models the C++ core of a binary-segmentation change-point
detector for an n x d signal. The model uses exact reals.

- **Cost models.** A cost is a function `eval(start, end)` of a half-open row
  range. There are three variants:
  - the quadratic cost (L2), evaluated in closed form from column prefix sums;
  - the robust cost (L1): absolute deviations from the per-column median;
  - an external cost, a total and pure function of the range supplied by the caller.
- **Split search (`miniOptHeapCpp`).** For a region `[start, end)` it scans
  the admissible change points. These lie on the grid
  `start, start + jump, ...` and leave `minSize` observations on each side.
  It returns the one with the least cost of the two halves, the first among
  equals, together with its gain. A region shorter than
  `minLen = 2 * ceil(minSize / jump) * jump` is never split: its entry has
  gain minus infinity.
- **Engine (`binSegCpp`).**
  - The constructor checks its parameters in order.
  - `fit` keeps a max-priority queue of such entries. It pops the entry with
    the largest gain, records its change point and the new total cost, and
    pushes the optimal splits of the two halves. It stops at a negative gain
    or after `floor(n / minSize) - 1` splits.
  - `predict` keeps the first `k` change points, for the `k` that minimises
    `cost[k] + penalty * k`.

## How the model is organised

The engine is proved against a ghost *history* (`Engine.History`). This
records:

- the queue after each accepted split;
- the position popped;
- the change point;
- the cost.

Every queue tiles `[0, n)`, and each of its entries is the optimal split of
its region (`SplitSearch.IsOptimalSplit`). The recorded cost equals the sum
of the costs of the queue's regions. Each step pops a top entry whose gain is
not negative. The change points are the inner boundaries of the tiling, so
they are `minSize` apart and `minSize` away from both ends of the signal.

The priority queue is a sequence kept in the positional order of its
regions. "Pop the top and push both halves" is one splice that replaces the
entry by its two halves. The engine sees the cost only through the
interface function `(int, int) -> real`. Everything proved about the engine
therefore holds for any cost, the external one included.

## Model

| member | source | states |
|---|---|---|
| Costs.GetCumSum | src/Cost.cpp:9-18 | for a matrix with at least one row (on an empty one, filling rows `1 .. 0` is an Armadillo error), the prefix-sum matrix has one more row than `X`; its row 0 is zero, and row `i + 1` is row `i` plus row `i` of `X`. Hence row `i`, column `d` is the sum of column `d` over the first `i` rows |
| Costs.PrefixSumColumn | src/Cost.cpp:14-15 | a row built by the cumulative-sum recurrence holds the column sums of the rows before it |
| Costs.CostL2.constructor | src/Cost.cpp:24-30 | for a non-empty input (the prefix sums need a row), the stored matrices are the prefix sums of the input and of its element-wise squares, and the size is the number of rows |
| CostL2Facts.L2EvalIsSSE | src/Cost.cpp:32-40 | on any range of at least one row, the closed form `sum(Q) - norm(S)^2 / len` equals the brute-force sum of squared deviations from each column's mean over the range |
| CostL2Facts.L2EvalNonNegative | src/Cost.cpp:32-40 | the quadratic cost is never negative (over exact reals), including the `start >= end - 1` case that returns 0 |
| CostL2Facts.L2EvalLocal | src/Cost.cpp:32-40 | the quadratic cost of `[s, e)` depends only on rows `s .. e-1` of the signal |
| CostL2Facts.ExpandSqDev | src/Cost.cpp:38-39 | the sum of `(x - m)^2` over a column range is `Q - 2 m S + len m^2` |
| CostL2Facts.ColumnClosedForm | src/Cost.cpp:38-39 | per column, squared deviations from the mean are `Q - S^2 / len` |
| Costs.CostL2.Eval | src/Cost.cpp:32-40 | returns 0.0 when `start >= end - 1`; otherwise the sum of the squared-value sums over `[start, end)` minus the squared norm of the value sums divided by `end - start`. L2EvalIsSSE gives its meaning |
| Costs.CostL2.Size | src/Cost.h:36 | returns the stored row count, which the constructor sets to the number of input rows |
| Linalg.Sum | src/Cost.cpp:38 | `arma::sum` of a row: 0.0 on an empty row, otherwise the sum of its entries; ColumnSumSplit and L2EvalIsSSE use it |
| Linalg.SumSq | src/Cost.cpp:39 | `pow(norm(v, 2), 2)`: 0.0 on an empty row, otherwise the sum of the squared entries |
| Linalg.Squares | src/Cost.cpp:27 | `pow(X, 2)` keeps the shape of the matrix |
| Linalg.ColumnSumSplit | src/Cost.cpp:38-39 | a prefix sum up to `e` minus the one up to `s` is the sum over `[s, e)`, which is what the difference of two prefix-sum rows computes |
| Costs.CostL1.constructor | src/Cost.cpp:46-50 | the cost keeps the input matrix, and its size is the number of rows |
| Costs.CostL1.Eval | src/Cost.cpp:52-60 | returns 0.0 when `start >= end - 1`; otherwise the total absolute deviation of rows `start .. end-1` from their per-column medians. L1EvalNonNegative, L1EvalZeroOnConstantRows and L1EvalLocal state its properties |
| Costs.CostL1.Size | src/Cost.h:55 | returns the stored row count, which the constructor sets to the number of input rows |
| MedianStats.Median | src/Cost.cpp:57 | the middle element of the sorted values for an odd count, the mean of the two middle ones for an even count; MedianBounds and MedianOfConstant state its properties |
| Costs.Accu | src/Cost.cpp:59 | `arma::accu`: 0.0 on an empty matrix, otherwise the sum of all entries; AccuNonNegative and AccuZero state its properties |
| Costs.ColumnMedians | src/Cost.cpp:57 | `median(segment, 0)` yields one median per column |
| Costs.AbsDeviations | src/Cost.cpp:59 | `abs(segment.each_row() - med)` has one row per row of the segment |
| MedianStats.SortFacts | src/Cost.cpp:57 | the sort under the median is sorted and is a permutation of its input |
| MedianStats.MedianOfConstant | src/Cost.cpp:57 | the median of equal values is that value |
| MedianStats.MedianBounds | src/Cost.cpp:57 | the median lies between any lower and upper bound of the values |
| CostL1Facts.L1EvalNonNegative | src/Cost.cpp:52-60 | the robust cost is never negative |
| CostL1Facts.L1EvalZeroOnConstantRows | src/Cost.cpp:52-60 | the robust cost of a range whose rows are all equal is zero |
| CostL1Facts.L1EvalLocal | src/Cost.cpp:56-59 | the robust cost of `[s, e)` depends only on rows `s .. e-1` |
| Costs.RCost.constructor | src/Cost.cpp:66-71 | the external cost evaluates exactly the supplied function on every range, and its size is the declared `n` |
| Costs.RCost.Size | src/Cost.h:71 | returns the declared `n` |
| Costs.CostModel.Eval | src/Cost.h:15 | the virtual `eval`: dispatches to the selected cost on the ranges that cost accepts (any range for the external cost) |
| Costs.CostModel.Size | src/Cost.h:16 | the virtual `size`: dispatches to the selected cost |
| Costs.CostModel.Evaluator | src/Cost.h:12-17 | the function the engine calls agrees with the selected cost's `eval` on every range that `eval` accepts |
| SplitSearch.CeilDiv | src/binSeg.cpp:149 | `ceil(a / b)`: the least `k >= 1` with `k * b >= a` |
| SplitSearch.MinLen | src/binSeg.cpp:149-150 | `minLen` is even, and half of it is the least multiple of `jump` that is at least `minSize` |
| SplitSearch.UnitStrideMinLen | src/binSeg.cpp:149-150 | with `jump == 1`, `minLen == 2 * minSize` |
| SplitSearch.Candidates | src/binSeg.cpp:100-101 | the filtered `regspace(start, jump, end)` holds exactly the admissible change points, in increasing order |
| SplitSearch.CandidateExists | src/binSeg.cpp:70-123 | a region at least `minLen` long has an admissible change point, at offset `minLen / 2` |
| SplitSearch.MidpointIsOnlyCandidate | src/binSeg.cpp:78-89 | a region exactly `minLen` long has one admissible change point: its midpoint |
| SplitSearch.UnitStrideShortRegionHasNoCandidate | src/binSeg.cpp:70-76 | with `jump == 1`, a region shorter than `minLen` has no admissible change point, so refusing to split it loses nothing |
| SplitSearch.StridedShortRegionMayHaveCandidate | src/binSeg.cpp:70-76 | with `jump > 1` the threshold is conservative: `[0, 7)` with `minSize 3`, `jump 2` is never split, yet 4 is admissible |
| SplitSearch.Segment.Less | src/binSeg.cpp:50-52 | `operator<`: an entry ranks below another exactly when the other is a split and either the first is unsplittable (gain minus infinity) or its gain is smaller |
| SplitSearch.LessIsStrictOrder | src/binSeg.cpp:50-52 | that order is irreflexive, asymmetric and transitive; an unsplittable entry ranks below every split, and nothing ranks below it |
| SplitSearch.Segment.Rejected | src/binSeg.cpp:184 | the stop test `best.gain < 0`: true for a negative gain and for the minus-infinity gain of an unsplittable entry |
| SplitSearch.RejectedIffNoGain | src/binSeg.cpp:184 | an entry is accepted exactly when it is a split whose gain is not negative |
| SplitSearch.OptimalSplitUnique | src/binSeg.cpp:110-115 | the optimal split of a region is unique (ties go to the leftmost point) |
| SplitSearch.OptimalSplitHalves | src/binSeg.cpp:118-122 | a split leaves at least `minSize` on each side, and the region's cost less the gain is the cost of the two halves |
| SplitSearch.ScanTake | src/binSeg.cpp:110-115 | a strictly smaller split cost becomes the running minimum |
| SplitSearch.ScanKeep | src/binSeg.cpp:110-115 | a split cost that is not smaller keeps the running minimum |
| SplitSearch.ScanFindsOptimum | src/binSeg.cpp:103-122 | a scan over the whole candidate list yields the optimal split of the region |
| SplitSearch.MiniOpt | src/binSeg.cpp:61-123 | the returned entry is the optimal split of `[start, end)`: unsplittable exactly when shorter than `minLen`; otherwise the leftmost change point of least split cost, its costs and its gain. A negative `totalErr` is replaced by `eval(start, end)` |
| Selection.Penalized | src/binSeg.cpp:18-22 | entry `k` is `cost[k] + penalty * k`, for every `k`; PenaltyMonotone and the penalty lemmas below are about it |
| Selection.WhichMin | src/binSeg.cpp:24 | the index returned is the first position of the minimum |
| Selection.FirstMinUnique | src/binSeg.cpp:24 | that index is unique |
| Selection.BinSegPred | src/binSeg.cpp:8-32 | a negative penalty fails; otherwise the result is the first `k` change points, for the `k` that is the first minimum of `cost[k] + penalty * k` |
| Selection.PenaltyMonotone | src/binSeg.cpp:18-24 | a larger penalty never keeps more change points |
| Selection.LargePenaltyKeepsNone | src/binSeg.cpp:18-28 | for any costs, a penalty at least every single drop `cost[i] - cost[i + 1]` makes index 0 the first minimum, so no change point is kept |
| Selection.PenalizedAtLeastFirst | src/binSeg.cpp:18-22 | under the same penalty, every penalized cost is at least `cost[0]` |
| Selection.ZeroPenaltyKeepsAll | src/binSeg.cpp:18-30 | with zero penalty and strictly decreasing costs, every change point is kept |
| Selection.ZeroPenaltyDropsZeroGain | src/binSeg.cpp:18-28 | with zero penalty, a last split of gain exactly zero is dropped (costs `[2, 1, 1]` keep one point) |
| Engine.Top | src/binSeg.cpp:181 | `heap.top()` yields an entry that no other entry ranks above, under the gain order of `operator<` (lines 50-52) with minus infinity lowest |
| Engine.TopRejectedAllRejected | src/binSeg.cpp:181-184 | when the top entry's gain is negative or minus infinity, so is every queued entry's |
| Engine.SpliceAt | src/binSeg.cpp:182-194 | pop plus two pushes: the queue grows by one, the popped entry is replaced by the two halves, and every other entry is kept |
| Engine.QueueCostAppend | src/binSeg.cpp:187 | the cost of a concatenation of queues is the sum of their costs |
| Engine.QueueCostSplice | src/binSeg.cpp:187-194 | replacing a region by its halves changes the total cost by the halves' costs minus the region's |
| Engine.EntryGain | src/binSeg.cpp:84-85 | a queued entry's gain is its region's cost less the costs of its two halves |
| Engine.SpliceCost | src/binSeg.cpp:187-194 | splitting a queued entry lowers the segmentation's cost by exactly its gain, so `cost[idx + 1] == cost[idx] - best.gain` is the cost of the new segmentation |
| Engine.EndsSplice | src/binSeg.cpp:186-194 | splitting entry `k` inserts its change point among the inner boundaries at position `k` |
| Engine.SpliceTiles | src/binSeg.cpp:190-194 | splitting a region at an admissible point keeps a tiling of `[0, n)` with regions at least `minSize` long |
| Engine.SpliceOptimal | src/binSeg.cpp:190-194 | after the two pushes every queued entry is still the optimal split of its region |
| Engine.SplitPointApart | src/binSeg.cpp:186 | the popped change point is at least `minSize` from both ends and from every earlier change point |
| Engine.HistoryInit | src/binSeg.cpp:166-177 | the queue holding only the optimal split of `[0, n)`, with cost `eval(0, n)`, starts a history |
| Engine.HistoryStep | src/binSeg.cpp:179-197 | one accepted split (pop a top entry of non-negative gain, record it, push the halves' optimal splits) extends the history |
| Engine.PoppedSplit | src/binSeg.cpp:181-194 | the popped entry's stored `lErr` and `rErr` are the costs of its halves, which the pushes reuse as `totalErr` |
| Engine.PushHalves | src/binSeg.cpp:190-194 | the two pushed entries are the optimal splits of the halves, and the spliced queue extends the history |
| Engine.HistoryCosts | src/binSeg.cpp:171-187 | along a history the cost starts at `eval(0, n)` and never increases |
| Engine.AtLeastTwoRegimes | src/binSeg.cpp:161-164 | when the signal is at least `2 * minSize` long, `maxNRegimes >= 2`, so both buffers are non-empty |
| Engine.Advance | src/binSeg.cpp:186-194 | one accepted split writes the change point and the lowered cost into the buffers and extends the history |
| Engine.Greedy | src/binSeg.cpp:158-200 | the loop of `fit`. It returns a history with at most `floor(n / minSize)` costs. When it stops early, every entry of the last queue is rejected |
| Engine.BinSeg.constructor | src/binSeg.cpp:140-154 | the engine is created with its parameters, `minLen` as computed, and empty results |
| Engine.Create | src/binSeg.cpp:140-154 | the checks in order: `minSize < 1`, `jump < 1`, then `nSamples < minLen` fail with their errors; otherwise a fresh engine evaluating the given cost |
| Engine.BinSeg.Fit | src/binSeg.cpp:158-201 | `bkpsVec` and `costVec` are a greedy history. There is one cost more than change points, at most `floor(n / minSize)` of them, and the first is `eval(0, n)`. Costs never increase. Change points lie in `[minSize, n - minSize]` and are `minSize` apart. An early stop means every queued entry was rejected |
| Engine.BinSeg.Eval | src/binSeg.cpp:209-211 | `eval` returns the engine's cost function on the range; Create sets that function to the cost model's evaluator |
| Engine.EvalForwards | src/binSeg.cpp:209-211 | for an engine created over a cost model, `eval` equals that model's `eval` on every range the model accepts |
| Engine.BinSeg.Predict | src/binSeg.cpp:205-207 | `binSegPredCpp` applied to the fitted results |

## Left out

- The R bindings (`RCPP_MODULE`, `RCPP_EXPOSED_CLASS`, `as<const CostBase&>`) are not modelled; the external cost is any function `(int, int) -> real`.
- Floating point is not modelled: costs are exact reals, and NaN never arises. The infinities of an unsplittable entry are the `Unsplittable` constructor, and the scan's `+inf` starting minimum is `Bound.Infinity`.
- 32-bit `int` overflow is not modelled; integers are unbounded.
- `std::ceil(double(minSize) / jump)` and `std::floor(double(nr) / minSize)` are taken as exact integer ceiling and floor.
- The Armadillo operations (`cumsum`, `sum`, `norm`, `median`, `accu`) are specified mathematically. The order of summation and the rounding are not modelled.
- Engine.Top: `std::priority_queue` may return any of several entries of equal gain; the model returns one maximal entry, and every property proved holds for any maximal entry.
- Engine.BinSeg.Fit: the source pops the top entry before testing its gain. When the loop stops on a rejected entry, that entry is gone from the C++ queue but is still the last queue of the ghost history. The queue is discarded either way.
- Engine.BinSeg.Fit: the source does not require `nSamples` to match the cost's `size()`. Outside the ranges the L2 and L1 costs accept, their row indexing (`row(end)` at src/Cost.cpp:38, `rows(start, end - 1)` at src/Cost.cpp:56) raises an Armadillo bounds error; the model does not raise it, and the engine sees the cost as 0 there (`CostModel.Evaluator`).
- Selection.BinSegPred: `which_min` on an empty vector (predict before fit) is undefined in the source. The model requires at least one cost, which `Fit` guarantees.
- `Range(0, idx - 1)` with `idx == 0` is taken as the empty range.
- The error messages of `stop` are modelled as the `Failures.Error` values, without their text.
- `Segment.valid` is always `true` in the source and is not modelled.
- SplitSearch.MiniOpt: it requires `minLen == MinLen(minSize, jump)`, which is the only value the engine passes.
- Costs.RCost.Eval: the external evaluator is assumed total and pure (a Dafny function returns the same value for the same range). A failing R call, and its propagation out of `fit` with `bkpsVec` and `costVec` left unassigned (src/binSeg.cpp:199-200), is not modelled.
- The queue's `operator<` compares gains only. Ties between equal gains are broken arbitrarily by `std::priority_queue`; see Engine.Top above.
