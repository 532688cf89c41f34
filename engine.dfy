/**
 * The binary segmentation engine. `Fit` starts from the whole signal as one
 * region, repeatedly takes the queued region whose best split has the
 * largest gain, records that change point and the new total cost, and
 * queues the best splits of the two halves; it stops when the best gain is
 * negative (or minus infinity) or when no more regimes fit. `Predict` then
 * picks how many of the recorded change points to keep for a penalty.
 *
 * The priority queue is a sequence kept in the positional order of the
 * regions it holds; popping the top entry and pushing the two halves is one
 * splice that replaces the entry by its halves.
 */
module Engine {
  import opened Costs
  import opened SplitSearch
  import opened Selection
  import opened Failures

  // ---------------------------------------------------------------------
  // The queue
  // ---------------------------------------------------------------------

  /** Entry `k` ranks highest in the queue: no entry is above it. */
  predicate IsTop(h: seq<Segment>, k: int) {
    0 <= k < |h| && forall i :: 0 <= i < |h| ==> !h[k].Less(h[i])
  }

  /** `heap.top()`: the position of an entry no other entry ranks above. */
  method Top(h: seq<Segment>) returns (k: int)
    requires |h| >= 1
    ensures IsTop(h, k)
  {
    k := 0;
    for i := 1 to |h|
      invariant 0 <= k < i
      invariant forall j :: 0 <= j < i ==> !h[k].Less(h[j])
    {
      if h[k].Less(h[i]) {
        k := i;
      }
    }
  }

  /** When the top entry is rejected, every entry is. */
  lemma TopRejectedAllRejected(h: seq<Segment>, k: int)
    requires IsTop(h, k) && h[k].Rejected()
    ensures forall i :: 0 <= i < |h| ==> h[i].Rejected()
  {
    forall i | 0 <= i < |h| ensures h[i].Rejected() {
      assert !h[k].Less(h[i]);
    }
  }

  /** Every region of `h` lies inside `[0, n]`. */
  predicate InRange(h: seq<Segment>, n: int) {
    forall i :: 0 <= i < |h| ==> 0 <= h[i].start <= h[i].end <= n
  }

  /**
   * The regions of `h`, in order, tile `[0, n)`; each holds at least
   * `minSize` observations.
   */
  predicate Tiles(h: seq<Segment>, n: int, minSize: int) {
    && |h| >= 1
    && InRange(h, n)
    && h[0].start == 0
    && h[|h| - 1].end == n
    && (forall i :: 0 <= i < |h| ==> h[i].end - h[i].start >= minSize)
    && (forall i, j :: 0 <= i < |h| - 1 && j == i + 1 ==> h[i].end == h[j].start)
    && (forall i, j :: 0 <= i < j < |h| ==> h[i].end <= h[j].start)
  }

  /** What the queue holds: a tiling whose every entry is the optimal split of its region. */
  ghost predicate QueueInv(cost: (int, int) -> real, h: seq<Segment>, n: int, minSize: int, jump: int)
    requires minSize >= 1 && jump >= 1
  {
    && Tiles(h, n, minSize)
    && (forall i :: 0 <= i < |h| ==>
          IsOptimalSplit(h[i], cost, h[i].start, h[i].end, minSize, jump,
                         cost(h[i].start, h[i].end)))
  }

  /** The cost of the segmentation the queue's regions form. */
  ghost function QueueCost(cost: (int, int) -> real, h: seq<Segment>): real
  {
    if |h| == 0 then 0.0
    else QueueCost(cost, h[..|h| - 1]) + cost(h[|h| - 1].start, h[|h| - 1].end)
  }

  /** The inner boundaries of the tiling, left to right. */
  function Ends(h: seq<Segment>): seq<int>
    requires |h| >= 1
  {
    seq(|h| - 1, i requires 0 <= i < |h| - 1 => h[i].end)
  }

  /** Replace entry `k` by the two entries `l`, `r`. */
  function Splice(h: seq<Segment>, k: int, l: Segment, r: Segment): seq<Segment>
    requires 0 <= k < |h|
  {
    h[..k] + [l, r] + h[k + 1..]
  }

  lemma SpliceAt(h: seq<Segment>, k: int, l: Segment, r: Segment)
    requires 0 <= k < |h|
    ensures |Splice(h, k, l, r)| == |h| + 1
    ensures forall i :: 0 <= i < k ==> Splice(h, k, l, r)[i] == h[i]
    ensures Splice(h, k, l, r)[k] == l && Splice(h, k, l, r)[k + 1] == r
    ensures forall i :: k + 1 < i <= |h| ==> Splice(h, k, l, r)[i] == h[i - 1]
  {
  }

  lemma {:induction false} QueueCostAppend(cost: (int, int) -> real, a: seq<Segment>, b: seq<Segment>)
    ensures QueueCost(cost, a + b) == QueueCost(cost, a) + QueueCost(cost, b)
  {
    if |b| > 0 {
      var b' := b[..|b| - 1];
      QueueCostAppend(cost, a, b');
      assert (a + b)[..|a + b| - 1] == a + b';
    } else {
      assert a + b == a;
    }
  }

  /** Replacing a region by its two halves changes the cost by the halves' cost minus the region's. */
  lemma {:induction false} QueueCostSplice(cost: (int, int) -> real, h: seq<Segment>, k: int, l: Segment, r: Segment)
    requires 0 <= k < |h|
    ensures QueueCost(cost, Splice(h, k, l, r))
      == QueueCost(cost, h) - cost(h[k].start, h[k].end)
         + cost(l.start, l.end) + cost(r.start, r.end)
  {
    var pre, post := h[..k], h[k + 1..];
    assert h == pre + [h[k]] + post;
    QueueCostAppend(cost, pre, [h[k]]);
    QueueCostAppend(cost, pre + [h[k]], post);
    QueueCostAppend(cost, pre, [l, r]);
    QueueCostAppend(cost, pre + [l, r], post);
    assert QueueCost(cost, [h[k]]) == cost(h[k].start, h[k].end) by {
      assert [h[k]][..0] == [];
    }
    assert QueueCost(cost, [l, r]) == cost(l.start, l.end) + cost(r.start, r.end) by {
      assert [l, r][..1] == [l] && [l][..0] == [];
    }
  }

  /** Splitting entry `k` at `cp` inserts `cp` among the inner boundaries at position `k`. */
  lemma EndsSplice(h: seq<Segment>, k: int, l: Segment, r: Segment)
    requires 0 <= k < |h|
    requires r.end == h[k].end
    ensures Ends(Splice(h, k, l, r)) == Ends(h)[..k] + [l.end] + Ends(h)[k..]
  {
    SpliceAt(h, k, l, r);
    var s := Splice(h, k, l, r);
    var e := Ends(h);
    var want := e[..k] + [l.end] + e[k..];
    assert |Ends(s)| == |want|;
    forall i | 0 <= i < |want| ensures Ends(s)[i] == want[i] {
      if i < k {
        assert want[i] == e[i];
      } else if i == k {
        assert want[i] == l.end;
      } else {
        assert want[i] == e[i - 1];
      }
    }
  }

  /** The conditions under which splitting entry `k` of `h` into `l`, `r` keeps a tiling. */
  predicate SplitsEntry(h: seq<Segment>, k: int, l: Segment, r: Segment, minSize: int) {
    && 0 <= k < |h|
    && l.start == h[k].start && r.end == h[k].end && l.end == r.start
    && l.end - l.start >= minSize && r.end - r.start >= minSize
  }

  lemma SpliceOrdered(h: seq<Segment>, k: int, l: Segment, r: Segment, n: int, minSize: int)
    requires Tiles(h, n, minSize) && SplitsEntry(h, k, l, r, minSize) && minSize >= 1
    ensures forall i, j :: 0 <= i < j < |Splice(h, k, l, r)| ==>
      Splice(h, k, l, r)[i].end <= Splice(h, k, l, r)[j].start
  {
    SpliceAt(h, k, l, r);
    var s := Splice(h, k, l, r);
    forall i, j | 0 <= i < j < |s| ensures s[i].end <= s[j].start {
      if j <= k {
        assert s[i] == h[i];
        if j < k {
          assert s[j] == h[j];
        }
      } else if j == k + 1 {
        if i < k {
          assert s[i] == h[i];
        }
      } else {
        assert s[j] == h[j - 1];
        if i < k {
          assert s[i] == h[i];
        } else if i > k + 1 {
          assert s[i] == h[i - 1];
        }
      }
    }
  }

  lemma SpliceAdjacent(h: seq<Segment>, k: int, l: Segment, r: Segment, n: int, minSize: int)
    requires Tiles(h, n, minSize) && SplitsEntry(h, k, l, r, minSize) && minSize >= 1
    ensures forall i, j :: 0 <= i < |Splice(h, k, l, r)| - 1 && j == i + 1 ==>
      Splice(h, k, l, r)[i].end == Splice(h, k, l, r)[j].start
  {
    SpliceAt(h, k, l, r);
    var s := Splice(h, k, l, r);
    forall i, j | 0 <= i < |s| - 1 && j == i + 1 ensures s[i].end == s[j].start {
      if i < k - 1 {
        assert s[i] == h[i] && s[i + 1] == h[i + 1];
      } else if i == k - 1 {
        assert s[i] == h[k - 1];
      } else if i > k + 1 {
        assert s[i] == h[i - 1] && s[i + 1] == h[i];
      } else if i == k + 1 {
        assert s[i + 1] == h[k + 1];
      }
    }
  }

  lemma SpliceSizes(h: seq<Segment>, k: int, l: Segment, r: Segment, n: int, minSize: int)
    requires Tiles(h, n, minSize) && SplitsEntry(h, k, l, r, minSize) && minSize >= 1
    ensures InRange(Splice(h, k, l, r), n)
    ensures forall i :: 0 <= i < |Splice(h, k, l, r)| ==>
      Splice(h, k, l, r)[i].end - Splice(h, k, l, r)[i].start >= minSize
  {
    SpliceAt(h, k, l, r);
    var s := Splice(h, k, l, r);
    forall i | 0 <= i < |s| ensures 0 <= s[i].start <= s[i].end <= n && s[i].end - s[i].start >= minSize {
      if k + 1 < i {
        assert s[i] == h[i - 1];
      } else if i < k {
        assert s[i] == h[i];
      }
    }
  }

  /** Splitting a region of a tiling at an admissible point keeps a tiling. */
  lemma SpliceTiles(h: seq<Segment>, k: int, l: Segment, r: Segment, n: int, minSize: int)
    requires Tiles(h, n, minSize) && SplitsEntry(h, k, l, r, minSize) && minSize >= 1
    ensures Tiles(Splice(h, k, l, r), n, minSize)
  {
    SpliceAt(h, k, l, r);
    SpliceOrdered(h, k, l, r, n, minSize);
    SpliceAdjacent(h, k, l, r, n, minSize);
    SpliceSizes(h, k, l, r, n, minSize);
    if k == |h| - 1 {
      assert Splice(h, k, l, r)[|h|] == r;
    } else {
      assert Splice(h, k, l, r)[|h|] == h[|h| - 1];
    }
    if k == 0 {
      assert Splice(h, k, l, r)[0] == l;
    } else {
      assert Splice(h, k, l, r)[0] == h[0];
    }
  }

  /** Every inner boundary of a tiling lies outside the interior of each region. */
  lemma BoundaryOutside(h: seq<Segment>, k: int, x: int, n: int, minSize: int)
    requires Tiles(h, n, minSize) && 0 <= k < |h| && x in Ends(h)
    ensures x <= h[k].start || x >= h[k].end
  {
    var j :| 0 <= j < |Ends(h)| && Ends(h)[j] == x;
    if j > k {
      assert h[k].end <= h[j].start <= h[j].end;
    }
  }

  // ---------------------------------------------------------------------
  // What a fit records
  // ---------------------------------------------------------------------

  /** Entry `k` of `h` is the top entry, is accepted, and splits at `cp`. */
  predicate Popped(h: seq<Segment>, k: int, cp: int) {
    IsTop(h, k) && !h[k].Rejected() && h[k].cp == cp
  }

  /** The sizes of a history: one queue and one cost per step, one entry more than change points. */
  predicate Shaped(qs: seq<seq<Segment>>, ps: seq<int>, cps: seq<int>, costs: seq<real>) {
    && |qs| == |costs| == |cps| + 1
    && |ps| == |cps|
    && (forall t :: 0 <= t < |qs| ==> |qs[t]| == t + 1)
  }

  ghost predicate AllQueuesInv(cost: (int, int) -> real, n: int, minSize: int, jump: int, qs: seq<seq<Segment>>)
    requires minSize >= 1 && jump >= 1
  {
    forall t :: 0 <= t < |qs| ==> QueueInv(cost, qs[t], n, minSize, jump)
  }

  ghost predicate CostsMatch(cost: (int, int) -> real, qs: seq<seq<Segment>>, costs: seq<real>)
    requires |qs| == |costs|
  {
    forall t :: 0 <= t < |qs| ==> costs[t] == QueueCost(cost, qs[t])
  }

  /** After `t` splits the change points are the inner boundaries of the queue, in some order. */
  predicate EndsMatch(qs: seq<seq<Segment>>, cps: seq<int>)
    requires |qs| == |cps| + 1 && forall t :: 0 <= t < |qs| ==> |qs[t]| >= 1
  {
    forall t :: 0 <= t < |qs| ==> multiset(cps[..t]) == multiset(Ends(qs[t]))
  }

  /**
   * One step of the fit: the top entry `k` of queue `h`, accepted, splits at
   * `cp`; the next queue `h'` replaces it by two entries, and the cost drops
   * from `c` to `c'` by its gain.
   */
  predicate Step(h: seq<Segment>, h': seq<Segment>, k: int, cp: int, c: real, c': real) {
    && Popped(h, k, cp)
    && |h'| == |h| + 1
    && h' == Splice(h, k, h'[k], h'[k + 1])
    && c' == c - h[k].gain
  }

  /** Every recorded step is a step of the fit. */
  predicate Steps(qs: seq<seq<Segment>>, ps: seq<int>, cps: seq<int>, costs: seq<real>)
    requires Shaped(qs, ps, cps, costs)
  {
    forall t, u :: 0 <= t < |ps| && u == t + 1 ==> Step(qs[t], qs[u], ps[t], cps[t], costs[t], costs[u])
  }

  /** The change points lie at least `minSize` from the ends of the signal and from one another. */
  predicate Spaced(cps: seq<int>, n: int, minSize: int) {
    && (forall t :: 0 <= t < |cps| ==> minSize <= cps[t] <= n - minSize)
    && (forall s, t :: 0 <= s < t < |cps| ==> cps[s] + minSize <= cps[t] || cps[t] + minSize <= cps[s])
  }

  /**
   * The greedy history of a fit: `qs[t]` is the queue after `t` accepted
   * splits, `ps[t]` the position of the entry split next, `cps[t]` its
   * change point and `costs[t]` the cost of the segmentation `qs[t]` forms.
   * Each step splits a top entry with non-negative gain into the optimal
   * splits of its halves.
   */
  ghost predicate History(cost: (int, int) -> real, n: int, minSize: int, jump: int,
                          qs: seq<seq<Segment>>, ps: seq<int>, cps: seq<int>, costs: seq<real>)
    requires minSize >= 1 && jump >= 1
  {
    && Shaped(qs, ps, cps, costs)
    && AllQueuesInv(cost, n, minSize, jump, qs)
    && CostsMatch(cost, qs, costs)
    && EndsMatch(qs, cps)
    && Steps(qs, ps, cps, costs)
    && Spaced(cps, n, minSize)
  }

  /** The history of a fit before any split: the whole signal, queued with its optimal split. */
  lemma HistoryInit(cost: (int, int) -> real, n: int, minSize: int, jump: int, seg0: Segment)
    requires minSize >= 1 && jump >= 1 && n >= minSize
    requires IsOptimalSplit(seg0, cost, 0, n, minSize, jump, cost(0, n))
    ensures History(cost, n, minSize, jump, [[seg0]], [], [], [cost(0, n)])
  {
    assert [seg0][..0] == [];
    assert Ends([seg0]) == [];
  }

  /** Splitting entry `k` of a queue into the optimal splits of its halves keeps the queue invariant. */
  lemma SpliceOptimal(cost: (int, int) -> real, n: int, minSize: int, jump: int,
                      h: seq<Segment>, k: int, l: Segment, r: Segment)
    requires minSize >= 1 && jump >= 1
    requires QueueInv(cost, h, n, minSize, jump)
    requires 0 <= k < |h| && h[k].Split?
    requires IsOptimalSplit(l, cost, h[k].start, h[k].cp, minSize, jump, cost(h[k].start, h[k].cp))
    requires IsOptimalSplit(r, cost, h[k].cp, h[k].end, minSize, jump, cost(h[k].cp, h[k].end))
    ensures QueueInv(cost, Splice(h, k, l, r), n, minSize, jump)
  {
    var s := Splice(h, k, l, r);
    var seg := h[k];
    assert IsOptimalSplit(seg, cost, seg.start, seg.end, minSize, jump, cost(seg.start, seg.end));
    SpliceAt(h, k, l, r);
    assert SplitsEntry(h, k, l, r, minSize);
    SpliceTiles(h, k, l, r, n, minSize);
    forall i | 0 <= i < |s|
      ensures IsOptimalSplit(s[i], cost, s[i].start, s[i].end, minSize, jump, cost(s[i].start, s[i].end))
    {
      if k + 1 < i {
        assert s[i] == h[i - 1];
      }
    }
  }

  /** Splitting entry `k` lowers the cost of the segmentation by the entry's gain. */
  lemma {:induction false} SpliceCost(cost: (int, int) -> real, n: int, minSize: int, jump: int,
                   h: seq<Segment>, k: int, l: Segment, r: Segment)
    requires minSize >= 1 && jump >= 1
    requires QueueInv(cost, h, n, minSize, jump)
    requires 0 <= k < |h| && h[k].Split?
    requires l.start == h[k].start && l.end == h[k].cp && r.start == h[k].cp && r.end == h[k].end
    ensures QueueCost(cost, Splice(h, k, l, r)) == QueueCost(cost, h) - h[k].gain
  {
    EntryGain(cost, n, minSize, jump, h, k);
    QueueCostSplice(cost, h, k, l, r);
  }

  /** The gain of a queued split is the region's cost less the costs of its halves. */
  lemma EntryGain(cost: (int, int) -> real, n: int, minSize: int, jump: int, h: seq<Segment>, k: int)
    requires minSize >= 1 && jump >= 1
    requires QueueInv(cost, h, n, minSize, jump)
    requires 0 <= k < |h| && h[k].Split?
    ensures h[k].gain == cost(h[k].start, h[k].end) - cost(h[k].start, h[k].cp) - cost(h[k].cp, h[k].end)
  {
    var seg := h[k];
    assert IsOptimalSplit(seg, cost, seg.start, seg.end, minSize, jump, cost(seg.start, seg.end));
  }

  /** The change point of entry `k` is at least `minSize` from every inner boundary. */
  lemma SplitPointApart(cost: (int, int) -> real, n: int, minSize: int, jump: int, h: seq<Segment>, k: int)
    requires minSize >= 1 && jump >= 1
    requires QueueInv(cost, h, n, minSize, jump)
    requires 0 <= k < |h| && h[k].Split?
    ensures minSize <= h[k].cp <= n - minSize
    ensures forall x :: x in Ends(h) ==> x + minSize <= h[k].cp || h[k].cp + minSize <= x
  {
    var seg := h[k];
    assert IsOptimalSplit(seg, cost, seg.start, seg.end, minSize, jump, cost(seg.start, seg.end));
    forall x | x in Ends(h) ensures x + minSize <= seg.cp || seg.cp + minSize <= x {
      BoundaryOutside(h, k, x, n, minSize);
    }
  }

  lemma EndsMatchStep(qs: seq<seq<Segment>>, cps: seq<int>, h: seq<Segment>, k: int, l: Segment, r: Segment)
    requires |qs| == |cps| + 1 && forall t :: 0 <= t < |qs| ==> |qs[t]| >= 1
    requires EndsMatch(qs, cps)
    requires h == qs[|qs| - 1] && 0 <= k < |h| && r.end == h[k].end
    ensures EndsMatch(qs + [Splice(h, k, l, r)], cps + [l.end])
  {
    var m := |cps|;
    var qs', cps' := qs + [Splice(h, k, l, r)], cps + [l.end];
    EndsSplice(h, k, l, r);
    var e := Ends(h);
    assert e == e[..k] + e[k..];
    forall t | 0 <= t < |qs'| ensures multiset(cps'[..t]) == multiset(Ends(qs'[t])) {
      if t <= m {
        assert cps'[..t] == cps[..t];
      } else {
        assert cps'[..t] == cps[..m] + [l.end];
      }
    }
  }

  lemma SpacedStep(cps: seq<int>, n: int, minSize: int, cp: int, e: seq<int>)
    requires Spaced(cps, n, minSize)
    requires multiset(cps) == multiset(e)
    requires minSize <= cp <= n - minSize
    requires forall x :: x in e ==> x + minSize <= cp || cp + minSize <= x
    ensures Spaced(cps + [cp], n, minSize)
  {
    forall t | 0 <= t < |cps| ensures cps[t] + minSize <= cp || cp + minSize <= cps[t] {
      assert cps[t] in multiset(cps);
      assert cps[t] in multiset(e);
      assert cps[t] in e;
    }
  }

  lemma StepsStep(qs: seq<seq<Segment>>, ps: seq<int>, cps: seq<int>, costs: seq<real>,
                  qs': seq<seq<Segment>>, ps': seq<int>, cps': seq<int>, costs': seq<real>,
                  k: int, cp: int, l: Segment, r: Segment)
    requires Shaped(qs, ps, cps, costs) && Steps(qs, ps, cps, costs)
    requires Popped(qs[|qs| - 1], k, cp)
    requires qs' == qs + [Splice(qs[|qs| - 1], k, l, r)] && ps' == ps + [k] && cps' == cps + [cp]
    requires costs' == costs + [costs[|costs| - 1] - qs[|qs| - 1][k].gain]
    ensures Shaped(qs', ps', cps', costs') && Steps(qs', ps', cps', costs')
  {
    var m := |qs| - 1;
    var h := qs[m];
    var s := Splice(h, k, l, r);
    SpliceAt(h, k, l, r);
    forall t, u | 0 <= t < |ps'| && u == t + 1
      ensures Step(qs'[t], qs'[u], ps'[t], cps'[t], costs'[t], costs'[u])
    {
      if t == m {
        assert qs'[u] == s && s[k] == l && s[k + 1] == r;
      } else {
        assert Step(qs[t], qs[u], ps[t], cps[t], costs[t], costs[u]);
      }
    }
  }

  lemma AllQueuesInvStep(cost: (int, int) -> real, n: int, minSize: int, jump: int,
                         qs: seq<seq<Segment>>, s: seq<Segment>)
    requires minSize >= 1 && jump >= 1
    requires AllQueuesInv(cost, n, minSize, jump, qs) && QueueInv(cost, s, n, minSize, jump)
    ensures AllQueuesInv(cost, n, minSize, jump, qs + [s])
  {
    var qs' := qs + [s];
    forall t | 0 <= t < |qs'| ensures QueueInv(cost, qs'[t], n, minSize, jump) {
      if t < |qs| {
        assert qs'[t] == qs[t];
      }
    }
  }

  lemma CostsMatchStep(cost: (int, int) -> real, qs: seq<seq<Segment>>, costs: seq<real>,
                       s: seq<Segment>, c: real)
    requires |qs| == |costs|
    requires CostsMatch(cost, qs, costs)
    requires c == QueueCost(cost, s)
    ensures CostsMatch(cost, qs + [s], costs + [c])
  {
    var qs', costs' := qs + [s], costs + [c];
    forall t | 0 <= t < |qs'| ensures costs'[t] == QueueCost(cost, qs'[t]) {
      if t < |qs| {
        assert qs'[t] == qs[t] && costs'[t] == costs[t];
      }
    }
  }

  /** One accepted split extends the history. */
  lemma HistoryStep(cost: (int, int) -> real, n: int, minSize: int, jump: int,
                    qs: seq<seq<Segment>>, ps: seq<int>, cps: seq<int>, costs: seq<real>,
                    h: seq<Segment>, k: int, cp: int, l: Segment, r: Segment)
    requires minSize >= 1 && jump >= 1
    requires History(cost, n, minSize, jump, qs, ps, cps, costs)
    requires h == qs[|qs| - 1] && Popped(h, k, cp)
    requires IsOptimalSplit(l, cost, h[k].start, cp, minSize, jump, cost(h[k].start, cp))
    requires IsOptimalSplit(r, cost, cp, h[k].end, minSize, jump, cost(cp, h[k].end))
    ensures History(cost, n, minSize, jump, qs + [Splice(h, k, l, r)], ps + [k],
                    cps + [cp], costs + [costs[|costs| - 1] - h[k].gain])
  {
    var m := |qs| - 1;
    var s := Splice(h, k, l, r);
    var qs', ps', cps', costs' := qs + [s], ps + [k], cps + [cp], costs + [costs[m] - h[k].gain];
    assert QueueInv(cost, h, n, minSize, jump);
    assert Shaped(qs', ps', cps', costs') && Steps(qs', ps', cps', costs') by {
      StepsStep(qs, ps, cps, costs, qs', ps', cps', costs', k, cp, l, r);
    }
    assert AllQueuesInv(cost, n, minSize, jump, qs') by {
      SpliceOptimal(cost, n, minSize, jump, h, k, l, r);
      AllQueuesInvStep(cost, n, minSize, jump, qs, s);
    }
    assert CostsMatch(cost, qs', costs') by {
      SpliceCost(cost, n, minSize, jump, h, k, l, r);
      CostsMatchStep(cost, qs, costs, s, costs[m] - h[k].gain);
    }
    assert EndsMatch(qs', cps') by {
      EndsMatchStep(qs, cps, h, k, l, r);
    }
    assert Spaced(cps', n, minSize) by {
      SplitPointApart(cost, n, minSize, jump, h, k);
      assert cps[..m] == cps;
      SpacedStep(cps, n, minSize, cp, Ends(h));
    }
  }

  /** The entry the fit pops splits its region, and records the costs of the two halves. */
  lemma PoppedSplit(cost: (int, int) -> real, n: int, minSize: int, jump: int,
                    qs: seq<seq<Segment>>, ps: seq<int>, cps: seq<int>, costs: seq<real>, k: int)
    requires minSize >= 1 && jump >= 1
    requires History(cost, n, minSize, jump, qs, ps, cps, costs)
    requires 0 <= k < |qs[|qs| - 1]| && qs[|qs| - 1][k].Split?
    ensures var s := qs[|qs| - 1][k];
      && 0 <= s.start <= s.cp <= s.end
      && s.lErr == cost(s.start, s.cp) && s.rErr == cost(s.cp, s.end)
  {
    var h := qs[|qs| - 1];
    assert QueueInv(cost, h, n, minSize, jump);
    assert IsOptimalSplit(h[k], cost, h[k].start, h[k].end, minSize, jump, cost(h[k].start, h[k].end));
  }

  /**
   * The two pushes that follow an accepted pop: the optimal splits of the two
   * halves of the popped entry. Queued in its place, they extend the history
   * by one step.
   */
  method PushHalves(cost: (int, int) -> real, n: int, minSize: int, jump: int, minLen: int,
                    ghost qs: seq<seq<Segment>>, ghost ps: seq<int>, ghost cps: seq<int>, ghost costs: seq<real>,
                    h: seq<Segment>, k: int, cp: int) returns (l: Segment, r: Segment)
    requires minSize >= 1 && jump >= 1 && minLen == MinLen(minSize, jump)
    requires History(cost, n, minSize, jump, qs, ps, cps, costs)
    requires h == qs[|qs| - 1] && Popped(h, k, cp)
    ensures IsOptimalSplit(l, cost, h[k].start, cp, minSize, jump, cost(h[k].start, cp))
    ensures IsOptimalSplit(r, cost, cp, h[k].end, minSize, jump, cost(cp, h[k].end))
    ensures History(cost, n, minSize, jump, qs + [Splice(h, k, l, r)], ps + [k],
                    cps + [cp], costs + [costs[|costs| - 1] - h[k].gain])
  {
    var best := h[k];
    assert 0 <= best.start <= cp <= best.end
        && best.lErr == cost(best.start, cp)
        && best.rErr == cost(cp, best.end) by {
      PoppedSplit(cost, n, minSize, jump, qs, ps, cps, costs, k);
    }
    l := MiniOpt(cost, best.start, cp, minLen, minSize, jump, best.lErr);
    r := MiniOpt(cost, cp, best.end, minLen, minSize, jump, best.rErr);
    HistoryStep(cost, n, minSize, jump, qs, ps, cps, costs, h, k, cp, l, r);
  }

  /** Along a history the cost never increases, and it starts at the cost of the whole signal. */
  lemma HistoryCosts(cost: (int, int) -> real, n: int, minSize: int, jump: int,
                     qs: seq<seq<Segment>>, ps: seq<int>, cps: seq<int>, costs: seq<real>)
    requires minSize >= 1 && jump >= 1
    requires History(cost, n, minSize, jump, qs, ps, cps, costs)
    ensures costs[0] == cost(0, n)
    ensures forall t :: 0 <= t < |cps| ==> costs[t + 1] <= costs[t]
  {
    var q := qs[0];
    assert |q| == 1 && QueueInv(cost, q, n, minSize, jump);
    assert q[..0] == [];
    assert QueueCost(cost, q) == QueueCost(cost, []) + cost(q[0].start, q[0].end);
    forall t | 0 <= t < |cps| ensures costs[t + 1] <= costs[t] {
      assert Step(qs[t], qs[t + 1], ps[t], cps[t], costs[t], costs[t + 1]);
    }
  }

  /** `floor(n / minSize)` is at least two when the signal holds two minimal regions. */
  lemma AtLeastTwoRegimes(n: int, minSize: int)
    requires minSize >= 1 && n >= 2 * minSize
    ensures n / minSize >= 2
  {
    var q, r := n / minSize, n % minSize;
    assert n == q * minSize + r;
  }

  /**
   * One accepted split of `fit`: records the change point of the top entry
   * `k` and the cost after it, and replaces the entry by its two halves.
   */
  method Advance(cost: (int, int) -> real, n: int, minSize: int, jump: int, minLen: int,
                 changePoints: array<int>, costArr: array<real>, idx: int,
                 h: seq<Segment>, k: int, cp: int,
                 ghost qs: seq<seq<Segment>>, ghost ps: seq<int>, ghost cps: seq<int>, ghost cs: seq<real>)
    returns (h': seq<Segment>, ghost qs': seq<seq<Segment>>, ghost ps': seq<int>, ghost cps': seq<int>, ghost cs': seq<real>)
    requires minSize >= 1 && jump >= 1 && minLen == MinLen(minSize, jump)
    requires History(cost, n, minSize, jump, qs, ps, cps, cs)
    requires |qs| == idx + 1 && h == qs[idx] && Popped(h, k, cp)
    requires idx < changePoints.Length && idx + 1 < costArr.Length
    requires changePoints[..idx] == cps && costArr[..idx + 1] == cs
    modifies changePoints, costArr
    ensures History(cost, n, minSize, jump, qs', ps', cps', cs')
    ensures |qs'| == |cs'| == idx + 2 && |ps'| == |cps'| == idx + 1 && h' == qs'[idx + 1]
    ensures changePoints[..idx + 1] == cps' && costArr[..idx + 2] == cs'
  {
    var best := h[k];
    changePoints[idx] := cp;
    costArr[idx + 1] := costArr[idx] - best.gain;
    assert changePoints[..idx + 1] == cps + [cp];
    assert costArr[..idx + 2] == cs + [cs[|cs| - 1] - best.gain];
    var left, right := PushHalves(cost, n, minSize, jump, minLen, qs, ps, cps, cs, h, k, cp);
    h' := Splice(h, k, left, right);
    qs', ps', cps', cs' := qs + [h'], ps + [k], cps + [cp], cs + [cs[|cs| - 1] - best.gain];
  }

  /**
   * The loop of `fit`: the change points in the order they are accepted and
   * the cost after each, with the history of queues that produced them. It
   * stops after `floor(n / minSize) - 1` splits, or earlier when the top
   * entry is rejected, in which case every queued entry is.
   */
  method Greedy(cost: (int, int) -> real, n: int, minSize: int, jump: int, minLen: int)
    returns (bkps: seq<int>, costs: seq<real>, ghost qs: seq<seq<Segment>>, ghost ps: seq<int>)
    requires minSize >= 1 && jump >= 1 && minLen == MinLen(minSize, jump) && n >= minLen
    ensures History(cost, n, minSize, jump, qs, ps, bkps, costs)
    ensures |costs| <= n / minSize
    ensures |costs| < n / minSize ==> forall i :: 0 <= i < |qs[|bkps|]| ==> qs[|bkps|][i].Rejected()
  {
    var nr := n;
    var maxNRegimes := nr / minSize;
    AtLeastTwoRegimes(nr, minSize);

    var costArr := new real[maxNRegimes](_ => 0.0);
    var changePoints := new int[maxNRegimes - 1](_ => 0);

    var initCost := cost(0, nr);
    var seg0 := MiniOpt(cost, 0, nr, minLen, minSize, jump, initCost);
    costArr[0] := initCost;

    var heap := [seg0];
    var idx := 0;
    var nRegimes := 2;

    qs := [heap];
    ps := [];
    ghost var cps: seq<int> := [];
    ghost var cs := [initCost];
    HistoryInit(cost, nr, minSize, jump, seg0);

    while nRegimes <= maxNRegimes
      invariant 2 <= nRegimes <= maxNRegimes + 1
      invariant idx == nRegimes - 2
      invariant |qs| == |cs| == idx + 1 && |ps| == |cps| == idx
      invariant heap == qs[idx]
      invariant changePoints[..idx] == cps && costArr[..idx + 1] == cs
      invariant History(cost, nr, minSize, jump, qs, ps, cps, cs)
      decreases maxNRegimes - nRegimes
    {
      var k := Top(heap);
      var best := heap[k];

      if best.Rejected() {
        TopRejectedAllRejected(heap, k);
        break;
      }

      heap, qs, ps, cps, cs := Advance(cost, nr, minSize, jump, minLen, changePoints, costArr, idx,
                                       heap, k, best.cp, qs, ps, cps, cs);
      idx := idx + 1;
      nRegimes := nRegimes + 1;
    }

    bkps, costs := changePoints[..idx], costArr[..idx + 1];
    assert bkps == cps && costs == cs;
  }

  // ---------------------------------------------------------------------
  // The engine object
  // ---------------------------------------------------------------------

  class BinSeg {
    /** The cost object's `eval`, as the engine calls it. */
    const costModule: (int, int) -> real
    const minSize: int
    const jump: int
    const minLen: int
    const nSamples: int

    /** The change points in the order they were accepted. */
    var bkpsVec: seq<int>
    /** `costVec[k]`: the cost of the segmentation with the first `k` change points. */
    var costVec: seq<real>

    /** The queue after each accepted split, and the positions popped. */
    ghost var queues: seq<seq<Segment>>
    ghost var pops: seq<int>

    ghost predicate Valid() {
      && minSize >= 1
      && jump >= 1
      && minLen == MinLen(minSize, jump)
      && nSamples >= minLen
    }

    /** `binSegCpp(cost, nSamples, minSize, jump)` once its checks have passed. */
    constructor (costModule: (int, int) -> real, nSamples: int, minSize: int, jump: int)
      requires minSize >= 1 && jump >= 1 && nSamples >= MinLen(minSize, jump)
      ensures Valid()
      ensures this.costModule == costModule && this.nSamples == nSamples
      ensures this.minSize == minSize && this.jump == jump
      ensures bkpsVec == [] && costVec == []
    {
      this.costModule := costModule;
      this.minSize := minSize;
      this.jump := jump;
      this.nSamples := nSamples;
      this.minLen := MinLen(minSize, jump);
      bkpsVec := [];
      costVec := [];
      queues := [];
      pops := [];
    }

    /** `fit`: greedy binary segmentation of `[0, nSamples)`. */
    method Fit()
      requires Valid()
      modifies this
      ensures History(costModule, nSamples, minSize, jump, queues, pops, bkpsVec, costVec)
      ensures |costVec| == |bkpsVec| + 1 <= nSamples / minSize
      ensures costVec[0] == costModule(0, nSamples)
      ensures forall t :: 0 <= t < |bkpsVec| ==> costVec[t + 1] <= costVec[t]
      ensures forall t :: 0 <= t < |bkpsVec| ==> minSize <= bkpsVec[t] <= nSamples - minSize
      ensures forall s, t :: 0 <= s < t < |bkpsVec| ==>
        bkpsVec[s] + minSize <= bkpsVec[t] || bkpsVec[t] + minSize <= bkpsVec[s]
      ensures |costVec| < nSamples / minSize ==>
        forall i :: 0 <= i < |queues[|bkpsVec|]| ==> queues[|bkpsVec|][i].Rejected()
    {
      var bkps, costs, qs, ps := Greedy(costModule, nSamples, minSize, jump, minLen);
      HistoryCosts(costModule, nSamples, minSize, jump, qs, ps, bkps, costs);
      bkpsVec, costVec, queues, pops := bkps, costs, qs, ps;
    }

    /** `predict`: the change points kept for `penalty`. */
    method Predict(penalty: real) returns (r: Result<seq<int>>)
      requires penalty >= 0.0 ==> 1 <= |costVec| <= |bkpsVec| + 1
      ensures penalty < 0.0 ==> r == Failure(NegativePenalty)
      ensures penalty >= 0.0 ==> r.Success?
      ensures r.Success? ==>
        IsFirstMin(Penalized(costVec, penalty), |r.value|) && r.value == bkpsVec[..|r.value|]
    {
      r := BinSegPred(bkpsVec, costVec, penalty);
    }

    /** `eval`: the cost of `[start, end)`. */
    function Eval(start: int, end: int): real {
      costModule(start, end)
    }
  }

  /**
   * The engine's `eval` answers with the cost object it was created over, on
   * every range that object's `eval` accepts.
   */
  lemma EvalForwards(b: BinSeg, model: CostModel, start: int, end: int)
    requires model.Valid() && b.costModule == model.Evaluator()
    requires model.Defined(start, end)
    ensures b.Eval(start, end) == model.Eval(start, end)
  {
  }

  /**
   * The engine's constructor with its checks, in order: `minSize >= 1`,
   * `jump >= 1`, then enough observations for one split.
   */
  method Create(model: CostModel, nSamples: int, minSize: int, jump: int) returns (r: Result<BinSeg>)
    requires model.Valid()
    ensures minSize < 1 ==> r == Failure(InvalidMinSize)
    ensures minSize >= 1 && jump < 1 ==> r == Failure(InvalidJump)
    ensures minSize >= 1 && jump >= 1 && nSamples < MinLen(minSize, jump) ==>
      r == Failure(TooFewObservations)
    ensures minSize >= 1 && jump >= 1 && nSamples >= MinLen(minSize, jump) ==>
      && r.Success? && fresh(r.value) && r.value.Valid()
      && r.value.costModule == model.Evaluator() && r.value.nSamples == nSamples
      && r.value.minSize == minSize && r.value.jump == jump
      && r.value.bkpsVec == [] && r.value.costVec == []
  {
    if minSize < 1 {
      return Failure(InvalidMinSize);
    }
    if jump < 1 {
      return Failure(InvalidJump);
    }
    var minLen := MinLen(minSize, jump);
    if nSamples < minLen {
      return Failure(TooFewObservations);
    }
    var engine := new BinSeg(model.Evaluator(), nSamples, minSize, jump);
    return Success(engine);
  }
}
