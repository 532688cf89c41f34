/**
 * The median that `arma::median` computes, over exact reals: the middle
 * element of the sorted values, or the mean of the two middle elements when
 * their number is even. Sorting is specified by insertion sort.
 */
module MedianStats {

  predicate Sorted(s: seq<real>) {
    forall i, j :: 0 <= i < j < |s| ==> s[i] <= s[j]
  }

  function Insert(x: real, s: seq<real>): seq<real> {
    if |s| == 0 || x <= s[0] then [x] + s else [s[0]] + Insert(x, s[1..])
  }

  function Sort(s: seq<real>): seq<real> {
    if |s| == 0 then [] else Insert(s[0], Sort(s[1..]))
  }

  lemma {:induction false} InsertMultiset(x: real, s: seq<real>)
    ensures multiset(Insert(x, s)) == multiset(s) + multiset{x}
  {
    if |s| > 0 && x > s[0] {
      InsertMultiset(x, s[1..]);
      assert s == [s[0]] + s[1..];
    }
  }

  /** A lower bound of `x` and of every element of `s` bounds every element of the insertion. */
  lemma {:induction false} InsertLowerBound(x: real, s: seq<real>, b: real)
    requires b <= x
    requires forall i :: 0 <= i < |s| ==> b <= s[i]
    ensures forall k :: 0 <= k < |Insert(x, s)| ==> b <= Insert(x, s)[k]
  {
    if |s| > 0 && x > s[0] {
      InsertLowerBound(x, s[1..], b);
    }
  }

  lemma {:induction false} InsertFacts(x: real, s: seq<real>)
    requires Sorted(s)
    ensures Sorted(Insert(x, s))
    ensures multiset(Insert(x, s)) == multiset(s) + multiset{x}
  {
    InsertMultiset(x, s);
    if |s| > 0 && x > s[0] {
      InsertFacts(x, s[1..]);
      InsertLowerBound(x, s[1..], s[0]);
    }
  }

  /** Sorting yields a sorted permutation of its input. */
  lemma {:induction false} SortFacts(s: seq<real>)
    ensures Sorted(Sort(s))
    ensures multiset(Sort(s)) == multiset(s)
    ensures |Sort(s)| == |s|
  {
    if |s| > 0 {
      SortFacts(s[1..]);
      InsertFacts(s[0], Sort(s[1..]));
      assert s == [s[0]] + s[1..];
      assert |Sort(s)| == |multiset(Sort(s))| == |multiset(s)| == |s|;
    }
  }

  /** `arma::median` of a non-empty vector. */
  function Median(s: seq<real>): real
    requires |s| > 0
  {
    SortFacts(s);
    var t := Sort(s);
    var n := |t|;
    if n % 2 == 1 then t[n / 2] else (t[n / 2 - 1] + t[n / 2]) / 2.0
  }

  /** The median of values that are all equal is that value. */
  lemma MedianOfConstant(s: seq<real>, v: real)
    requires |s| > 0
    requires forall i :: 0 <= i < |s| ==> s[i] == v
    ensures Median(s) == v
  {
    SortFacts(s);
    var t := Sort(s);
    forall i | 0 <= i < |t| ensures t[i] == v {
      assert t[i] in multiset(t);
      assert t[i] in multiset(s);
    }
  }

  /** The median lies between the smallest and the largest value. */
  lemma MedianBounds(s: seq<real>, lo: real, hi: real)
    requires |s| > 0
    requires forall i :: 0 <= i < |s| ==> lo <= s[i] <= hi
    ensures lo <= Median(s) <= hi
  {
    SortFacts(s);
    var t := Sort(s);
    forall i | 0 <= i < |t| ensures lo <= t[i] <= hi {
      assert t[i] in multiset(t);
      assert t[i] in multiset(s);
    }
  }
}
