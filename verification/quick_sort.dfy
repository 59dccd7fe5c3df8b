/** Quick sort: partition around the first sample of the range, then sort both sides. */
module QuickSort {
  import opened SortSpec
  import opened SampleBuffer

  /** A property of every element of a range survives any rearrangement confined to that
      range. */
  lemma RangeKeepsBound(x: seq<int>, y: seq<int>, lo: int, hi: int, P: int -> bool)
    requires |x| == |y| && 0 <= lo <= hi <= |x|
    requires multiset(x) == multiset(y)
    requires forall k :: 0 <= k < |x| && (k < lo || hi <= k) ==> y[k] == x[k]
    requires forall k :: lo <= k < hi ==> P(x[k])
    ensures forall k :: lo <= k < hi ==> P(y[k])
  {
    assert x[..lo] == y[..lo];
    assert x[hi..] == y[hi..];
    PermutationOfRange(x, y, lo, hi);
    forall k | 0 <= k < hi - lo ensures P(x[lo..hi][k]) {
      assert x[lo..hi][k] == x[lo + k];
    }
    PermutationKeepsBound(x[lo..hi], y[lo..hi], P);
    forall k | lo <= k < hi ensures P(y[k]) {
      assert y[k] == y[lo..hi][k - lo];
    }
  }

  /** Sorting both sides of a partitioned range, each in place, sorts the whole range. */
  lemma SortedAroundPivot(x1: seq<int>, x2: seq<int>, x3: seq<int>, low: int, p: int, high: int)
    requires |x1| == |x2| == |x3| && 0 <= low <= p <= high < |x1|
    requires forall k :: low <= k < p ==> x1[k] <= x1[p]
    requires forall k :: p < k <= high ==> x1[k] > x1[p]
    requires multiset(x2) == multiset(x1) && SortedBetween(x2, low, p - 1)
    requires forall k :: 0 <= k < |x1| && (k < low || p - 1 < k) ==> x2[k] == x1[k]
    requires multiset(x3) == multiset(x2) && SortedBetween(x3, p + 1, high)
    requires forall k :: 0 <= k < |x1| && (k < p + 1 || high < k) ==> x3[k] == x2[k]
    ensures SortedBetween(x3, low, high)
  {
    var pivot := x1[p];
    RangeKeepsBound(x1, x2, low, p, v => v <= pivot);
    RangeKeepsBound(x2, x3, p + 1, high + 1, v => v > pivot);
  }

  /** The left scan of `partition`: from i, skips the samples at most the pivot, stopping at
      `high` at the latest. One comparison is counted per sample skipped. */
  method ScanUp(s: Samples, i: int, high: int, pivot: int) returns (i': int)
    requires s.Valid() && 0 <= i <= high < SampleSize
    modifies s`comparisons
    ensures i <= i' <= high
    ensures forall k :: i <= k < i' ==> s.data[k] <= pivot
    ensures i' < high ==> s.data[i'] > pivot
    ensures s.comparisons == old(s.comparisons) + (i' - i)
  {
    i' := i;
    while i' < high && pivot >= s.data[i']
      invariant i <= i' <= high
      invariant forall k :: i <= k < i' ==> s.data[k] <= pivot
      invariant s.comparisons == old(s.comparisons) + (i' - i)
    {
      s.comparisons := s.comparisons + 1;
      i' := i' + 1;
    }
  }

  /** The right scan of `partition`: from j, skips the samples above the pivot, stopping at
      `low` at the latest. One comparison is counted per sample skipped. */
  method ScanDown(s: Samples, j: int, low: int, pivot: int) returns (j': int)
    requires s.Valid() && 0 <= low <= j < SampleSize
    modifies s`comparisons
    ensures low <= j' <= j
    ensures forall k :: j' < k <= j ==> s.data[k] > pivot
    ensures j' > low ==> s.data[j'] <= pivot
    ensures s.comparisons == old(s.comparisons) + (j - j')
  {
    j' := j;
    while j' > low && pivot < s.data[j']
      invariant low <= j' <= j
      invariant forall k :: j' < k <= j ==> s.data[k] > pivot
      invariant s.comparisons == old(s.comparisons) + (j - j')
    {
      s.comparisons := s.comparisons + 1;
      j' := j' - 1;
    }
  }

  /** `partition`: with the first sample of low .. high as pivot, rearranges that range so the
      pivot lands at the returned position p, everything before it at most the pivot and
      everything after it larger. Nothing outside the range moves. */
  method Partition(s: Samples, low: int, high: int, cfg: Config) returns (p: int)
    requires s.Valid() && 0 <= low <= high < SampleSize
    modifies s`comparisons, s`swaps, s`frames, s.data
    ensures low <= p <= high
    ensures s.data[p] == old(s.data[low])
    ensures forall k :: low <= k < p ==> s.data[k] <= s.data[p]
    ensures forall k :: p < k <= high ==> s.data[k] > s.data[p]
    ensures forall k :: 0 <= k < SampleSize && (k < low || high < k) ==> s.data[k] == old(s.data[k])
    ensures multiset(s.data[..]) == multiset(old(s.data[..]))
    ensures old(s.swaps) + 1 <= s.swaps
  {
    var a := s.data;
    var pivot := a[low];
    var i, j := low, high;
    while i < j
      invariant low <= i <= high && low <= j <= high
      invariant a[low] == pivot
      invariant forall k :: low <= k < i ==> a[k] <= pivot
      invariant forall k :: j < k <= high ==> a[k] > pivot
      invariant i < j ==> a[i] <= pivot
      invariant i >= j ==> j == low || a[j] <= pivot
      invariant forall k :: 0 <= k < SampleSize && (k < low || high < k) ==> a[k] == old(a[k])
      invariant multiset(a[..]) == multiset(old(a[..]))
      invariant old(s.swaps) <= s.swaps
      decreases j - i
    {
      i := ScanUp(s, i, high, pivot);
      j := ScanDown(s, j, low, pivot);
      if i < j {
        s.Swap(i, j);
      }
      s.Show(i, j, pivot, cfg);
    }
    s.Swap(low, j);
    s.Show(low, j, pivot, cfg);
    p := j;
  }

  /** `sample_sort_quick_recursive`: sorts positions low .. high in place, rearranging only
      that range. */
  method QuickSortRange(s: Samples, low: int, high: int, cfg: Config)
    requires s.Valid() && 0 <= low <= SampleSize && -1 <= high < SampleSize
    modifies s`comparisons, s`swaps, s`frames, s.data
    ensures SortedBetween(s.data[..], low, high)
    ensures forall k :: 0 <= k < SampleSize && (k < low || high < k) ==> s.data[k] == old(s.data[k])
    ensures multiset(s.data[..]) == multiset(old(s.data[..]))
    ensures old(s.swaps) <= s.swaps
    decreases high - low
  {
    if low < high {
      var p := Partition(s, low, high, cfg);
      ghost var x1 := s.data[..];
      QuickSortRange(s, low, p - 1, cfg);
      ghost var x2 := s.data[..];
      QuickSortRange(s, p + 1, high, cfg);
      SortedAroundPivot(x1, x2, s.data[..], low, p, high);
      s.Show(low, high, p, cfg);
    }
  }

  /** `sample_sort_quick`: sorts positions low .. high and draws the final frame. */
  method SortQuick(s: Samples, low: int, high: int, cfg: Config)
    requires s.Valid() && 0 <= low <= SampleSize && -1 <= high < SampleSize
    modifies s`comparisons, s`swaps, s`frames, s.data
    ensures SortedBetween(s.data[..], low, high)
    ensures forall k :: 0 <= k < SampleSize && (k < low || high < k) ==> s.data[k] == old(s.data[k])
    ensures multiset(s.data[..]) == multiset(old(s.data[..]))
    ensures low == 0 && high == SampleSize - 1 ==> Sorted(s.data[..])
  {
    QuickSortRange(s, low, high, cfg);
    s.Show(-1, -1, -1, cfg);
  }
}
