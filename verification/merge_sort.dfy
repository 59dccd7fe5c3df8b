/** Merge sort: sort both halves of a range, then merge them through two local copies. */
module MergeSort {
  import opened SortSpec
  import opened SampleBuffer

  /** The sequence `merge` writes for the runs L and R: repeatedly the smaller head, the left
      run's head when the two heads are equal. */
  function Merged(L: seq<int>, R: seq<int>): (r: seq<int>)
    ensures |r| == |L| + |R|
    decreases |L| + |R|
  {
    if L == [] then R
    else if R == [] then L
    else if L[0] <= R[0] then [L[0]] + Merged(L[1..], R)
    else [R[0]] + Merged(L, R[1..])
  }

  /** Merging loses and invents nothing. */
  lemma {:induction false} MergedPermutes(L: seq<int>, R: seq<int>)
    ensures multiset(Merged(L, R)) == multiset(L) + multiset(R)
    decreases |L| + |R|
  {
    if L != [] && R != [] {
      if L[0] <= R[0] {
        MergedPermutes(L[1..], R);
        assert Merged(L, R) == [L[0]] + Merged(L[1..], R);
        assert L == [L[0]] + L[1..];
        assert multiset(L) == multiset{L[0]} + multiset(L[1..]);
      } else {
        MergedPermutes(L, R[1..]);
        assert Merged(L, R) == [R[0]] + Merged(L, R[1..]);
        assert R == [R[0]] + R[1..];
        assert multiset(R) == multiset{R[0]} + multiset(R[1..]);
      }
    }
  }

  /** The merge of two sorted runs is sorted. */
  lemma {:induction false} MergedSorted(L: seq<int>, R: seq<int>)
    requires Sorted(L) && Sorted(R)
    ensures Sorted(Merged(L, R))
    decreases |L| + |R|
  {
    if L != [] && R != [] {
      if L[0] <= R[0] {
        SortedTail(L);
        MergedSorted(L[1..], R);
        BelowMerge(L[0], L[1..], R);
        SortedCons(L[0], Merged(L[1..], R));
      } else {
        SortedTail(R);
        MergedSorted(L, R[1..]);
        BelowMerge(R[0], L, R[1..]);
        SortedCons(R[0], Merged(L, R[1..]));
      }
    }
  }

  /** A value at most every element of both runs is at most every element of their merge. */
  lemma BelowMerge(h: int, L: seq<int>, R: seq<int>)
    requires forall k :: 0 <= k < |L| ==> h <= L[k]
    requires forall k :: 0 <= k < |R| ==> h <= R[k]
    ensures forall k :: 0 <= k < |Merged(L, R)| ==> h <= Merged(L, R)[k]
  {
    MergedPermutes(L, R);
    forall k | 0 <= k < |L + R| ensures h <= (L + R)[k] {
      if k < |L| {
        assert (L + R)[k] == L[k];
      } else {
        assert (L + R)[k] == R[k - |L|];
      }
    }
    PermutationKeepsBound(L + R, Merged(L, R), v => h <= v);
  }

  /** Putting a value at most every element in front of a sorted sequence keeps it sorted. */
  lemma SortedCons(h: int, rest: seq<int>)
    requires Sorted(rest)
    requires forall k :: 0 <= k < |rest| ==> h <= rest[k]
    ensures Sorted([h] + rest)
  {
    var x := [h] + rest;
    forall p, q | 0 <= p < q < |x| ensures x[p] <= x[q] {
      assert x[q] == rest[q - 1];
      if p > 0 {
        assert x[p] == rest[p - 1];
      }
    }
  }

  /** Ties go to the left run: when nothing in L exceeds anything in R, merging is plain
      concatenation, equal values included. */
  lemma {:induction false} MergedOfOrderedRuns(L: seq<int>, R: seq<int>)
    requires forall p, q :: 0 <= p < |L| && 0 <= q < |R| ==> L[p] <= R[q]
    ensures Merged(L, R) == L + R
    decreases |L|
  {
    if L != [] && R != [] {
      assert L[0] <= R[0];
      MergedOfOrderedRuns(L[1..], R);
      assert L + R == [L[0]] + (L[1..] + R);
    }
  }

  /** One step of `merge` that writes the left run's head: it is the next element of the
      merge, and the rest of the merge is the merge of what is left. */
  lemma TakeLeft(Ls: seq<int>, Rs: seq<int>, M: seq<int>, i: int, j: int, d: int)
    requires 0 <= i < |Ls| && 0 <= j <= |Rs| && 0 <= d <= |M|
    requires Merged(Ls[i..], Rs[j..]) == M[d..]
    requires j == |Rs| || Ls[i] <= Rs[j]
    ensures d < |M| && M[d] == Ls[i] && Merged(Ls[i + 1..], Rs[j..]) == M[d + 1..]
  {
    assert Ls[i..][1..] == Ls[i + 1..];
    assert M[d..][1..] == M[d + 1..];
  }

  /** One step of `merge` that writes the right run's head. */
  lemma TakeRight(Ls: seq<int>, Rs: seq<int>, M: seq<int>, i: int, j: int, d: int)
    requires 0 <= i <= |Ls| && 0 <= j < |Rs| && 0 <= d <= |M|
    requires Merged(Ls[i..], Rs[j..]) == M[d..]
    requires i == |Ls| || Ls[i] > Rs[j]
    ensures d < |M| && M[d] == Rs[j] && Merged(Ls[i..], Rs[j + 1..]) == M[d + 1..]
  {
    assert Rs[j..][1..] == Rs[j + 1..];
    assert M[d..][1..] == M[d + 1..];
  }

  /** A local copy of the n samples from position `from` on, as `merge` makes of each run. */
  method CopyRun(a: array<int>, from: int, n: int) returns (run: array<int>)
    requires 0 <= from && 0 <= n && from + n <= a.Length
    ensures fresh(run) && run[..] == a[from..from + n]
  {
    run := new int[n];
    for t := 0 to n
      invariant forall u :: 0 <= u < t ==> run[u] == a[from + u]
    {
      run[t] := a[from + t];
    }
  }

  /** One iteration of the first loop of `merge`: writes the smaller head at position
      l + i + j, the left one on ties, and advances past it. */
  method MergeStep(s: Samples, L: array<int>, R: array<int>, ghost Ls: seq<int>, ghost Rs: seq<int>,
                   ghost M: seq<int>, i: int, j: int, l: int, m: int, r: int, cfg: Config)
    returns (i': int, j': int)
    requires s.Valid() && 0 <= l && l + |M| <= SampleSize && |M| == |Ls| + |Rs|
    requires L != s.data && R != s.data && L[..] == Ls && R[..] == Rs
    requires 0 <= i < |Ls| && 0 <= j < |Rs| && Merged(Ls[i..], Rs[j..]) == M[i + j..]
    modifies s`comparisons, s`swaps, s`frames, s.data
    ensures (i' == i + 1 && j' == j) || (i' == i && j' == j + 1)
    ensures Merged(Ls[i'..], Rs[j'..]) == M[i' + j'..]
    ensures s.data[l + i + j] == M[i + j]
    ensures forall t :: 0 <= t < SampleSize && t != l + i + j ==> s.data[t] == old(s.data[t])
    ensures s.comparisons == old(s.comparisons) + 1 && s.swaps == old(s.swaps) + 1
  {
    s.comparisons := s.comparisons + 1;
    if L[i] <= R[j] {
      TakeLeft(Ls, Rs, M, i, j, i + j);
      s.data[l + i + j] := L[i];
      i', j' := i + 1, j;
    } else {
      TakeRight(Ls, Rs, M, i, j, i + j);
      s.data[l + i + j] := R[j];
      i', j' := i, j + 1;
    }
    s.swaps := s.swaps + 1;
    s.Show(l, r, m, cfg);
  }

  /** The first loop of `merge`: while both runs have samples left, writes the smaller head
      (the left one on ties) at the next position from l on, counting one comparison and one
      swap per sample written. It stops with one run used up. Ls and Rs are the runs'
      contents. */
  method MergeHeads(s: Samples, L: array<int>, R: array<int>, ghost Ls: seq<int>, ghost Rs: seq<int>,
                    l: int, m: int, r: int, cfg: Config)
    returns (i: int, j: int)
    requires s.Valid() && 0 <= l <= m <= r < SampleSize
    requires L != s.data && R != s.data && L[..] == Ls && R[..] == Rs
    requires |Ls| == m - l + 1 && |Rs| == r - m
    modifies s`comparisons, s`swaps, s`frames, s.data
    ensures 0 <= i <= |Ls| && 0 <= j <= |Rs|
    ensures i == |Ls| || j == |Rs|
    ensures i < |Ls| || j < |Rs|
    ensures Merged(Ls[i..], Rs[j..]) == Merged(Ls, Rs)[i + j..]
    ensures forall t :: l <= t < l + i + j ==> s.data[t] == Merged(Ls, Rs)[t - l]
    ensures forall t :: 0 <= t < SampleSize && !(l <= t < l + i + j) ==> s.data[t] == old(s.data[t])
    ensures s.comparisons == old(s.comparisons) + i + j
    ensures s.swaps == old(s.swaps) + i + j
  {
    var a := s.data;
    ghost var M := Merged(Ls, Rs);
    i, j := 0, 0;
    var k := l;
    while i < L.Length && j < R.Length
      invariant 0 <= i <= |Ls| && 0 <= j <= |Rs| && k == l + i + j
      invariant i < |Ls| || j < |Rs|
      invariant Merged(Ls[i..], Rs[j..]) == M[i + j..]
      invariant forall t :: l <= t < k ==> a[t] == M[t - l]
      invariant forall t :: 0 <= t < SampleSize && !(l <= t < k) ==> a[t] == old(a[t])
      invariant s.comparisons == old(s.comparisons) + i + j
      invariant s.swaps == old(s.swaps) + i + j
    {
      i, j := MergeStep(s, L, R, Ls, Rs, M, i, j, l, m, r, cfg);
      k := k + 1;
    }
  }

  /** Once one run is used up, the rest of the merge is what is left of the other run. */
  lemma MergedRest(Ls: seq<int>, Rs: seq<int>, M: seq<int>, i: int, j: int)
    requires 0 <= i <= |Ls| && 0 <= j <= |Rs| && |M| == |Ls| + |Rs|
    requires i == |Ls| || j == |Rs|
    requires Merged(Ls[i..], Rs[j..]) == M[i + j..]
    ensures forall t :: i + j <= t < |M| ==> M[t] == if i < |Ls| then Ls[t - j] else Rs[t - i]
  {
    if i < |Ls| {
      assert Rs[j..] == [];
      forall t | i + j <= t < |M| ensures M[t] == Ls[t - j] {
        assert M[t] == M[i + j..][t - i - j];
      }
    } else {
      assert Ls[i..] == [];
      forall t | i + j <= t < |M| ensures M[t] == Rs[t - i] {
        assert M[t] == M[i + j..][t - i - j];
      }
    }
  }

  /** The trailing loops of `merge`: writes what is left of one run (whose contents are
      `src`), from index i on, at the positions from k on, one swap per sample. */
  method CopyRest(s: Samples, run: array<int>, ghost src: seq<int>, i: int, k: int,
                  l: int, m: int, r: int, cfg: Config)
    requires s.Valid() && run != s.data && run[..] == src
    requires 0 <= i <= |src| && 0 <= k && k + (|src| - i) <= SampleSize
    modifies s`swaps, s`frames, s.data
    ensures forall t :: k <= t < k + |src| - i ==> s.data[t] == src[i + t - k]
    ensures forall t :: 0 <= t < SampleSize && !(k <= t < k + |src| - i) ==> s.data[t] == old(s.data[t])
    ensures s.swaps == old(s.swaps) + (|src| - i)
  {
    var a := s.data;
    var i', k' := i, k;
    while i' < run.Length
      invariant i <= i' <= |src| && k' == k + (i' - i)
      invariant forall t :: k <= t < k' ==> a[t] == src[i + t - k]
      invariant forall t :: 0 <= t < SampleSize && !(k <= t < k') ==> a[t] == old(a[t])
      invariant s.swaps == old(s.swaps) + (i' - i)
    {
      a[k'] := run[i'];
      s.swaps := s.swaps + 1;
      i' := i' + 1;
      k' := k' + 1;
      s.Show(l, r, m, cfg);
    }
  }

  /** The two trailing loops of `merge`: once one run is used up at i + j samples written,
      writes the rest of the other run, which completes the merge. */
  method MergeTail(s: Samples, L: array<int>, R: array<int>, ghost Ls: seq<int>, ghost Rs: seq<int>,
                   ghost M: seq<int>, i: int, j: int, l: int, m: int, r: int, cfg: Config)
    requires s.Valid() && L != s.data && R != s.data && L[..] == Ls && R[..] == Rs
    requires 0 <= l && l + |M| == r + 1 <= SampleSize && |M| == |Ls| + |Rs|
    requires 0 <= i <= |Ls| && 0 <= j <= |Rs| && (i == |Ls| || j == |Rs|)
    requires Merged(Ls[i..], Rs[j..]) == M[i + j..]
    modifies s`swaps, s`frames, s.data
    ensures forall t :: l + i + j <= t <= r ==> s.data[t] == M[t - l]
    ensures forall t :: 0 <= t < SampleSize && !(l + i + j <= t <= r) ==> s.data[t] == old(s.data[t])
    ensures s.swaps == old(s.swaps) + (|M| - i - j)
  {
    MergedRest(Ls, Rs, M, i, j);
    var k := l + i + j;
    CopyRest(s, L, Ls, i, k, l, m, r, cfg);
    CopyRest(s, R, Rs, j, k + (L.Length - i), l, m, r, cfg);
  }

  /** `merge`: copies the runs l .. m and m+1 .. r into local buffers and writes their merge
      back over l .. r, counting one comparison per step where both runs still have samples
      and one swap per sample written. */
  method Merge(s: Samples, l: int, m: int, r: int, cfg: Config)
    requires s.Valid() && 0 <= l <= m <= r < SampleSize
    modifies s`comparisons, s`swaps, s`frames, s.data
    ensures s.data[l..r + 1] == Merged(old(s.data[l..m + 1]), old(s.data[m + 1..r + 1]))
    ensures forall k :: 0 <= k < SampleSize && (k < l || r < k) ==> s.data[k] == old(s.data[k])
    ensures s.swaps == old(s.swaps) + (r - l + 1)
    ensures s.comparisons - old(s.comparisons) <= r - l
    ensures m - l + 1 <= s.comparisons - old(s.comparisons) || r - m <= s.comparisons - old(s.comparisons)
  {
    var L := CopyRun(s.data, l, m - l + 1);
    var R := CopyRun(s.data, m + 1, r - m);
    ghost var Ls, Rs := L[..], R[..];
    ghost var M := Merged(Ls, Rs);
    var i, j := MergeHeads(s, L, R, Ls, Rs, l, m, r, cfg);
    ghost var mid := s.data[..];
    MergeTail(s, L, R, Ls, Rs, M, i, j, l, m, r, cfg);
    forall t | l <= t <= r ensures s.data[t] == M[t - l] {
      if t < l + i + j {
        assert s.data[t] == mid[t];
      }
    }
    assert s.data[l..r + 1] == M;
  }

  /** A range of a sequence in order gives a sorted slice. */
  lemma SliceOfSortedRange(x: seq<int>, lo: int, hi: int)
    requires 0 <= lo <= hi + 1 <= |x| && SortedBetween(x, lo, hi)
    ensures Sorted(x[lo..hi + 1])
  {
    var z := x[lo..hi + 1];
    forall p, q | 0 <= p < q < |z| ensures z[p] <= z[q] {
      assert z[p] == x[lo + p] && z[q] == x[lo + q];
    }
  }

  /** A sorted slice gives a range in order. */
  lemma RangeOfSortedSlice(x: seq<int>, lo: int, hi: int)
    requires 0 <= lo <= hi + 1 <= |x| && Sorted(x[lo..hi + 1])
    ensures SortedBetween(x, lo, hi)
  {
    var z := x[lo..hi + 1];
    forall p, q | lo <= p < q <= hi ensures x[p] <= x[q] {
      assert x[p] == z[p - lo] && x[q] == z[q - lo];
    }
  }

  /** Writing the merge of two adjacent runs over them keeps the buffer's multiset. */
  lemma MergeKeepsSamples(x: seq<int>, y: seq<int>, l: int, m: int, r: int)
    requires |x| == |y| && 0 <= l <= m <= r < |x|
    requires y[l..r + 1] == Merged(x[l..m + 1], x[m + 1..r + 1])
    requires forall k :: 0 <= k < |x| && (k < l || r < k) ==> y[k] == x[k]
    ensures multiset(y) == multiset(x)
  {
    SameOutside(x, y, l, r + 1);
    MergeKeepsRuns(x, y, l, m, r);
  }

  /** The same, for a buffer whose parts before and after the runs are unchanged. */
  lemma MergeKeepsRuns(x: seq<int>, y: seq<int>, l: int, m: int, r: int)
    requires |x| == |y| && 0 <= l <= m <= r < |x|
    requires y[l..r + 1] == Merged(x[l..m + 1], x[m + 1..r + 1])
    requires x[..l] == y[..l] && x[r + 1..] == y[r + 1..]
    ensures multiset(y) == multiset(x)
  {
    AdjacentRuns(x, l, m, r);
    MergedPermutes(x[l..m + 1], x[m + 1..r + 1]);
    PermutationOfRange(x, y, l, r + 1);
  }

  /** Two adjacent runs together hold what their union holds. */
  lemma AdjacentRuns(x: seq<int>, l: int, m: int, r: int)
    requires 0 <= l <= m <= r < |x|
    ensures multiset(x[l..r + 1]) == multiset(x[l..m + 1]) + multiset(x[m + 1..r + 1])
  {
    assert x[l..r + 1] == x[l..m + 1] + x[m + 1..r + 1];
  }

  /** Sequences that agree outside [lo, hi) have the same parts before and after it. */
  lemma SameOutside(x: seq<int>, y: seq<int>, lo: int, hi: int)
    requires |x| == |y| && 0 <= lo <= hi <= |x|
    requires forall k :: 0 <= k < |x| && (k < lo || hi <= k) ==> y[k] == x[k]
    ensures x[..lo] == y[..lo] && x[hi..] == y[hi..]
  {
    assert forall k :: 0 <= k < lo ==> x[..lo][k] == y[..lo][k];
    assert forall k :: 0 <= k < |x| - hi ==> x[hi..][k] == y[hi..][k];
  }

  /** Writing the merge of two adjacent sorted runs over them sorts their union. */
  lemma MergeSortsRange(x: seq<int>, y: seq<int>, l: int, m: int, r: int)
    requires |x| == |y| && 0 <= l <= m <= r < |x|
    requires SortedBetween(x, l, m) && SortedBetween(x, m + 1, r)
    requires y[l..r + 1] == Merged(x[l..m + 1], x[m + 1..r + 1])
    ensures SortedBetween(y, l, r)
  {
    SliceOfSortedRange(x, l, m);
    SliceOfSortedRange(x, m + 1, r);
    MergedSorted(x[l..m + 1], x[m + 1..r + 1]);
    RangeOfSortedSlice(y, l, r);
  }

  /** `sample_sort_merge_recursive`: sorts positions l .. r in place, rearranging only that
      range. The midpoint `(l + r) >> 1` is the floor of the half, which Dafny's division
      gives for the non-negative sums occurring here. */
  method MergeSortRange(s: Samples, l: int, r: int, cfg: Config)
    requires s.Valid() && 0 <= l <= SampleSize && -1 <= r < SampleSize
    modifies s`comparisons, s`swaps, s`frames, s.data
    ensures SortedBetween(s.data[..], l, r)
    ensures forall k :: 0 <= k < SampleSize && (k < l || r < k) ==> s.data[k] == old(s.data[k])
    ensures multiset(s.data[..]) == multiset(old(s.data[..]))
    ensures old(s.swaps) <= s.swaps
    decreases r - l
  {
    if l < r {
      var m := (l + r) / 2;
      MergeSortRange(s, l, m, cfg);
      MergeSortRange(s, m + 1, r, cfg);
      ghost var x := s.data[..];
      Merge(s, l, m, r, cfg);
      MergeKeepsSamples(x, s.data[..], l, m, r);
      MergeSortsRange(x, s.data[..], l, m, r);
    }
  }

  /** `sample_sort_merge`: sorts positions l .. r and draws the final frame. */
  method SortMerge(s: Samples, l: int, r: int, cfg: Config)
    requires s.Valid() && 0 <= l <= SampleSize && -1 <= r < SampleSize
    modifies s`comparisons, s`swaps, s`frames, s.data
    ensures SortedBetween(s.data[..], l, r)
    ensures forall k :: 0 <= k < SampleSize && (k < l || r < k) ==> s.data[k] == old(s.data[k])
    ensures multiset(s.data[..]) == multiset(old(s.data[..]))
    ensures l == 0 && r == SampleSize - 1 ==> Sorted(s.data[..])
  {
    MergeSortRange(s, l, r, cfg);
    s.Show(-1, -1, -1, cfg);
  }
}
