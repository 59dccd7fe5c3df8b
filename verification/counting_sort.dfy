/** Counting sort: tally each value, turn the tallies into bucket ends, place every sample
    just before the placed part of its bucket, and copy the output back. The values must lie
    in 0 .. SampleSize, since each one indexes the count array directly. */
module CountingSort {
  import opened SortSpec
  import opened SampleBuffer
  import opened Buckets

  /** Every sample is a valid index of the count array. */
  ghost predicate Countable(s: seq<int>) {
    forall k :: 0 <= k < |s| ==> 0 <= s[k] <= SampleSize
  }

  /** For values in range, ordering by key is ordering by value. */
  lemma KeySortedValues(y: seq<int>)
    requires Countable(y) && KeySorted(y, Value)
    ensures Sorted(y)
  {
    forall p, q | 0 <= p < q < |y| ensures y[p] <= y[q] {
      assert Digit(y[p], Value) <= Digit(y[q], Value);
    }
  }

  /** Distributing values in range into one bucket per value sorts them. */
  lemma ValueBucketsSorted(x: seq<int>, y: seq<int>)
    requires Countable(x)
    requires y == Bucketed(x, Value, Base(Value))
    ensures multiset(y) == multiset(x)
    ensures Sorted(y)
  {
    BucketedPermutes(x, Value);
    BucketedSortedByKey(x, Value, Base(Value));
    PermutationKeepsBound(x, y, v => 0 <= v <= SampleSize);
    KeySortedValues(y);
  }

  /** Once every sample is placed, the output is the samples sorted. */
  lemma PlacedValuesSorted(out: seq<int>, count: seq<int>, x: seq<int>)
    requires Countable(x) && |count| == Base(Value)
    requires PlacedUpTo(out, count, x, |x|, Starts(x, Value), Ends(x, Value))
    ensures Sorted(out) && multiset(out) == multiset(x)
  {
    PlacedUpToAll(out, count, x);
    ValueBucketsSorted(x, out);
  }

  /** The tally loop: one count per sample, one comparison and one frame each. */
  method TallyValues(s: Samples, count: array<int>, cfg: Config)
    requires s.Valid() && count.Length == SampleSize + 1 && count != s.data
    requires forall b :: 0 <= b < count.Length ==> count[b] == 0
    requires forall k :: 0 <= k < SampleSize ==> 0 <= s.data[k] <= SampleSize
    modifies count, s`comparisons, s`frames
    ensures Tallied(count[..], s.data[..], Value)
    ensures s.comparisons == old(s.comparisons) + SampleSize
  {
    for i := 0 to SampleSize
      invariant forall b :: 0 <= b < count.Length ==> count[b] == |Select(s.data[..], Value, b, 0, i)|
      invariant s.comparisons == old(s.comparisons) + i
    {
      var v := s.data[i];
      assert Digit(v, Value) == v;
      count[v] := count[v] + 1;
      s.comparisons := s.comparisons + 1;
      s.Show(i, -1, -1, cfg);
    }
  }

  /** One step of the forward placement loop: sample i goes into the last free slot of its
      value's bucket, and the samples up to position i are then all placed. */
  method PlaceValue(s: Samples, count: array<int>, output: array<int>, i: int,
                    ghost x: seq<int>, ghost starts: seq<int>, ghost ends: seq<int>, cfg: Config)
    requires s.Valid() && count.Length == SampleSize + 1 && output.Length == SampleSize
    requires count != s.data && output != s.data && count != output
    requires s.data[..] == x && 0 <= i < SampleSize && 0 <= x[i] <= SampleSize
    requires Apart(starts, ends, x, Value)
    requires PlacedUpTo(output[..], count[..], x, i, starts, ends)
    modifies count, output, s`swaps, s`frames
    ensures PlacedUpTo(output[..], count[..], x, i + 1, starts, ends)
    ensures s.swaps == old(s.swaps) + 1
  {
    ghost var out0, count0 := output[..], count[..];
    var v := s.data[i];
    assert 0 < count0[v] <= |out0| by {
      SlotForward(out0, count0, x, i, starts, ends);
    }
    PutBelow(output, count, v, v);
    s.swaps := s.swaps + 1;
    s.Show(-1, i, -1, cfg);
    PlaceForward(out0, count0, x, i, starts, ends, output[..], count[..]);
  }

  /** The placement loop, from the first sample to the last: the output then holds the
      buckets in value order, which is the samples sorted. */
  method PlaceValues(s: Samples, count: array<int>, output: array<int>, cfg: Config)
    requires s.Valid() && count.Length == SampleSize + 1 && output.Length == SampleSize
    requires count != s.data && output != s.data && count != output
    requires forall k :: 0 <= k < SampleSize ==> 0 <= s.data[k] <= SampleSize
    requires forall b :: 0 <= b < count.Length ==> count[b] == End(s.data[..], Value, b)
    modifies count, output, s`swaps, s`frames
    ensures Sorted(output[..]) && multiset(output[..]) == multiset(s.data[..])
    ensures s.swaps == old(s.swaps) + SampleSize
  {
    ghost var x := s.data[..];
    ghost var starts, ends := Starts(x, Value), Ends(x, Value);
    StartsApart(x, Value);
    NothingPlacedUpTo(output[..], count[..], x, starts, ends);
    for i := 0 to SampleSize
      invariant PlacedUpTo(output[..], count[..], x, i, starts, ends)
      invariant s.swaps == old(s.swaps) + i
    {
      PlaceValue(s, count, output, i, x, starts, ends, cfg);
    }
    assert Countable(x);
    PlacedValuesSorted(output[..], count[..], x);
  }

  /** sample_sort_count: the samples end up sorted and rearranged; N comparisons
      (tallies) and 2N swaps (placements and copies). */
  method SortCounting(s: Samples, cfg: Config)
    requires s.Valid()
    requires forall k :: 0 <= k < SampleSize ==> 0 <= s.data[k] <= SampleSize
    modifies s`comparisons, s`swaps, s`frames, s.data
    ensures Sorted(s.data[..]) && multiset(s.data[..]) == multiset(old(s.data[..]))
    ensures s.comparisons == old(s.comparisons) + SampleSize
    ensures s.swaps == old(s.swaps) + 2 * SampleSize
  {
    ghost var x := s.data[..];
    var output := new int[SampleSize];
    var count := new int[SampleSize + 1](_ => 0);
    TallyValues(s, count, cfg);
    assert s.data[..] == x;
    PrefixSums(count, x, Value);
    PlaceValues(s, count, output, cfg);
    ghost var sorted := output[..];
    CopyBack(s, output, cfg);
    s.Show(-1, -1, -1, cfg);
    assert s.data[..] == sorted;
  }
}
