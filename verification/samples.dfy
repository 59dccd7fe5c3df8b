/** The sample buffer every sort works on, its exchange primitive, its generators and its
    read-only queries. */
module SampleBuffer {
  import opened SortSpec

  /** Number of samples in every buffer. */
  const SampleSize := 18

  /** Switches the animation consults. They change which frames are drawn, never the data. */
  datatype Config = Config(visualize: bool, smoothTransitions: bool, transitionFrames: nat)

  /** The three index markers of one drawn frame; -1 marks no index. */
  datatype Frame = Frame(u: int, v: int, t: int)

  /** The message the validator reports for one out-of-range sample. */
  datatype Diagnostic = InvalidSample(value: int, index: int)

  /** `n` copies of one frame. */
  function Repeat(f: Frame, n: nat): (r: seq<Frame>)
    ensures |r| == n && forall k :: 0 <= k < n ==> r[k] == f
  {
    if n == 0 then [] else Repeat(f, n - 1) + [f]
  }

  /** Ranks 1 .. SampleSize in increasing order. */
  function Ascending(): seq<int> {
    seq(SampleSize, k => k + 1)
  }

  /** Ranks SampleSize .. 1 in decreasing order. */
  function Descending(): seq<int> {
    seq(SampleSize, k => SampleSize - k)
  }

  /** The ascending buffer is sorted and holds exactly the ranks 1 .. SampleSize. */
  lemma AscendingIsSortedRanks()
    ensures Sorted(Ascending())
    ensures forall v :: multiset(Ascending())[v] == if 1 <= v <= SampleSize then 1 else 0
  {
    var a := Ascending();
    forall v ensures multiset(a)[v] == if 1 <= v <= SampleSize then 1 else 0 {
      OccurrencesOfDistinct(a, v);
    }
  }

  /** Counting one value in a sequence whose k-th element is k+1. */
  lemma OccurrencesOfDistinct(a: seq<int>, v: int)
    requires forall k :: 0 <= k < |a| ==> a[k] == k + 1
    ensures multiset(a)[v] == if 1 <= v <= |a| then 1 else 0
  {
    if |a| > 0 {
      var init := a[..|a| - 1];
      assert a == init + [a[|a| - 1]];
      OccurrencesOfDistinct(init, v);
    }
  }

  /** The descending buffer holds the same ranks as the ascending one, in reverse order. */
  lemma {:induction false} DescendingIsReversedAscending()
    ensures forall k :: 0 <= k < SampleSize ==> Descending()[k] == Ascending()[SampleSize - 1 - k]
    ensures multiset(Descending()) == multiset(Ascending())
  {
    ReversalKeepsMultiset(Ascending(), Descending());
  }

  /** A sequence and its reversal hold the same multiset. */
  lemma {:induction false} ReversalKeepsMultiset(x: seq<int>, y: seq<int>)
    requires |x| == |y|
    requires forall k :: 0 <= k < |x| ==> y[k] == x[|x| - 1 - k]
    ensures multiset(x) == multiset(y)
  {
    if |x| > 0 {
      var n := |x|;
      assert x == [x[0]] + x[1..];
      assert y == y[..n - 1] + [y[n - 1]];
      ReversalKeepsMultiset(x[1..], y[..n - 1]);
    }
  }

  /** The value `sample_validate` stores for a sample. */
  function Clamp(v: int): (r: int)
    ensures 1 <= r <= SampleSize
    ensures 1 <= v <= SampleSize ==> r == v
    ensures forall w :: 1 <= w <= SampleSize ==> Distance(r, v) <= Distance(w, v)
  {
    if v < 1 then 1 else if v > SampleSize then SampleSize else v
  }

  function Distance(x: int, y: int): nat {
    if x <= y then y - x else x - y
  }

  /** The warnings `sample_validate` prints for a buffer, in index order. */
  function Diagnose(s: seq<int>): seq<Diagnostic> {
    if s == [] then []
    else
      var k := |s| - 1;
      Diagnose(s[..k]) + if 1 <= s[k] <= SampleSize then [] else [InvalidSample(s[k], k)]
  }

  /** Exactly the out-of-range samples are reported, each with its value and index. */
  lemma {:induction false} DiagnoseReportsExactlyInvalid(s: seq<int>, d: Diagnostic)
    ensures d in Diagnose(s) <==>
      0 <= d.index < |s| && s[d.index] == d.value && !(1 <= d.value <= SampleSize)
  {
    if s != [] {
      var k := |s| - 1;
      DiagnoseReportsExactlyInvalid(s[..k], d);
      if 0 <= d.index < k {
        assert s[..k][d.index] == s[d.index];
      }
    }
  }

  class Samples {
    /** The samples; the buffer is fixed in place, only its elements change. */
    const data: array<int>
    /** Height unit used when drawing bars; equal to SampleSize after generation. */
    var max: int
    var comparisons: int
    var swaps: int
    /** Advisory end of the region drawn as settled; -1 when none. */
    var sortedUntil: int
    /** Marker triples of the frames drawn so far. */
    ghost var frames: seq<Frame>

    predicate Valid() {
      data.Length == SampleSize
    }

    constructor ()
      ensures Valid() && fresh(data)
      ensures data[..] == seq(SampleSize, _ => 0)
      ensures max == 0 && comparisons == 0 && swaps == 0 && sortedUntil == -1 && frames == []
    {
      data := new int[SampleSize](_ => 0);
      max, comparisons, swaps, sortedUntil := 0, 0, 0, -1;
      frames := [];
    }

    /** Draws a frame with markers u, v and t; drawing never touches the samples. */
    method Show(u: int, v: int, t: int, cfg: Config)
      modifies this`frames
      ensures frames == old(frames) + if cfg.visualize then [Frame(u, v, t)] else []
    {
      if cfg.visualize {
        frames := frames + [Frame(u, v, t)];
      }
    }

    /** Exchanges two samples and counts one swap, also when a == b. */
    method Swap(a: int, b: int)
      requires Valid() && 0 <= a < SampleSize && 0 <= b < SampleSize
      modifies this`swaps, data
      ensures data[a] == old(data[b]) && data[b] == old(data[a])
      ensures forall k :: 0 <= k < SampleSize && k != a && k != b ==> data[k] == old(data[k])
      ensures multiset(data[..]) == multiset(old(data[..]))
      ensures swaps == old(swaps) + 1
    {
      var t := data[a];
      data[a] := data[b];
      data[b] := t;
      swaps := swaps + 1;
    }

    /** The exchange with smooth transition frames: the samples and the swap count change as
        with Swap whatever the configuration; only the frames drawn differ. */
    method SwapAnimated(a: int, b: int, u: int, v: int, t: int, cfg: Config)
      requires Valid() && 0 <= a < SampleSize && 0 <= b < SampleSize
      modifies this`swaps, this`frames, data
      ensures data[a] == old(data[b]) && data[b] == old(data[a])
      ensures forall k :: 0 <= k < SampleSize && k != a && k != b ==> data[k] == old(data[k])
      ensures multiset(data[..]) == multiset(old(data[..]))
      ensures swaps == old(swaps) + 1
      ensures frames == old(frames) +
        if cfg.smoothTransitions && cfg.visualize then Repeat(Frame(a, b, t), cfg.transitionFrames + 1)
        else []
    {
      if !cfg.smoothTransitions || !cfg.visualize {
        Swap(a, b);
        return;
      }
      var frame := 0;
      while frame < cfg.transitionFrames
        invariant 0 <= frame <= cfg.transitionFrames
        invariant frames == old(frames) + Repeat(Frame(a, b, t), frame)
        invariant data[..] == old(data[..]) && swaps == old(swaps)
      {
        Show(a, b, t, cfg);
        frame := frame + 1;
      }
      Swap(a, b);
      Show(a, b, t, cfg);
    }

    /** Number of empty rows above bar i. */
    function Height(i: int): (r: int)
      requires Valid() && 0 <= i < SampleSize
      reads this, data
      ensures 1 <= data[i] <= max ==> 0 <= r < max
      ensures r == 0 <==> data[i] == max
    {
      max - data[i]
    }

    /** Fills the buffer with 1 .. SampleSize and resets the statistics. */
    method GenerateAscending()
      requires Valid()
      modifies this`max, this`comparisons, this`swaps, this`sortedUntil, data
      ensures data[..] == Ascending()
      ensures max == SampleSize && comparisons == 0 && swaps == 0 && sortedUntil == -1
    {
      var i := 0;
      while i < SampleSize
        invariant 0 <= i <= SampleSize
        invariant forall k :: 0 <= k < i ==> data[k] == k + 1
      {
        data[i] := i + 1;
        i := i + 1;
      }
      max := i;
      comparisons := 0;
      swaps := 0;
      sortedUntil := -1;
    }

    /** Fills the buffer with SampleSize .. 1 and resets the statistics. */
    method GenerateDescending()
      requires Valid()
      modifies this`max, this`comparisons, this`swaps, this`sortedUntil, data
      ensures data[..] == Descending()
      ensures max == SampleSize && comparisons == 0 && swaps == 0 && sortedUntil == -1
    {
      var i := 0;
      while i < SampleSize
        invariant 0 <= i <= SampleSize
        invariant forall k :: 0 <= k < i ==> data[k] == SampleSize - k
      {
        data[i] := SampleSize - i;
        i := i + 1;
      }
      max := i;
      comparisons := 0;
      swaps := 0;
      sortedUntil := -1;
    }

    /** Shuffles the ascending buffer with SampleSize exchanges. `rolls` stands for the
        successive results of the C library's rand(), taken two per exchange. */
    method GenerateRandom(rolls: seq<int>)
      requires Valid()
      requires |rolls| == 2 * SampleSize && forall k :: 0 <= k < |rolls| ==> rolls[k] >= 0
      modifies this`max, this`comparisons, this`swaps, this`sortedUntil, data
      ensures multiset(data[..]) == multiset(Ascending())
      ensures max == SampleSize && comparisons == 0 && swaps == 0 && sortedUntil == -1
    {
      GenerateAscending();
      var i := 0;
      while i < SampleSize
        invariant 0 <= i <= SampleSize
        invariant multiset(data[..]) == multiset(Ascending())
        invariant max == SampleSize
      {
        Swap(rolls[2 * i] % SampleSize, rolls[2 * i + 1] % SampleSize);
        i := i + 1;
      }
      comparisons := 0;
      swaps := 0;
      sortedUntil := -1;
    }

    /** Clamps every sample into [1, SampleSize] and returns the warnings it prints. */
    method Validate() returns (warnings: seq<Diagnostic>)
      requires Valid()
      modifies data
      ensures forall k :: 0 <= k < SampleSize ==> data[k] == Clamp(old(data[k]))
      ensures warnings == Diagnose(old(data[..]))
    {
      warnings := [];
      var i := 0;
      while i < SampleSize
        invariant 0 <= i <= SampleSize
        invariant forall k :: 0 <= k < i ==> data[k] == Clamp(old(data[k]))
        invariant forall k :: i <= k < SampleSize ==> data[k] == old(data[k])
        invariant warnings == Diagnose(old(data[..i]))
      {
        assert old(data[..i + 1])[..i] == old(data[..i]);
        if data[i] < 1 || data[i] > SampleSize {
          warnings := warnings + [InvalidSample(data[i], i)];
          data[i] := if data[i] < 1 then 1 else SampleSize;
        }
        i := i + 1;
      }
      assert old(data[..i]) == old(data[..]);
    }

    /** The neighbour test over the whole buffer. */
    method IsSorted() returns (r: bool)
      requires Valid()
      ensures r <==> AdjacentSorted(data[..])
    {
      var i := 0;
      while i < SampleSize - 1
        invariant 0 <= i <= SampleSize - 1
        invariant forall k :: 0 <= k < i ==> data[k] <= data[k + 1]
      {
        if data[i] > data[i + 1] {
          return false;
        }
        i := i + 1;
      }
      return true;
    }
  }

  /** Every buffer the random generator can produce holds each rank 1 .. SampleSize once. */
  lemma ShuffledHoldsEachRankOnce(s: seq<int>)
    requires multiset(s) == multiset(Ascending())
    ensures |s| == SampleSize
    ensures forall k :: 0 <= k < |s| ==> 1 <= s[k] <= SampleSize
    ensures forall p, q :: 0 <= p < q < |s| ==> s[p] != s[q]
  {
    AscendingIsSortedRanks();
    assert |s| == |multiset(s)| == |multiset(Ascending())| == SampleSize;
    forall k | 0 <= k < |s| ensures 1 <= s[k] <= SampleSize {
      assert s[k] in multiset(s);
    }
    forall p, q | 0 <= p < q < |s| ensures s[p] != s[q] {
      var rest := s[..p] + s[p + 1..];
      assert s == s[..p] + [s[p]] + s[p + 1..];
      assert rest[q - 1] == s[q];
      assert multiset(s)[s[p]] == multiset(rest)[s[p]] + 1;
    }
  }
}
