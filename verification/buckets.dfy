/** The distribution scheme shared by counting sort and by each pass of radix sort: tally
    the samples per key, turn the tallies into bucket ends, place every sample into its
    bucket, copy the result back. */
module Buckets {
  import opened SortSpec
  import opened SampleBuffer

  /** What a distribution pass sorts by: counting sort uses the whole value as its one digit
      (it accepts values 0 .. SampleSize only), pass e of radix sort the decimal digit worth
      10^e. */
  datatype Key = Value | Decimal(exp: nat)

  /** The number of buckets: the size of the count array of each sort. */
  function Base(key: Key): nat {
    match key
    case Value => SampleSize + 1
    case Decimal(_) => 10
  }

  /** v with its last e decimal digits dropped, which is v / 10^e. */
  function Shift(v: int, e: nat): int {
    if e == 0 then v else Shift(v, e - 1) / 10
  }

  /** The key of v: the bucket it goes to. */
  function Digit(v: int, key: Key): (d: int)
    ensures 0 <= d < Base(key)
  {
    match key
    case Value => v % (SampleSize + 1)
    case Decimal(e) => Shift(v, e) % 10
  }

  /** The elements of s[lo..hi] whose key is b, in their order in s. */
  function Select(s: seq<int>, key: Key, b: int, lo: int, hi: int): (r: seq<int>)
    requires 0 <= lo <= hi <= |s|
    ensures |r| <= hi - lo
    decreases hi - lo
  {
    if lo == hi then []
    else Select(s, key, b, lo, hi - 1) + if Digit(s[hi - 1], key) == b then [s[hi - 1]] else []
  }

  /** Bucket b: the elements of s whose key is b, in their order in s. */
  function Filter(s: seq<int>, key: Key, b: int): seq<int> {
    Select(s, key, b, 0, |s|)
  }

  /** The buckets for the keys 0 .. K-1, one after the other. */
  function Bucketed(s: seq<int>, key: Key, K: int): seq<int>
    decreases K
  {
    if K <= 0 then [] else Bucketed(s, key, K - 1) + Filter(s, key, K - 1)
  }

  /** A selection holds only elements with key b. */
  lemma {:induction false} SelectKeys(s: seq<int>, key: Key, b: int, lo: int, hi: int)
    requires 0 <= lo <= hi <= |s|
    ensures forall k :: 0 <= k < |Select(s, key, b, lo, hi)| ==> Digit(Select(s, key, b, lo, hi)[k], key) == b
    decreases hi - lo
  {
    if lo < hi {
      SelectKeys(s, key, b, lo, hi - 1);
    }
  }

  /** A selection holds only elements of the range it selects from. */
  lemma {:induction false} SelectMembers(s: seq<int>, key: Key, b: int, lo: int, hi: int)
    requires 0 <= lo <= hi <= |s|
    ensures forall k :: 0 <= k < |Select(s, key, b, lo, hi)| ==>
      exists j :: lo <= j < hi && s[j] == Select(s, key, b, lo, hi)[k]
    decreases hi - lo
  {
    if lo < hi {
      SelectMembers(s, key, b, lo, hi - 1);
      var r, p := Select(s, key, b, lo, hi), Select(s, key, b, lo, hi - 1);
      forall k | 0 <= k < |r| ensures exists j :: lo <= j < hi && s[j] == r[k] {
        if k < |p| {
          assert r[k] == p[k];
          var j :| lo <= j < hi - 1 && s[j] == p[k];
          assert lo <= j < hi && s[j] == r[k];
        } else {
          assert r[k] == s[hi - 1];
        }
      }
    } else {
      assert Select(s, key, b, lo, hi) == [];
    }
  }

  /** With the value itself as key, bucket b holds copies of b only. */
  lemma {:induction false} SelectOfSmallValues(s: seq<int>, b: int, lo: int, hi: int)
    requires 0 <= lo <= hi <= |s| && forall k :: 0 <= k < |s| ==> 0 <= s[k] <= SampleSize
    ensures forall k :: 0 <= k < |Select(s, Value, b, lo, hi)| ==> Select(s, Value, b, lo, hi)[k] == b
    decreases hi - lo
  {
    if lo < hi {
      SelectOfSmallValues(s, b, lo, hi - 1);
    }
  }

  /** Selecting from two adjacent ranges is selecting from their union. */
  lemma {:induction false} SelectSplit(s: seq<int>, key: Key, b: int, lo: int, mid: int, hi: int)
    requires 0 <= lo <= mid <= hi <= |s|
    ensures Select(s, key, b, lo, hi) == Select(s, key, b, lo, mid) + Select(s, key, b, mid, hi)
    decreases hi - mid
  {
    if mid < hi {
      SelectSplit(s, key, b, lo, mid, hi - 1);
    }
  }

  /** A prefix selection holds every element of the prefix with key b, as often as the
      prefix does. */
  lemma {:induction false} SelectCounts(s: seq<int>, key: Key, b: int, n: int, v: int)
    requires 0 <= n <= |s| && Digit(v, key) == b
    ensures multiset(Select(s, key, b, 0, n))[v] == multiset(s[..n])[v]
  {
    if n > 0 {
      SelectCounts(s, key, b, n - 1, v);
      var x, p := s[n - 1], Select(s, key, b, 0, n - 1);
      assert s[..n] == s[..n - 1] + [x];
      assert multiset(s[..n]) == multiset(s[..n - 1]) + multiset{x};
      if Digit(x, key) == b {
        assert multiset(Select(s, key, b, 0, n)) == multiset(p) + multiset{x};
      } else {
        assert Select(s, key, b, 0, n) == p;
      }
    }
  }

  /** A selection holds no element whose key is not b. */
  lemma SelectOthers(s: seq<int>, key: Key, b: int, lo: int, hi: int, v: int)
    requires 0 <= lo <= hi <= |s| && Digit(v, key) != b
    ensures multiset(Select(s, key, b, lo, hi))[v] == 0
  {
    SelectKeys(s, key, b, lo, hi);
  }

  /** The buckets for keys below K hold only elements with such keys. */
  lemma {:induction false} BucketedKeys(s: seq<int>, key: Key, K: int)
    ensures forall k :: 0 <= k < |Bucketed(s, key, K)| ==> 0 <= Digit(Bucketed(s, key, K)[k], key) < K
    decreases K
  {
    if K > 0 {
      BucketedKeys(s, key, K - 1);
      SelectKeys(s, key, K - 1, 0, |s|);
      var B, F := Bucketed(s, key, K - 1), Filter(s, key, K - 1);
      forall k | 0 <= k < |B + F| ensures 0 <= Digit((B + F)[k], key) < K {
        if k < |B| {
          assert (B + F)[k] == B[k];
        } else {
          assert (B + F)[k] == F[k - |B|];
        }
      }
    }
  }

  /** Bucket b holds every element of s with key b, as often as s does, and nothing else. */
  lemma FilterCounts(s: seq<int>, key: Key, b: int, v: int)
    ensures multiset(Filter(s, key, b))[v] == if Digit(v, key) == b then multiset(s)[v] else 0
  {
    if Digit(v, key) == b {
      SelectCounts(s, key, b, |s|, v);
      assert s[..|s|] == s;
    } else {
      SelectOthers(s, key, b, 0, |s|, v);
    }
  }

  /** Adding bucket J to the buckets below it adds the elements with key J. */
  lemma BucketedCountsStep(s: seq<int>, key: Key, J: int, v: int)
    requires 0 <= J
    requires multiset(Bucketed(s, key, J))[v] == if 0 <= Digit(v, key) < J then multiset(s)[v] else 0
    ensures multiset(Bucketed(s, key, J + 1))[v] == if 0 <= Digit(v, key) < J + 1 then multiset(s)[v] else 0
  {
    FilterCounts(s, key, J, v);
    var B, F := Bucketed(s, key, J), Filter(s, key, J);
    assert Bucketed(s, key, J + 1) == B + F;
    assert multiset(B + F) == multiset(B) + multiset(F);
  }

  /** The buckets for keys below K hold exactly the elements of s with such keys. */
  lemma {:induction false} BucketedCounts(s: seq<int>, key: Key, K: int, v: int)
    ensures multiset(Bucketed(s, key, K))[v] == if 0 <= Digit(v, key) < K then multiset(s)[v] else 0
    decreases K
  {
    if K > 0 {
      var J := K - 1;
      BucketedCounts(s, key, J, v);
      BucketedCountsStep(s, key, J, v);
    }
  }

  /** All the buckets together are a rearrangement of s. */
  lemma BucketedPermutes(s: seq<int>, key: Key)
    ensures multiset(Bucketed(s, key, Base(key))) == multiset(s)
    ensures |Bucketed(s, key, Base(key))| == |s|
  {
    var K := Base(key);
    forall v ensures multiset(Bucketed(s, key, K))[v] == multiset(s)[v] {
      BucketedCounts(s, key, K, v);
    }
    assert multiset(Bucketed(s, key, K)) == multiset(s);
    assert |Bucketed(s, key, K)| == |multiset(Bucketed(s, key, K))| == |multiset(s)| == |s|;
  }

  /** Ordered by key: the key never decreases from one element to a later one. */
  ghost predicate KeySorted(s: seq<int>, key: Key) {
    forall p, q :: 0 <= p < q < |s| ==> Digit(s[p], key) <= Digit(s[q], key)
  }

  /** The buckets come in increasing key order. */
  lemma {:induction false} BucketedSortedByKey(s: seq<int>, key: Key, K: int)
    ensures KeySorted(Bucketed(s, key, K), key)
    decreases K
  {
    if K > 0 {
      BucketedSortedByKey(s, key, K - 1);
      BucketedKeys(s, key, K - 1);
      SelectKeys(s, key, K - 1, 0, |s|);
      var B, F := Bucketed(s, key, K - 1), Filter(s, key, K - 1);
      forall p, q | 0 <= p < q < |B + F| ensures Digit((B + F)[p], key) <= Digit((B + F)[q], key) {
        if q < |B| {
          assert (B + F)[p] == B[p] && (B + F)[q] == B[q];
        } else if p < |B| {
          assert (B + F)[p] == B[p] && (B + F)[q] == F[q - |B|];
        } else {
          assert (B + F)[p] == F[p - |B|] && (B + F)[q] == F[q - |B|];
        }
      }
    }
  }

  /** Where bucket b stops, which is where bucket b + 1 starts. */
  function End(s: seq<int>, key: Key, b: int): nat {
    |Bucketed(s, key, b + 1)|
  }

  /** Later buckets start no earlier. */
  lemma {:induction false} StartGrows(s: seq<int>, key: Key, b: int, c: int)
    requires 0 <= b <= c
    ensures |Bucketed(s, key, b)| <= |Bucketed(s, key, c)|
    decreases c - b
  {
    if b < c {
      StartGrows(s, key, b, c - 1);
    }
  }

  /** Where each bucket starts in the output, key by key. */
  ghost function Starts(s: seq<int>, key: Key): (r: seq<int>)
    ensures |r| == Base(key)
  {
    seq(Base(key), b => |Bucketed(s, key, b)|)
  }

  /** Where each bucket ends in the output, key by key: the running totals of the sizes. */
  ghost function Ends(s: seq<int>, key: Key): (r: seq<int>)
    ensures |r| == Base(key)
  {
    seq(Base(key), b => End(s, key, b))
  }

  /** Bucket ranges as the placement loops rely on them: each as long as its bucket, inside
      the output, and later buckets after earlier ones. */
  ghost predicate Apart(starts: seq<int>, ends: seq<int>, s: seq<int>, key: Key) {
    |starts| == |ends| &&
    (forall b :: 0 <= b < |starts| ==> 0 <= starts[b] && ends[b] == starts[b] + |Filter(s, key, b)| && ends[b] <= |s|) &&
    (forall b, c :: 0 <= b < c < |starts| ==> ends[b] <= starts[c])
  }

  /** The whole bucket sequence is as long as s. */
  lemma BucketedLength(s: seq<int>, key: Key)
    ensures |Bucketed(s, key, Base(key))| == |s|
  {
    BucketedPermutes(s, key);
  }

  /** Bucket b ends its size after its start, inside the output. */
  lemma EndBounded(s: seq<int>, key: Key, b: int)
    requires 0 <= b < Base(key)
    ensures End(s, key, b) == |Bucketed(s, key, b)| + |Filter(s, key, b)| <= |s|
  {
    assert Bucketed(s, key, b + 1) == Bucketed(s, key, b) + Filter(s, key, b);
    EndWithin(s, key, b);
  }

  /** Every bucket ends inside the output. */
  lemma EndWithin(s: seq<int>, key: Key, b: int)
    requires 0 <= b < Base(key)
    ensures End(s, key, b) <= |s|
  {
    var K := Base(key);
    BucketedLength(s, key);
    StartGrows(s, key, b + 1, K);
    assert End(s, key, b) == |Bucketed(s, key, b + 1)|;
  }

  /** Each bucket range is as long as its bucket and lies inside the output. */
  lemma StartsSized(s: seq<int>, key: Key)
    ensures forall b :: 0 <= b < Base(key) ==>
      0 <= Starts(s, key)[b] && Ends(s, key)[b] == Starts(s, key)[b] + |Filter(s, key, b)| && Ends(s, key)[b] <= |s|
  {
    forall b | 0 <= b < Base(key)
      ensures 0 <= Starts(s, key)[b] && Ends(s, key)[b] == Starts(s, key)[b] + |Filter(s, key, b)| && Ends(s, key)[b] <= |s|
    {
      EndBounded(s, key, b);
    }
  }

  /** Later buckets start after earlier ones end. */
  lemma EndsBeforeStarts(s: seq<int>, key: Key)
    ensures forall b, c :: 0 <= b < c ==> End(s, key, b) <= |Bucketed(s, key, c)|
  {
    forall b, c | 0 <= b < c ensures End(s, key, b) <= |Bucketed(s, key, c)| {
      StartGrows(s, key, b + 1, c);
    }
  }

  /** Later bucket ranges start after earlier ones end. */
  lemma StartsOrdered(s: seq<int>, key: Key)
    ensures forall b, c :: 0 <= b < c < Base(key) ==> Ends(s, key)[b] <= Starts(s, key)[c]
  {
    var starts, ends := Starts(s, key), Ends(s, key);
    EndsBeforeStarts(s, key);
    assert forall b :: 0 <= b < Base(key) ==> ends[b] == End(s, key, b) && starts[b] == |Bucketed(s, key, b)|;
  }

  /** The buckets of s lie side by side in the output, in key order. */
  lemma StartsApart(s: seq<int>, key: Key)
    ensures Apart(Starts(s, key), Ends(s, key), s, key)
  {
    StartsSized(s, key);
    StartsOrdered(s, key);
  }

  /** Writing outside a slice leaves the slice alone. */
  lemma SliceUntouched(out: seq<int>, at: int, v: int, lo: int, hi: int)
    requires 0 <= at < |out| && 0 <= lo <= hi <= |out| && (at < lo || hi <= at)
    ensures out[at := v][lo..hi] == out[lo..hi]
  {
  }

  /** Writing just before a slice extends it at the front. */
  lemma SliceExtended(out: seq<int>, at: int, v: int, hi: int)
    requires 0 <= at < hi <= |out|
    ensures out[at := v][at..hi] == [v] + out[at + 1..hi]
  {
  }

  /** Bucket b, which occupies [lo, hi) of the output, during the backward placement loop
      (radix sort), once every sample from position i on is placed: its placed part starts
      at c, and from there to the bucket's end lie the samples of bucket b from position i
      on, in their order. */
  ghost predicate BucketFrom(out: seq<int>, c: int, s: seq<int>, key: Key, i: int, b: int, lo: int, hi: int) {
    0 <= i <= |s| && 0 <= lo &&
    c == lo + |Select(s, key, b, 0, i)| &&
    c <= hi <= |out| &&
    out[c..hi] == Select(s, key, b, i, |s|)
  }

  /** The backward loop once every sample from position i on is placed: count[b] is where
      the placed part of bucket b starts. */
  ghost predicate PlacedFrom(out: seq<int>, count: seq<int>, s: seq<int>, key: Key, i: int, starts: seq<int>, ends: seq<int>) {
    0 <= i <= |s| && |out| == |s| && |count| == |starts| == |ends| &&
    forall b :: 0 <= b < |count| ==> BucketFrom(out, count[b], s, key, i, b, starts[b], ends[b])
  }

  /** Bucket b, which occupies [lo, hi) of the output, during the forward placement loop
      (counting sort, whose key is the value), once the samples before position i are
      placed: from c to the bucket's end lie copies of b, one for each sample b before
      position i. */
  ghost predicate BucketUpTo(out: seq<int>, c: int, s: seq<int>, i: int, b: int, lo: int, hi: int) {
    0 <= i <= |s| && 0 <= lo &&
    c == hi - |Select(s, Value, b, 0, i)| &&
    lo <= c <= hi <= |out| &&
    forall k :: c <= k < hi ==> out[k] == b
  }

  /** The forward loop once the samples before position i are placed: count[b] is where
      the placed part of bucket b starts. */
  ghost predicate PlacedUpTo(out: seq<int>, count: seq<int>, s: seq<int>, i: int, starts: seq<int>, ends: seq<int>) {
    0 <= i <= |s| && |out| == |s| && |count| == |starts| == |ends| &&
    forall b :: 0 <= b < |count| ==> BucketUpTo(out, count[b], s, i, b, starts[b], ends[b])
  }

  /** Before the backward loop: every bucket is empty and ends where the prefix sums say. */
  lemma NothingPlacedFrom(out: seq<int>, count: seq<int>, s: seq<int>, key: Key, starts: seq<int>, ends: seq<int>)
    requires |out| == |s| && |count| == |starts| && Apart(starts, ends, s, key)
    requires forall b :: 0 <= b < |count| ==> count[b] == ends[b]
    ensures PlacedFrom(out, count, s, key, |s|, starts, ends)
  {
    forall b | 0 <= b < |count| ensures BucketFrom(out, count[b], s, key, |s|, b, starts[b], ends[b]) {
      assert s[..|s|] == s;
    }
  }

  /** Before the forward loop: every bucket is empty and ends where the prefix sums say. */
  lemma NothingPlacedUpTo(out: seq<int>, count: seq<int>, s: seq<int>, starts: seq<int>, ends: seq<int>)
    requires |out| == |s| && |count| == |starts| && Apart(starts, ends, s, Value)
    requires forall b :: 0 <= b < |count| ==> count[b] == ends[b]
    ensures PlacedUpTo(out, count, s, 0, starts, ends)
  {
  }

  /** The bucket of the sample at i - 1 grows by that sample at its front. */
  lemma BucketFromStep(out: seq<int>, c: int, s: seq<int>, key: Key, i: int, lo: int, hi: int)
    requires 0 < i <= |s| && BucketFrom(out, c, s, key, i, Digit(s[i - 1], key), lo, hi)
    ensures lo <= c - 1 < hi
    ensures BucketFrom(out[c - 1 := s[i - 1]], c - 1, s, key, i - 1, Digit(s[i - 1], key), lo, hi)
  {
    var b := Digit(s[i - 1], key);
    SelectSplit(s, key, b, i - 1, i, |s|);
    SliceExtended(out, c - 1, s[i - 1], hi);
  }

  /** The other buckets are not affected by placing the sample at i - 1 outside them. */
  lemma BucketFromOther(out: seq<int>, c: int, s: seq<int>, key: Key, i: int, at: int, b: int, lo: int, hi: int)
    requires 0 < i <= |s| && b != Digit(s[i - 1], key) && BucketFrom(out, c, s, key, i, b, lo, hi)
    requires 0 <= at < |out| && (at < c || hi <= at)
    ensures BucketFrom(out[at := s[i - 1]], c, s, key, i - 1, b, lo, hi)
  {
    SelectSplit(s, key, b, i - 1, i, |s|);
    SliceUntouched(out, at, s[i - 1], c, hi);
  }

  /** Placing the sample at i - 1 just before the placed part of its bucket leaves every
      other bucket as it was. */
  lemma OthersFrom(out: seq<int>, count: seq<int>, s: seq<int>, key: Key, i: int, starts: seq<int>, ends: seq<int>)
    requires |count| == Base(key) && Apart(starts, ends, s, key)
    requires 0 < i && PlacedFrom(out, count, s, key, i, starts, ends)
    requires starts[Digit(s[i - 1], key)] <= count[Digit(s[i - 1], key)] - 1 < ends[Digit(s[i - 1], key)]
    ensures forall b :: 0 <= b < |count| && b != Digit(s[i - 1], key) ==>
      BucketFrom(out[count[Digit(s[i - 1], key)] - 1 := s[i - 1]], count[b], s, key, i - 1, b, starts[b], ends[b])
  {
    var b0 := Digit(s[i - 1], key);
    var at := count[b0] - 1;
    forall b | 0 <= b < |count| && b != b0
      ensures BucketFrom(out[at := s[i - 1]], count[b], s, key, i - 1, b, starts[b], ends[b])
    {
      BucketFromOther(out, count[b], s, key, i, at, b, starts[b], ends[b]);
    }
  }

  /** The placement state is the bucket states together: updating the start of one bucket
      whose state is known, with all the others known, gives the new placement state. */
  lemma AssembleFrom(out: seq<int>, count: seq<int>, b0: int, s: seq<int>, key: Key, i: int, starts: seq<int>, ends: seq<int>)
    requires 0 <= i <= |s| && |out| == |s| && |count| == |starts| == |ends| && 0 <= b0 < |count|
    requires BucketFrom(out, count[b0] - 1, s, key, i, b0, starts[b0], ends[b0])
    requires forall b :: 0 <= b < |count| && b != b0 ==> BucketFrom(out, count[b], s, key, i, b, starts[b], ends[b])
    ensures PlacedFrom(out, count[b0 := count[b0] - 1], s, key, i, starts, ends)
  {
  }

  /** Where the backward loop puts the sample at i: just before the placed part of its
      bucket, which is still inside the bucket. */
  lemma SlotBackward(out: seq<int>, count: seq<int>, s: seq<int>, key: Key, i: int, starts: seq<int>, ends: seq<int>)
    requires |count| == Base(key) && Apart(starts, ends, s, key)
    requires 0 <= i < |s| && PlacedFrom(out, count, s, key, i + 1, starts, ends)
    ensures starts[Digit(s[i], key)] <= count[Digit(s[i], key)] - 1 < ends[Digit(s[i], key)]
  {
    var b0 := Digit(s[i], key);
    BucketFromStep(out, count[b0], s, key, i + 1, starts[b0], ends[b0]);
  }

  /** One step of the backward loop: with the sample at i, whose key is d, written just
      before the placed part of its bucket and that bucket's start moved down by one, the
      samples from position i on are placed. */
  lemma PlaceBackward(out: seq<int>, count: seq<int>, s: seq<int>, key: Key, i: int, d: int,
                      starts: seq<int>, ends: seq<int>, out': seq<int>, count': seq<int>)
    requires |count| == Base(key) && Apart(starts, ends, s, key)
    requires 0 <= i < |s| && PlacedFrom(out, count, s, key, i + 1, starts, ends)
    requires d == Digit(s[i], key) && 0 < count[d] <= |out|
    requires out' == out[count[d] - 1 := s[i]] && count' == count[d := count[d] - 1]
    ensures PlacedFrom(out', count', s, key, i, starts, ends)
  {
    BucketFromStep(out, count[d], s, key, i + 1, starts[d], ends[d]);
    OthersFrom(out, count, s, key, i + 1, starts, ends);
    AssembleFrom(out', count, d, s, key, i, starts, ends);
  }

  /** The bucket of the sample at i gains that sample just before its placed part. */
  lemma BucketUpToStep(out: seq<int>, c: int, s: seq<int>, i: int, lo: int, hi: int)
    requires 0 <= i < |s| && 0 <= s[i] <= SampleSize && BucketUpTo(out, c, s, i, s[i], lo, hi)
    requires hi == lo + |Filter(s, Value, s[i])|
    ensures lo <= c - 1 < hi
    ensures BucketUpTo(out[c - 1 := s[i]], c - 1, s, i + 1, s[i], lo, hi)
  {
    SelectSplit(s, Value, s[i], 0, i + 1, |s|);
  }

  /** The other buckets are not affected by placing the sample at i outside them. */
  lemma BucketUpToOther(out: seq<int>, c: int, s: seq<int>, i: int, at: int, b: int, lo: int, hi: int)
    requires 0 <= i < |s| && b != Digit(s[i], Value) && BucketUpTo(out, c, s, i, b, lo, hi)
    requires 0 <= at < |out| && (at < c || hi <= at)
    ensures BucketUpTo(out[at := s[i]], c, s, i + 1, b, lo, hi)
  {
  }

  /** Placing the sample at i just before the placed part of its bucket leaves every other
      bucket as it was. */
  lemma OthersUpTo(out: seq<int>, count: seq<int>, s: seq<int>, i: int, starts: seq<int>, ends: seq<int>)
    requires |count| == Base(Value) && Apart(starts, ends, s, Value)
    requires 0 <= i < |s| && 0 <= s[i] <= SampleSize && PlacedUpTo(out, count, s, i, starts, ends)
    requires starts[s[i]] <= count[s[i]] - 1 < ends[s[i]]
    ensures forall b :: 0 <= b < |count| && b != s[i] ==>
      BucketUpTo(out[count[s[i]] - 1 := s[i]], count[b], s, i + 1, b, starts[b], ends[b])
  {
    var x := s[i];
    var at := count[x] - 1;
    forall b | 0 <= b < |count| && b != x
      ensures BucketUpTo(out[at := x], count[b], s, i + 1, b, starts[b], ends[b])
    {
      BucketUpToOther(out, count[b], s, i, at, b, starts[b], ends[b]);
    }
  }

  /** The placement state is the bucket states together: updating the start of one bucket
      whose state is known, with all the others known, gives the new placement state. */
  lemma AssembleUpTo(out: seq<int>, count: seq<int>, b0: int, s: seq<int>, i: int, starts: seq<int>, ends: seq<int>)
    requires 0 <= i <= |s| && |out| == |s| && |count| == |starts| == |ends| && 0 <= b0 < |count|
    requires BucketUpTo(out, count[b0] - 1, s, i, b0, starts[b0], ends[b0])
    requires forall b :: 0 <= b < |count| && b != b0 ==> BucketUpTo(out, count[b], s, i, b, starts[b], ends[b])
    ensures PlacedUpTo(out, count[b0 := count[b0] - 1], s, i, starts, ends)
  {
  }

  /** Where the forward loop puts the sample at i, which is its own key: just before the
      placed part of its bucket, which is still inside the bucket. */
  lemma SlotForward(out: seq<int>, count: seq<int>, s: seq<int>, i: int, starts: seq<int>, ends: seq<int>)
    requires |count| == Base(Value) && Apart(starts, ends, s, Value)
    requires 0 <= i < |s| && 0 <= s[i] <= SampleSize && PlacedUpTo(out, count, s, i, starts, ends)
    ensures Digit(s[i], Value) == s[i]
    ensures starts[s[i]] <= count[s[i]] - 1 < ends[s[i]]
  {
    var x := s[i];
    BucketUpToStep(out, count[x], s, i, starts[x], ends[x]);
  }

  /** One step of the forward loop: with the sample at i written just before the placed part
      of its bucket and that bucket's start moved down by one, the samples up to position i
      are placed. */
  lemma PlaceForward(out: seq<int>, count: seq<int>, s: seq<int>, i: int, starts: seq<int>, ends: seq<int>,
                     out': seq<int>, count': seq<int>)
    requires |count| == Base(Value) && Apart(starts, ends, s, Value)
    requires 0 <= i < |s| && 0 <= s[i] <= SampleSize && PlacedUpTo(out, count, s, i, starts, ends)
    requires 0 < count[s[i]] <= |out|
    requires out' == out[count[s[i]] - 1 := s[i]] && count' == count[s[i] := count[s[i]] - 1]
    ensures PlacedUpTo(out', count', s, i + 1, starts, ends)
  {
    var x := s[i];
    BucketUpToStep(out, count[x], s, i, starts[x], ends[x]);
    OthersUpTo(out, count, s, i, starts, ends);
    AssembleUpTo(out', count, x, s, i + 1, starts, ends);
  }

  /** Bucket b sits between its start and its end. */
  ghost predicate BucketInPlace(out: seq<int>, s: seq<int>, key: Key, b: int) {
    0 <= b && End(s, key, b) <= |out| && out[|Bucketed(s, key, b)|..End(s, key, b)] == Filter(s, key, b)
  }

  /** When every bucket sits between its start and its end, the buffer begins with the
      concatenation of the buckets. */
  lemma {:induction false} BucketsFillBuffer(out: seq<int>, s: seq<int>, key: Key, K: int, c: int)
    requires 0 <= c <= K
    requires forall b :: 0 <= b < K ==> BucketInPlace(out, s, key, b)
    ensures |Bucketed(s, key, c)| <= |out| && out[..|Bucketed(s, key, c)|] == Bucketed(s, key, c)
    decreases c
  {
    if c > 0 {
      BucketsFillBuffer(out, s, key, K, c - 1);
      assert BucketInPlace(out, s, key, c - 1);
      var lo, hi := |Bucketed(s, key, c - 1)|, End(s, key, c - 1);
      assert out[..hi] == out[..lo] + out[lo..hi];
    }
  }

  /** The backward loop, run to the front, leaves exactly the buckets in key order. */
  lemma PlacedFromAll(out: seq<int>, count: seq<int>, s: seq<int>, key: Key)
    requires |count| == Base(key) && PlacedFrom(out, count, s, key, 0, Starts(s, key), Ends(s, key))
    ensures out == Bucketed(s, key, Base(key))
  {
    var starts, ends := Starts(s, key), Ends(s, key);
    forall b | 0 <= b < |count| ensures BucketInPlace(out, s, key, b) {
      assert BucketFrom(out, count[b], s, key, 0, b, starts[b], ends[b]);
    }
    BucketsFillBuffer(out, s, key, |count|, |count|);
    BucketedPermutes(s, key);
  }

  /** A bucket of counting sort holds copies of its own key only. */
  lemma BucketOfValue(out: seq<int>, s: seq<int>, b: int)
    requires 0 <= b && End(s, Value, b) <= |out|
    requires forall k :: 0 <= k < |s| ==> 0 <= s[k] <= SampleSize
    requires forall k :: |Bucketed(s, Value, b)| <= k < End(s, Value, b) ==> out[k] == b
    ensures BucketInPlace(out, s, Value, b)
  {
    SelectOfSmallValues(s, b, 0, |s|);
    var lo, hi := |Bucketed(s, Value, b)|, End(s, Value, b);
    assert hi == lo + |Filter(s, Value, b)|;
    assert out[lo..hi] == Filter(s, Value, b);
  }

  /** The forward loop, run to the end, leaves exactly the buckets in key order: within a
      bucket all values are equal, so the order of placement does not show. */
  lemma PlacedUpToAll(out: seq<int>, count: seq<int>, s: seq<int>)
    requires forall k :: 0 <= k < |s| ==> 0 <= s[k] <= SampleSize
    requires |count| == Base(Value) && PlacedUpTo(out, count, s, |s|, Starts(s, Value), Ends(s, Value))
    ensures out == Bucketed(s, Value, |count|)
  {
    var starts, ends := Starts(s, Value), Ends(s, Value);
    StartsApart(s, Value);
    forall b | 0 <= b < |count| ensures BucketInPlace(out, s, Value, b) {
      assert BucketUpTo(out, count[b], s, |s|, b, starts[b], ends[b]);
      BucketOfValue(out, s, b);
    }
    BucketsFillBuffer(out, s, Value, |count|, |count|);
    BucketedPermutes(s, Value);
  }

  /** After the tallying loops: count[b] is the size of bucket b. */
  ghost predicate Tallied(count: seq<int>, s: seq<int>, key: Key) {
    forall b :: 0 <= b < |count| ==> count[b] == |Filter(s, key, b)|
  }

  /** The prefix-sum loop shared by both sorts: turns the bucket sizes into bucket ends. */
  method PrefixSums(count: array<int>, ghost s: seq<int>, ghost key: Key)
    requires count.Length > 0 && Tallied(count[..], s, key)
    modifies count
    ensures forall b :: 0 <= b < count.Length ==> count[b] == End(s, key, b)
  {
    assert Bucketed(s, key, 1) == Bucketed(s, key, 0) + Filter(s, key, 0);
    for i := 1 to count.Length
      invariant forall b :: 0 <= b < i ==> count[b] == End(s, key, b)
      invariant forall b :: i <= b < count.Length ==> count[b] == |Filter(s, key, b)|
    {
      count[i] := count[i] + count[i - 1];
    }
  }

  /** One placement of both sorts: v is written into the slot just below count[d], which
      moves down to that slot. */
  method PutBelow(output: array<int>, count: array<int>, d: int, v: int)
    requires output != count && 0 <= d < count.Length && 0 < count[d] <= output.Length
    modifies output, count
    ensures output[..] == old(output[..])[old(count[d]) - 1 := v]
    ensures count[..] == old(count[..])[d := old(count[d]) - 1]
  {
    output[count[d] - 1] := v;
    count[d] := count[d] - 1;
  }

  /** The last loop of both sorts: copies the output buffer back into the samples, one swap
      per sample. */
  method CopyBack(s: Samples, output: array<int>, cfg: Config)
    requires s.Valid() && output != s.data && output.Length == SampleSize
    modifies s`swaps, s`frames, s.data
    ensures s.data[..] == output[..]
    ensures s.swaps == old(s.swaps) + SampleSize
  {
    for i := 0 to SampleSize
      invariant forall k :: 0 <= k < i ==> s.data[k] == output[k]
      invariant s.swaps == old(s.swaps) + i
    {
      s.data[i] := output[i];
      s.swaps := s.swaps + 1;
      s.Show(i, -1, -1, cfg);
    }
  }
}
