/** Least-significant-digit radix sort: one stable distribution pass per decimal digit of the
    buffer's recorded maximum, lowest digit first. */
module RadixSort {
  import opened SortSpec
  import opened SampleBuffer
  import opened Buckets

  /** 10^e, the divisor `exp` of pass e. */
  function Pow10(e: nat): (p: int)
    ensures p >= 1
  {
    if e == 0 then 1 else 10 * Pow10(e - 1)
  }

  /** The number of decimal digits of m, which is the number of passes radix sort makes for a
      recorded maximum m (none when m is at most 0). */
  function DecimalDigits(m: int): nat
    decreases if m <= 0 then 0 else m
  {
    if m <= 0 then 0 else 1 + DecimalDigits(m / 10)
  }

  /** The last e decimal digits of v, as a number. */
  function Low(v: int, e: nat): int {
    v % Pow10(e)
  }

  /** Ordered by the last e decimal digits: what the first e passes establish. */
  ghost predicate LowSorted(s: seq<int>, e: nat) {
    forall p, q :: 0 <= p < q < |s| ==> Low(s[p], e) <= Low(s[q], e)
  }

  /** Quotient and remainder are determined by the division equation. */
  lemma DivisionUnique(u: int, n: int, q: int, t: int)
    requires n > 0 && 0 <= t < n && u == q * n + t
    ensures u / n == q && u % n == t
  {
    var q', t' := u / n, u % n;
    assert (q - q') * n == t' - t;
    if q > q' {
      MultipleAtLeast(q - q', n);
    } else if q < q' {
      MultipleAtLeast(q' - q, n);
    }
  }

  /** A positive multiple of a positive n is at least n. */
  lemma MultipleAtLeast(k: int, n: int)
    requires k >= 1 && n > 0
    ensures k * n >= n
  {
    var j := k - 1;
    assert k * n == j * n + n;
  }

  /** A digit below c, scaled by b, leaves room for a remainder below b under b * c. */
  lemma ScaledBelow(b: int, r: int, c: int)
    requires b > 0 && 0 <= r < c
    ensures b * r + b <= b * c
  {
    assert b * c == b * r + b * (c - r);
    MultipleAtLeast(c - r, b);
  }

  /** Dividing by b and then by c is dividing by b * c. */
  lemma DivideTwice(u: int, b: int, c: int)
    requires b > 0 && c > 0
    ensures (u / b) / c == u / (b * c)
  {
    var q1, r1 := u / b, u % b;
    var q2, r2 := q1 / c, q1 % c;
    assert u == (b * c) * q2 + (b * r2 + r1) by {
      assert q1 == c * q2 + r2;
      assert b * q1 == b * (c * q2) + b * r2;
    }
    ScaledBelow(b, r2, c);
    assert b * r2 + r1 < b * c;
    DivisionUnique(u, b * c, q2, b * r2 + r1);
  }

  /** Dropping the last e digits one at a time is dividing by 10^e: the key of pass e is the
      source's (v / exp) % 10. */
  lemma {:induction false} ShiftIsDivision(v: int, e: nat)
    ensures Shift(v, e) == v / Pow10(e)
  {
    if e > 0 {
      ShiftIsDivision(v, e - 1);
      DivideTwice(v, Pow10(e - 1), 10);
    }
  }

  /** The last e+1 digits of v are its digit of weight 10^e followed by its last e digits. */
  lemma LowStep(v: int, e: nat)
    ensures Low(v, e + 1) == Digit(v, Decimal(e)) * Pow10(e) + Low(v, e)
    ensures 0 <= Low(v, e) < Pow10(e)
  {
    ShiftIsDivision(v, e);
    SplitRemainder(v, Pow10(e));
    assert Pow10(e + 1) == Pow10(e) * 10;
  }

  /** The remainder by 10P is the digit of weight P followed by the remainder by P. */
  lemma SplitRemainder(v: int, P: int)
    requires P > 0
    ensures v % (P * 10) == ((v / P) % 10) * P + v % P
    ensures 0 <= v % P < P
  {
    var q, t := v / P, v % P;
    var d, h := q % 10, q / 10;
    Regroup(h, d, P);
    assert v == h * (P * 10) + (d * P + t);
    DigitBelow(d, t, P);
    DivisionUnique(v, P * 10, h, d * P + t);
  }

  /** (10h + d)P is h(10P) + dP. */
  lemma Regroup(h: int, d: int, P: int)
    ensures (h * 10 + d) * P == h * (P * 10) + d * P
  {
  }

  /** A digit of weight P followed by a remainder by P stays below 10P. */
  lemma DigitBelow(d: int, t: int, P: int)
    requires 0 <= d < 10 && 0 <= t < P
    ensures 0 <= d * P + t < P * 10
  {
    assert d * P <= 9 * P;
  }

  /** A smaller leading digit outweighs any lower digits. */
  lemma DigitOutweighs(d1: int, l1: int, d2: int, l2: int, P: int)
    requires d1 < d2 && 0 <= l1 < P && 0 <= l2 < P
    ensures d1 * P + l1 < d2 * P + l2
  {
    MultipleAtLeast(d2 - d1, P);
    assert d2 * P - d1 * P == (d2 - d1) * P;
  }

  /** How the order on e+1 digits follows from the digit of weight 10^e and the order on the
      last e digits. */
  lemma LowOrder(v: int, w: int, e: nat)
    requires Digit(v, Decimal(e)) < Digit(w, Decimal(e))
          || (Digit(v, Decimal(e)) == Digit(w, Decimal(e)) && Low(v, e) <= Low(w, e))
    ensures Low(v, e + 1) <= Low(w, e + 1)
  {
    LowStep(v, e);
    LowStep(w, e);
    if Digit(v, Decimal(e)) < Digit(w, Decimal(e)) {
      DigitOutweighs(Digit(v, Decimal(e)), Low(v, e), Digit(w, Decimal(e)), Low(w, e), Pow10(e));
    }
  }

  /** A selection keeps the order of the sequence it selects from: selecting from a sequence
      ordered on its last e digits gives a sequence ordered on its last e digits. This is the
      stability of a distribution pass. */
  lemma {:induction false} SelectKeepsLowOrder(s: seq<int>, key: Key, b: int, hi: int, e: nat)
    requires 0 <= hi <= |s| && LowSorted(s, e)
    ensures LowSorted(Select(s, key, b, 0, hi), e)
    decreases hi
  {
    if hi > 0 {
      SelectKeepsLowOrder(s, key, b, hi - 1, e);
      var p := Select(s, key, b, 0, hi - 1);
      if Digit(s[hi - 1], key) == b {
        SelectMembers(s, key, b, 0, hi - 1);
        var r := p + [s[hi - 1]];
        forall k | 0 <= k < |p| ensures Low(r[k], e) <= Low(s[hi - 1], e) {
          var j :| 0 <= j < hi - 1 && s[j] == p[k];
          assert r[k] == p[k];
        }
      }
    }
  }

  /** One distribution pass on digit e of a sequence ordered on its last e digits leaves it
      ordered on its last e+1 digits: the buckets come in digit order, and inside a bucket the
      earlier order is kept. */
  lemma {:induction false} BucketedLowSorted(s: seq<int>, e: nat, K: int)
    requires LowSorted(s, e)
    ensures LowSorted(Bucketed(s, Decimal(e), K), e + 1)
    decreases K
  {
    if K > 0 {
      var key := Decimal(e);
      BucketedLowSorted(s, e, K - 1);
      BucketedKeys(s, key, K - 1);
      SelectKeys(s, key, K - 1, 0, |s|);
      SelectKeepsLowOrder(s, key, K - 1, |s|, e);
      var B, F := Bucketed(s, key, K - 1), Filter(s, key, K - 1);
      assert Bucketed(s, key, K) == B + F;
      forall p, q | 0 <= p < q < |B + F| ensures Low((B + F)[p], e + 1) <= Low((B + F)[q], e + 1) {
        if q < |B| {
          assert (B + F)[p] == B[p] && (B + F)[q] == B[q];
        } else if p < |B| {
          assert (B + F)[p] == B[p] && (B + F)[q] == F[q - |B|];
          LowOrder(B[p], F[q - |B|], e);
        } else {
          assert (B + F)[p] == F[p - |B|] && (B + F)[q] == F[q - |B|];
          LowOrder(F[p - |B|], F[q - |B|], e);
        }
      }
    }
  }

  /** Before any pass every sequence is ordered on its last 0 digits. */
  lemma NoDigitsSorted(s: seq<int>)
    ensures LowSorted(s, 0)
  {
    forall k | 0 <= k < |s| ensures Low(s[k], 0) == 0 {
      DivisionUnique(s[k], 1, s[k], 0);
    }
  }

  /** Once 10^e exceeds every element, which are not negative, the last e digits are the
      whole value and the order on them is the order. */
  lemma AllDigitsSorted(s: seq<int>, e: nat)
    requires LowSorted(s, e)
    requires forall k :: 0 <= k < |s| ==> 0 <= s[k] < Pow10(e)
    ensures Sorted(s)
  {
    forall k | 0 <= k < |s| ensures Low(s[k], e) == s[k] {
      DivisionUnique(s[k], Pow10(e), 0, s[k]);
    }
  }

  /** Passes continue while m / 10^e is positive, which is for exactly DecimalDigits(m)
      passes. */
  lemma {:induction false} PassesWhileDigitsLeft(m: int, e: nat)
    ensures m / Pow10(e) > 0 <==> e < DecimalDigits(m)
    decreases e
  {
    ShiftIsDivision(m, e);
    if e > 0 {
      PassesWhileDigitsLeft(m / 10, e - 1);
      ShiftIsDivision(m / 10, e - 1);
      ShiftOfQuotient(m, e);
    }
    if m <= 0 {
      assert Shift(m, e) <= 0 by {
        ShiftIsDivision(m, e);
        DivisionUnique(m, Pow10(e), m / Pow10(e), m % Pow10(e));
      }
    }
  }

  /** Dropping e digits of m is dropping e-1 digits of m / 10. */
  lemma {:induction false} ShiftOfQuotient(m: int, e: nat)
    requires e > 0
    ensures Shift(m, e) == Shift(m / 10, e - 1)
    decreases e
  {
    if e > 1 {
      ShiftOfQuotient(m, e - 1);
    }
  }

  /** Every value from 0 to m has at most DecimalDigits(m) digits. */
  lemma {:induction false} BelowPowerOfDigits(v: int, m: int)
    requires 0 <= v <= m
    ensures v < Pow10(DecimalDigits(m))
    decreases m
  {
    if m > 0 {
      if v >= 10 {
        BelowPowerOfDigits(v / 10, m / 10);
      }
    }
  }

  /** The digit of weight exp = 10^e that the source computes as (v / exp) % 10. */
  method DigitOf(v: int, exp: int, ghost e: nat) returns (d: int)
    requires exp == Pow10(e) && 0 <= v
    ensures d == Digit(v, Decimal(e))
  {
    ShiftIsDivision(v, e);
    d := (v / exp) % 10;
  }

  /** After one pass per decimal digit of m, a rearrangement of non-negative samples is
      sorted when m bounds them all. */
  lemma DigitsOfMaxSuffice(x: seq<int>, y: seq<int>, m: int)
    requires NonNegative(x) && multiset(y) == multiset(x) && LowSorted(y, DecimalDigits(m))
    ensures (forall k :: 0 <= k < |x| ==> x[k] <= m) ==> Sorted(y)
  {
    if forall k :: 0 <= k < |x| ==> x[k] <= m {
      DigitsBelowMaxSorted(x, y, m);
    }
  }

  /** The same, once the bound is known to hold. */
  lemma DigitsBelowMaxSorted(x: seq<int>, y: seq<int>, m: int)
    requires NonNegative(x) && forall k :: 0 <= k < |x| ==> x[k] <= m
    requires multiset(y) == multiset(x) && LowSorted(y, DecimalDigits(m))
    ensures Sorted(y)
  {
    PermutationKeepsBound(x, y, v => 0 <= v <= m);
    forall k | 0 <= k < |y| ensures 0 <= y[k] < Pow10(DecimalDigits(m)) {
      BelowPowerOfDigits(y[k], m);
    }
    AllDigitsSorted(y, DecimalDigits(m));
  }

  /** No sample is negative: what the source needs to index its count array by a digit. */
  ghost predicate NonNegative(s: seq<int>) {
    forall k :: 0 <= k < |s| ==> 0 <= s[k]
  }

  /** What one distribution pass does to the whole sequence: it is rearranged, stays
      non-negative, and, when it was ordered on its last e digits, becomes ordered on one
      more low digit. */
  lemma PassOrdersNextDigit(x: seq<int>, y: seq<int>, e: nat)
    requires NonNegative(x)
    requires y == Bucketed(x, Decimal(e), Base(Decimal(e)))
    ensures multiset(y) == multiset(x)
    ensures NonNegative(y)
    ensures LowSorted(x, e) ==> LowSorted(y, e + 1)
  {
    BucketedPermutes(x, Decimal(e));
    if LowSorted(x, e) {
      BucketedLowSorted(x, e, Base(Decimal(e)));
    }
    PermutationKeepsBound(x, y, v => 0 <= v);
  }

  /** The first loop of one pass: every output slot is set to 1 and the samples are tallied
      by their digit of weight exp = 10^e, one comparison each. */
  method TallyDigits(s: Samples, exp: int, ghost e: nat, count: array<int>, output: array<int>)
    requires s.Valid() && exp == Pow10(e) && count.Length == 10 && output.Length == SampleSize
    requires count != s.data && output != s.data && count != output
    requires forall b :: 0 <= b < 10 ==> count[b] == 0
    requires forall k :: 0 <= k < SampleSize ==> 0 <= s.data[k]
    modifies count, output, s`comparisons
    ensures Tallied(count[..], s.data[..], Decimal(e))
    ensures forall k :: 0 <= k < SampleSize ==> output[k] == 1
    ensures s.comparisons == old(s.comparisons) + SampleSize
  {
    for i := 0 to SampleSize
      invariant forall b :: 0 <= b < 10 ==> count[b] == |Select(s.data[..], Decimal(e), b, 0, i)|
      invariant forall k :: 0 <= k < i ==> output[k] == 1
      invariant s.comparisons == old(s.comparisons) + i
    {
      output[i] := 1;
      var d := DigitOf(s.data[i], exp, e);
      count[d] := count[d] + 1;
      s.comparisons := s.comparisons + 1;
    }
  }

  /** The placement loop of one pass, from the last sample to the first: each sample goes
      into the last free slot of its digit's bucket, one swap each. The output then holds
      the buckets in digit order, each keeping the order of the samples: a rearrangement
      that extends an order on the last e digits to the last e + 1. */
  method PlaceByDigit(s: Samples, exp: int, ghost e: nat, count: array<int>, output: array<int>, cfg: Config)
    requires s.Valid() && exp == Pow10(e) && count.Length == 10 && output.Length == SampleSize
    requires count != s.data && output != s.data && count != output
    requires NonNegative(s.data[..])
    requires forall b :: 0 <= b < 10 ==> count[b] == End(s.data[..], Decimal(e), b)
    modifies count, output, s`swaps, s`frames
    ensures multiset(output[..]) == multiset(s.data[..])
    ensures NonNegative(output[..])
    ensures LowSorted(s.data[..], e) ==> LowSorted(output[..], e + 1)
    ensures s.swaps == old(s.swaps) + SampleSize
  {
    ghost var x, key := s.data[..], Decimal(e);
    ghost var starts, ends := Starts(x, key), Ends(x, key);
    StartsApart(x, key);
    NothingPlacedFrom(output[..], count[..], x, key, starts, ends);
    var i := SampleSize - 1;
    while i >= 0
      invariant -1 <= i < SampleSize
      invariant PlacedFrom(output[..], count[..], x, key, i + 1, starts, ends)
      invariant s.swaps == old(s.swaps) + (SampleSize - 1 - i)
    {
      PlaceOne(s, exp, e, count, output, i, x, starts, ends, cfg);
      i := i - 1;
    }
    PlacedDigitsOrdered(output[..], count[..], x, e);
  }

  /** Once the backward loop has placed every sample, the output is a rearrangement of the
      samples that extends an order on the last e digits to the last e + 1. */
  lemma PlacedDigitsOrdered(out: seq<int>, count: seq<int>, x: seq<int>, e: nat)
    requires |count| == Base(Decimal(e)) && NonNegative(x)
    requires PlacedFrom(out, count, x, Decimal(e), 0, Starts(x, Decimal(e)), Ends(x, Decimal(e)))
    ensures multiset(out) == multiset(x)
    ensures NonNegative(out)
    ensures LowSorted(x, e) ==> LowSorted(out, e + 1)
  {
    PlacedFromAll(out, count, x, Decimal(e));
    PassOrdersNextDigit(x, out, e);
  }

  /** One step of the placement loop: sample i goes into the last free slot of its digit's
      bucket, and the samples from position i on are then all placed. */
  method PlaceOne(s: Samples, exp: int, ghost e: nat, count: array<int>, output: array<int>, i: int,
                  ghost x: seq<int>, ghost starts: seq<int>, ghost ends: seq<int>, cfg: Config)
    requires s.Valid() && exp == Pow10(e) && count.Length == 10 && output.Length == SampleSize
    requires count != s.data && output != s.data && count != output
    requires s.data[..] == x && 0 <= i < SampleSize && 0 <= x[i]
    requires Apart(starts, ends, x, Decimal(e))
    requires PlacedFrom(output[..], count[..], x, Decimal(e), i + 1, starts, ends)
    modifies count, output, s`swaps, s`frames
    ensures PlacedFrom(output[..], count[..], x, Decimal(e), i, starts, ends)
    ensures s.swaps == old(s.swaps) + 1
  {
    ghost var key := Decimal(e);
    ghost var out0, count0 := output[..], count[..];
    var d := DigitOf(s.data[i], exp, e);
    SlotBackward(out0, count0, x, key, i, starts, ends);
    PutBelow(output, count, d, s.data[i]);
    PlaceBackward(out0, count0, x, key, i, d, starts, ends, output[..], count[..]);
    s.swaps := s.swaps + 1;
    s.Show(i, -1, -1, cfg);
  }

  /** count_sort_radix: one pass of radix sort on the digit of weight exp = 10^e. The
      samples, which must not be negative since the source indexes its count array with
      (v / exp) % 10, are replaced by their stable distribution into the ten digit buckets:
      they are rearranged, stay non-negative, and an order on the last e digits becomes an
      order on the last e + 1; N comparisons (tallies) and 2N swaps (placements and
      copies). */
  method CountSortRadix(s: Samples, exp: int, ghost e: nat, cfg: Config)
    requires s.Valid() && exp == Pow10(e)
    requires NonNegative(s.data[..])
    modifies s`comparisons, s`swaps, s`frames, s.data
    ensures multiset(s.data[..]) == multiset(old(s.data[..]))
    ensures NonNegative(s.data[..])
    ensures LowSorted(old(s.data[..]), e) ==> LowSorted(s.data[..], e + 1)
    ensures s.comparisons == old(s.comparisons) + SampleSize
    ensures s.swaps == old(s.swaps) + 2 * SampleSize
  {
    ghost var x := s.data[..];
    forall k | 0 <= k < SampleSize ensures 0 <= s.data[k] {
      assert s.data[k] == x[k];
    }
    var output := new int[SampleSize];
    var count := new int[10](_ => 0);
    TallyDigits(s, exp, e, count, output);
    assert s.data[..] == x;
    PrefixSums(count, x, Decimal(e));
    PlaceByDigit(s, exp, e, count, output, cfg);
    ghost var placed := output[..];
    CopyBack(s, output, cfg);
    assert s.data[..] == placed;
  }

  /** sample_sort_radix: one pass per decimal digit of the recorded maximum `max`. The samples
      are always rearranged and ordered on that many low digits, so they end up sorted
      whenever `max` bounds them. */
  method SortRadix(s: Samples, cfg: Config)
    requires s.Valid()
    requires NonNegative(s.data[..])
    modifies s`comparisons, s`swaps, s`frames, s.data
    ensures multiset(s.data[..]) == multiset(old(s.data[..]))
    ensures LowSorted(s.data[..], DecimalDigits(s.max))
    ensures (forall k :: 0 <= k < SampleSize ==> old(s.data[k]) <= s.max) ==> Sorted(s.data[..])
    ensures s.comparisons == old(s.comparisons) + SampleSize * DecimalDigits(s.max)
    ensures s.swaps == old(s.swaps) + 2 * SampleSize * DecimalDigits(s.max)
  {
    var m := s.max;
    var exp := 1;
    ghost var e: nat := 0;
    NoDigitsSorted(s.data[..]);
    while m / exp > 0
      invariant exp == Pow10(e) && e <= DecimalDigits(m)
      invariant multiset(s.data[..]) == multiset(old(s.data[..]))
      invariant NonNegative(s.data[..]) && LowSorted(s.data[..], e)
      invariant s.comparisons == old(s.comparisons) + SampleSize * e
      invariant s.swaps == old(s.swaps) + 2 * SampleSize * e
      decreases DecimalDigits(m) - e
    {
      PassesWhileDigitsLeft(m, e);
      CountSortRadix(s, exp, e, cfg);
      exp := exp * 10;
      e := e + 1;
    }
    PassesWhileDigitsLeft(m, e);
    s.Show(-1, -1, -1, cfg);
    DigitsOfMaxSuffice(old(s.data[..]), s.data[..], m);
  }
}
