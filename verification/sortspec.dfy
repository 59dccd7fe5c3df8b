/** Order and permutation facts shared by every sort of the engine. */
module SortSpec {

  /** Every earlier element is at most every later one. */
  ghost predicate Sorted(s: seq<int>) {
    forall p, q :: 0 <= p < q < |s| ==> s[p] <= s[q]
  }

  /** Each element is at most its right neighbour: the test `sample_is_sorted` performs. */
  ghost predicate AdjacentSorted(s: seq<int>) {
    forall k :: 0 <= k < |s| - 1 ==> s[k] <= s[k + 1]
  }

  /** The first n elements are in order. */
  ghost predicate SortedPrefix(s: seq<int>, n: int) {
    n <= |s| && forall p, q :: 0 <= p < q < n ==> s[p] <= s[q]
  }

  /** The samples at positions lo .. hi are in order. */
  ghost predicate SortedBetween(s: seq<int>, lo: int, hi: int) {
    forall p, q :: 0 <= lo <= p < q <= hi < |s| ==> s[p] <= s[q]
  }

  /** The first `lo` elements are in their final places: each is at most everything after it. */
  ghost predicate SettledBelow(s: seq<int>, lo: int) {
    forall p, q :: 0 <= p < q < |s| && p < lo ==> s[p] <= s[q]
  }

  /** The elements from `hi` on are in their final places: each is at least everything before it. */
  ghost predicate SettledFrom(s: seq<int>, hi: int) {
    forall p, q :: 0 <= p < q < |s| && hi <= q ==> s[p] <= s[q]
  }

  /** Once the unsettled window between the two settled ends holds at most one element, the
      whole sequence is sorted. */
  lemma SettledWindowClosed(s: seq<int>, lo: int, hi: int)
    requires SettledBelow(s, lo) && SettledFrom(s, hi) && hi <= lo + 1
    ensures Sorted(s)
  {
  }

  /** Settled ends stay settled when a step only rearranges the window [lo, hi) between them:
      a rearrangement of the whole sequence that leaves everything outside the window in place
      keeps every window element between the settled neighbours of the window. */
  lemma WindowKeepsSettled(x: seq<int>, y: seq<int>, lo: int, hi: int)
    requires |x| == |y| && 0 <= lo <= hi <= |x|
    requires SettledBelow(x, lo) && SettledFrom(x, hi)
    requires multiset(x) == multiset(y)
    requires forall k :: 0 <= k < |x| && (k < lo || hi <= k) ==> y[k] == x[k]
    ensures SettledBelow(y, lo) && SettledFrom(y, hi)
  {
    assert x[..lo] == y[..lo];
    assert x[hi..] == y[hi..];
    PermutationOfRange(x, y, lo, hi);
    var P := v => (0 < lo ==> x[lo - 1] <= v) && (hi < |x| ==> v <= x[hi]);
    forall k | 0 <= k < hi - lo ensures P(x[lo..hi][k]) {
      assert x[lo..hi][k] == x[lo + k];
    }
    PermutationKeepsBound(x[lo..hi], y[lo..hi], P);
    forall q | lo <= q < hi ensures P(y[q]) {
      assert y[q] == y[lo..hi][q - lo];
    }
    forall p, q | 0 <= p < q < |y| && p < lo ensures y[p] <= y[q] {
      if q < lo || hi <= q {
        assert x[p] <= x[q];
      } else {
        assert P(y[q]);
        assert x[p] <= x[lo - 1];
      }
    }
    forall p, q | 0 <= p < q < |y| && hi <= q ensures y[p] <= y[q] {
      if p < lo || hi <= p {
        assert x[p] <= x[q];
      } else {
        assert P(y[p]);
        assert x[hi] <= x[q];
      }
    }
  }

  /** A pass that rearranges only the window [lo, hi) between settled ends and leaves the
      window's largest element last settles one more position at the top. */
  lemma PassSettlesLast(x: seq<int>, y: seq<int>, lo: int, hi: int)
    requires |x| == |y| && 0 <= lo < hi <= |x|
    requires SettledBelow(x, lo) && SettledFrom(x, hi)
    requires multiset(x) == multiset(y)
    requires forall k :: 0 <= k < |x| && (k < lo || hi <= k) ==> y[k] == x[k]
    requires forall p :: lo <= p < hi - 1 ==> y[p] <= y[hi - 1]
    ensures SettledBelow(y, lo) && SettledFrom(y, hi - 1)
  {
    WindowKeepsSettled(x, y, lo, hi);
  }

  /** A pass that rearranges only the window [lo, hi) between settled ends and leaves the
      window's smallest element first settles one more position at the bottom. */
  lemma PassSettlesFirst(x: seq<int>, y: seq<int>, lo: int, hi: int)
    requires |x| == |y| && 0 <= lo < hi <= |x|
    requires SettledBelow(x, lo) && SettledFrom(x, hi)
    requires multiset(x) == multiset(y)
    requires forall k :: 0 <= k < |x| && (k < lo || hi <= k) ==> y[k] == x[k]
    requires forall q :: lo < q < hi ==> y[lo] <= y[q]
    ensures SettledBelow(y, lo + 1) && SettledFrom(y, hi)
  {
    WindowKeepsSettled(x, y, lo, hi);
  }

  /** A pass that rearranges only the window [lo, hi) between settled ends and leaves the
      window in order leaves the whole sequence sorted. */
  lemma PassOrdersWindow(x: seq<int>, y: seq<int>, lo: int, hi: int)
    requires |x| == |y| && 0 <= lo <= hi <= |x|
    requires SettledBelow(x, lo) && SettledFrom(x, hi)
    requires multiset(x) == multiset(y)
    requires forall k :: 0 <= k < |x| && (k < lo || hi <= k) ==> y[k] == x[k]
    requires forall p, q :: lo <= p < q < hi ==> y[p] <= y[q]
    ensures Sorted(y)
  {
    WindowKeepsSettled(x, y, lo, hi);
  }

  /** The neighbour test decides full sortedness. */
  lemma {:induction false} AdjacentSortedIffSorted(s: seq<int>)
    ensures AdjacentSorted(s) <==> Sorted(s)
  {
    if AdjacentSorted(s) && |s| > 1 {
      var t := s[1..];
      assert AdjacentSorted(t) by {
        forall k | 0 <= k < |t| - 1 ensures t[k] <= t[k + 1] {
          assert t[k] == s[k + 1] && t[k + 1] == s[k + 2];
        }
      }
      AdjacentSortedIffSorted(t);
      forall p, q | 0 <= p < q < |s| ensures s[p] <= s[q] {
        if p > 0 {
          assert s[p] == t[p - 1] && s[q] == t[q - 1];
        } else if q > 1 {
          assert s[1] == t[0] && s[q] == t[q - 1];
        }
      }
    }
  }

  /** Two sorted arrangements of the same multiset are the same sequence: any correct sort
      of a buffer yields exactly the reference result the test suite builds by bubble sort,
      and sorting a sorted buffer leaves its values unchanged. */
  lemma {:induction false} SortedPermutationIsUnique(x: seq<int>, y: seq<int>)
    requires Sorted(x) && Sorted(y)
    requires multiset(x) == multiset(y)
    ensures x == y
  {
    if |x| == 0 {
      assert |multiset(y)| == 0;
    } else {
      assert |y| == |multiset(y)| == |multiset(x)| == |x|;
      SortedHeadsAgree(x, y);
      assert x == [x[0]] + x[1..];
      assert y == [y[0]] + y[1..];
      assert multiset(x) == multiset{x[0]} + multiset(x[1..]);
      assert multiset(y) == multiset{y[0]} + multiset(y[1..]);
      assert multiset(x[1..]) == multiset(x) - multiset{x[0]};
      assert multiset(y[1..]) == multiset(y) - multiset{y[0]};
      SortedTail(x);
      SortedTail(y);
      SortedPermutationIsUnique(x[1..], y[1..]);
    }
  }

  /** The first elements of two sorted arrangements of one multiset coincide. */
  lemma SortedHeadsAgree(x: seq<int>, y: seq<int>)
    requires Sorted(x) && Sorted(y) && |x| > 0 && |y| > 0
    requires multiset(x) == multiset(y)
    ensures x[0] == y[0]
  {
    assert x[0] in multiset(y);
    assert y[0] in multiset(x);
    var i :| 0 <= i < |y| && y[i] == x[0];
    var j :| 0 <= j < |x| && x[j] == y[0];
  }

  /** Dropping the first element keeps a sequence sorted. */
  lemma SortedTail(x: seq<int>)
    requires Sorted(x) && |x| > 0
    ensures Sorted(x[1..])
  {
    forall p, q | 0 <= p < q < |x| - 1 ensures x[1..][p] <= x[1..][q] {
      assert x[1..][p] == x[p + 1] && x[1..][q] == x[q + 1];
    }
  }

  /** A property of every element carries over to any rearrangement. */
  lemma {:induction false} PermutationKeepsBound(x: seq<int>, y: seq<int>, P: int -> bool)
    requires multiset(x) == multiset(y)
    requires forall k :: 0 <= k < |x| ==> P(x[k])
    ensures forall k :: 0 <= k < |y| ==> P(y[k])
  {
    forall k | 0 <= k < |y| ensures P(y[k]) {
      assert y[k] in multiset(x);
      var i :| 0 <= i < |x| && x[i] == y[k];
    }
  }

  /** When two equally long sequences agree outside [lo, hi), they are permutations of each
      other exactly when their [lo, hi) parts are. */
  lemma PermutationOfRange(x: seq<int>, y: seq<int>, lo: int, hi: int)
    requires |x| == |y| && 0 <= lo <= hi <= |x|
    requires x[..lo] == y[..lo] && x[hi..] == y[hi..]
    ensures multiset(x) == multiset(y) <==> multiset(x[lo..hi]) == multiset(y[lo..hi])
  {
    ThreeParts(x, lo, hi);
    ThreeParts(y, lo, hi);
    var outside := multiset(x[..lo]) + multiset(x[hi..]);
    if multiset(x) == multiset(y) {
      assert multiset(x[lo..hi]) == multiset(x) - outside;
      assert multiset(y[lo..hi]) == multiset(y) - outside;
    }
  }

  /** A sequence holds what its three consecutive parts hold. */
  lemma ThreeParts(x: seq<int>, lo: int, hi: int)
    requires 0 <= lo <= hi <= |x|
    ensures multiset(x) == multiset(x[lo..hi]) + (multiset(x[..lo]) + multiset(x[hi..]))
  {
    assert x == x[..lo] + x[lo..hi] + x[hi..];
  }

  /** 0 + 1 + ... + (n-1): the most comparisons insertion into prefixes of length 1 .. n-1 makes. */
  function Triangle(n: nat): nat {
    if n == 0 then 0 else Triangle(n - 1) + (n - 1)
  }

  /** Closed form of the triangle number. */
  lemma {:induction false} TriangleClosedForm(n: nat)
    ensures 2 * Triangle(n) == n * (n - 1)
  {
    if n > 0 {
      TriangleClosedForm(n - 1);
    }
  }

  /** Number of comparisons made by the passes 0 .. i-1 of a pairwise loop over n
      elements, where pass k compares its element with the n-1-k later ones. */
  function PairsBefore(n: int, i: nat): int {
    if i == 0 then 0 else PairsBefore(n, i - 1) + (n - i)
  }

  /** Closed form of the pair count: all n-1 passes make n(n-1)/2 comparisons. */
  lemma {:induction false} PairsBeforeClosedForm(n: int, i: nat)
    ensures 2 * PairsBefore(n, i) == i * (2 * n - 1 - i)
  {
    if i > 0 {
      PairsBeforeClosedForm(n, i - 1);
    }
  }
}
