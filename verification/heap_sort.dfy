/** Heap sort over the sample buffer: the array is a binary max-heap in which the children
    of position p are 2p+1 and 2p+2. */
module HeapSort {
  import opened SortSpec
  import opened SampleBuffer

  /** Position c is a child of position p. */
  predicate IsChild(p: int, c: int) {
    c == 2 * p + 1 || c == 2 * p + 2
  }

  /** Every position c of [0, n) whose parent p is at least lo holds at most its parent's
      sample: the subtrees rooted at lo and after are heaps. */
  ghost predicate Heap(s: seq<int>, n: int, lo: int) {
    0 <= n <= |s| && forall p, c :: 0 <= lo <= p && 0 <= c < n && IsChild(p, c) ==> s[c] <= s[p]
  }

  /** As Heap, except that the children of position i may exceed it. */
  ghost predicate HeapExcept(s: seq<int>, n: int, lo: int, i: int) {
    0 <= n <= |s| && forall p, c :: 0 <= lo <= p != i && 0 <= c < n && IsChild(p, c) ==> s[c] <= s[p]
  }

  /** The children of position i hold at most the sample of i's parent, when that parent is
      at least lo: what lets the sample at i be replaced by its larger child. */
  ghost predicate ChildrenBelowGrandparent(s: seq<int>, n: int, lo: int, i: int) {
    0 <= n <= |s| &&
    forall g, c :: 0 <= lo <= g && IsChild(g, i) && 0 <= c < n && IsChild(i, c) ==> s[c] <= s[g]
  }

  /** The root of a heap holds its largest sample. */
  lemma {:induction false} RootIsLargest(s: seq<int>, n: int, k: int)
    requires Heap(s, n, 0) && 0 <= k < n
    ensures s[k] <= s[0]
    decreases k
  {
    if k > 0 {
      var p := (k - 1) / 2;
      assert IsChild(p, k);
      RootIsLargest(s, n, p);
    }
  }

  /** Sifting stops: when position i already holds at least each of its children, the
      exception at i is gone. */
  lemma SiftDone(x: seq<int>, n: int, lo: int, i: int)
    requires HeapExcept(x, n, lo, i) && 0 <= lo <= i
    requires forall c :: 0 <= c < n && IsChild(i, c) ==> x[c] <= x[i]
    ensures Heap(x, n, lo)
  {
  }

  /** Sifting one level down: exchanging position i with its larger child c, when that child
      exceeds it, moves the exception from i to c. */
  lemma SiftStep(x: seq<int>, y: seq<int>, n: int, lo: int, i: int, c: int)
    requires HeapExcept(x, n, lo, i) && ChildrenBelowGrandparent(x, n, lo, i) && 0 <= lo <= i
    requires c < n && IsChild(i, c) && x[i] < x[c]
    requires forall d :: 0 <= d < n && IsChild(i, d) ==> x[d] <= x[c]
    requires |y| == |x| && y[i] == x[c] && y[c] == x[i]
    requires forall k :: 0 <= k < |x| && k != i && k != c ==> y[k] == x[k]
    ensures HeapExcept(y, n, lo, c) && ChildrenBelowGrandparent(y, n, lo, c)
  {
    forall p, d | lo <= p != c && 0 <= d < n && IsChild(p, d) ensures y[d] <= y[p] {
      if p == i {
      } else if d == i {
      } else if d == c {
      }
    }
  }

  /** The first half of `heapify`: the position among i and its children inside [0, n) that
      holds the largest sample, preferring i, then the left child, on ties. One comparison is
      counted per child inside [0, n). */
  method LargestOfFamily(s: Samples, n: int, i: int) returns (largest: int)
    requires s.Valid() && 0 <= i && n <= SampleSize
    modifies s`comparisons
    ensures largest == i || (largest < n && IsChild(i, largest))
    ensures largest != i ==> 0 <= i < n && s.data[i] < s.data[largest]
    ensures forall c :: 0 <= c < n && IsChild(i, c) ==> s.data[c] <= s.data[largest]
    ensures old(s.comparisons) + (if largest != i then 1 else 0) <= s.comparisons <= old(s.comparisons) + 2
  {
    largest := i;
    var left := 2 * i + 1;
    var right := 2 * i + 2;
    if left < n {
      s.comparisons := s.comparisons + 1;
      if s.data[left] > s.data[largest] {
        largest := left;
      }
    }
    if right < n {
      s.comparisons := s.comparisons + 1;
      if s.data[right] > s.data[largest] {
        largest := right;
      }
    }
  }

  /** `heapify`: sifts the sample at i down the heap on positions [0, n) until it is at least
      both its children. Whenever the subtrees after lo were heaps except at i, they all are
      afterwards; only positions i .. n-1 change, and only by a rearrangement. Each swap is
      preceded by at least one comparison. */
  method Heapify(s: Samples, n: int, i: int, ghost lo: int, cfg: Config)
    requires s.Valid() && 0 <= lo <= i && n <= SampleSize
    requires HeapExcept(s.data[..], n, lo, i) && ChildrenBelowGrandparent(s.data[..], n, lo, i)
    modifies s`comparisons, s`swaps, s`frames, s.data
    ensures Heap(s.data[..], n, lo)
    ensures forall k :: 0 <= k < SampleSize && (k < i || n <= k) ==> s.data[k] == old(s.data[k])
    ensures multiset(s.data[..]) == multiset(old(s.data[..]))
    ensures old(s.swaps) <= s.swaps
    ensures s.swaps - old(s.swaps) <= s.comparisons - old(s.comparisons)
    decreases n - i
  {
    var largest := LargestOfFamily(s, n, i);
    if largest != i {
      ghost var before := s.data[..];
      s.Swap(i, largest);
      SiftStep(before, s.data[..], n, lo, i, largest);
      s.Show(i, n, largest, cfg);
      Heapify(s, n, largest, lo, cfg);
    } else {
      SiftDone(s.data[..], n, lo, i);
    }
  }

  /** Builds a heap on the whole buffer: heapify from the last parent N/2-1 back to the root. */
  method BuildHeap(s: Samples, cfg: Config)
    requires s.Valid()
    modifies s`comparisons, s`swaps, s`frames, s.data
    ensures Heap(s.data[..], SampleSize, 0)
    ensures multiset(s.data[..]) == multiset(old(s.data[..]))
    ensures old(s.swaps) <= s.swaps
    ensures s.swaps - old(s.swaps) <= s.comparisons - old(s.comparisons)
  {
    var i := SampleSize / 2 - 1;
    while i >= 0
      invariant -1 <= i <= SampleSize / 2 - 1
      invariant Heap(s.data[..], SampleSize, i + 1)
      invariant multiset(s.data[..]) == multiset(old(s.data[..]))
      invariant old(s.swaps) <= s.swaps
      invariant s.swaps - old(s.swaps) <= s.comparisons - old(s.comparisons)
    {
      Heapify(s, SampleSize, i, i, cfg);
      i := i - 1;
    }
  }

  /** One extraction step of heap sort on the heap [0, i]: the root, the largest sample of the
      heap, is exchanged to position i and the shortened heap [0, i) is repaired. Position i
      joins the settled suffix. */
  method ExtractMax(s: Samples, i: int, cfg: Config)
    requires s.Valid() && 0 <= i < SampleSize
    requires Heap(s.data[..], i + 1, 0) && SettledFrom(s.data[..], i + 1)
    modifies s`comparisons, s`swaps, s`frames, s.data
    ensures Heap(s.data[..], i, 0) && SettledFrom(s.data[..], i)
    ensures multiset(s.data[..]) == multiset(old(s.data[..]))
    ensures old(s.swaps) + 1 <= s.swaps
    ensures s.swaps - old(s.swaps) <= s.comparisons - old(s.comparisons) + 1
  {
    ghost var x := s.data[..];
    forall k | 0 <= k < i + 1 ensures x[k] <= x[0] {
      RootIsLargest(x, i + 1, k);
    }
    s.Swap(0, i);
    ghost var y := s.data[..];
    assert SettledFrom(y, i) by {
      PassSettlesLast(x, y, 0, i + 1);
    }
    assert HeapExcept(y, i, 0, 0);
    s.Show(0, i, -1, cfg);
    Heapify(s, i, 0, 0, cfg);
    WindowKeepsSettled(y, s.data[..], 0, i);
  }

  /** Heap sort: sorted and a permutation. Every one of the N extraction steps makes one
      swap, the last one exchanging the root with itself. */
  method SortHeap(s: Samples, cfg: Config)
    requires s.Valid()
    modifies s`comparisons, s`swaps, s`frames, s.data
    ensures Sorted(s.data[..])
    ensures multiset(s.data[..]) == multiset(old(s.data[..]))
    ensures old(s.swaps) + SampleSize <= s.swaps
    ensures s.swaps - old(s.swaps) <= s.comparisons - old(s.comparisons) + SampleSize
  {
    BuildHeap(s, cfg);
    var i := SampleSize - 1;
    while i >= 0
      invariant -1 <= i <= SampleSize - 1
      invariant Heap(s.data[..], i + 1, 0) && SettledFrom(s.data[..], i + 1)
      invariant multiset(s.data[..]) == multiset(old(s.data[..]))
      invariant old(s.swaps) + (SampleSize - 1 - i) <= s.swaps
      invariant s.swaps - old(s.swaps) <= s.comparisons - old(s.comparisons) + (SampleSize - 1 - i)
    {
      ExtractMax(s, i, cfg);
      i := i - 1;
    }
    SettledWindowClosed(s.data[..], 0, 0);
    s.Show(-1, -1, -1, cfg);
  }
}
