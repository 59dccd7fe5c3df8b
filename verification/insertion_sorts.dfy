/** The sorts that shift samples into place: insertion sort and Shell sort. */
module InsertionSorts {
  import opened SortSpec
  import opened SampleBuffer

  /** y is x with the element at i taken out and put back at position pos <= i, the elements
      x[pos .. i-1] each moving one place up to make room. */
  ghost predicate InsertedAt(x: seq<int>, y: seq<int>, i: int, pos: int) {
    |x| == |y| && 0 <= pos <= i < |x| &&
    y[pos] == x[i] &&
    (forall k :: 0 <= k < pos ==> y[k] == x[k]) &&
    (forall k :: pos < k <= i ==> y[k] == x[k - 1]) &&
    (forall k :: i < k < |x| ==> y[k] == x[k])
  }

  /** pos is where a right-to-left scan from i-1 stops: the first position whose left neighbour
      is at most x[i], everything from pos to i-1 being larger than x[i]. */
  ghost predicate ScanStopsAt(x: seq<int>, i: int, pos: int) {
    0 <= pos <= i < |x| &&
    (forall k :: pos <= k < i ==> x[k] > x[i]) &&
    (0 < pos ==> x[pos - 1] <= x[i])
  }

  /** Moving one element keeps the samples. */
  lemma InsertionPermutes(x: seq<int>, y: seq<int>, i: int, pos: int)
    requires InsertedAt(x, y, i, pos)
    ensures multiset(y) == multiset(x)
  {
    var before, moved, after := x[..pos], x[pos..i], x[i + 1..];
    assert x == before + moved + [x[i]] + after;
    var z := before + [x[i]] + moved + after;
    assert |z| == |y|;
    forall k | 0 <= k < |y| ensures y[k] == z[k] {
      if k < pos {
        assert z[k] == before[k];
      } else if k == pos {
      } else if k <= i {
        assert z[k] == moved[k - pos - 1];
      } else {
        assert z[k] == after[k - i - 1];
      }
    }
    assert y == z;
    calc {
      multiset(y);
      multiset(before) + multiset([x[i]]) + multiset(moved) + multiset(after);
      multiset(before) + multiset(moved) + multiset([x[i]]) + multiset(after);
      multiset(x);
    }
  }

  /** Inserted where the scan stops, the element extends a sorted prefix by one. */
  lemma InsertionExtendsPrefix(x: seq<int>, y: seq<int>, i: int, pos: int)
    requires InsertedAt(x, y, i, pos) && ScanStopsAt(x, i, pos)
    requires SortedPrefix(x, i)
    ensures SortedPrefix(y, i + 1)
  {
    forall p, q | 0 <= p < q < i + 1 ensures y[p] <= y[q] {
      if q < pos {
      } else if q == pos {
        assert y[p] == x[p] <= x[pos - 1];
      } else if p < pos {
        assert y[q] == x[q - 1];
      } else if p == pos {
        assert y[q] == x[q - 1];
      } else {
        assert y[p] == x[p - 1] && y[q] == x[q - 1];
      }
    }
  }

  /** When the prefix through i is already in order, the scan stops at once and nothing moves. */
  lemma InsertionOfInOrder(x: seq<int>, y: seq<int>, i: int, pos: int)
    requires InsertedAt(x, y, i, pos) && ScanStopsAt(x, i, pos)
    requires SortedPrefix(x, i + 1)
    ensures pos == i && y == x
  {
    if 0 < i {
      assert x[i - 1] <= x[i];
    }
    assert forall k :: 0 <= k < |x| ==> y[k] == x[k];
  }

  /** The inner loop of insertion sort: the sample at i is lifted out, the larger samples
      before it shift one place up, and it drops into the gap, at position pos. Every shift
      counts one comparison and one swap; a scan stopped by a smaller sample (rather than by
      the start of the buffer) counts one more comparison. */
  method InsertionPass(s: Samples, i: int, cfg: Config) returns (pos: int)
    requires s.Valid() && 1 <= i < SampleSize
    modifies s`comparisons, s`swaps, s`frames, s.data
    ensures InsertedAt(old(s.data[..]), s.data[..], i, pos)
    ensures ScanStopsAt(old(s.data[..]), i, pos)
    ensures s.swaps == old(s.swaps) + (i - pos)
    ensures s.comparisons == old(s.comparisons) + (i - pos) + if 0 < pos then 1 else 0
  {
    var a := s.data;
    var key := a[i];
    var j := i - 1;
    while j >= 0 && a[j] > key
      invariant -1 <= j <= i - 1
      invariant key == old(a[i])
      invariant forall k :: 0 <= k <= j ==> a[k] == old(a[k])
      invariant forall k :: j + 1 < k <= i ==> a[k] == old(a[k - 1])
      invariant forall k :: i < k < SampleSize ==> a[k] == old(a[k])
      invariant forall k :: j < k < i ==> old(a[k]) > key
      invariant s.swaps == old(s.swaps) + (i - 1 - j)
      invariant s.comparisons == old(s.comparisons) + (i - 1 - j)
      decreases j
    {
      s.comparisons := s.comparisons + 1;
      s.swaps := s.swaps + 1;
      a[j + 1] := a[j];
      j := j - 1;
      s.Show(j, j + 1, -1, cfg);
    }
    if j >= 0 {
      s.comparisons := s.comparisons + 1;
    }
    a[j + 1] := key;
    s.Show(i, j + 1, -1, cfg);
    pos := j + 1;
  }

  /** Pass i of insertion sort, on samples whose first i positions are in order: the first
      i+1 positions end in order. At most i comparisons are made, at least one per swap; on
      samples already in order the pass makes one comparison and moves nothing. */
  method InsertionRound(s: Samples, i: int, cfg: Config)
    requires s.Valid() && 1 <= i < SampleSize
    requires SortedPrefix(s.data[..], i)
    modifies s`comparisons, s`swaps, s`sortedUntil, s`frames, s.data
    ensures SortedPrefix(s.data[..], i + 1)
    ensures multiset(s.data[..]) == multiset(old(s.data[..]))
    ensures old(s.swaps) <= s.swaps
    ensures s.swaps - old(s.swaps) <= s.comparisons - old(s.comparisons) <= i
    ensures Sorted(old(s.data[..])) ==>
              Sorted(s.data[..]) && s.swaps == old(s.swaps) && s.comparisons == old(s.comparisons) + 1
    ensures s.sortedUntil == i - 1
  {
    s.sortedUntil := i - 1;
    ghost var before := s.data[..];
    var pos := InsertionPass(s, i, cfg);
    InsertionPermutes(before, s.data[..], i, pos);
    InsertionExtendsPrefix(before, s.data[..], i, pos);
    if Sorted(before) {
      InsertionOfInOrder(before, s.data[..], i, pos);
    }
  }

  /** Insertion sort: sorted and a permutation, with at most N(N-1)/2 comparisons and one
      swap per comparison at most; on samples already in order it makes N-1 comparisons,
      shifts nothing and leaves the buffer as it was. */
  method SortInsertion(s: Samples, cfg: Config)
    requires s.Valid()
    modifies s`comparisons, s`swaps, s`sortedUntil, s`frames, s.data
    ensures Sorted(s.data[..])
    ensures multiset(s.data[..]) == multiset(old(s.data[..]))
    ensures old(s.swaps) <= s.swaps
    ensures s.swaps - old(s.swaps) <= s.comparisons - old(s.comparisons) <= SampleSize * (SampleSize - 1) / 2
    ensures Sorted(old(s.data[..])) ==>
              s.data[..] == old(s.data[..]) && s.swaps == old(s.swaps) &&
              s.comparisons == old(s.comparisons) + SampleSize - 1
    ensures s.sortedUntil == SampleSize - 1
  {
    var a := s.data;
    var i := 1;
    while i < SampleSize
      invariant 1 <= i <= SampleSize
      invariant SortedPrefix(a[..], i)
      invariant multiset(a[..]) == multiset(old(a[..]))
      invariant old(s.swaps) <= s.swaps
      invariant s.swaps - old(s.swaps) <= s.comparisons - old(s.comparisons) <= Triangle(i)
      invariant Sorted(old(a[..])) ==>
                  Sorted(a[..]) && s.swaps == old(s.swaps) && s.comparisons == old(s.comparisons) + (i - 1)
    {
      InsertionRound(s, i, cfg);
      i := i + 1;
    }
    s.sortedUntil := SampleSize - 1;
    s.Show(-1, -1, -1, cfg);
    TriangleClosedForm(SampleSize);
    if Sorted(old(a[..])) {
      SortedPermutationIsUnique(a[..], old(a[..]));
    }
  }

  /** The state of the Shell-sort scan for position i of x: y is x with x[i] lifted out and a
      hole at j. Putting x[i] back into the hole restores the multiset of x; nothing before the
      hole or after i has moved; with gap 1 the samples between the hole and i are x[j .. i-1]
      moved one place up, each larger than x[i]. */
  ghost predicate Hole(x: seq<int>, y: seq<int>, gap: int, i: int, j: int) {
    |y| == |x| && 0 <= j <= i < |x| &&
    multiset(y[j := x[i]]) == multiset(x) &&
    (forall k :: 0 <= k < j ==> y[k] == x[k]) &&
    (forall k :: i < k < |x| ==> y[k] == x[k]) &&
    (gap == 1 ==>
      (forall k :: j < k <= i ==> y[k] == x[k - 1]) &&
      (forall k :: j <= k < i ==> x[k] > x[i]))
  }

  /** Lifting the sample at i out opens the hole at i. */
  lemma HoleOpens(x: seq<int>, gap: int, i: int)
    requires 0 <= i < |x|
    ensures Hole(x, x, gap, i, i)
  {
    assert x[i := x[i]] == x;
  }

  /** Copying the larger sample one gap below the hole into the hole moves the hole down. */
  lemma HoleStep(x: seq<int>, y: seq<int>, z: seq<int>, gap: int, i: int, j: int)
    requires Hole(x, y, gap, i, j) && 1 <= gap <= j && y[j - gap] > x[i]
    requires |z| == |y| && z[j] == y[j - gap]
    requires forall k :: 0 <= k < |y| && k != j ==> z[k] == y[k]
    ensures Hole(x, z, gap, i, j - gap)
  {
    HoleMoves(y, z, j - gap, j, x[i]);
  }

  /** Copying y[from] into position `to` and putting `held` back at `from` rearranges y with
      `held` at `to`. */
  lemma HoleMoves(y: seq<int>, z: seq<int>, from: int, to: int, held: int)
    requires 0 <= from < |y| && 0 <= to < |y| && |z| == |y| && z[to] == y[from]
    requires forall k :: 0 <= k < |y| && k != to ==> z[k] == y[k]
    ensures multiset(z[from := held]) == multiset(y[to := held])
  {
    assert z == y[to := y[from]];
    if from == to {
      assert z[from := held] == y[to := held];
    } else {
      assert multiset(z) == multiset(y) - multiset{y[to]} + multiset{y[from]};
      assert multiset(z) - multiset{z[from]} == multiset(y) - multiset{y[to]};
    }
  }

  /** Dropping the lifted sample into the hole where the scan stops permutes x; with gap 1 it is
      the insertion of x[i] at the hole. */
  lemma HoleFilled(x: seq<int>, y: seq<int>, z: seq<int>, gap: int, i: int, j: int)
    requires Hole(x, y, gap, i, j) && 1 <= gap
    requires j < gap || y[j - gap] <= x[i]
    requires z == y[j := x[i]]
    ensures multiset(z) == multiset(x)
    ensures gap == 1 ==> InsertedAt(x, z, i, j) && ScanStopsAt(x, i, j)
  {
  }

  /** One shift step of Shell sort: the sample at `from` is copied into `to`, counting one
      comparison and one swap. */
  method Shift(s: Samples, from: int, to: int, cfg: Config)
    requires s.Valid() && 0 <= from < SampleSize && 0 <= to < SampleSize
    modifies s`comparisons, s`swaps, s`frames, s.data
    ensures s.data[to] == old(s.data[from])
    ensures forall k :: 0 <= k < SampleSize && k != to ==> s.data[k] == old(s.data[k])
    ensures s.comparisons == old(s.comparisons) + 1 && s.swaps == old(s.swaps) + 1
  {
    s.comparisons := s.comparisons + 1;
    s.swaps := s.swaps + 1;
    s.data[to] := s.data[from];
    s.Show(to, from, -1, cfg);
  }

  /** The scan of Shell sort's inner loop: while the sample one gap below the hole is larger
      than the lifted sample `held`, it is copied up into the hole, and the hole moves one gap
      down. Every copy counts one comparison and one swap. */
  method ShiftLarger(s: Samples, gap: int, i: int, held: int, ghost x: seq<int>, cfg: Config) returns (j: int)
    requires s.Valid() && 1 <= gap <= i < SampleSize
    requires Hole(x, s.data[..], gap, i, i) && held == x[i]
    modifies s`comparisons, s`swaps, s`frames, s.data
    ensures Hole(x, s.data[..], gap, i, j)
    ensures j < gap || s.data[j - gap] <= held
    ensures old(s.swaps) <= s.swaps
    ensures s.swaps - old(s.swaps) == s.comparisons - old(s.comparisons)
  {
    var a := s.data;
    j := i;
    while j >= gap && a[j - gap] > held
      invariant 0 <= j <= i
      invariant Hole(x, a[..], gap, i, j)
      invariant old(s.swaps) <= s.swaps
      invariant s.swaps - old(s.swaps) == s.comparisons - old(s.comparisons)
      decreases j
    {
      ghost var before := a[..];
      Shift(s, j - gap, j, cfg);
      HoleStep(x, before, a[..], gap, i, j);
      j := j - gap;
    }
  }

  /** The inner loop of Shell sort for one position i: the sample at i is lifted out, the larger
      samples at i-gap, i-2gap, ... shift one gap up, and it drops into the gap at position pos.
      The samples are permuted; every shift counts one comparison and one swap, and a scan
      stopped by a smaller sample counts one more comparison. With gap 1 this is exactly one
      insertion-sort pass. */
  method ShellInsert(s: Samples, gap: int, i: int, cfg: Config) returns (pos: int)
    requires s.Valid() && 1 <= gap <= i < SampleSize
    modifies s`comparisons, s`swaps, s`frames, s.data
    ensures 0 <= pos <= i
    ensures multiset(s.data[..]) == multiset(old(s.data[..]))
    ensures gap == 1 ==> InsertedAt(old(s.data[..]), s.data[..], i, pos) && ScanStopsAt(old(s.data[..]), i, pos)
    ensures old(s.swaps) <= s.swaps
    ensures s.swaps - old(s.swaps) <= s.comparisons - old(s.comparisons) <= s.swaps - old(s.swaps) + 1
  {
    var a := s.data;
    ghost var x := a[..];
    var temp := a[i];
    HoleOpens(x, gap, i);
    var j := ShiftLarger(s, gap, i, temp, x, cfg);
    if j >= gap {
      s.comparisons := s.comparisons + 1;
    }
    ghost var before := a[..];
    a[j] := temp;
    HoleFilled(x, before, a[..], gap, i, j);
    s.Show(i, j, -1, cfg);
    pos := j;
  }

  /** All insertions for one gap: the samples are permuted, and the phase with gap 1, an
      insertion sort, leaves them sorted. */
  method ShellPhase(s: Samples, gap: int, cfg: Config)
    requires s.Valid() && 1 <= gap < SampleSize
    modifies s`comparisons, s`swaps, s`frames, s.data
    ensures gap == 1 ==> Sorted(s.data[..])
    ensures multiset(s.data[..]) == multiset(old(s.data[..]))
    ensures old(s.swaps) <= s.swaps
    ensures s.swaps - old(s.swaps) <= s.comparisons - old(s.comparisons)
  {
    var a := s.data;
    var i := gap;
    while i < SampleSize
      invariant gap <= i <= SampleSize
      invariant gap == 1 ==> SortedPrefix(a[..], i)
      invariant multiset(a[..]) == multiset(old(a[..]))
      invariant old(s.swaps) <= s.swaps
      invariant s.swaps - old(s.swaps) <= s.comparisons - old(s.comparisons)
    {
      ghost var before := a[..];
      var pos := ShellInsert(s, gap, i, cfg);
      if gap == 1 {
        InsertionExtendsPrefix(before, a[..], i, pos);
      }
      i := i + 1;
    }
  }

  /** Shell sort with the gaps N/2, N/4, ..., 1: the last phase is an insertion sort, so the
      samples end sorted; every phase only permutes them. */
  method SortShell(s: Samples, cfg: Config)
    requires s.Valid()
    modifies s`comparisons, s`swaps, s`frames, s.data
    ensures Sorted(s.data[..])
    ensures multiset(s.data[..]) == multiset(old(s.data[..]))
    ensures old(s.swaps) <= s.swaps
    ensures s.swaps - old(s.swaps) <= s.comparisons - old(s.comparisons)
  {
    var a := s.data;
    var gap := SampleSize / 2;
    while gap > 0
      invariant 0 <= gap <= SampleSize / 2
      invariant gap == 0 ==> Sorted(a[..])
      invariant multiset(a[..]) == multiset(old(a[..]))
      invariant old(s.swaps) <= s.swaps
      invariant s.swaps - old(s.swaps) <= s.comparisons - old(s.comparisons)
    {
      ShellPhase(s, gap, cfg);
      gap := gap / 2;
    }
    s.Show(-1, -1, -1, cfg);
  }
}
