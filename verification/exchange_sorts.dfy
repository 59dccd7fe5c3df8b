/** The sorts that only compare and exchange: interchange, selection, bubble, cocktail and comb.
    The inner loop of each sort is written as a pass method of its own, so that each loop is
    proved against the contract of one pass. */
module ExchangeSorts {
  import opened SortSpec
  import opened SampleBuffer

  /** The compare-and-exchange step of interchange and bubble sort: counts one comparison and
      exchanges positions x and y exactly when the sample at x is larger, animating the
      exchange when smooth transitions are on. Afterwards the sample at x is at most the one
      at y. */
  method CompareSwapAnimated(s: Samples, x: int, y: int, cfg: Config) returns (exchanged: bool)
    requires s.Valid() && 0 <= x < SampleSize && 0 <= y < SampleSize && x != y
    modifies s`comparisons, s`swaps, s`frames, s.data
    ensures exchanged <==> old(s.data[x]) > old(s.data[y])
    ensures s.data[x] == if exchanged then old(s.data[y]) else old(s.data[x])
    ensures s.data[y] == if exchanged then old(s.data[x]) else old(s.data[y])
    ensures forall k :: 0 <= k < SampleSize && k != x && k != y ==> s.data[k] == old(s.data[k])
    ensures multiset(s.data[..]) == multiset(old(s.data[..]))
    ensures s.comparisons == old(s.comparisons) + 1
    ensures s.swaps == old(s.swaps) + if exchanged then 1 else 0
  {
    s.comparisons := s.comparisons + 1;
    exchanged := s.data[x] > s.data[y];
    if exchanged {
      if cfg.smoothTransitions {
        s.SwapAnimated(x, y, x, y, -1, cfg);
      } else {
        s.Swap(x, y);
        s.Show(x, y, -1, cfg);
      }
    } else {
      s.Show(x, y, -1, cfg);
    }
  }

  /** The compare-and-exchange step of cocktail and comb sort: as CompareSwapAnimated, but
      always with a plain exchange and one frame drawn after it. */
  method CompareSwap(s: Samples, x: int, y: int, cfg: Config) returns (exchanged: bool)
    requires s.Valid() && 0 <= x < SampleSize && 0 <= y < SampleSize && x != y
    modifies s`comparisons, s`swaps, s`frames, s.data
    ensures exchanged <==> old(s.data[x]) > old(s.data[y])
    ensures s.data[x] == if exchanged then old(s.data[y]) else old(s.data[x])
    ensures s.data[y] == if exchanged then old(s.data[x]) else old(s.data[y])
    ensures forall k :: 0 <= k < SampleSize && k != x && k != y ==> s.data[k] == old(s.data[k])
    ensures multiset(s.data[..]) == multiset(old(s.data[..]))
    ensures s.comparisons == old(s.comparisons) + 1
    ensures s.swaps == old(s.swaps) + if exchanged then 1 else 0
    ensures s.frames == old(s.frames) + if cfg.visualize then [Frame(x, y, -1)] else []
  {
    s.comparisons := s.comparisons + 1;
    exchanged := s.data[x] > s.data[y];
    if exchanged {
      s.Swap(x, y);
    }
    s.Show(x, y, -1, cfg);
  }

  /** One interchange pass: position i is compared with every later position and takes the
      smaller sample each time, so that it ends holding the least of positions i .. N-1.
      Positions before i are not touched. */
  method InterchangePass(s: Samples, i: int, cfg: Config)
    requires s.Valid() && 0 <= i < SampleSize - 1
    modifies s`comparisons, s`swaps, s`frames, s.data
    ensures forall q :: i < q < SampleSize ==> s.data[i] <= s.data[q]
    ensures forall k :: 0 <= k < i ==> s.data[k] == old(s.data[k])
    ensures multiset(s.data[..]) == multiset(old(s.data[..]))
    ensures s.comparisons == old(s.comparisons) + (SampleSize - 1 - i)
    ensures old(s.swaps) <= s.swaps <= old(s.swaps) + (SampleSize - 1 - i)
  {
    var a := s.data;
    var j := i + 1;
    while j < SampleSize
      invariant i + 1 <= j <= SampleSize
      invariant forall q :: i < q < j ==> a[i] <= a[q]
      invariant forall k :: 0 <= k < i ==> a[k] == old(a[k])
      invariant multiset(a[..]) == multiset(old(a[..]))
      invariant s.comparisons == old(s.comparisons) + (j - i - 1)
      invariant old(s.swaps) <= s.swaps <= old(s.swaps) + (j - i - 1)
    {
      var exchanged := CompareSwapAnimated(s, i, j, cfg);
      j := j + 1;
    }
  }

  /** An interchange pass settles one more position at the bottom. */
  method InterchangeRound(s: Samples, i: int, cfg: Config)
    requires s.Valid() && 0 <= i < SampleSize - 1 && SettledBelow(s.data[..], i)
    modifies s`comparisons, s`swaps, s`frames, s.data
    ensures SettledBelow(s.data[..], i + 1)
    ensures multiset(s.data[..]) == multiset(old(s.data[..]))
    ensures s.comparisons == old(s.comparisons) + (SampleSize - 1 - i)
    ensures old(s.swaps) <= s.swaps <= old(s.swaps) + (SampleSize - 1 - i)
  {
    ghost var before := s.data[..];
    InterchangePass(s, i, cfg);
    PassSettlesFirst(before, s.data[..], i, SampleSize);
  }

  /** Interchange sort: every pair of positions is compared exactly once, N(N-1)/2
      comparisons in all, with at most one exchange per comparison. */
  method SortInterchange(s: Samples, cfg: Config)
    requires s.Valid()
    modifies s`comparisons, s`swaps, s`sortedUntil, s`frames, s.data
    ensures Sorted(s.data[..])
    ensures multiset(s.data[..]) == multiset(old(s.data[..]))
    ensures s.comparisons == old(s.comparisons) + SampleSize * (SampleSize - 1) / 2
    ensures old(s.swaps) <= s.swaps <= old(s.swaps) + SampleSize * (SampleSize - 1) / 2
    ensures s.sortedUntil == SampleSize - 1
  {
    var a := s.data;
    var i := 0;
    while i < SampleSize - 1
      invariant 0 <= i <= SampleSize - 1
      invariant SettledBelow(a[..], i)
      invariant multiset(a[..]) == multiset(old(a[..]))
      invariant s.comparisons == old(s.comparisons) + PairsBefore(SampleSize, i)
      invariant old(s.swaps) <= s.swaps <= old(s.swaps) + PairsBefore(SampleSize, i)
    {
      s.sortedUntil := i - 1;
      InterchangeRound(s, i, cfg);
      i := i + 1;
    }
    s.sortedUntil := SampleSize - 1;
    s.Show(-1, -1, -1, cfg);
    SettledWindowClosed(a[..], i, SampleSize);
    PairsBeforeClosedForm(SampleSize, SampleSize - 1);
  }

  /** The scan of a selection pass: the index of the first least sample among positions
      i .. N-1, one comparison per later position, with the samples untouched. */
  method SelectMinimum(s: Samples, i: int, cfg: Config) returns (minIndex: int, j: int)
    requires s.Valid() && 0 <= i < SampleSize - 1
    modifies s`comparisons, s`frames
    ensures i <= minIndex < SampleSize && j == SampleSize
    ensures forall q :: i <= q < SampleSize ==> s.data[minIndex] <= s.data[q]
    ensures forall q :: i <= q < minIndex ==> s.data[minIndex] < s.data[q]
    ensures s.comparisons == old(s.comparisons) + (SampleSize - 1 - i)
  {
    var a := s.data;
    minIndex := i;
    j := i + 1;
    while j < SampleSize
      invariant i < j <= SampleSize && i <= minIndex < j
      invariant forall q :: i <= q < j ==> a[minIndex] <= a[q]
      invariant forall q :: i <= q < minIndex ==> a[minIndex] < a[q]
      invariant s.comparisons == old(s.comparisons) + (j - i - 1)
    {
      s.comparisons := s.comparisons + 1;
      if a[j] < a[minIndex] {
        minIndex := j;
      }
      s.Show(i, j, minIndex, cfg);
      j := j + 1;
    }
  }

  /** One selection pass: the least sample of positions i .. N-1 is exchanged into position i
      unless it is already there; positions before i are not touched. */
  method SelectionPass(s: Samples, i: int, cfg: Config)
    requires s.Valid() && 0 <= i < SampleSize - 1
    modifies s`comparisons, s`swaps, s`frames, s.data
    ensures forall q :: i < q < SampleSize ==> s.data[i] <= s.data[q]
    ensures forall k :: 0 <= k < i ==> s.data[k] == old(s.data[k])
    ensures multiset(s.data[..]) == multiset(old(s.data[..]))
    ensures s.comparisons == old(s.comparisons) + (SampleSize - 1 - i)
    ensures old(s.swaps) <= s.swaps <= old(s.swaps) + 1
  {
    var minIndex, j := SelectMinimum(s, i, cfg);
    if minIndex != i {
      if cfg.smoothTransitions {
        s.SwapAnimated(i, minIndex, i, j, minIndex, cfg);
      } else {
        s.Swap(i, minIndex);
      }
    }
    s.Show(i, j, minIndex, cfg);
  }

  /** A selection pass settles one more position at the bottom. */
  method SelectionRound(s: Samples, i: int, cfg: Config)
    requires s.Valid() && 0 <= i < SampleSize - 1 && SettledBelow(s.data[..], i)
    modifies s`comparisons, s`swaps, s`frames, s.data
    ensures SettledBelow(s.data[..], i + 1)
    ensures multiset(s.data[..]) == multiset(old(s.data[..]))
    ensures s.comparisons == old(s.comparisons) + (SampleSize - 1 - i)
    ensures old(s.swaps) <= s.swaps <= old(s.swaps) + 1
  {
    ghost var before := s.data[..];
    SelectionPass(s, i, cfg);
    PassSettlesFirst(before, s.data[..], i, SampleSize);
  }

  /** Selection sort: N(N-1)/2 comparisons and at most one exchange per pass. */
  method SortSelection(s: Samples, cfg: Config)
    requires s.Valid()
    modifies s`comparisons, s`swaps, s`sortedUntil, s`frames, s.data
    ensures Sorted(s.data[..])
    ensures multiset(s.data[..]) == multiset(old(s.data[..]))
    ensures s.comparisons == old(s.comparisons) + SampleSize * (SampleSize - 1) / 2
    ensures old(s.swaps) <= s.swaps <= old(s.swaps) + SampleSize - 1
    ensures s.sortedUntil == SampleSize - 1
  {
    var a := s.data;
    var i := 0;
    while i < SampleSize - 1
      invariant 0 <= i <= SampleSize - 1
      invariant SettledBelow(a[..], i)
      invariant multiset(a[..]) == multiset(old(a[..]))
      invariant s.comparisons == old(s.comparisons) + PairsBefore(SampleSize, i)
      invariant old(s.swaps) <= s.swaps <= old(s.swaps) + i
    {
      s.sortedUntil := i - 1;
      SelectionRound(s, i, cfg);
      i := i + 1;
    }
    s.sortedUntil := SampleSize - 1;
    s.Show(-1, -1, -1, cfg);
    SettledWindowClosed(a[..], i, SampleSize);
    PairsBeforeClosedForm(SampleSize, SampleSize - 1);
  }

  /** One left-to-right pass of adjacent exchanges over positions 0 .. hi: the largest sample
      of that window ends at position hi and later positions are not touched. Reports whether
      anything was exchanged: a pass that exchanges nothing has found the window in order and
      changed nothing, and on a window already in order it exchanges nothing. */
  method BubblePass(s: Samples, hi: int, cfg: Config) returns (swapped: bool)
    requires s.Valid() && 0 <= hi < SampleSize
    modifies s`comparisons, s`swaps, s`frames, s.data
    ensures forall p :: 0 <= p < hi ==> s.data[p] <= s.data[hi]
    ensures forall k :: hi < k < SampleSize ==> s.data[k] == old(s.data[k])
    ensures !swapped ==> forall p, q :: 0 <= p < q <= hi ==> s.data[p] <= s.data[q]
    ensures !swapped ==> s.swaps == old(s.swaps)
    ensures (forall p, q :: 0 <= p < q <= hi ==> old(s.data[p]) <= old(s.data[q])) ==> !swapped
    ensures multiset(s.data[..]) == multiset(old(s.data[..]))
    ensures s.comparisons == old(s.comparisons) + hi
    ensures old(s.swaps) <= s.swaps <= old(s.swaps) + hi
  {
    var a := s.data;
    swapped := false;
    var j := 0;
    while j < hi
      invariant 0 <= j <= hi
      invariant forall p :: 0 <= p < j ==> a[p] <= a[j]
      invariant forall k :: hi < k < SampleSize ==> a[k] == old(a[k])
      invariant !swapped ==> forall p, q :: 0 <= p < q <= j ==> a[p] <= a[q]
      invariant !swapped ==> s.swaps == old(s.swaps) && forall k :: 0 <= k < SampleSize ==> a[k] == old(a[k])
      invariant (forall p, q :: 0 <= p < q <= hi ==> old(a[p]) <= old(a[q])) ==> !swapped
      invariant multiset(a[..]) == multiset(old(a[..]))
      invariant s.comparisons == old(s.comparisons) + j
      invariant old(s.swaps) <= s.swaps <= old(s.swaps) + j
    {
      var exchanged := CompareSwapAnimated(s, j, j + 1, cfg);
      swapped := swapped || exchanged;
      j := j + 1;
    }
  }

  /** Pass i of bubble sort, on samples whose last i positions are already settled: one more
      position becomes settled, and a pass that exchanges nothing leaves the samples sorted. */
  method BubbleRound(s: Samples, i: int, cfg: Config) returns (swapped: bool)
    requires s.Valid() && 0 <= i < SampleSize - 1
    requires SettledFrom(s.data[..], SampleSize - i)
    modifies s`comparisons, s`swaps, s`sortedUntil, s`frames, s.data
    ensures SettledFrom(s.data[..], SampleSize - i - 1)
    ensures !swapped ==> Sorted(s.data[..]) && s.swaps == old(s.swaps)
    ensures Sorted(old(s.data[..])) ==> !swapped
    ensures multiset(s.data[..]) == multiset(old(s.data[..]))
    ensures s.comparisons == old(s.comparisons) + (SampleSize - i - 1)
    ensures old(s.swaps) <= s.swaps <= old(s.swaps) + (SampleSize - i - 1)
    ensures s.sortedUntil == SampleSize - i - 1
  {
    s.sortedUntil := SampleSize - i - 1;
    ghost var before := s.data[..];
    swapped := BubblePass(s, SampleSize - i - 1, cfg);
    if !swapped {
      PassOrdersWindow(before, s.data[..], 0, SampleSize - i);
    }
    PassSettlesLast(before, s.data[..], 0, SampleSize - i);
  }

  /** Bubble sort with early exit: on samples already in order it makes one pass of N-1
      comparisons and exchanges nothing. */
  method SortBubble(s: Samples, cfg: Config)
    requires s.Valid()
    modifies s`comparisons, s`swaps, s`sortedUntil, s`frames, s.data
    ensures Sorted(s.data[..])
    ensures multiset(s.data[..]) == multiset(old(s.data[..]))
    ensures old(s.swaps) <= s.swaps
    ensures s.swaps - old(s.swaps) <= s.comparisons - old(s.comparisons)
    ensures Sorted(old(s.data[..])) ==>
              s.comparisons == old(s.comparisons) + SampleSize - 1 && s.swaps == old(s.swaps)
    ensures s.sortedUntil == SampleSize - 1
  {
    var a := s.data;
    var i := 0;
    while i < SampleSize - 1
      invariant 0 <= i <= SampleSize - 1
      invariant SettledFrom(a[..], SampleSize - i)
      invariant multiset(a[..]) == multiset(old(a[..]))
      invariant old(s.swaps) <= s.swaps
      invariant s.swaps - old(s.swaps) <= s.comparisons - old(s.comparisons)
      invariant Sorted(old(a[..])) ==>
                  i == 0 && Sorted(a[..]) && s.comparisons == old(s.comparisons) && s.swaps == old(s.swaps)
    {
      var swapped := BubbleRound(s, i, cfg);
      if !swapped {
        break;
      }
      i := i + 1;
    }
    if i == SampleSize - 1 {
      SettledWindowClosed(a[..], 0, 1);
    }
    s.sortedUntil := SampleSize - 1;
    s.Show(-1, -1, -1, cfg);
  }

  /** The left-to-right half of a cocktail round over positions start .. end: the largest
      sample of the window ends at position end, and nothing outside the window moves. */
  method CocktailForward(s: Samples, start: int, end: int, cfg: Config) returns (swapped: bool)
    requires s.Valid() && 0 <= start <= end < SampleSize
    modifies s`comparisons, s`swaps, s`frames, s.data
    ensures forall p :: start <= p < end ==> s.data[p] <= s.data[end]
    ensures forall k :: 0 <= k < SampleSize && (k < start || end < k) ==> s.data[k] == old(s.data[k])
    ensures swapped ==> start < end
    ensures !swapped ==> forall p, q :: start <= p < q <= end ==> s.data[p] <= s.data[q]
    ensures multiset(s.data[..]) == multiset(old(s.data[..]))
    ensures s.comparisons == old(s.comparisons) + (end - start)
    ensures old(s.swaps) <= s.swaps <= old(s.swaps) + (end - start)
  {
    var a := s.data;
    swapped := false;
    var i := start;
    while i < end
      invariant start <= i <= end
      invariant forall p :: start <= p < i ==> a[p] <= a[i]
      invariant forall k :: 0 <= k < SampleSize && (k < start || end < k) ==> a[k] == old(a[k])
      invariant !swapped ==> forall p, q :: start <= p < q <= i ==> a[p] <= a[q]
      invariant swapped ==> start < i
      invariant multiset(a[..]) == multiset(old(a[..]))
      invariant s.comparisons == old(s.comparisons) + (i - start)
      invariant old(s.swaps) <= s.swaps <= old(s.swaps) + (i - start)
    {
      var exchanged := CompareSwap(s, i, i + 1, cfg);
      swapped := swapped || exchanged;
      i := i + 1;
    }
  }

  /** The right-to-left half of a cocktail round over positions start .. end: the smallest
      sample of the window ends at position start, and nothing outside the window moves. */
  method CocktailBackward(s: Samples, start: int, end: int, cfg: Config) returns (swapped: bool)
    requires s.Valid() && 0 <= start <= end < SampleSize
    modifies s`comparisons, s`swaps, s`frames, s.data
    ensures forall q :: start < q <= end ==> s.data[start] <= s.data[q]
    ensures forall k :: 0 <= k < SampleSize && (k < start || end < k) ==> s.data[k] == old(s.data[k])
    ensures swapped ==> start < end
    ensures !swapped ==> forall p, q :: start <= p < q <= end ==> s.data[p] <= s.data[q]
    ensures multiset(s.data[..]) == multiset(old(s.data[..]))
    ensures s.comparisons == old(s.comparisons) + (end - start)
    ensures old(s.swaps) <= s.swaps <= old(s.swaps) + (end - start)
  {
    var a := s.data;
    swapped := false;
    var i := end - 1;
    while i >= start
      invariant start - 1 <= i <= end - 1
      invariant forall q :: i + 1 < q <= end ==> a[i + 1] <= a[q]
      invariant forall k :: 0 <= k < SampleSize && (k < start || end < k) ==> a[k] == old(a[k])
      invariant !swapped ==> forall p, q :: i + 1 <= p < q <= end ==> a[p] <= a[q]
      invariant swapped ==> start < end
      invariant multiset(a[..]) == multiset(old(a[..]))
      invariant s.comparisons == old(s.comparisons) + (end - 1 - i)
      invariant old(s.swaps) <= s.swaps <= old(s.swaps) + (end - 1 - i)
    {
      var exchanged := CompareSwap(s, i, i + 1, cfg);
      swapped := swapped || exchanged;
      i := i - 1;
    }
  }

  /** The forward half of a cocktail round over the unsettled window start .. end: settles
      position end, or finds the samples sorted when it exchanges nothing. */
  method CocktailRise(s: Samples, start: int, end: int, cfg: Config) returns (swapped: bool)
    requires s.Valid() && 0 <= start <= end < SampleSize
    requires SettledBelow(s.data[..], start) && SettledFrom(s.data[..], end + 1)
    modifies s`comparisons, s`swaps, s`frames, s.data
    ensures swapped ==> start < end && SettledBelow(s.data[..], start) && SettledFrom(s.data[..], end)
    ensures !swapped ==> Sorted(s.data[..])
    ensures multiset(s.data[..]) == multiset(old(s.data[..]))
    ensures old(s.swaps) <= s.swaps
    ensures s.swaps - old(s.swaps) <= s.comparisons - old(s.comparisons)
  {
    ghost var before := s.data[..];
    swapped := CocktailForward(s, start, end, cfg);
    if swapped {
      PassSettlesLast(before, s.data[..], start, end + 1);
    } else {
      PassOrdersWindow(before, s.data[..], start, end + 1);
    }
  }

  /** The backward half of a cocktail round over the unsettled window start .. end: settles
      position start, or finds the samples sorted when it exchanges nothing. */
  method CocktailFall(s: Samples, start: int, end: int, cfg: Config) returns (swapped: bool)
    requires s.Valid() && 0 <= start <= end < SampleSize
    requires SettledBelow(s.data[..], start) && SettledFrom(s.data[..], end + 1)
    modifies s`comparisons, s`swaps, s`frames, s.data
    ensures SettledBelow(s.data[..], start + 1) && SettledFrom(s.data[..], end + 1)
    ensures !swapped ==> Sorted(s.data[..])
    ensures multiset(s.data[..]) == multiset(old(s.data[..]))
    ensures old(s.swaps) <= s.swaps
    ensures s.swaps - old(s.swaps) <= s.comparisons - old(s.comparisons)
  {
    ghost var before := s.data[..];
    swapped := CocktailBackward(s, start, end, cfg);
    if !swapped {
      PassOrdersWindow(before, s.data[..], start, end + 1);
    }
    PassSettlesFirst(before, s.data[..], start, end + 1);
  }

  /** One round of cocktail shaker sort over the unsettled window start .. end: a forward
      pass, and unless it exchanged nothing a backward pass over the window without its new
      last position. Each pass that runs settles one more end of the window; a pass that
      exchanges nothing leaves the samples sorted. */
  method CocktailRound(s: Samples, start: int, end: int, cfg: Config) returns (swapped: bool)
    requires s.Valid() && 0 <= start <= end < SampleSize
    requires SettledBelow(s.data[..], start) && SettledFrom(s.data[..], end + 1)
    modifies s`comparisons, s`swaps, s`frames, s.data
    ensures swapped ==> start < end && SettledBelow(s.data[..], start + 1) && SettledFrom(s.data[..], end)
    ensures !swapped ==> Sorted(s.data[..])
    ensures multiset(s.data[..]) == multiset(old(s.data[..]))
    ensures old(s.swaps) <= s.swaps
    ensures s.swaps - old(s.swaps) <= s.comparisons - old(s.comparisons)
  {
    swapped := CocktailRise(s, start, end, cfg);
    if swapped {
      swapped := CocktailFall(s, start, end - 1, cfg);
    }
  }

  /** Cocktail shaker sort: alternating passes shrink the unsorted window from both ends, and
      a pass without exchanges ends the sort. */
  method SortCocktail(s: Samples, cfg: Config)
    requires s.Valid()
    modifies s`comparisons, s`swaps, s`frames, s.data
    ensures Sorted(s.data[..])
    ensures multiset(s.data[..]) == multiset(old(s.data[..]))
    ensures old(s.swaps) <= s.swaps
    ensures s.swaps - old(s.swaps) <= s.comparisons - old(s.comparisons)
  {
    var a := s.data;
    var swapped := true;
    var start, end := 0, SampleSize - 1;
    while swapped
      invariant 0 <= start <= end < SampleSize
      invariant SettledBelow(a[..], start) && SettledFrom(a[..], end + 1)
      invariant !swapped ==> Sorted(a[..])
      invariant multiset(a[..]) == multiset(old(a[..]))
      invariant old(s.swaps) <= s.swaps
      invariant s.swaps - old(s.swaps) <= s.comparisons - old(s.comparisons)
      decreases end - start
    {
      swapped := CocktailRound(s, start, end, cfg);
      if !swapped {
        break;
      }
      start, end := start + 1, end - 1;
      if end < start {
        SettledWindowClosed(a[..], start, end + 1);
        break;
      }
    }
    s.Show(-1, -1, -1, cfg);
  }

  /** A comb pass with gap 1 over samples x whose positions bound .. N-1 are settled, after
      its first i compare-exchanges have turned x into y: the running maximum is at i, the
      positions after i and the settled positions are untouched, the sample at i is at most
      every settled one from i on, position bound-1 holds the largest unsettled sample once
      the pass has reached it, and a pass without exchanges has found everything up to i in
      order. */
  ghost predicate Sweeping(x: seq<int>, y: seq<int>, i: int, bound: int, swapped: bool) {
    |x| == |y| && 0 <= i < |y| && 1 <= bound <= |y| &&
    (forall p :: 0 <= p < i ==> y[p] <= y[i]) &&
    (forall k :: i < k < |y| ==> y[k] == x[k]) &&
    (forall k :: bound <= k < |y| ==> y[k] == x[k]) &&
    (forall q :: bound <= q < |y| && i <= q ==> y[i] <= x[q]) &&
    (bound - 1 <= i ==> forall p :: 0 <= p < bound - 1 ==> y[p] <= y[bound - 1]) &&
    (!swapped ==> forall p, q :: 0 <= p < q <= i ==> y[p] <= y[q]) &&
    (bound == 1 ==> !swapped)
  }

  /** A gap-1 pass starts with nothing compared. */
  lemma SweepStarts(x: seq<int>, bound: int)
    requires 0 < |x| && 1 <= bound <= |x| && SettledFrom(x, bound)
    ensures Sweeping(x, x, 0, bound, false)
  {
  }

  /** One compare-exchange of positions i and i+1 keeps the gap-1 pass on track. */
  lemma SweepStep(x: seq<int>, y: seq<int>, z: seq<int>, i: int, bound: int, swapped: bool, exchanged: bool)
    requires Sweeping(x, y, i, bound, swapped) && SettledFrom(x, bound) && i + 1 < |y| == |z|
    requires exchanged <==> y[i] > y[i + 1]
    requires z[i] == (if exchanged then y[i + 1] else y[i]) && z[i + 1] == (if exchanged then y[i] else y[i + 1])
    requires forall k :: 0 <= k < |y| && k != i && k != i + 1 ==> z[k] == y[k]
    ensures Sweeping(x, z, i + 1, bound, swapped || exchanged)
  {
    if i + 1 >= bound {
      assert !exchanged;
    }
  }

  /** What a full gap-1 pass over x leaves in y: the settled positions bound .. N-1 are
      untouched, the largest of the others sits at bound-1, a pass without exchanges found
      the samples sorted, and with nothing left unsettled no exchange happens. */
  ghost predicate Swept(x: seq<int>, y: seq<int>, bound: int, swapped: bool) {
    |x| == |y| && 1 <= bound <= |y| &&
    (forall k :: bound <= k < |y| ==> y[k] == x[k]) &&
    (forall p :: 0 <= p < bound - 1 ==> y[p] <= y[bound - 1]) &&
    (!swapped ==> Sorted(y)) &&
    (bound == 1 ==> !swapped)
  }

  /** A gap-1 pass that has compared every neighbouring pair is complete. */
  lemma SweepEnds(x: seq<int>, y: seq<int>, bound: int, swapped: bool)
    requires Sweeping(x, y, |y| - 1, bound, swapped)
    ensures Swept(x, y, bound, swapped)
  {
  }

  /** One comb pass: compares every position with the one `gap` further on. With gap 1 it is
      a full bubble pass; `bound` is then a ghost witness that positions bound .. N-1 were
      already settled: those stay where they are, and the largest of the others ends at
      position bound-1. */
  method CombPass(s: Samples, gap: int, ghost bound: int, cfg: Config) returns (swapped: bool)
    requires s.Valid() && 1 <= gap < SampleSize
    requires gap == 1 ==> 1 <= bound <= SampleSize && SettledFrom(s.data[..], bound)
    modifies s`comparisons, s`swaps, s`frames, s.data
    ensures gap == 1 ==> Swept(old(s.data[..]), s.data[..], bound, swapped)
    ensures multiset(s.data[..]) == multiset(old(s.data[..]))
    ensures s.comparisons == old(s.comparisons) + (SampleSize - gap)
    ensures old(s.swaps) <= s.swaps <= old(s.swaps) + (SampleSize - gap)
  {
    var a := s.data;
    ghost var before := a[..];
    if gap == 1 {
      SweepStarts(before, bound);
    }
    swapped := false;
    var i := 0;
    while i < SampleSize - gap
      invariant 0 <= i <= SampleSize - gap
      invariant gap == 1 ==> Sweeping(before, a[..], i, bound, swapped)
      invariant multiset(a[..]) == multiset(before)
      invariant s.comparisons == old(s.comparisons) + i
      invariant old(s.swaps) <= s.swaps <= old(s.swaps) + i
    {
      ghost var y := a[..];
      var exchanged := CompareSwap(s, i, i + gap, cfg);
      if gap == 1 {
        SweepStep(before, y, a[..], i, bound, swapped, exchanged);
      }
      swapped := swapped || exchanged;
      i := i + 1;
    }
    if gap == 1 {
      SweepEnds(before, a[..], bound, swapped);
    }
  }

  /** Comb sort: the gap shrinks by the factor 10/13 down to 1, and passes with gap 1 repeat
      until one exchanges nothing. */
  method SortComb(s: Samples, cfg: Config)
    requires s.Valid()
    modifies s`comparisons, s`swaps, s`frames, s.data
    ensures Sorted(s.data[..])
    ensures multiset(s.data[..]) == multiset(old(s.data[..]))
    ensures old(s.swaps) <= s.swaps
    ensures s.swaps - old(s.swaps) <= s.comparisons - old(s.comparisons)
  {
    var a := s.data;
    var gap := SampleSize;
    var swapped := true;
    ghost var bound := SampleSize;
    while gap != 1 || swapped
      invariant 1 <= gap <= SampleSize && 1 <= bound <= SampleSize
      invariant gap != 1 ==> bound == SampleSize
      invariant SettledFrom(a[..], bound)
      invariant gap == 1 && !swapped ==> Sorted(a[..])
      invariant multiset(a[..]) == multiset(old(a[..]))
      invariant old(s.swaps) <= s.swaps
      invariant s.swaps - old(s.swaps) <= s.comparisons - old(s.comparisons)
      decreases gap, bound + if swapped then 1 else 0
    {
      gap := (gap * 10) / 13;
      if gap < 1 {
        gap := 1;
      }
      ghost var before := a[..];
      swapped := CombPass(s, gap, bound, cfg);
      if gap == 1 && bound > 1 {
        PassSettlesLast(before, a[..], 0, bound);
        bound := bound - 1;
      }
    }
    s.Show(-1, -1, -1, cfg);
  }
}
