# sortvis sorting engine, modelled in Dafny

sortvis animates twelve classic sorting algorithms in a terminal. They all work on one
buffer of `SAMPLE_SIZE` = 18 integer samples. Each sort compares and exchanges samples in
place and counts its comparisons and swaps as it goes. After each step it draws a frame that
marks up to three indices.

This project models that engine, which lives in `algs.h`:

- **The buffer.** The class `SampleBuffer.Samples` holds the samples and the buffer's
  metadata:
  - `data` is the fixed array of samples;
  - `max` is the recorded maximum;
  - `comparisons` and `swaps` are the statistics counters;
  - `sortedUntil` is the advisory end of the settled region;
  - a ghost list `frames` records the marker triple of every frame drawn.
- **Primitives and generators.** `Swap`, `SwapAnimated`, `Height`, the three generators,
  the validator and the neighbour test `IsSorted` are methods of that class.
- **The sorts.** Each sort is a method over a `Samples` object, as each C sort is a free
  function over a `SAMPLES *`:
  - interchange, selection, bubble, cocktail and comb (`ExchangeSorts`);
  - insertion and Shell (`InsertionSorts`);
  - heap (`HeapSort`);
  - quick (`QuickSort`);
  - merge (`MergeSort`);
  - counting (`CountingSort`);
  - least-significant-digit radix (`RadixSort`).
- **Loop structure.** Nested C loops keep their shape. Each inner loop becomes its own
  method, named `...Pass`, `...Scan` or `...Step`, with a window-local contract. The outer
  loop becomes a method with invariants that call those passes.
- **The specification.** Every sort's contract says three things:
  - the buffer ends up sorted (`SortSpec.Sorted`);
  - it holds the same multiset of samples as before;
  - how the counters moved.

  Some sorts also state their exact comparison and swap counts: interchange and selection
  make N(N-1)/2 comparisons, and bubble and insertion on sorted input make N-1 comparisons
  and no swaps.
- **Shared distribution scheme.** Counting sort and each pass of radix sort use the scheme in
  `Buckets`: tally the keys, turn the tallies into prefix sums, place each sample, copy
  back. The placement loop is proved to write exactly `Bucketed(input, key)`, which is the
  buckets laid out in key order.
- **Radix sort.** Each pass orders the samples on one more low decimal digit
  (`RadixSort.LowSorted`). The number of passes is the number of decimal digits of the
  recorded maximum.

## Model

| member | source | states |
|---|---|---|
| SampleBuffer.Samples.Show | algs.h:151-158 | a frame is recorded with its three markers exactly when visualization is on; the samples and counters are untouched |
| SampleBuffer.Samples.Swap | algs.h:11-16 | the two samples are exchanged, every other sample is unchanged, the multiset is kept, and exactly one swap is counted (also when a == b) |
| SampleBuffer.Samples.SwapAnimated | algs.h:18-37 | the same exchange and single swap count as Swap under every configuration; with smooth transitions on, TRANSITION_FRAMES+1 frames marking (a, b, t) are drawn, otherwise none |
| SampleBuffer.Samples.Height | algs.h:39-41 | the number of empty rows above a bar is 0 exactly for a sample equal to max, and lies in [0, max) for samples in 1..max |
| SampleBuffer.Samples.GenerateAscending | algs.h:43-50 | the buffer becomes 1..N in increasing order, max becomes N, and all statistics are reset |
| SampleBuffer.AscendingIsSortedRanks | algs.h:43-50 | the ascending buffer is sorted and holds every rank 1..N exactly once |
| SampleBuffer.Samples.GenerateDescending | algs.h:52-59 | the buffer becomes N..1 in decreasing order, max becomes N, and all statistics are reset |
| SampleBuffer.DescendingIsReversedAscending | algs.h:52-59 | the descending buffer is the ascending one reversed and holds the same ranks |
| SampleBuffer.Samples.GenerateRandom | algs.h:61-70 | whatever rand() returns, the shuffled buffer is a permutation of 1..N; max is N and the statistics are reset after the shuffle |
| SampleBuffer.ShuffledHoldsEachRankOnce | algs.h:61-70 | every buffer the shuffle can produce has N distinct samples, each in 1..N |
| SampleBuffer.Clamp | algs.h:72-80 | the stored value lies in 1..N, in-range values are kept, and an out-of-range value goes to the nearest valid one |
| SampleBuffer.Samples.Validate | algs.h:72-80 | every sample is replaced by its clamped value, and the warnings are exactly the diagnostics of the old buffer |
| SampleBuffer.DiagnoseReportsExactlyInvalid | algs.h:72-80 | a warning (value, index) is printed if and only if the sample at that index is that value and lies outside 1..N |
| SampleBuffer.Samples.IsSorted | algs.h:143-149 | the result is true exactly when every sample is at most its right neighbour |
| SortSpec.AdjacentSortedIffSorted | algs.h:143-149 | the neighbour test answers true if and only if the buffer is fully sorted |
| SortSpec.SortedPermutationIsUnique | test.c:128-176 | two sorted permutations of the same samples are equal, so every sort proved sorted and a permutation matches the test suite's reference result |
| SortSpec.WindowKeepsSettled | algs.h:251-274 | a rearrangement confined to the unsettled window keeps both settled ends settled |
| SortSpec.PassSettlesLast | algs.h:302-329 | a pass that leaves the window's maximum last settles one more position at the top |
| SortSpec.PassSettlesFirst | algs.h:276-300 | a pass that leaves the window's minimum first settles one more position at the bottom |
| SortSpec.PassOrdersWindow | algs.h:563-594 | a pass that leaves the unsettled window in order leaves the whole buffer sorted |
| SortSpec.PermutationKeepsBound | algs.h:626-633 | any property of every sample holds for every sample of any rearrangement |
| SortSpec.PermutationOfRange | algs.h:415-437 | buffers equal outside a range are permutations of each other exactly when their ranges are |
| SortSpec.TriangleClosedForm | algs.h:331-353 | 0 + 1 + ... + (n-1) is n(n-1)/2: the comparison bound of insertion sort |
| SortSpec.PairsBeforeClosedForm | algs.h:251-300 | the comparisons of the first i passes of a pairwise loop over n samples total i(2n-1-i)/2, so all n-1 passes make n(n-1)/2 |
| ExchangeSorts.CompareSwapAnimated | algs.h:257-270 | one comparison is counted; the pair is exchanged, with one swap counted, exactly when the first sample is larger; nothing else changes |
| ExchangeSorts.CompareSwap | algs.h:568-575 | as CompareSwapAnimated, drawing exactly one frame marking the pair |
| ExchangeSorts.InterchangePass | algs.h:256-271 | position i ends up at most every later sample, the positions before i are unchanged, the multiset is kept, and N-1-i comparisons are counted |
| ExchangeSorts.InterchangeRound | algs.h:254-271 | a pass extends the settled bottom region by one position |
| ExchangeSorts.SortInterchange | algs.h:251-274 | sorted and a permutation, with exactly N(N-1)/2 comparisons, at most as many swaps, and sorted_until = N-1 |
| ExchangeSorts.SelectMinimum | algs.h:281-288 | the returned index holds the first least sample of positions i..N-1, after N-1-i comparisons |
| ExchangeSorts.SelectionPass | algs.h:279-297 | the least sample of i..N-1 moves to position i with at most one swap, and the earlier positions are unchanged |
| ExchangeSorts.SelectionRound | algs.h:279-297 | a selection pass extends the settled bottom region by one position |
| ExchangeSorts.SortSelection | algs.h:276-300 | sorted and a permutation, with exactly N(N-1)/2 comparisons and at most N-1 swaps |
| ExchangeSorts.BubblePass | algs.h:309-324 | the largest sample of 0..hi ends at hi and later positions are unchanged; a pass without swaps leaves 0..hi in order, and a pass over 0..hi already in order swaps nothing; hi comparisons are counted |
| ExchangeSorts.BubbleRound | algs.h:306-325 | one more position is settled at the top, and a pass without swaps means the buffer is sorted |
| ExchangeSorts.SortBubble | algs.h:302-329 | sorted and a permutation, with no more swaps than comparisons; on sorted input exactly N-1 comparisons and 0 swaps |
| ExchangeSorts.CocktailForward | algs.h:568-577 | the largest sample of start..end ends at end, nothing outside the window moves, and without a swap the window is in order |
| ExchangeSorts.CocktailBackward | algs.h:582-590 | the smallest sample of start..end ends at start, nothing outside the window moves, and without a swap the window is in order |
| ExchangeSorts.CocktailRise | algs.h:567-578 | the forward sweep settles position end, or finds the buffer sorted |
| ExchangeSorts.CocktailFall | algs.h:579-591 | the backward sweep settles position start, or finds the buffer sorted |
| ExchangeSorts.CocktailRound | algs.h:566-592 | a round shrinks the unsettled window from both ends, or finds the buffer sorted |
| ExchangeSorts.SortCocktail | algs.h:563-594 | sorted and a permutation, with no more swaps than comparisons |
| ExchangeSorts.SweepStep | algs.h:519-526 | one gap-1 compare-exchange keeps the pass's running-maximum and order facts |
| ExchangeSorts.SweepEnds | algs.h:519-526 | a finished gap-1 pass leaves its maximum last, and without a swap the buffer is in order |
| ExchangeSorts.CombPass | algs.h:519-526 | every position is compared with the one gap further on, counting N-gap comparisons; the multiset is kept; with gap 1 the pass settles the top and a pass without swaps means sorted |
| ExchangeSorts.SortComb | algs.h:511-530 | sorted and a permutation, with no more swaps than comparisons; the gap shrinks by 10/13 to 1 |
| InsertionSorts.InsertionPermutes | algs.h:336-347 | moving one sample back to the position where the scan stops keeps the multiset |
| InsertionSorts.InsertionExtendsPrefix | algs.h:336-347 | inserting at the position where the scan stops extends the sorted prefix by one |
| InsertionSorts.InsertionOfInOrder | algs.h:336-347 | when the prefix through i is already in order, the scan stops at once and nothing moves |
| InsertionSorts.InsertionPass | algs.h:336-349 | the sample at i is reinserted where the scan stops, after i-pos shifts (each counted as a swap and a comparison) plus one final comparison when pos > 0 |
| InsertionSorts.InsertionRound | algs.h:334-349 | the sorted prefix grows by one, with at most i comparisons; on sorted input nothing moves and exactly one comparison is made |
| InsertionSorts.SortInsertion | algs.h:331-353 | sorted and a permutation, with at most N(N-1)/2 comparisons; on sorted input the buffer is unchanged after exactly N-1 comparisons and no swaps |
| InsertionSorts.HoleStep | algs.h:363-369 | copying the larger sample one gap below the hole into the hole moves the hole one gap down |
| InsertionSorts.HoleMoves | algs.h:363-369 | copying a sample between positions and putting the held value back keeps the multiset |
| InsertionSorts.HoleFilled | algs.h:370-371 | dropping the held sample into the final hole permutes the buffer, and with gap 1 it is exactly an insertion step |
| InsertionSorts.Shift | algs.h:365-367 | one shift copies a sample one gap up, counting one comparison and one swap |
| InsertionSorts.ShiftLarger | algs.h:363-369 | the scan moves the hole down past every larger sample one gap below it, counting one comparison per swap |
| InsertionSorts.ShellInsert | algs.h:361-373 | one gapped insertion permutes the buffer, and with gap 1 it is exactly an insertion-sort pass |
| InsertionSorts.ShellPhase | algs.h:359-374 | a phase permutes the buffer, and the gap-1 phase sorts it |
| InsertionSorts.SortShell | algs.h:355-377 | sorted and a permutation for the gaps N/2, N/4, ..., 1, with no more swaps than comparisons |
| HeapSort.RootIsLargest | algs.h:401-413 | the root of a heap holds its largest sample |
| HeapSort.SiftDone | algs.h:393 | sifting stops with a heap once position i holds at least both children |
| HeapSort.SiftStep | algs.h:393-397 | exchanging i with its larger, larger-than-i child moves the defect one level down |
| HeapSort.LargestOfFamily | algs.h:380-391 | the result is i or a child of i inside the heap holding at least i and both children, after one or two comparisons |
| HeapSort.Heapify | algs.h:379-399 | the sample at i is sifted down until positions [0, n) form a heap, and only positions from i up to n are touched |
| HeapSort.BuildHeap | algs.h:404-405 | the whole buffer becomes a max-heap and keeps its multiset |
| HeapSort.ExtractMax | algs.h:406-411 | the root moves to position i, which becomes settled, and [0, i) is a heap again |
| HeapSort.SortHeap | algs.h:401-413 | sorted and a permutation, with at least N swaps |
| QuickSort.ScanUp | algs.h:419-422 | the left scan skips exactly the samples at most the pivot, stopping at high at the latest, counting one comparison per step |
| QuickSort.ScanDown | algs.h:423-426 | the right scan skips exactly the samples above the pivot, stopping at low at the latest |
| QuickSort.Partition | algs.h:415-437 | the pivot (the first sample) ends at the returned index p in low..high; everything before p is at most the pivot, everything after is larger, nothing outside low..high moves, and the multiset is kept |
| QuickSort.SortedAroundPivot | algs.h:439-446 | sorting both sides of a partitioned range in place sorts the range |
| QuickSort.QuickSortRange | algs.h:439-446 | low..high becomes sorted, only that range is rearranged, and the multiset is kept |
| QuickSort.SortQuick | algs.h:448-452 | low..high becomes sorted and a permutation; on 0..N-1 the whole buffer is sorted |
| MergeSort.MergedPermutes | algs.h:454-494 | the merge holds exactly the samples of both runs |
| MergeSort.MergedSorted | algs.h:454-494 | the merge of two sorted runs is sorted |
| MergeSort.MergedOfOrderedRuns | algs.h:465 | ties go to the left run: when no left sample exceeds a right one, the merge is the left run followed by the right run |
| MergeSort.TakeLeft | algs.h:465-468 | writing the left head when it is at most the right head is the next element of the merge |
| MergeSort.TakeRight | algs.h:469-472 | writing the right head when it is smaller is the next element of the merge |
| MergeSort.CopyRun | algs.h:459-460 | the local copy holds the run's samples |
| MergeSort.MergeStep | algs.h:463-477 | one iteration writes the next element of the merge, counting one comparison and one swap |
| MergeSort.MergeHeads | algs.h:463-477 | the first loop writes the merge's first i+j elements until one run is used up, counting i+j comparisons and swaps |
| MergeSort.MergedRest | algs.h:478-493 | once one run is used up, the rest of the merge is the rest of the other run |
| MergeSort.CopyRest | algs.h:478-493 | a trailing loop copies the rest of one run, one swap per sample |
| MergeSort.MergeTail | algs.h:478-493 | the trailing loops complete the merge |
| MergeSort.Merge | algs.h:454-494 | l..r becomes the merge of the old runs l..m and m+1..r and nothing else moves; r-l+1 swaps and at most r-l comparisons, at least one run's length of them |
| MergeSort.MergeKeepsSamples | algs.h:454-494 | writing the merge over its runs keeps the buffer's multiset |
| MergeSort.MergeSortsRange | algs.h:496-503 | merging two adjacent sorted runs sorts their union |
| MergeSort.MergeSortRange | algs.h:496-503 | l..r becomes sorted, only that range is rearranged, and the multiset is kept |
| MergeSort.SortMerge | algs.h:505-509 | l..r becomes sorted and a permutation; on 0..N-1 the whole buffer is sorted |
| Buckets.Digit | algs.h:539 | every key names a valid slot of the count array |
| Buckets.SelectSplit | algs.h:538-543 | counting over two consecutive ranges adds up |
| Buckets.SelectCounts | algs.h:538-543 | a key's selection from a prefix holds each of its values as often as the prefix does |
| Buckets.FilterCounts | algs.h:546-553 | bucket b holds every sample with key b, as often as the input does, and nothing else |
| Buckets.BucketedCounts | algs.h:546-553 | the buckets below K hold exactly the samples with such keys |
| Buckets.BucketedPermutes | algs.h:546-553 | all the buckets together are a rearrangement of the input |
| Buckets.BucketedSortedByKey | algs.h:546-553 | the buckets come in non-decreasing key order |
| Buckets.StartsApart | algs.h:544-545 | the bucket ranges from the prefix sums lie side by side in the output, each as long as its bucket |
| Buckets.SlotBackward | algs.h:611 | the backward loop writes each sample inside its own bucket's range |
| Buckets.PlaceBackward | algs.h:611-612 | one backward step extends the sample's bucket at its front and leaves the other buckets alone |
| Buckets.SlotForward | algs.h:547 | the forward loop writes each sample inside its own bucket's range |
| Buckets.PlaceForward | algs.h:547-548 | one forward step adds the sample to its bucket and leaves the other buckets alone |
| Buckets.PlacedFromAll | algs.h:610-616 | after the backward loop the output is exactly the stable bucket sequence |
| Buckets.PlacedUpToAll | algs.h:546-553 | after the forward loop the output is exactly the bucket sequence, since equal values are interchangeable |
| Buckets.PrefixSums | algs.h:544-545 | the tallies become the end position of each bucket |
| Buckets.PutBelow | algs.h:547-548 | the sample is written just below the count, which is then decremented |
| Buckets.CopyBack | algs.h:554-559 | the samples become the output, counting one swap per sample |
| CountingSort.ValueBucketsSorted | algs.h:532-561 | for values in 0..N, the buckets by value are the input sorted |
| CountingSort.PlacedValuesSorted | algs.h:546-553 | once every sample is placed, the output is sorted and a permutation |
| CountingSort.TallyValues | algs.h:538-543 | count[b] becomes the number of samples equal to b, with one comparison per sample |
| CountingSort.PlaceValue | algs.h:547-551 | one placement step keeps the placement invariant and counts one swap |
| CountingSort.PlaceValues | algs.h:546-553 | the output becomes the samples sorted, with N swaps |
| CountingSort.SortCounting | algs.h:532-561 | for samples in 0..N: sorted and a permutation, with exactly N comparisons and 2N swaps |
| RadixSort.PassesWhileDigitsLeft | algs.h:629 | the loop test m / exp > 0 holds for exactly the first DecimalDigits(m) passes |
| RadixSort.ShiftIsDivision | algs.h:603 | dropping e digits one at a time is dividing by 10^e |
| RadixSort.DigitOf | algs.h:603 | (v / exp) % 10 is the decimal digit of weight exp = 10^e of a non-negative sample |
| RadixSort.LowStep | algs.h:603 | the last e+1 digits are the digit of weight 10^e followed by the last e digits |
| RadixSort.LowOrder | algs.h:610-616 | a smaller digit of weight 10^e, or an equal one with smaller lower digits, gives smaller last e+1 digits |
| RadixSort.SelectKeepsLowOrder | algs.h:610-616 | selecting a bucket keeps the order on the lower digits |
| RadixSort.BucketedLowSorted | algs.h:610-616 | the stable distribution on digit e of a sequence ordered on its last e digits is ordered on its last e+1 |
| RadixSort.AllDigitsSorted | algs.h:629 | ordered on every digit below a power of ten that exceeds the samples means sorted |
| RadixSort.BelowPowerOfDigits | algs.h:629 | every value in 0..m is below 10^DecimalDigits(m) |
| RadixSort.DigitsOfMaxSuffice | algs.h:626-633 | after one pass per digit of m, a permutation of non-negative samples bounded by m is sorted |
| RadixSort.PassOrdersNextDigit | algs.h:596-624 | the stable distribution on digit e is a rearrangement that keeps samples non-negative and turns an order on the last e digits into an order on the last e+1 |
| RadixSort.PlacedDigitsOrdered | algs.h:610-616 | after the backward loop the output is a permutation of the samples, ordered on one more digit whenever they were ordered on the last e |
| RadixSort.TallyDigits | algs.h:601-605 | count[d] becomes the number of samples with digit d, every output slot is 1, and there is one comparison per sample |
| RadixSort.PlaceOne | algs.h:611-614 | one backward step keeps the placement invariant and counts one swap |
| RadixSort.PlaceByDigit | algs.h:610-616 | the output is a permutation of the samples, and is ordered on one more digit whenever the samples were ordered on the last e; N swaps |
| RadixSort.CountSortRadix | algs.h:596-624 | on any non-negative samples, one pass keeps the multiset and extends an order on the last e digits to the last e+1, with N comparisons and 2N swaps |
| RadixSort.SortRadix | algs.h:626-633 | always a permutation ordered on its last DecimalDigits(max) digits, hence sorted whenever max bounds the samples; N comparisons and 2N swaps per decimal digit of max |

## Left out

- **Rendering.** `sample_show` builds and prints the screen, with its bars, colours, markers
  and statistics line. It is modelled only as appending the marker triple to the ghost
  `frames` list when visualization is on. `title`, `clear`, `reset_colors` and `mssleep`
  are dropped: they do not touch the samples or the counters.
- **`sample_generate`.** The interactive menu (algs.h:82-141) reads the keyboard. It is
  not modelled; the generators it dispatches to are.
- **Flags.** `SMOOTH_TRANSITIONS` and `TRANSITION_FRAMES` are fixed when the program is
  built. `ENABLE_VISUALIZATION` (algs.h:5) is a mutable global that a caller may change
  at run time, as test.c:340 does. All three are modelled as the `Config` parameter that
  each operation receives, so every configuration is covered, and a caller may pass a
  different `visualize` from one call to the next. Interchange, selection and bubble sort
  choose between the animated and the plain exchange on `smoothTransitions`, as the C
  code does.
- **Randomness.** `rand()` in `sample_generate_random` becomes the parameter `rolls`,
  taken two per exchange. Any non-negative results are allowed.
- **Output streams.** The validator's `fprintf` to stderr is returned as the list of
  diagnostics instead of being printed.
- **Integer width.** Samples are unbounded integers; C `int` overflow is not modelled. It
  could happen in two places. Radix sort's `exp *= 10` (algs.h:629) overflows after the
  pass with exp = 10^9, which runs only when `max` is at least 10^9. `sample_height`
  (algs.h:39-41, `Samples.Height`) computes `max - data[i]` in `int`, which overflows for
  a sample below INT_MIN + max. With generated or validated data (max = N = 18, samples
  in 1..N) neither happens.
- **Division.** C divides with truncation and Dafny uses Euclidean division. The two agree
  on non-negative samples. A negative sample whose truncated digit `(v / exp) % 10` is
  non-zero makes the C code index `count` out of bounds; a negative sample whose digits
  are all zero in the passes made (such as -100 with max = 18) is harmless in C. SortRadix
  requires every sample to be non-negative, so it excludes these harmless negatives too;
  the generators and `Validate` never produce a negative sample. For the loop test
  `m / exp > 0` the two divisions also agree for negative `m`: neither makes a pass.
- SortRadix: sortedness is stated only when the recorded `max` bounds every sample. The C
  code takes the number of passes from `max`, not from the data, so larger samples are
  only partially ordered: the contract states that they are always ordered on their last
  DecimalDigits(max) digits. The generators always set `max` to N = 18 with every sample in
  1..N.
- SortCounting: requires every sample to lie in 0..N, since the C code indexes
  `count[SAMPLE_SIZE + 1]` by the sample itself. The forward placement loop reverses equal
  values, which cannot be observed for plain integers.
- SortHeap, SortShell, SortCocktail, SortComb, SortQuick, SortMerge: the exact numbers of
  comparisons and swaps are not stated, only bounds relating them. These counts depend on
  the data in ways the C code does not promise.
- **Markers.** The frame markers drawn by each sort are recorded but not specified beyond
  Show, CompareSwap and SwapAnimated.
