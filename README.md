# Instrumented sorting engines

A Dafny model of the four sorting engines of a sorting-visualisation lab:
bubble sort, selection sort, insertion sort and iterative bottom-up merge sort.
Each engine copies its input array and sorts the copy in place. At every event
it appends a step record to a trace. A step holds a snapshot of the working
copy, an action tag, the algorithm's cursor indices and the running
`comparisons` and `swaps` counters. The engine returns the trace and the two
final counters.

Each engine is its own module. Its working copy is an `array<int>` sorted in
place by methods with `while`/`for` loops, as in the JavaScript engines. The
trace is a `seq` of `Trace.Step` values that grows by appending. The snapshot
field is called `snapshot`, because the JavaScript field name `array` is a
Dafny keyword. Every action tag and every cursor field of the JavaScript
engines is kept, with `-1` meaning "no index".

Each engine comes with a transition relation, `Follows(p, c)`. It says which
step `c` may follow step `p` and what may change between them: the snapshot,
the cursor and each counter. In bubble sort, the pair a compare names and the
place of `pass_complete` and `complete` depend on the pass number as well, so
a second relation, `InPlace(p, c, passes)`, fixes them: pass j compares
(0, 1), (1, 2), … up to (n-2-j, n-1-j) in turn, then records `pass_complete`.
Every engine's top-level method proves three things about the trace it
returns:

- every step follows its predecessor;
- the last step is `complete` and holds a sorted permutation of the input;
- the counters equal the number of steps of each kind and never decrease along
  the trace.

Beyond those, each engine proves its own counts and invariants:

- **Bubble sort:** exactly n(n-1)/2 comparisons; swaps ≤ comparisons; trace
  length 2 + n + comparisons + swaps; after pass p, the last p positions hold
  the p largest values in order.
- **Selection sort:** exactly n(n-1)/2 comparisons; one `swap` or `no_swap`
  per position; the scan finds the first occurrence of the minimum.
- **Insertion sort:** after each `insert`, the prefix is a sorted permutation of
  the original prefix; n - 1 ≤ comparisons ≤ swaps + n - 1.
- **Merge sort:** each pass writes `MergePass(work, h)`, the reference
  definition of one pass, to `temp`; after each copy-back, the runs of width 2h
  are sorted; swaps = n · passes; the final width is the least power of two
  ≥ n.

The input array is never written: the top-level methods have no `modifies`
clause.

Modules:

- `SortSpec`: sortedness, exchange of two positions, the closed form of the
  shrinking-scan comparison count.
- `Trace`: the shared step record, `Front`/`Last`, counting steps by action,
  counter monotonicity.
- `BubbleEngine`, `SelectionEngine`, `InsertionEngine`, `MergeEngine`: one per
  engine.
- `MergeSpec`: the pure merge of two runs and one pass of the bottom-up merge,
  with their permutation, sortedness and stability lemmas.

## Model

| member | source | states |
|---|---|---|
| SortSpec.SortedWhenSettled | src/core/algorithms/selectionSort.js:26-99 | once the sorted prefix, no larger than the rest, leaves at most one element after it, the whole sequence is sorted (why n - 1 rounds suffice) |
| SortSpec.Exchanged | src/core/algorithms/bubbleSort.js:69-75 | exchanging positions i and j swaps those two values, keeps every other position and permutes the sequence |
| SortSpec.ScanComparisonsClosed | src/core/algorithms/bubbleSort.js:48-53 | `passes` scans of a shrinking bound starting at size - 1 compare passes·(2·size - passes - 1)/2 pairs in total |
| SortSpec.ScanComparisonsTotal | src/core/algorithms/bubbleSort.js:48-53 | running the scan for all size passes, or for size - 1 passes, compares size·(size - 1)/2 pairs |
| BubbleEngine.ScheduledAt | src/core/algorithms/bubbleSort.js:48-111 | in a trace built by appending, each step falls where the nested loops put it: the compares of pass j name the pairs (0, 1), (1, 2), … in turn, pass_complete comes right after pair (n-2-j, n-1-j) (at once when the pass has no pairs), complete after n passes |
| BubbleEngine.FollowsAt | src/core/algorithms/bubbleSort.js:36-111 | in a trace built by appending, each step follows its predecessor |
| BubbleEngine.SettledAt | src/core/algorithms/bubbleSort.js:91-100 | the p-th pass_complete step holds a snapshot whose last p positions hold the p largest values in order |
| BubbleEngine.Extend | src/core/algorithms/bubbleSort.js:56-100 | a step that follows the last one keeps the trace replaying and settled, and counts once under its own action |
| BubbleEngine.CountersTally | src/core/algorithms/bubbleSort.js:53-77 | the comparisons counter equals the number of compare steps; the swaps counter equals the number of swap steps |
| BubbleEngine.ReplaysNonDecreasing | src/core/algorithms/bubbleSort.js:53-77 | along a replaying trace neither counter decreases |
| BubbleEngine.Record | src/core/algorithms/bubbleSort.js:56-100 | appending a following step keeps the run's bookkeeping and adds a pass when it is pass_complete |
| BubbleEngine.RecordCompare | src/core/algorithms/bubbleSort.js:53-63 | recording the comparison of pair (i, i + 1) counts one comparison and leaves the snapshot alone |
| BubbleEngine.RecordSwap | src/core/algorithms/bubbleSort.js:66-87 | recording the exchange of an out-of-order pair right after its compare swaps exactly positions i and i + 1 and counts one swap |
| BubbleEngine.BubbleUp | src/core/algorithms/bubbleSort.js:66-75 | a compare-and-exchange moves the largest element of the prefix to i + 1 and keeps the settled suffix |
| BubbleEngine.PassSettles | src/core/algorithms/bubbleSort.js:91-100 | at the end of the inner loop the carried maximum joins the settled suffix |
| BubbleEngine.ExchangeAdjacent | src/core/algorithms/bubbleSort.js:69-75 | the three assignments through `tmp` exchange positions i and i + 1 of the working copy |
| BubbleEngine.CompareAndExchange | src/core/algorithms/bubbleSort.js:52-88 | one inner iteration counts one comparison; the working copy becomes the old one with positions i and i + 1 exchanged exactly when old result[i+1] < result[i], and stays the same otherwise; swaps grows by one exactly then; the trace gains the compare of (i, i + 1) on the old copy, followed by the swap only when exchanged |
| BubbleEngine.ScanOnce | src/core/algorithms/bubbleSort.js:52-88 | the steps and working copy of one inner iteration keep the scan invariant one pair further right: bookkeeping, settled suffix, largest element so far at i + 1, next pair i + 1 |
| BubbleEngine.RecordPassComplete | src/core/algorithms/bubbleSort.js:93-100 | pass_complete after the inner loop of pass j settles j + 1 positions |
| BubbleEngine.Pass | src/core/algorithms/bubbleSort.js:48-101 | outer pass j makes size - 1 - j comparisons, settles one more position, only appends to the trace and ends it with pass_complete |
| BubbleEngine.Conclude | src/core/algorithms/bubbleSort.js:103-111 | complete after n passes ends a run with a sorted permutation and n(n-1)/2 comparisons |
| BubbleEngine.Finished | src/core/algorithms/bubbleSort.js:36-119 | a finished run starts with init and zero counters, ends with complete, returns the last counters, is a sorted permutation, has n(n-1)/2 comparisons, swaps ≤ comparisons, length 2 + n + comparisons + swaps, n pass_complete steps, every step following and falling where the nested loops put it, and every pass settled |
| BubbleEngine.Start | src/core/algorithms/bubbleSort.js:36-43 | the trace holding only init, on the input with zero counters, opens the run |
| BubbleEngine.Run | src/core/algorithms/bubbleSort.js:29-111 | sorting the working copy in place yields a finished run |
| BubbleEngine.BubbleSort | src/core/algorithms/bubbleSort.js:27-121 | as Finished, on a fresh copy of the input, which is never written |
| SelectionEngine.FollowsAt | src/core/algorithms/selectionSort.js:26-105 | in a trace built by appending, each step follows its predecessor |
| SelectionEngine.CountersTally | src/core/algorithms/selectionSort.js:41-81 | comparisons equals the number of compare steps; swaps equals the number of swap steps |
| SelectionEngine.ReplaysNonDecreasing | src/core/algorithms/selectionSort.js:41-81 | along a replaying trace neither counter decreases |
| SelectionEngine.Record | src/core/algorithms/selectionSort.js:30-93 | appending a following step keeps the bookkeeping and adds a round at swap or no_swap |
| SelectionEngine.RecordCompare | src/core/algorithms/selectionSort.js:41-52 | comparing j with the current minimum counts one comparison and keeps the scan state |
| SelectionEngine.RecordNewMin | src/core/algorithms/selectionSort.js:54-66 | new_min fires only for a strictly smaller element and makes j the first minimum of result[i..j] |
| SelectionEngine.ScanForMin | src/core/algorithms/selectionSort.js:41-67 | the scan makes n - 1 - i comparisons and leaves minIdx at the first occurrence of the minimum of result[i..n) |
| SelectionEngine.PlaceMin | src/core/algorithms/selectionSort.js:70-71 | exchanging position i with the suffix minimum extends the settled prefix to i + 1 |
| SelectionEngine.Place | src/core/algorithms/selectionSort.js:70-93 | when minIdx ≠ i the working copy becomes the old one with i and minIdx exchanged, swaps grows by one and one swap step is appended; otherwise nothing changes but one no_swap step; either way the prefix [0..i] is sorted and below the suffix |
| SelectionEngine.RecordSelectMin | src/core/algorithms/selectionSort.js:27-38 | select_min opens round i with minIdx = i |
| SelectionEngine.Round | src/core/algorithms/selectionSort.js:26-94 | one outer iteration carries the between-rounds invariant from i to i + 1 |
| SelectionEngine.EveryFollows | src/core/algorithms/selectionSort.js:26-105 | every step follows its predecessor and counters never decrease |
| SelectionEngine.Tally | src/core/algorithms/selectionSort.js:42-72 | the counters equal the compare and swap step counts and swaps ≤ rounds |
| SelectionEngine.ConcludeOrder | src/core/algorithms/selectionSort.js:26-94 | after n - 1 rounds the working copy is sorted and n(n-1)/2 comparisons were made |
| SelectionEngine.Conclude | src/core/algorithms/selectionSort.js:97-105 | complete after the rounds finishes the run |
| SelectionEngine.Single | src/core/algorithms/selectionSort.js:26-105 | for n ≤ 1 the lone complete step is a finished run |
| SelectionEngine.Finished | src/core/algorithms/selectionSort.js:26-113 | a finished run: complete with sortedUpTo = n, counters returned, sorted permutation, n(n-1)/2 comparisons, one swap or no_swap per position, swaps ≤ n - 1, every step following |
| SelectionEngine.Run | src/core/algorithms/selectionSort.js:20-105 | sorting the working copy in place yields a finished run; for n ≤ 1 the trace is the single complete step |
| SelectionEngine.SelectionSort | src/core/algorithms/selectionSort.js:18-115 | as Finished, on a fresh copy of the input, which is never written |
| InsertionEngine.FollowsAt | src/core/algorithms/insertionSort.js:46-126 | in a trace built by appending, each step follows its predecessor under the key of its round |
| InsertionEngine.PlacedAt | src/core/algorithms/insertionSort.js:105-114 | every insert step holds a sorted permutation of the original prefix [0..j] |
| InsertionEngine.CountersTally | src/core/algorithms/insertionSort.js:73-99 | comparisons equals the number of compare steps; swaps equals the number of shift steps |
| InsertionEngine.ReplaysNonDecreasing | src/core/algorithms/insertionSort.js:73-99 | along a replaying trace neither counter decreases |
| InsertionEngine.Record | src/core/algorithms/insertionSort.js:62-114 | appending a following step keeps the bookkeeping; pick_key sets the round's key, other steps keep it |
| InsertionEngine.Opened | src/core/algorithms/insertionSort.js:88-99 | the copy after shifting result[i+1..j-1] one slot right: positions up to i + 1 and after j are unchanged, the others hold their left neighbour |
| InsertionEngine.Inserted | src/core/algorithms/insertionSort.js:105 | the key lands at k, positions k + 1..j hold their left neighbours, the rest is unchanged |
| InsertionEngine.OpenFurther | src/core/algorithms/insertionSort.js:89 | one more shift opens the gap one slot further left |
| InsertionEngine.Land | src/core/algorithms/insertionSort.js:105 | writing the key into the gap gives the inserted sequence |
| InsertionEngine.InsertedPermutes | src/core/algorithms/insertionSort.js:57-115 | inserting keeps the prefix a permutation of the original prefix and leaves the suffix alone |
| InsertionEngine.InsertedSorted | src/core/algorithms/insertionSort.js:86-105 | inserting the key after the first element ≤ key, past only larger ones, keeps the prefix sorted |
| InsertionEngine.InsertedPlaced | src/core/algorithms/insertionSort.js:105-114 | the insert step is placed and prepares round j + 1 |
| InsertionEngine.Start | src/core/algorithms/insertionSort.js:46-54 | init with sortedUpTo = 1 opens the run |
| InsertionEngine.RecordPickKey | src/core/algorithms/insertionSort.js:58-70 | pick_key takes result[j] as key and starts the scan at i = j - 1 |
| InsertionEngine.RecordStop | src/core/algorithms/insertionSort.js:73-86 | a compare that finds result[i] ≤ key stops the scan |
| InsertionEngine.RecordGreater | src/core/algorithms/insertionSort.js:73-86 | a compare that finds result[i] > key counts one comparison and must be followed by a shift |
| InsertionEngine.RecordShift | src/core/algorithms/insertionSort.js:89-101 | a shift copies result[i] to i + 1, counts one swap and moves the scan to i - 1 |
| InsertionEngine.CompareAndShift | src/core/algorithms/insertionSort.js:73-101 | one inner iteration either stops at i or shifts and moves to i - 1 |
| InsertionEngine.ShiftGreater | src/core/algorithms/insertionSort.js:73-102 | the scan ends at the first element ≤ key or at i = -1 |
| InsertionEngine.RecordInsert | src/core/algorithms/insertionSort.js:105-114 | insert writes the key at i + 1 with keyIndex = i + 1 and sortedUpTo = j + 1 |
| InsertionEngine.InsertRound | src/core/algorithms/insertionSort.js:57-115 | one outer iteration carries the between-rounds invariant from j to j + 1 |
| InsertionEngine.EveryFollows | src/core/algorithms/insertionSort.js:46-126 | every step follows, every insert is placed, counters never decrease |
| InsertionEngine.Conclude | src/core/algorithms/insertionSort.js:118-126 | complete after the rounds finishes the run |
| InsertionEngine.Single | src/core/algorithms/insertionSort.js:27-43 | for n ≤ 1 the lone complete step is a finished run |
| InsertionEngine.Finished | src/core/algorithms/insertionSort.js:27-134 | a finished run: complete with sortedUpTo = n, counters returned, sorted permutation, swaps ≤ comparisons ≤ n(n-1)/2, n - 1 ≤ comparisons ≤ swaps + n - 1, one insert per round, every step following and every insert placed |
| InsertionEngine.Run | src/core/algorithms/insertionSort.js:20-126 | sorting the working copy in place yields a finished run; for n ≤ 1 the trace is the single complete step |
| InsertionEngine.InsertionSort | src/core/algorithms/insertionSort.js:19-136 | as Finished, on a fresh copy of the input, which is never written |
| MergeSpec.Pow2 | src/core/algorithms/mergeSort.js:232 | the width after p doublings of 1 is at least 1 |
| MergeSpec.Pow2Monotone | src/core/algorithms/mergeSort.js:232 | more doublings never give a smaller width |
| MergeSpec.LeastWidth | src/core/algorithms/mergeSort.js:82 | the width at loop exit is the least power of two ≥ n |
| MergeSpec.Merge | src/core/algorithms/mergeSort.js:124-207 | the merge of two runs has their combined length |
| MergeSpec.MergeTakesLeft | src/core/algorithms/mergeSort.js:141-144 | when the left head is ≤ the right head (or the right run is empty), the merge starts with the left head |
| MergeSpec.MergeTakesRight | src/core/algorithms/mergeSort.js:145-148 | when the right head is strictly smaller (or the left run is empty), the merge starts with the right head |
| MergeSpec.MergePermutes | src/core/algorithms/mergeSort.js:124-207 | a merge holds exactly the elements of its two runs |
| MergeSpec.MergeSorted | src/core/algorithms/mergeSort.js:124-207 | the merge of two sorted runs is sorted |
| MergeSpec.MergeOrigin | src/core/algorithms/mergeSort.js:141-149 | the source position of each output element has one entry per output element |
| MergeSpec.Shifted | src/core/algorithms/mergeSort.js:141-149 | advancing one run shifts each origin in it by one |
| MergeSpec.TracedTakeLeft | src/core/algorithms/mergeSort.js:141-144 | taking the left head keeps every output element traced to its source position |
| MergeSpec.TracedTakeRight | src/core/algorithms/mergeSort.js:145-148 | taking the right head keeps every output element traced to its source position |
| MergeSpec.OrderAfter | src/core/algorithms/mergeSort.js:141-149 | placing the taken head in front of the rest of the merge keeps the positions drawn from each run strictly increasing |
| MergeSpec.LeftUsedAfter | src/core/algorithms/mergeSort.js:141-149 | placing the taken head in front of the rest of the merge keeps every left position drawn, one more when the head came from the left |
| MergeSpec.RightUsedAfter | src/core/algorithms/mergeSort.js:141-149 | placing the taken head in front of the rest of the merge keeps every right position drawn, one more when the head came from the right |
| MergeSpec.PairsTakeLeft | src/core/algorithms/mergeSort.js:141-144 | taking the left head keeps an equal left/right pair with the left copy first |
| MergeSpec.PairsTakeRight | src/core/algorithms/mergeSort.js:145-148 | taking a strictly smaller right head keeps an equal left/right pair with the left copy first |
| MergeSpec.TiesTakeLeft | src/core/algorithms/mergeSort.js:141-144 | taking the left head keeps equal elements in input order: an equal left/right pair left copy first, each run's positions strictly increasing, every input position drawn |
| MergeSpec.TiesTakeRight | src/core/algorithms/mergeSort.js:145-148 | taking a strictly smaller right head keeps equal elements in input order: an equal left/right pair left copy first, each run's positions strictly increasing, every input position drawn |
| MergeSpec.MergeStable | src/core/algorithms/mergeSort.js:141-149 | each output element is the input element its origin names; every input position is the origin of exactly one output position (positions from each run strictly increase, and all are drawn); of two equal elements the one from the left run, or earlier in the same run, comes first (stability) |
| MergeSpec.MergePass | src/core/algorithms/mergeSort.js:98-224 | one pass of width h keeps the length |
| MergeSpec.MergePassPermutes | src/core/algorithms/mergeSort.js:98-229 | a pass permutes the working copy |
| MergeSpec.SortedRunsOfOne | src/core/algorithms/mergeSort.js:74 | every run of width 1 is sorted |
| MergeSpec.MergePassSorts | src/core/algorithms/mergeSort.js:98-246 | a pass of width h over sorted runs of width h gives sorted runs of width 2h |
| MergeSpec.MergePassFrom | src/core/algorithms/mergeSort.js:100-210 | from an aligned block on, the pass is the block's merge followed by the pass over the rest |
| MergeEngine.FollowsAt | src/core/algorithms/mergeSort.js:39-259 | in a trace built by appending, each step follows its predecessor |
| MergeEngine.RunsSortedAtIndex | src/core/algorithms/mergeSort.js:235-245 | every copy_back step holds sorted runs of its new width |
| MergeEngine.CountersTally | src/core/algorithms/mergeSort.js:124-206 | comparisons equals the number of compare steps; swaps equals the number of copy, copy_remaining_left and copy_remaining_right steps |
| MergeEngine.ReplaysNonDecreasing | src/core/algorithms/mergeSort.js:124-206 | along a replaying trace neither counter decreases |
| MergeEngine.Record | src/core/algorithms/mergeSort.js:39-259 | appending a following step keeps the bookkeeping, adding a pass at copy_back and a block at merge_step_complete |
| MergeEngine.AdvanceLeft | src/core/algorithms/mergeSort.js:141-144 | writing the left head to temp[k] extends the merged prefix by the merge's next element |
| MergeEngine.AdvanceRight | src/core/algorithms/mergeSort.js:145-148 | writing the right head to temp[k] extends the merged prefix by the merge's next element |
| MergeEngine.ProduceLeft | src/core/algorithms/mergeSort.js:143-150 | a left take keeps temp[left..k) plus the merge of what remains equal to the block's merge |
| MergeEngine.ProduceRight | src/core/algorithms/mergeSort.js:147-150 | a right take keeps temp[left..k) plus the merge of what remains equal to the block's merge |
| MergeEngine.TakeProduced | src/core/algorithms/mergeSort.js:141-150 | the take chosen by result[i] <= result[j] keeps the produced-so-far invariant |
| MergeEngine.TakeRecorded | src/core/algorithms/mergeSort.js:125-164 | compare then copy count one comparison and one swap and record the moved cursor |
| MergeEngine.StepTake | src/core/algorithms/mergeSort.js:124-164 | one iteration of the comparing loop keeps the block invariant with comparisons = c0 + (k - left) |
| MergeEngine.DrainLeftRecorded | src/core/algorithms/mergeSort.js:168-185 | copy_remaining_left counts one swap and advances i and k |
| MergeEngine.DrainRightRecorded | src/core/algorithms/mergeSort.js:189-206 | copy_remaining_right counts one swap and advances j and k |
| MergeEngine.StepDrainLeft | src/core/algorithms/mergeSort.js:168-185 | one left-tail copy keeps the block invariant |
| MergeEngine.StepDrainRight | src/core/algorithms/mergeSort.js:189-206 | one right-tail copy keeps the block invariant |
| MergeEngine.TakeSmaller | src/core/algorithms/mergeSort.js:124-164 | one comparing iteration writes the smaller head (the left one on ties) to temp[k], keeps temp below `left`, keeps the block invariant, and appends to the trace |
| MergeEngine.MergeHeads | src/core/algorithms/mergeSort.js:124-165 | the comparing loop runs until one run is used up, keeping the block invariant and the trace so far as a prefix |
| MergeEngine.CopyLeftOnce | src/core/algorithms/mergeSort.js:168-185 | one left-tail iteration copies result[i] to temp[k] and appends to the trace |
| MergeEngine.DrainLeft | src/core/algorithms/mergeSort.js:168-186 | the left tail loop ends with i = mid, keeping the trace so far as a prefix |
| MergeEngine.CopyRightOnce | src/core/algorithms/mergeSort.js:189-206 | one right-tail iteration copies result[j] to temp[k] and appends to the trace |
| MergeEngine.DrainRight | src/core/algorithms/mergeSort.js:189-207 | the right tail loop ends with j = right, keeping the trace so far as a prefix |
| MergeEngine.StartBlock | src/core/algorithms/mergeSort.js:102-121 | merge_start opens the block at `left` with i = left, j = mid, k = left |
| MergeEngine.EndBlock | src/core/algorithms/mergeSort.js:210-223 | once both runs are used up temp[left..right) is their merge, and merge_step_complete points at left + 2h |
| MergeEngine.MergeBlock | src/core/algorithms/mergeSort.js:100-223 | temp[left..right) becomes the merge of [left, mid) and [mid, right); temp below `left` is unchanged; swaps grows by right - left; comparisons by at most right - left - 1; the trace only grows |
| MergeEngine.PassSoFarStep | src/core/algorithms/mergeSort.js:100-210 | merging the block at `left` extends temp's share of the pass to left + 2h |
| MergeEngine.PassStarts | src/core/algorithms/mergeSort.js:98 | at left = 0 nothing of the pass is in temp yet |
| MergeEngine.PassEnds | src/core/algorithms/mergeSort.js:100 | when left reaches n, temp holds the whole pass |
| MergeEngine.WidenStep | src/core/algorithms/mergeSort.js:210-223 | a recorded block moves the block loop's trace invariant to the next block |
| MergeEngine.NextBlock | src/core/algorithms/mergeSort.js:100-223 | one block-loop iteration keeps both halves of the block-loop invariant and only appends to the trace |
| MergeEngine.MergeWidth | src/core/algorithms/mergeSort.js:98-224 | the block loop leaves temp equal to MergePass(result, h); swaps grows by n; no snapshot changes; the trace only grows |
| MergeEngine.EndWidth | src/core/algorithms/mergeSort.js:100 | when the blocks reach the end, the pass's trace is complete |
| MergeEngine.CopyTempBack | src/core/algorithms/mergeSort.js:227-229 | the copy-back loop makes result equal to temp |
| MergeEngine.Start | src/core/algorithms/mergeSort.js:39-74 | init with h = 1 opens the run with sorted runs of width 1 |
| MergeEngine.OpenPass | src/core/algorithms/mergeSort.js:84-94 | outer_loop_start opens the block loop of width h |
| MergeEngine.ClosePass | src/core/algorithms/mergeSort.js:227-245 | copy_back holds MergePass(work, h) and doubles h, leaving sorted runs of width 2h and n more swaps |
| MergeEngine.Pass | src/core/algorithms/mergeSort.js:82-246 | one outer iteration replaces the working copy by MergePass of the old copy at width h, doubles the width, keeps the runs of the new width sorted and the copy a permutation of the input, and only appends to the trace |
| MergeEngine.Regroup | src/core/algorithms/mergeSort.js:100-223 | the pass output so far followed by the rest of the pass regroups into the whole pass after one more block |
| MergeEngine.EveryFollows | src/core/algorithms/mergeSort.js:39-259 | every step follows its predecessor, every copy_back holds sorted runs, counters never decrease |
| MergeEngine.Conclude | src/core/algorithms/mergeSort.js:249-259 | complete once h ≥ n finishes the run |
| MergeEngine.Single | src/core/algorithms/mergeSort.js:52-70 | for n ≤ 1, init followed by complete with zero counters is a finished run |
| MergeEngine.Finished | src/core/algorithms/mergeSort.js:39-267 | a finished run: init then complete for n ≤ 1; otherwise a sorted permutation with final h the least power of two ≥ n, swaps = n·passes, comparisons + blocks ≤ swaps, counters equal to step counts, every step following, every copy_back sorted |
| MergeEngine.Run | src/core/algorithms/mergeSort.js:32-259 | sorting the working copy in place yields a finished run |
| MergeEngine.MergeSort | src/core/algorithms/mergeSort.js:30-269 | as Finished, on a fresh copy of the input, which is never written |

## Left out

- `executionTimeMs`: the wall-clock time from `performance.now()` is not modelled. It is a floating-point measurement with no deterministic value.
- Values other than integers: the engines only compare and copy elements, so `int` stands for any totally ordered number. NaN and the other non-finite numbers, which break that order in JavaScript, are not modelled.
- MergeEngine.Run: `temp` starts as an `int` array rather than an array of empty slots. Every slot is written before it is read, so no behaviour differs.
- MergeSpec.MergeStable: stability is proved for one merge, on the positions it draws from. It is not lifted to a statement about the whole sort's output.
- InsertionEngine.Finished: stability of insertion sort is stated through `Follows`: only elements strictly greater than the key shift. It is not stated as a positional property of the final array.
- The user interface, sound, theme, routing, input parsing and the development server are not part of this model.

