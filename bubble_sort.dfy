/**
 * Exchange (bubble) sort engine: a nested loop whose inner bound shrinks by
 * one per pass, exchanging adjacent elements when the right one is strictly
 * smaller, with no early exit on a pass that exchanged nothing.
 */
module BubbleEngine {
  import opened SortSpec
  import opened Trace

  datatype Action = Init | Compare | Swap | PassComplete | Complete

  /** The adjacent pair under comparison; -1 in both fields when there is none. */
  datatype Cursor = Cursor(comparingWith: int, comparingWithNext: int)

  type BubbleStep = Step<Action, Cursor>

  const NoPair := Cursor(-1, -1)

  /** A compare or swap step names a pair (i, i + 1) inside its snapshot. */
  ghost predicate OnPair(c: BubbleStep) {
    && 0 <= c.cursor.comparingWith
    && c.cursor.comparingWithNext == c.cursor.comparingWith + 1
    && c.cursor.comparingWithNext < |c.snapshot|
  }

  /** The pair named by `c` is out of order: its right element is strictly smaller. */
  ghost predicate OutOfOrder(c: BubbleStep)
    requires OnPair(c)
  {
    c.snapshot[c.cursor.comparingWith + 1] < c.snapshot[c.cursor.comparingWith]
  }

  /** A marker step repeats the snapshot and the counters and names no pair. */
  ghost predicate Marks(p: BubbleStep, c: BubbleStep) {
    c.snapshot == p.snapshot && c.cursor == NoPair && c.comparisons == p.comparisons && c.swaps == p.swaps
  }

  /**
   * What may follow step `p` in a bubble trace: a compare step counts one
   * comparison and leaves the snapshot alone; a swap step comes right after
   * the compare of the same pair exactly when that pair was out of order,
   * exchanges the two elements and nothing else, and counts one movement;
   * pass_complete and complete only mark; nothing follows complete.
   */
  ghost predicate Follows(p: BubbleStep, c: BubbleStep) {
    && p.action != Complete
    && (p.action == Compare ==> OnPair(p) && (c.action == Swap <==> OutOfOrder(p)))
    && match c.action
       case Init => false
       case Compare =>
         OnPair(c) && c.snapshot == p.snapshot && c.comparisons == p.comparisons + 1 && c.swaps == p.swaps
       case Swap =>
         && p.action == Compare && c.cursor == p.cursor
         && c.snapshot == Exchanged(p.snapshot, p.cursor.comparingWith, p.cursor.comparingWithNext)
         && c.comparisons == p.comparisons && c.swaps == p.swaps + 1
       case PassComplete => Marks(p, c)
       case Complete => Marks(p, c)
  }

  /** Every step follows its predecessor (stated step by step from the end). */
  ghost predicate Replays(steps: seq<BubbleStep>)
    decreases |steps|
  {
    |steps| <= 1 || (Replays(Front(steps)) && Follows(Last(Front(steps)), Last(steps)))
  }

  lemma {:induction false} FollowsAt(steps: seq<BubbleStep>, k: nat)
    requires Replays(steps) && 0 < k < |steps|
    ensures Follows(steps[k - 1], steps[k])
    decreases |steps|
  {
    if k < |steps| - 1 {
      FollowsAt(Front(steps), k);
    }
  }

  /** The pair the scan compares after step `p`: the next one right of a compare or swap, else (0, 1). */
  function NextPair(p: BubbleStep): int {
    if p.action == Compare || p.action == Swap then p.cursor.comparingWith + 1 else 0
  }

  /**
   * Where step `c` may fall after `p` once `passes` outer passes are
   * complete: pass number `passes` compares the pairs (0, 1), (1, 2), ... up
   * to (size - 2 - passes, size - 1 - passes) in turn; its pass_complete
   * comes right after the last of them (at once when the pass has none);
   * complete comes only after all size passes.
   */
  ghost predicate InPlace(p: BubbleStep, c: BubbleStep, passes: nat) {
    var bound := |c.snapshot| - 1 - passes;
    match c.action
    case Init => false
    case Compare => c.cursor.comparingWith == NextPair(p) < bound
    case Swap => c.cursor == p.cursor
    case PassComplete => passes < |c.snapshot| && NextPair(p) == bound
    case Complete => passes == |c.snapshot|
  }

  /** Every step falls where the nested loops put it (stated step by step from the end). */
  ghost predicate Scheduled(steps: seq<BubbleStep>)
    decreases |steps|
  {
    |steps| <= 1 ||
    (Scheduled(Front(steps)) && InPlace(Last(Front(steps)), Last(steps), Count(Front(steps), PassComplete)))
  }

  lemma {:induction false} ScheduledAt(steps: seq<BubbleStep>, k: nat)
    requires Scheduled(steps) && 0 < k < |steps|
    ensures InPlace(steps[k - 1], steps[k], Count(steps[..k], PassComplete))
    decreases |steps|
  {
    if k < |steps| - 1 {
      ScheduledAt(Front(steps), k);
      assert Front(steps)[..k] == steps[..k];
    } else {
      assert Front(steps) == steps[..k];
    }
  }

  /** The last `passes` positions hold the largest values, in ascending order. */
  ghost predicate SettledAfter(s: seq<int>, passes: int) {
    0 <= passes <= |s| && Sorted(s[|s| - passes..]) && Partitioned(s, |s| - passes)
  }

  /** The p-th pass_complete step has settled the last p positions (stated step by step from the end). */
  ghost predicate PassesSettle(steps: seq<BubbleStep>)
    decreases |steps|
  {
    |steps| == 0 ||
    (PassesSettle(Front(steps)) &&
     (Last(steps).action == PassComplete ==> SettledAfter(Last(steps).snapshot, Count(steps, PassComplete))))
  }

  lemma {:induction false} SettledAt(steps: seq<BubbleStep>, k: nat)
    requires PassesSettle(steps) && k < |steps| && steps[k].action == PassComplete
    ensures SettledAfter(steps[k].snapshot, Count(steps[..k + 1], PassComplete))
    decreases |steps|
  {
    if k < |steps| - 1 {
      SettledAt(Front(steps), k);
      assert Front(steps)[..k + 1] == steps[..k + 1];
    } else {
      assert steps[..k + 1] == steps;
    }
  }

  lemma Extend(steps: seq<BubbleStep>, s: BubbleStep)
    requires |steps| > 0 && Replays(steps) && PassesSettle(steps) && Scheduled(steps)
    requires Follows(Last(steps), s) && InPlace(Last(steps), s, Count(steps, PassComplete))
    requires s.action == PassComplete ==> SettledAfter(s.snapshot, Count(steps, PassComplete) + 1)
    ensures Replays(steps + [s]) && PassesSettle(steps + [s]) && Scheduled(steps + [s])
    ensures forall a :: Count(steps + [s], a) == Count(steps, a) + (if s.action == a then 1 else 0)
  {
    FrontAppend(steps, s);
    CountAppend(steps, s);
  }

  /** In a trace that replays from `init`, each counter equals the number of steps recorded for it. */
  lemma {:induction false} CountersTally(steps: seq<BubbleStep>)
    requires |steps| > 0 && Replays(steps)
    requires steps[0].action == Init && steps[0].comparisons == 0 && steps[0].swaps == 0
    ensures Last(steps).comparisons == Count(steps, Compare)
    ensures Last(steps).swaps == Count(steps, Swap)
    decreases |steps|
  {
    if |steps| > 1 {
      CountersTally(Front(steps));
    }
  }

  /** Along a trace that replays, the counters never decrease. */
  lemma ReplaysNonDecreasing(steps: seq<BubbleStep>)
    requires Replays(steps)
    ensures NonDecreasing(steps)
  {
    assert AdjacentNonDecreasing(steps) by {
      forall k | 0 < k < |steps|
        ensures steps[k - 1].comparisons <= steps[k].comparisons && steps[k - 1].swaps <= steps[k].swaps
      {
        FollowsAt(steps, k);
      }
    }
    NonDecreasingFromAdjacent(steps);
  }

  /**
   * The bookkeeping shared by every point of a run on `input` after `passes`
   * outer passes: the trace starts with `init`, replays, its last step holds
   * the working copy `work` and the running counters, and the trace holds one
   * step per comparison, per exchange and per completed pass beside `init`.
   */
  ghost predicate Recorded(steps: seq<BubbleStep>, input: seq<int>, work: seq<int>, passes: nat, comparisons: nat, swaps: nat) {
    && |steps| == 1 + passes + comparisons + swaps
    && steps[0] == Step(input, Init, NoPair, 0, 0)
    && Replays(steps) && PassesSettle(steps) && Scheduled(steps)
    && Last(steps).snapshot == work && multiset(work) == multiset(input)
    && Last(steps).comparisons == comparisons && Last(steps).swaps == swaps
    && Count(steps, PassComplete) == passes
  }

  /** Appending a step that follows the last one keeps the bookkeeping. */
  lemma Record(steps: seq<BubbleStep>, input: seq<int>, passes: nat, s: BubbleStep)
    requires |steps| > 0
    requires Recorded(steps, input, Last(steps).snapshot, passes, Last(steps).comparisons, Last(steps).swaps)
    requires Follows(Last(steps), s) && InPlace(Last(steps), s, passes) && s.action != Complete
    requires s.action == PassComplete ==> SettledAfter(s.snapshot, passes + 1)
    ensures Recorded(steps + [s], input, s.snapshot, passes + (if s.action == PassComplete then 1 else 0), s.comparisons, s.swaps)
  {
    Extend(steps, s);
  }

  /** Recording the comparison of the pair (i, i + 1) keeps the bookkeeping. */
  lemma RecordCompare(steps: seq<BubbleStep>, input: seq<int>, work: seq<int>, j: nat, comparisons: nat, swaps: nat, i: nat)
    requires Recorded(steps, input, work, j, comparisons, swaps) && i + 1 < |work| - j && i == NextPair(Last(steps))
    requires Last(steps).action in {Init, PassComplete, Compare, Swap}
    requires Last(steps).action == Compare ==> OnPair(Last(steps)) && !OutOfOrder(Last(steps))
    ensures Recorded(steps + [Step(work, Compare, Cursor(i, i + 1), comparisons + 1, swaps)], input, work, j, comparisons + 1, swaps)
  {
    Record(steps, input, j, Step(work, Compare, Cursor(i, i + 1), comparisons + 1, swaps));
  }

  /** Recording the exchange of an out-of-order pair right after its comparison keeps the bookkeeping. */
  lemma RecordSwap(steps: seq<BubbleStep>, input: seq<int>, work: seq<int>, j: nat, comparisons: nat, swaps: nat, i: nat)
    requires Recorded(steps, input, work, j, comparisons, swaps) && i + 1 < |work| && work[i + 1] < work[i]
    requires Last(steps) == Step(work, Compare, Cursor(i, i + 1), comparisons, swaps)
    ensures Recorded(steps + [Step(Exchanged(work, i, i + 1), Swap, Cursor(i, i + 1), comparisons, swaps + 1)],
                     input, Exchanged(work, i, i + 1), j, comparisons, swaps + 1)
  {
    Record(steps, input, j, Step(Exchanged(work, i, i + 1), Swap, Cursor(i, i + 1), comparisons, swaps + 1));
  }

  /** Position `i` holds the largest of the first i + 1 elements. */
  ghost predicate MaxAt(s: seq<int>, i: nat) {
    i < |s| && forall q :: 0 <= q < i ==> s[q] <= s[i]
  }

  /**
   * One compare-and-exchange of the inner loop carries the largest element of
   * the prefix one position right and leaves the settled suffix alone.
   */
  lemma BubbleUp(s: seq<int>, i: nat, passes: nat)
    requires SettledAfter(s, passes) && MaxAt(s, i) && i + 1 < |s| - passes
    ensures s[i + 1] < s[i] ==> SettledAfter(Exchanged(s, i, i + 1), passes) && MaxAt(Exchanged(s, i, i + 1), i + 1)
    ensures !(s[i + 1] < s[i]) ==> MaxAt(s, i + 1)
  {
    var r := Exchanged(s, i, i + 1);
    assert r[|r| - passes..] == s[|s| - passes..];
  }

  /** When the inner loop ends, the maximum it carried joins the settled suffix. */
  lemma PassSettles(s: seq<int>, passes: nat)
    requires SettledAfter(s, passes) && passes < |s| && MaxAt(s, |s| - 1 - passes)
    ensures SettledAfter(s, passes + 1)
  {
    assert s[|s| - (passes + 1)..] == [s[|s| - 1 - passes]] + s[|s| - passes..];
  }

  /** Exchanges the adjacent elements at `i` and `i + 1` of the working copy through a temporary. */
  method ExchangeAdjacent(result: array<int>, i: nat)
    requires i + 1 < result.Length
    modifies result
    ensures result[..] == Exchanged(old(result[..]), i, i + 1)
  {
    var tmp := result[i + 1];
    result[i + 1] := result[i];
    result[i] := tmp;
  }

  /**
   * The state of pass `j` after the comparisons of the first `i` pairs: the
   * bookkeeping holds, the suffix settled by earlier passes is untouched, the
   * largest element seen so far sits at `i`, and the last step is not a
   * compare still owed its exchange.
   */
  ghost predicate Scanning(steps: seq<BubbleStep>, input: seq<int>, work: seq<int>, j: nat, i: nat, comparisons: nat, swaps: nat) {
    && Recorded(steps, input, work, j, comparisons, swaps)
    && SettledAfter(work, j) && MaxAt(work, i) && swaps <= comparisons
    && Last(steps).action in {Init, PassComplete, Compare, Swap}
    && (Last(steps).action == Compare ==> OnPair(Last(steps)) && !OutOfOrder(Last(steps)))
    && NextPair(Last(steps)) == i
  }

  /** The working copy after the inner iteration on the pair (i, i + 1): exchanged exactly when out of order. */
  function AfterCompare(work: seq<int>, i: nat): seq<int>
    requires i + 1 < |work|
  {
    if work[i + 1] < work[i] then Exchanged(work, i, i + 1) else work
  }

  /** The steps that iteration appends: its compare, then its swap when the pair was out of order. */
  function IterationSteps(work: seq<int>, i: nat, comparisons: nat, swaps: nat): seq<BubbleStep>
    requires i + 1 < |work|
  {
    [Step(work, Compare, Cursor(i, i + 1), comparisons + 1, swaps)] +
    if work[i + 1] < work[i] then [Step(Exchanged(work, i, i + 1), Swap, Cursor(i, i + 1), comparisons + 1, swaps + 1)] else []
  }

  /** One inner iteration keeps the scan invariant, one pair further right. */
  lemma ScanOnce(steps: seq<BubbleStep>, input: seq<int>, work: seq<int>, j: nat, i: nat, comparisons: nat, swaps: nat,
                 steps': seq<BubbleStep>, work': seq<int>, comparisons': nat, swaps': nat)
    requires i + 1 < |work| - j && Scanning(steps, input, work, j, i, comparisons, swaps)
    requires steps' == steps + IterationSteps(work, i, comparisons, swaps) && work' == AfterCompare(work, i)
    requires comparisons' == comparisons + 1 && swaps' == swaps + if work[i + 1] < work[i] then 1 else 0
    ensures Scanning(steps', input, work', j, i + 1, comparisons', swaps')
  {
    var compare := Step(work, Compare, Cursor(i, i + 1), comparisons + 1, swaps);
    RecordCompare(steps, input, work, j, comparisons, swaps, i);
    BubbleUp(work, i, j);
    if work[i + 1] < work[i] {
      RecordSwap(steps + [compare], input, work, j, comparisons + 1, swaps, i);
      assert steps + IterationSteps(work, i, comparisons, swaps) ==
             steps + [compare] + [Step(Exchanged(work, i, i + 1), Swap, Cursor(i, i + 1), comparisons + 1, swaps + 1)];
    } else {
      assert steps + IterationSteps(work, i, comparisons, swaps) == steps + [compare];
    }
  }

  /**
   * One iteration of the inner loop: count and record the comparison of the
   * pair (i, i + 1); when the right element is strictly smaller, exchange the
   * two, count the movement and record the exchange.
   */
  method CompareAndExchange(result: array<int>, i: nat, steps0: seq<BubbleStep>, comparisons0: nat, swaps0: nat)
    returns (steps: seq<BubbleStep>, comparisons: nat, swaps: nat)
    requires i + 1 < result.Length
    modifies result
    ensures result[..] == AfterCompare(old(result[..]), i)
    ensures comparisons == comparisons0 + 1
    ensures swaps == swaps0 + if old(result[i + 1] < result[i]) then 1 else 0
    ensures steps == steps0 + IterationSteps(old(result[..]), i, comparisons0, swaps0)
  {
    ghost var work := result[..];
    comparisons, swaps := comparisons0 + 1, swaps0;
    steps := steps0 + [Step(result[..], Compare, Cursor(i, i + 1), comparisons, swaps)];
    if result[i + 1] < result[i] {
      ExchangeAdjacent(result, i);
      swaps := swaps + 1;
      steps := steps + [Step(result[..], Swap, Cursor(i, i + 1), comparisons, swaps)];
    }
    assert result[..] == AfterCompare(work, i) && steps == steps0 + IterationSteps(work, i, comparisons0, swaps0);
  }

  /** Recording `pass_complete` once the inner loop of pass `j` is over settles one more position. */
  lemma RecordPassComplete(steps: seq<BubbleStep>, input: seq<int>, work: seq<int>, j: nat, comparisons: nat, swaps: nat)
    requires j < |work| && Scanning(steps, input, work, j, |work| - 1 - j, comparisons, swaps)
    ensures Recorded(steps + [Step(work, PassComplete, NoPair, comparisons, swaps)], input, work, j + 1, comparisons, swaps)
    ensures SettledAfter(work, j + 1)
  {
    PassSettles(work, j);
    Record(steps, input, j, Step(work, PassComplete, NoPair, comparisons, swaps));
  }

  /**
   * Outer pass `j`: compares the pairs (i, i + 1) for i below `size - 1 - j`,
   * then records `pass_complete`. It carries the largest value of the
   * unsettled prefix to position `size - 1 - j`.
   */
  method Pass(result: array<int>, ghost input: seq<int>, j: nat, steps0: seq<BubbleStep>, comparisons0: nat, swaps0: nat)
    returns (steps: seq<BubbleStep>, comparisons: nat, swaps: nat)
    requires j < result.Length && swaps0 <= comparisons0
    requires Recorded(steps0, input, result[..], j, comparisons0, swaps0)
    requires Last(steps0).action in {Init, PassComplete}
    requires SettledAfter(result[..], j)
    modifies result
    ensures Recorded(steps, input, result[..], j + 1, comparisons, swaps)
    ensures Last(steps).action == PassComplete
    ensures SettledAfter(result[..], j + 1)
    ensures comparisons == comparisons0 + (result.Length - 1 - j) && swaps <= comparisons
    ensures steps0 < steps
  {
    var size := result.Length;
    steps, comparisons, swaps := steps0, comparisons0, swaps0;
    for i := 0 to size - 1 - j
      invariant Scanning(steps, input, result[..], j, i, comparisons, swaps)
      invariant comparisons == comparisons0 + i
      invariant steps0 <= steps
    {
      ghost var (before, work, comparisonsBefore, swapsBefore) := (steps, result[..], comparisons, swaps);
      steps, comparisons, swaps := CompareAndExchange(result, i, steps, comparisons, swaps);
      ScanOnce(before, input, work, j, i, comparisonsBefore, swapsBefore, steps, result[..], comparisons, swaps);
      PrefixKept(steps0, before, IterationSteps(work, i, comparisonsBefore, swapsBefore));
    }

    RecordPassComplete(steps, input, result[..], j, comparisons, swaps);
    PrefixKept(steps0, steps, [Step(result[..], PassComplete, NoPair, comparisons, swaps)]);
    steps := steps + [Step(result[..], PassComplete, NoPair, comparisons, swaps)];
  }

  /** Every step of `steps` follows its predecessor. */
  ghost predicate EveryStepFollows(steps: seq<BubbleStep>) {
    forall k :: 0 < k < |steps| ==> Follows(steps[k - 1], steps[k])
  }

  /** Every step of `steps` falls where the nested loops put it. */
  ghost predicate EveryStepInPlace(steps: seq<BubbleStep>) {
    forall k :: 0 < k < |steps| ==> InPlace(steps[k - 1], steps[k], Count(steps[..k], PassComplete))
  }

  /** The p-th pass_complete step of `steps` has settled the last p positions. */
  ghost predicate EveryPassSettles(steps: seq<BubbleStep>) {
    forall k :: 0 <= k < |steps| && steps[k].action == PassComplete ==>
      SettledAfter(steps[k].snapshot, Count(steps[..k + 1], PassComplete))
  }

  /** A finished run: the trace after appending `complete`, still in its recursive form. */
  ghost predicate Done(t: seq<BubbleStep>, input: seq<int>, comparisons: nat, swaps: nat) {
    && |t| == 2 + |input| + comparisons + swaps && t[0] == Step(input, Init, NoPair, 0, 0)
    && Replays(t) && PassesSettle(t) && Scheduled(t) && Count(t, PassComplete) == |input|
    && Last(t) == Step(Last(t).snapshot, Complete, NoPair, comparisons, swaps)
    && Sorted(Last(t).snapshot) && multiset(Last(t).snapshot) == multiset(input)
    && comparisons == |input| * (|input| - 1) / 2 && swaps <= comparisons
  }

  /** Appending `complete` to a trace after all n passes finishes the run. */
  lemma Conclude(steps: seq<BubbleStep>, input: seq<int>, work: seq<int>, comparisons: nat, swaps: nat, t: seq<BubbleStep>)
    requires Recorded(steps, input, work, |input|, comparisons, swaps)
    requires Last(steps).action in {Init, PassComplete} && SettledAfter(work, |input|)
    requires comparisons == ScanComparisons(|input|, |input|) && swaps <= comparisons
    requires t == steps + [Step(work, Complete, NoPair, comparisons, swaps)]
    ensures Done(t, input, comparisons, swaps)
  {
    Extend(steps, Last(t));
    assert |work| == |input| by { assert |multiset(work)| == |multiset(input)|; }
    assert work[0..] == work;
    ScanComparisonsTotal(|input|);
  }

  /** A finished run has every property promised for it, stated over all its steps. */
  lemma Finished(t: seq<BubbleStep>, input: seq<int>, comparisons: nat, swaps: nat)
    requires Done(t, input, comparisons, swaps)
    ensures |t| >= 2 && t[0] == Step(input, Init, NoPair, 0, 0)
    ensures Last(t).action == Complete && Last(t).cursor == NoPair
    ensures Last(t).comparisons == comparisons && Last(t).swaps == swaps
    ensures Sorted(Last(t).snapshot) && multiset(Last(t).snapshot) == multiset(input)
    ensures comparisons == |input| * (|input| - 1) / 2
    ensures swaps <= comparisons
    ensures |t| == 2 + |input| + comparisons + swaps
    ensures Count(t, Compare) == comparisons && Count(t, Swap) == swaps
    ensures Count(t, PassComplete) == |input|
    ensures EveryStepFollows(t) && EveryStepInPlace(t) && EveryPassSettles(t) && NonDecreasing(t)
  {
    ReplaysNonDecreasing(t);
    CountersTally(t);
    forall k | 0 < k < |t| ensures Follows(t[k - 1], t[k]) {
      FollowsAt(t, k);
    }
    forall k | 0 < k < |t| ensures InPlace(t[k - 1], t[k], Count(t[..k], PassComplete)) {
      ScheduledAt(t, k);
    }
    forall k | 0 <= k < |t| && t[k].action == PassComplete
      ensures SettledAfter(t[k].snapshot, Count(t[..k + 1], PassComplete))
    {
      SettledAt(t, k);
    }
  }

  /** The trace holding only `init` opens the run, with nothing settled yet. */
  lemma Start(input: seq<int>)
    ensures Recorded([Step(input, Init, NoPair, 0, 0)], input, input, 0, 0, 0) && SettledAfter(input, 0)
  {
    assert input[|input|..] == [];
  }

  /** Sorts `result`, which holds `input`, recording the trace. */
  method Run(result: array<int>, ghost input: seq<int>) returns (steps: seq<BubbleStep>, comparisons: nat, swaps: nat)
    requires result[..] == input
    modifies result
    ensures Done(steps, input, comparisons, swaps)
  {
    var size := result.Length;
    comparisons, swaps := 0, 0;
    Start(input);
    steps := [Step(result[..], Init, NoPair, 0, 0)];

    for j := 0 to size
      invariant Recorded(steps, input, result[..], j, comparisons, swaps)
      invariant Last(steps).action in {Init, PassComplete}
      invariant SettledAfter(result[..], j)
      invariant comparisons == ScanComparisons(size, j) && swaps <= comparisons
    {
      steps, comparisons, swaps := Pass(result, input, j, steps, comparisons, swaps);
    }

    var complete := Step(result[..], Complete, NoPair, comparisons, swaps);
    Conclude(steps, input, result[..], comparisons, swaps, steps + [complete]);
    steps := steps + [complete];
  }

  /**
   * Sorts a copy of `arr` and returns the trace with its final counters.
   * The input itself is never written (there is no modifies clause).
   */
  method BubbleSort(arr: array<int>) returns (steps: seq<BubbleStep>, comparisons: nat, swaps: nat)
    ensures |steps| >= 2 && steps[0] == Step(arr[..], Init, NoPair, 0, 0)
    ensures Last(steps).action == Complete && Last(steps).cursor == NoPair
    ensures Last(steps).comparisons == comparisons && Last(steps).swaps == swaps
    ensures Sorted(Last(steps).snapshot) && multiset(Last(steps).snapshot) == multiset(arr[..])
    ensures comparisons == arr.Length * (arr.Length - 1) / 2
    ensures swaps <= comparisons
    ensures |steps| == 2 + arr.Length + comparisons + swaps
    ensures Count(steps, Compare) == comparisons && Count(steps, Swap) == swaps
    ensures Count(steps, PassComplete) == arr.Length
    ensures EveryStepFollows(steps) && EveryStepInPlace(steps) && EveryPassSettles(steps) && NonDecreasing(steps)
  {
    var result := new int[arr.Length](q requires 0 <= q < arr.Length reads arr => arr[q]);
    assert result[..] == arr[..];
    steps, comparisons, swaps := Run(result, arr[..]);
    Finished(steps, arr[..], comparisons, swaps);
  }
}
