/**
 * Selection sort engine: for each position i below n - 1, scan the suffix
 * after i for the first occurrence of its minimum, then exchange it into
 * position i, or record that it was already there.
 */
module SelectionEngine {
  import opened SortSpec
  import opened Trace

  datatype Action = SelectMin | Compare | NewMin | Swap | NoSwap | Complete

  /**
   * `sortedUpTo`: length of the sorted prefix; `currentMin`: index of the
   * smallest element seen by the scan; `comparingWith`: index being compared
   * with it. -1 means "not applicable".
   */
  datatype Cursor = Cursor(sortedUpTo: int, currentMin: int, comparingWith: int)

  type SelectionStep = Step<Action, Cursor>

  /** The cursor of a step recorded after position i is fixed, or of `complete` when i + 1 = n. */
  function Fixed(i: int): Cursor {
    Cursor(i + 1, -1, -1)
  }

  /** A scan step: i <= currentMin <= comparingWith < n, with i = sortedUpTo. */
  ghost predicate InScan(c: SelectionStep) {
    0 <= c.cursor.sortedUpTo <= c.cursor.currentMin <= c.cursor.comparingWith < |c.snapshot|
  }

  /** The element being compared is strictly smaller than the current minimum. */
  ghost predicate Smaller(c: SelectionStep)
    requires InScan(c)
  {
    c.snapshot[c.cursor.comparingWith] < c.snapshot[c.cursor.currentMin]
  }

  /** `m` is the first index of the smallest element of s[lo..hi). */
  ghost predicate FirstMin(s: seq<int>, lo: int, hi: int, m: int) {
    && 0 <= lo <= m < hi <= |s|
    && (forall q :: lo <= q < hi ==> s[m] <= s[q])
    && (forall q :: lo <= q < m ==> s[m] < s[q])
  }

  /** The first `k` positions hold the k smallest values, in ascending order. */
  ghost predicate PrefixSettled(s: seq<int>, k: int) {
    0 <= k <= |s| && Sorted(s[..k]) && Partitioned(s, k)
  }

  ghost predicate SameState(p: SelectionStep, c: SelectionStep) {
    c.snapshot == p.snapshot && c.comparisons == p.comparisons && c.swaps == p.swaps
  }

  /** The scan of `p` has reached the last index. */
  ghost predicate ScanDone(p: SelectionStep) {
    p.action in {Compare, NewMin} && InScan(p) && p.cursor.comparingWith == |p.snapshot| - 1
  }

  /**
   * What may follow step `p` in a selection trace. A compare step moves the
   * scan one index right and counts one comparison; new_min comes right
   * after a compare exactly when the compared element is strictly smaller
   * and moves `currentMin` to it; once the scan reaches the end, swap
   * (when the minimum is not already at i) exchanges positions i and
   * `currentMin` and counts one movement, or no_swap records that nothing
   * moved; either way `currentMin` was the first occurrence of the minimum
   * of the suffix and the prefix up to i + 1 is settled.
   */
  ghost predicate Follows(p: SelectionStep, c: SelectionStep) {
    && p.action != Complete
    && (p.action == Compare ==> InScan(p) && (c.action == NewMin <==> Smaller(p)))
    && match c.action
       case SelectMin =>
         && p.action in {Swap, NoSwap} && SameState(p, c)
         && c.cursor == Cursor(p.cursor.sortedUpTo, p.cursor.sortedUpTo, p.cursor.sortedUpTo)
         && 0 <= c.cursor.sortedUpTo < |c.snapshot| - 1
       case Compare =>
         && p.action in {SelectMin, Compare, NewMin}
         && c.snapshot == p.snapshot && c.comparisons == p.comparisons + 1 && c.swaps == p.swaps
         && c.cursor == Cursor(p.cursor.sortedUpTo, p.cursor.currentMin, p.cursor.comparingWith + 1)
         && InScan(c)
       case NewMin =>
         && p.action == Compare && SameState(p, c)
         && c.cursor == Cursor(p.cursor.sortedUpTo, p.cursor.comparingWith, p.cursor.comparingWith)
       case Swap =>
         && ScanDone(p) && p.cursor.currentMin != p.cursor.sortedUpTo
         && FirstMin(p.snapshot, p.cursor.sortedUpTo, |p.snapshot|, p.cursor.currentMin)
         && c.snapshot == Exchanged(p.snapshot, p.cursor.sortedUpTo, p.cursor.currentMin)
         && c.comparisons == p.comparisons && c.swaps == p.swaps + 1
         && c.cursor == Fixed(p.cursor.sortedUpTo) && PrefixSettled(c.snapshot, c.cursor.sortedUpTo)
       case NoSwap =>
         && ScanDone(p) && p.cursor.currentMin == p.cursor.sortedUpTo
         && FirstMin(p.snapshot, p.cursor.sortedUpTo, |p.snapshot|, p.cursor.currentMin)
         && SameState(p, c)
         && c.cursor == Fixed(p.cursor.sortedUpTo) && PrefixSettled(c.snapshot, c.cursor.sortedUpTo)
       case Complete =>
         && p.action in {Swap, NoSwap} && SameState(p, c)
         && p.cursor.sortedUpTo == |p.snapshot| - 1 && c.cursor == Fixed(p.cursor.sortedUpTo)
  }

  /** Every step follows its predecessor (stated step by step from the end). */
  ghost predicate Replays(steps: seq<SelectionStep>)
    decreases |steps|
  {
    |steps| <= 1 || (Replays(Front(steps)) && Follows(Last(Front(steps)), Last(steps)))
  }

  lemma {:induction false} FollowsAt(steps: seq<SelectionStep>, k: nat)
    requires Replays(steps) && 0 < k < |steps|
    ensures Follows(steps[k - 1], steps[k])
    decreases |steps|
  {
    if k < |steps| - 1 {
      FollowsAt(Front(steps), k);
    }
  }

  /** The first step of a run on `input`: select_min at 0, or complete when there is nothing to do. */
  function FirstStep(input: seq<int>): SelectionStep {
    if |input| <= 1 then Step(input, Complete, Cursor(|input|, -1, -1), 0, 0)
    else Step(input, SelectMin, Cursor(0, 0, 0), 0, 0)
  }

  /** In a trace that replays from its first step, each counter equals the number of steps recorded for it. */
  lemma {:induction false} CountersTally(steps: seq<SelectionStep>)
    requires |steps| > 0 && Replays(steps)
    requires steps[0].action in {SelectMin, Complete} && steps[0].comparisons == 0 && steps[0].swaps == 0
    ensures Last(steps).comparisons == Count(steps, Compare)
    ensures Last(steps).swaps == Count(steps, Swap)
    decreases |steps|
  {
    if |steps| > 1 {
      CountersTally(Front(steps));
    }
  }

  /** Along a trace that replays, the counters never decrease. */
  lemma ReplaysNonDecreasing(steps: seq<SelectionStep>)
    requires Replays(steps)
    ensures NonDecreasing(steps)
  {
    assert AdjacentNonDecreasing(steps) by {
      forall k | 0 < k < |steps|
        ensures steps[k - 1].comparisons <= steps[k].comparisons && steps[k - 1].swaps <= steps[k].swaps
      {
        FollowsAt(steps, k);
      }
    }
    NonDecreasingFromAdjacent(steps);
  }

  /**
   * The bookkeeping shared by every point of a run on `input` after `rounds`
   * outer iterations: the trace starts with its first step, replays, its last
   * step holds the working copy `work` and the running counters, and one
   * swap or no_swap was recorded per finished iteration.
   */
  ghost predicate Recorded(steps: seq<SelectionStep>, input: seq<int>, work: seq<int>, rounds: nat, comparisons: nat, swaps: nat) {
    && |steps| > 0 && steps[0] == FirstStep(input) && Replays(steps)
    && Last(steps).snapshot == work && multiset(work) == multiset(input)
    && Last(steps).comparisons == comparisons && Last(steps).swaps == swaps
    && Count(steps, Swap) + Count(steps, NoSwap) == rounds
  }

  /** Appending a step that follows the last one keeps the bookkeeping. */
  lemma Record(steps: seq<SelectionStep>, input: seq<int>, rounds: nat, s: SelectionStep)
    requires |steps| > 0
    requires Recorded(steps, input, Last(steps).snapshot, rounds, Last(steps).comparisons, Last(steps).swaps)
    requires Follows(Last(steps), s)
    ensures Recorded(steps + [s], input, s.snapshot, rounds + (if s.action in {Swap, NoSwap} then 1 else 0), s.comparisons, s.swaps)
  {
    FrontAppend(steps, s);
    CountAppend(steps, s);
    assert (steps + [s])[0] == steps[0];
  }

  /**
   * The state of the scan for position `i` once indices up to `j - 1` have
   * been compared: `minIdx` is the first minimum of work[i..j), the prefix
   * before i is settled, and the last step is select_min, new_min, or a
   * compare that found nothing smaller, all with the cursor (i, minIdx, j - 1).
   */
  ghost predicate Scanning(steps: seq<SelectionStep>, input: seq<int>, work: seq<int>, i: nat, j: nat, minIdx: nat,
                           comparisons: nat, swaps: nat) {
    && Recorded(steps, input, work, i, comparisons, swaps)
    && i < j <= |work| && FirstMin(work, i, j, minIdx) && PrefixSettled(work, i)
    && Last(steps).action in {SelectMin, Compare, NewMin}
    && Last(steps).cursor == Cursor(i, minIdx, j - 1)
    && (Last(steps).action == Compare ==> !(work[j - 1] < work[minIdx]))
  }

  /** Recording the comparison of index j with the current minimum keeps the bookkeeping, and the scan state when nothing smaller was found. */
  lemma RecordCompare(steps: seq<SelectionStep>, input: seq<int>, work: seq<int>, i: nat, j: nat, minIdx: nat,
                      comparisons: nat, swaps: nat)
    requires Scanning(steps, input, work, i, j, minIdx, comparisons, swaps) && j < |work|
    ensures var t := steps + [Step(work, Compare, Cursor(i, minIdx, j), comparisons + 1, swaps)];
      && Recorded(t, input, work, i, comparisons + 1, swaps)
      && (!(work[j] < work[minIdx]) ==> Scanning(t, input, work, i, j + 1, minIdx, comparisons + 1, swaps))
  {
    var t := steps + [Step(work, Compare, Cursor(i, minIdx, j), comparisons + 1, swaps)];
    Record(steps, input, i, Last(t));
    FrontAppend(steps, Last(t));
  }

  /** Recording new_min right after a compare that found a smaller element moves the scan's minimum to j. */
  lemma RecordNewMin(t: seq<SelectionStep>, input: seq<int>, work: seq<int>, i: nat, j: nat, minIdx: nat,
                     comparisons: nat, swaps: nat)
    requires Recorded(t, input, work, i, comparisons, swaps) && PrefixSettled(work, i)
    requires j < |work| && FirstMin(work, i, j, minIdx) && work[j] < work[minIdx]
    requires Last(t) == Step(work, Compare, Cursor(i, minIdx, j), comparisons, swaps)
    ensures Scanning(t + [Step(work, NewMin, Cursor(i, j, j), comparisons, swaps)], input, work, i, j + 1, j, comparisons, swaps)
  {
    var s := Step(work, NewMin, Cursor(i, j, j), comparisons, swaps);
    Record(t, input, i, s);
    FrontAppend(t, s);
  }

  /**
   * The inner loop for position `i`: compares every later index with the
   * current minimum, recording each comparison and each new minimum.
   * Returns the first index of the minimum of the suffix.
   */
  method ScanForMin(result: array<int>, ghost input: seq<int>, i: nat, steps0: seq<SelectionStep>, comparisons0: nat, swaps: nat)
    returns (steps: seq<SelectionStep>, comparisons: nat, minIdx: nat)
    requires Scanning(steps0, input, result[..], i, i + 1, i, comparisons0, swaps)
    ensures Scanning(steps, input, result[..], i, result.Length, minIdx, comparisons, swaps)
    ensures comparisons == comparisons0 + (result.Length - 1 - i)
  {
    steps, comparisons, minIdx := steps0, comparisons0, i;
    for j := i + 1 to result.Length
      invariant Scanning(steps, input, result[..], i, j, minIdx, comparisons, swaps)
      invariant comparisons == comparisons0 + (j - 1 - i)
    {
      RecordCompare(steps, input, result[..], i, j, minIdx, comparisons, swaps);
      comparisons := comparisons + 1;
      steps := steps + [Step(result[..], Compare, Cursor(i, minIdx, j), comparisons, swaps)];
      if result[j] < result[minIdx] {
        RecordNewMin(steps, input, result[..], i, j, minIdx, comparisons, swaps);
        minIdx := j;
        steps := steps + [Step(result[..], NewMin, Cursor(i, minIdx, j), comparisons, swaps)];
      }
    }
  }

  /** Putting the first minimum of the suffix at position i settles one more position. */
  lemma PlaceMin(s: seq<int>, i: nat, m: nat)
    requires PrefixSettled(s, i) && FirstMin(s, i, |s|, m)
    ensures PrefixSettled(Exchanged(s, i, m), i + 1)
  {
    var r := Exchanged(s, i, m);
    assert forall q :: i <= q < |s| ==> r[q] in multiset(s[i..]) by {
      forall q | i <= q < |s| ensures r[q] in multiset(s[i..]) {
        if q == i { assert s[m] == s[i..][m - i]; }
        else if q == m { assert s[i] == s[i..][0]; }
        else { assert s[q] == s[i..][q - i]; }
      }
    }
    forall x, y | 0 <= x < i + 1 <= y < |r| ensures r[x] <= r[y] {
      if x < i {
        assert r[x] == s[x];
        assert r[y] in multiset(s[i..]);
        var q :| i <= q < |s| && s[q] == r[y];
      } else {
        assert r[y] in multiset(s[i..]);
        var q :| i <= q < |s| && s[q] == r[y];
      }
    }
    assert Sorted(r[..i + 1]) by {
      forall a, b | 0 <= a < b < i + 1 ensures r[a] <= r[b] {
        if b < i { assert r[a] == s[a] && r[b] == s[b] && s[..i][a] == s[a] && s[..i][b] == s[b]; }
      }
    }
  }

  /**
   * The end of iteration i: exchange position i with the minimum found when
   * they differ and record swap, otherwise record no_swap.
   */
  method Place(result: array<int>, ghost input: seq<int>, i: nat, minIdx: nat, steps0: seq<SelectionStep>, comparisons: nat, swaps0: nat)
    returns (steps: seq<SelectionStep>, swaps: nat)
    requires Scanning(steps0, input, result[..], i, result.Length, minIdx, comparisons, swaps0)
    modifies result
    ensures Recorded(steps, input, result[..], i + 1, comparisons, swaps) && Last(steps).action in {Swap, NoSwap}
    ensures Last(steps).cursor == Fixed(i) && PrefixSettled(result[..], i + 1)
    ensures minIdx < result.Length
    ensures result[..] == if minIdx != i then Exchanged(old(result[..]), i, minIdx) else old(result[..])
    ensures Last(steps).action == (if minIdx != i then Swap else NoSwap)
    ensures swaps == swaps0 + if minIdx != i then 1 else 0
    ensures steps == steps0 + [Last(steps)]
  {
    ghost var work := result[..];
    PlaceMin(work, i, minIdx);
    if minIdx != i {
      result[i], result[minIdx] := result[minIdx], result[i];
      swaps := swaps0 + 1;
      assert result[..] == Exchanged(work, i, minIdx);
      var swap := Step(result[..], Swap, Fixed(i), comparisons, swaps);
      Record(steps0, input, i, swap);
      steps := steps0 + [swap];
    } else {
      swaps := swaps0;
      assert Exchanged(work, i, i) == work;
      var noSwap := Step(result[..], NoSwap, Fixed(i), comparisons, swaps);
      Record(steps0, input, i, noSwap);
      steps := steps0 + [noSwap];
    }
  }

  /**
   * The state between outer iterations: `i` positions are settled, the
   * trace holds only its first step when i = 0 and otherwise ends with the
   * swap or no_swap of position i - 1, and the comparisons made so far are
   * those of i full scans.
   */
  ghost predicate Between(steps: seq<SelectionStep>, input: seq<int>, work: seq<int>, i: nat, comparisons: nat, swaps: nat) {
    && i < |work| && Recorded(steps, input, work, i, comparisons, swaps) && PrefixSettled(work, i)
    && (i == 0 ==> |steps| == 1 && Last(steps) == FirstStep(input))
    && (i > 0 ==> Last(steps).action in {Swap, NoSwap} && Last(steps).cursor == Fixed(i - 1))
    && comparisons == ScanComparisons(|work|, i)
  }

  /** Recording select_min for position i after the previous iteration starts a scan. */
  lemma RecordSelectMin(steps: seq<SelectionStep>, input: seq<int>, work: seq<int>, i: nat, comparisons: nat, swaps: nat)
    requires Between(steps, input, work, i, comparisons, swaps) && i + 1 < |work|
    ensures var t := if i == 0 then steps else steps + [Step(work, SelectMin, Cursor(i, i, i), comparisons, swaps)];
      Scanning(t, input, work, i, i + 1, i, comparisons, swaps)
  {
    if i > 0 {
      var s := Step(work, SelectMin, Cursor(i, i, i), comparisons, swaps);
      Record(steps, input, i, s);
      FrontAppend(steps, s);
    } else {
      assert |input| >= 2 by { assert |multiset(work)| == |multiset(input)|; }
    }
  }

  /** One outer iteration: select_min (after the first), the scan, then swap or no_swap. */
  method Round(result: array<int>, ghost input: seq<int>, i: nat, steps0: seq<SelectionStep>, comparisons0: nat, swaps0: nat)
    returns (steps: seq<SelectionStep>, comparisons: nat, swaps: nat)
    requires Between(steps0, input, result[..], i, comparisons0, swaps0) && i + 1 < result.Length
    modifies result
    ensures Between(steps, input, result[..], i + 1, comparisons, swaps)
  {
    RecordSelectMin(steps0, input, result[..], i, comparisons0, swaps0);
    steps := steps0;
    if i > 0 {
      steps := steps + [Step(result[..], SelectMin, Cursor(i, i, i), comparisons0, swaps0)];
    }
    var minIdx;
    steps, comparisons, minIdx := ScanForMin(result, input, i, steps, comparisons0, swaps0);
    steps, swaps := Place(result, input, i, minIdx, steps, comparisons, swaps0);
  }

  /** Every step of `steps` follows its predecessor. */
  ghost predicate EveryStepFollows(steps: seq<SelectionStep>) {
    forall k :: 0 < k < |steps| ==> Follows(steps[k - 1], steps[k])
  }

  /** A trace that replays satisfies the step-by-step properties stated for whole runs. */
  lemma EveryFollows(t: seq<SelectionStep>)
    requires Replays(t)
    ensures EveryStepFollows(t) && NonDecreasing(t)
  {
    ReplaysNonDecreasing(t);
    forall k | 0 < k < |t| ensures Follows(t[k - 1], t[k]) {
      FollowsAt(t, k);
    }
  }

  /** The counters of a recorded run are the numbers of compare and swap steps, and there are at most `rounds` swaps. */
  lemma Tally(t: seq<SelectionStep>, input: seq<int>, work: seq<int>, rounds: nat, comparisons: nat, swaps: nat)
    requires Recorded(t, input, work, rounds, comparisons, swaps)
    ensures Count(t, Compare) == comparisons && Count(t, Swap) == swaps && swaps <= rounds
  {
    CountersTally(t);
  }

  /** The rounds a run on `n` elements makes: one per position below n - 1. */
  function Rounds(n: nat): nat {
    if n == 0 then 0 else n - 1
  }

  /** A finished run: its trace ends with `complete` on a sorted snapshot after every round. */
  ghost predicate Done(t: seq<SelectionStep>, input: seq<int>, comparisons: nat, swaps: nat) {
    && |t| > 0 && Recorded(t, input, Last(t).snapshot, Rounds(|input|), comparisons, swaps)
    && Last(t).action == Complete && Last(t).cursor == Cursor(|input|, -1, -1)
    && Sorted(Last(t).snapshot) && comparisons == |input| * (|input| - 1) / 2
  }

  /** After the last iteration the whole working copy is sorted and all n(n-1)/2 comparisons were made. */
  lemma ConcludeOrder(input: seq<int>, work: seq<int>, i: nat, comparisons: nat)
    requires multiset(work) == multiset(input) && PrefixSettled(work, i) && i + 1 == |work|
    requires comparisons == ScanComparisons(|work|, i)
    ensures |work| == |input| && Sorted(work) && comparisons == |input| * (|input| - 1) / 2
  {
    assert |work| == |input| by { assert |multiset(work)| == |multiset(input)|; }
    SortedWhenSettled(work, |work| - 1);
    ScanComparisonsTotal(|input|);
  }

  /** Appending `complete` after the last iteration finishes the run. */
  lemma Conclude(steps: seq<SelectionStep>, input: seq<int>, work: seq<int>, i: nat, comparisons: nat, swaps: nat, t: seq<SelectionStep>)
    requires Between(steps, input, work, i, comparisons, swaps) && i + 1 == |work| && i > 0
    requires t == steps + [Step(work, Complete, Fixed(i), comparisons, swaps)]
    ensures Done(t, input, comparisons, swaps)
  {
    ConcludeOrder(input, work, i, comparisons);
    Record(steps, input, i, Last(t));
  }

  /** A run on at most one element is its single complete step. */
  lemma Single(input: seq<int>, t: seq<SelectionStep>)
    requires |input| <= 1 && t == [FirstStep(input)]
    ensures Done(t, input, 0, 0)
  {
    assert Front(t) == [];
  }

  /** A finished run has every property promised for it, stated over all its steps. */
  lemma Finished(t: seq<SelectionStep>, input: seq<int>, comparisons: nat, swaps: nat)
    requires Done(t, input, comparisons, swaps)
    ensures |t| > 0 && t[0] == FirstStep(input)
    ensures Last(t).action == Complete && Last(t).cursor == Cursor(|input|, -1, -1)
    ensures Last(t).comparisons == comparisons && Last(t).swaps == swaps
    ensures Sorted(Last(t).snapshot) && multiset(Last(t).snapshot) == multiset(input)
    ensures comparisons == |input| * (|input| - 1) / 2
    ensures Count(t, Compare) == comparisons && Count(t, Swap) == swaps
    ensures |input| >= 1 ==> Count(t, Swap) + Count(t, NoSwap) == |input| - 1 && swaps <= |input| - 1
    ensures EveryStepFollows(t) && NonDecreasing(t)
  {
    Tally(t, input, Last(t).snapshot, Rounds(|input|), comparisons, swaps);
    EveryFollows(t);
  }

  /** Sorts `result`, which holds `input`, recording the trace. */
  method Run(result: array<int>, ghost input: seq<int>) returns (steps: seq<SelectionStep>, comparisons: nat, swaps: nat)
    requires result[..] == input
    modifies result
    ensures Done(steps, input, comparisons, swaps)
    ensures |input| <= 1 ==> steps == [Step(input, Complete, Cursor(|input|, -1, -1), 0, 0)]
  {
    var n := result.Length;
    comparisons, swaps := 0, 0;
    steps := [FirstStep(result[..])];
    if n <= 1 {
      Single(input, steps);
      return;
    }

    var i := 0;
    while i < n - 1
      invariant 0 <= i <= n - 1 && Between(steps, input, result[..], i, comparisons, swaps)
    {
      steps, comparisons, swaps := Round(result, input, i, steps, comparisons, swaps);
      i := i + 1;
    }

    var complete := Step(result[..], Complete, Fixed(i), comparisons, swaps);
    Conclude(steps, input, result[..], i, comparisons, swaps, steps + [complete]);
    steps := steps + [complete];
  }

  /**
   * Sorts a copy of `arr` and returns the trace with its final counters.
   * The input itself is never written (there is no modifies clause).
   */
  method SelectionSort(arr: array<int>) returns (steps: seq<SelectionStep>, comparisons: nat, swaps: nat)
    ensures arr.Length <= 1 ==> steps == [Step(arr[..], Complete, Cursor(arr.Length, -1, -1), 0, 0)]
    ensures |steps| > 0 && steps[0] == FirstStep(arr[..])
    ensures Last(steps).action == Complete && Last(steps).cursor == Cursor(arr.Length, -1, -1)
    ensures Last(steps).comparisons == comparisons && Last(steps).swaps == swaps
    ensures Sorted(Last(steps).snapshot) && multiset(Last(steps).snapshot) == multiset(arr[..])
    ensures comparisons == arr.Length * (arr.Length - 1) / 2
    ensures Count(steps, Compare) == comparisons && Count(steps, Swap) == swaps
    ensures arr.Length >= 1 ==> Count(steps, Swap) + Count(steps, NoSwap) == arr.Length - 1 && swaps <= arr.Length - 1
    ensures EveryStepFollows(steps) && NonDecreasing(steps)
  {
    var result := new int[arr.Length](q requires 0 <= q < arr.Length reads arr => arr[q]);
    assert result[..] == arr[..];
    steps, comparisons, swaps := Run(result, arr[..]);
    Finished(steps, arr[..], comparisons, swaps);
  }
}
