/**
 * Insertion sort engine: for each index j from 1, take its element as the
 * key, compare it leftwards with the sorted prefix, shift every strictly
 * greater element one place right, and drop the key into the gap.
 */
module InsertionEngine {
  import opened SortSpec
  import opened Trace

  datatype Action = Init | PickKey | Compare | Shift | Insert | Complete

  /**
   * `sortedUpTo`: length of the sorted prefix; `keyIndex`: index of the key
   * (or, on insert, the slot it landed in); `comparingWith`: index compared
   * with the key. -1 means "not applicable".
   */
  datatype Cursor = Cursor(sortedUpTo: int, keyIndex: int, comparingWith: int)

  type InsertionStep = Step<Action, Cursor>

  /** The cursor of init, complete and the single step of a short input. */
  function Idle(k: int): Cursor {
    Cursor(k, -1, -1)
  }

  /** The rounds a run on `n` elements makes: one key per index from 1. */
  function Rounds(n: nat): nat {
    if n == 0 then 0 else n - 1
  }

  /** A step inside the leftward scan: 0 <= comparingWith < keyIndex = sortedUpTo < n. */
  ghost predicate Comparing(c: InsertionStep) {
    0 <= c.cursor.comparingWith < c.cursor.keyIndex == c.cursor.sortedUpTo < |c.snapshot|
  }

  ghost predicate SameState(p: InsertionStep, c: InsertionStep) {
    c.snapshot == p.snapshot && c.comparisons == p.comparisons && c.swaps == p.swaps
  }

  /**
   * The key of the round in progress at the end of `steps`: the element at
   * `keyIndex` in the latest pick_key step. Later snapshots of the round
   * may have overwritten it, so it is carried from there.
   */
  ghost function PassKey(steps: seq<InsertionStep>): int
    decreases |steps|
  {
    if |steps| == 0 then 0
    else if Last(steps).action == PickKey && 0 <= Last(steps).cursor.keyIndex < |Last(steps).snapshot|
    then Last(steps).snapshot[Last(steps).cursor.keyIndex]
    else PassKey(Front(steps))
  }

  /**
   * What may follow step `p` in an insertion trace, where `key` is the key
   * of the round. pick_key takes the element at index sortedUpTo; a compare
   * counts one comparison, at the index left of pick_key's or of the last
   * shift; shift comes right after a compare exactly when the compared
   * element is strictly greater than the key, copies it one place right and
   * counts one movement; after a shift the scan continues while indices
   * remain; insert writes the key into the slot right of the last compare
   * (or into slot 0 after a shift of index 0) and extends the prefix by one.
   */
  ghost predicate Follows(p: InsertionStep, c: InsertionStep, key: int) {
    && p.action != Complete
    && (p.action == Compare ==> Comparing(p) && (c.action == Shift <==> key < p.snapshot[p.cursor.comparingWith]))
    && (p.action == Shift ==> (c.action == Compare <==> p.cursor.comparingWith > 0))
    && match c.action
       case Init => false
       case PickKey =>
         && p.action in {Init, Insert} && SameState(p, c)
         && c.cursor == Cursor(p.cursor.sortedUpTo, p.cursor.sortedUpTo, p.cursor.sortedUpTo - 1)
         && 0 < c.cursor.sortedUpTo < |c.snapshot|
       case Compare =>
         && ((p.action == PickKey && c.cursor == p.cursor)
             || (p.action == Shift && c.cursor == Cursor(p.cursor.sortedUpTo, p.cursor.keyIndex, p.cursor.comparingWith - 1)))
         && c.snapshot == p.snapshot && c.comparisons == p.comparisons + 1 && c.swaps == p.swaps
         && Comparing(c)
       case Shift =>
         && p.action == Compare && c.cursor == p.cursor
         && c.snapshot == p.snapshot[p.cursor.comparingWith + 1 := p.snapshot[p.cursor.comparingWith]]
         && c.comparisons == p.comparisons && c.swaps == p.swaps + 1
       case Insert =>
         && p.action in {Compare, Shift}
         && var k := if p.action == Compare then p.cursor.comparingWith + 1 else p.cursor.comparingWith;
            && 0 <= k < |p.snapshot|
            && c.snapshot == p.snapshot[k := key]
            && c.cursor == Cursor(p.cursor.sortedUpTo + 1, k, -1)
            && c.comparisons == p.comparisons && c.swaps == p.swaps
       case Complete =>
         && p.action == Insert && SameState(p, c)
         && p.cursor.sortedUpTo == |p.snapshot| && c.cursor == Idle(|c.snapshot|)
  }

  /** Every step follows its predecessor under the key of its round. */
  ghost predicate Replays(steps: seq<InsertionStep>)
    decreases |steps|
  {
    |steps| <= 1 || (Replays(Front(steps)) && Follows(Last(Front(steps)), Last(steps), PassKey(Front(steps))))
  }

  lemma {:induction false} FollowsAt(steps: seq<InsertionStep>, k: nat)
    requires Replays(steps) && 0 < k < |steps|
    ensures Follows(steps[k - 1], steps[k], PassKey(steps[..k]))
    decreases |steps|
  {
    if k < |steps| - 1 {
      FollowsAt(Front(steps), k);
      assert Front(steps)[..k] == steps[..k];
    } else {
      assert Front(steps) == steps[..k];
    }
  }

  /**
   * `s` has its first `j` elements sorted and holding the first `j`
   * elements of `input` in some order, and the rest of `input` unchanged.
   */
  ghost predicate Prepared(s: seq<int>, input: seq<int>, j: int) {
    && |s| == |input| && 0 <= j <= |s|
    && Sorted(s[..j]) && multiset(s[..j]) == multiset(input[..j]) && s[j..] == input[j..]
  }

  /**
   * An insert step: the prefix up to sortedUpTo is prepared, and every
   * element after the key's slot within it is strictly greater than the key
   * (the scan stopped at the first element not greater than the key, so
   * equal elements keep their order).
   */
  ghost predicate Placed(c: InsertionStep, input: seq<int>) {
    var j := c.cursor.sortedUpTo - 1;
    var k := c.cursor.keyIndex;
    && 0 <= k <= j && Prepared(c.snapshot, input, j + 1)
    && (forall q :: k < q <= j ==> c.snapshot[k] < c.snapshot[q])
  }

  /** Every insert step of `steps` is placed. */
  ghost predicate InsertsPlaced(steps: seq<InsertionStep>, input: seq<int>)
    decreases |steps|
  {
    |steps| == 0 || (InsertsPlaced(Front(steps), input) && (Last(steps).action == Insert ==> Placed(Last(steps), input)))
  }

  lemma {:induction false} PlacedAt(steps: seq<InsertionStep>, input: seq<int>, k: nat)
    requires InsertsPlaced(steps, input) && k < |steps| && steps[k].action == Insert
    ensures Placed(steps[k], input)
    decreases |steps|
  {
    if k < |steps| - 1 {
      PlacedAt(Front(steps), input, k);
    }
  }

  /** The first step of a run on `input`: init with one sorted element, or complete when there is nothing to do. */
  function FirstStep(input: seq<int>): InsertionStep {
    if |input| <= 1 then Step(input, Complete, Idle(|input|), 0, 0)
    else Step(input, Init, Idle(1), 0, 0)
  }

  /** In a trace that replays from its first step, each counter equals the number of steps recorded for it. */
  lemma {:induction false} CountersTally(steps: seq<InsertionStep>)
    requires |steps| > 0 && Replays(steps)
    requires steps[0].action in {Init, Complete} && steps[0].comparisons == 0 && steps[0].swaps == 0
    ensures Last(steps).comparisons == Count(steps, Compare)
    ensures Last(steps).swaps == Count(steps, Shift)
    decreases |steps|
  {
    if |steps| > 1 {
      CountersTally(Front(steps));
    }
  }

  /** Along a trace that replays, the counters never decrease. */
  lemma ReplaysNonDecreasing(steps: seq<InsertionStep>)
    requires Replays(steps)
    ensures NonDecreasing(steps)
  {
    assert AdjacentNonDecreasing(steps) by {
      forall k | 0 < k < |steps|
        ensures steps[k - 1].comparisons <= steps[k].comparisons && steps[k - 1].swaps <= steps[k].swaps
      {
        FollowsAt(steps, k);
      }
    }
    NonDecreasingFromAdjacent(steps);
  }

  /**
   * The bookkeeping shared by every point of a run on `input` after `rounds`
   * keys were inserted: the trace starts with its first step, replays, every
   * insert is placed, and the last step holds `work` and the counters.
   */
  ghost predicate Recorded(steps: seq<InsertionStep>, input: seq<int>, work: seq<int>, rounds: nat, comparisons: nat, swaps: nat) {
    && |steps| > 0 && steps[0] == FirstStep(input) && Replays(steps) && InsertsPlaced(steps, input)
    && Last(steps).snapshot == work && Last(steps).comparisons == comparisons && Last(steps).swaps == swaps
    && Count(steps, Insert) == rounds
  }

  /** Appending a step that follows the last one keeps the bookkeeping and carries the key of the round. */
  lemma Record(steps: seq<InsertionStep>, input: seq<int>, rounds: nat, s: InsertionStep)
    requires |steps| > 0
    requires Recorded(steps, input, Last(steps).snapshot, rounds, Last(steps).comparisons, Last(steps).swaps)
    requires Follows(Last(steps), s, PassKey(steps)) && (s.action == Insert ==> Placed(s, input))
    ensures Recorded(steps + [s], input, s.snapshot, rounds + (if s.action == Insert then 1 else 0), s.comparisons, s.swaps)
    ensures s.action != PickKey ==> PassKey(steps + [s]) == PassKey(steps)
    ensures s.action == PickKey && 0 <= s.cursor.keyIndex < |s.snapshot| ==> PassKey(steps + [s]) == s.snapshot[s.cursor.keyIndex]
  {
    FrontAppend(steps, s);
    CountAppend(steps, s);
    assert (steps + [s])[0] == steps[0];
  }

  /** The comparison and movement counts allowed after the first `j` elements are sorted. */
  ghost predicate Bounded(j: nat, comparisons: nat, swaps: nat) {
    && swaps <= comparisons <= swaps + Rounds(j)
    && Rounds(j) <= comparisons && 2 * comparisons <= j * (j - 1)
  }

  /** The state between rounds: `j` elements are sorted, the last step is init or an insert. */
  ghost predicate Between(steps: seq<InsertionStep>, input: seq<int>, work: seq<int>, j: nat, comparisons: nat, swaps: nat) {
    && 1 <= j && Recorded(steps, input, work, j - 1, comparisons, swaps) && Prepared(work, input, j)
    && Last(steps).action in {Init, Insert} && Last(steps).cursor.sortedUpTo == j
    && (Last(steps).action == Init ==> j == 1)
    && Bounded(j, comparisons, swaps)
  }

  /**
   * `w` with the elements of w[i+1..j) each moved one place right, over the
   * key at j; positions up to i + 1 and after j keep their elements.
   */
  ghost function Opened(w: seq<int>, i: int, j: nat): (r: seq<int>)
    requires -1 <= i < j < |w|
    ensures |r| == |w|
    ensures forall q :: 0 <= q < |w| && (q <= i + 1 || j < q) ==> r[q] == w[q]
    ensures forall q :: i + 1 < q <= j ==> r[q] == w[q - 1]
  {
    seq(|w|, q requires 0 <= q < |w| => if q <= i + 1 || j < q then w[q] else w[q - 1])
  }

  /** `w` with its element at `j` moved to position `k` and those in between moved one place right. */
  ghost function Inserted(w: seq<int>, j: nat, k: nat): (r: seq<int>)
    requires k <= j < |w|
    ensures |r| == |w| && r[k] == w[j]
    ensures forall q :: 0 <= q < |w| && (q < k || j < q) ==> r[q] == w[q]
    ensures forall q :: k < q <= j ==> r[q] == w[q - 1]
  {
    seq(|w|, q requires 0 <= q < |w| => if q < k || j < q then w[q] else if q == k then w[j] else w[q - 1])
  }

  /** Shifting index i one place right opens the gap one index further left. */
  lemma OpenFurther(w: seq<int>, i: nat, j: nat)
    requires i < j < |w|
    ensures Opened(w, i, j)[i + 1 := w[i]] == Opened(w, i - 1, j)
  {
  }

  /** Writing the key into the gap at i + 1 inserts it there. */
  lemma Land(w: seq<int>, i: int, j: nat)
    requires -1 <= i < j < |w|
    ensures Opened(w, i, j)[i + 1 := w[j]] == Inserted(w, j, i + 1)
  {
  }

  /** Inserting the key of round j anywhere in the prefix keeps the elements of the input's first j + 1. */
  lemma InsertedPermutes(w: seq<int>, input: seq<int>, j: nat, k: nat)
    requires |w| == |input| && k <= j < |w|
    requires multiset(w[..j]) == multiset(input[..j]) && w[j..] == input[j..]
    ensures multiset(Inserted(w, j, k)[..j + 1]) == multiset(input[..j + 1])
    ensures Inserted(w, j, k)[j + 1..] == input[j + 1..]
  {
    var r := Inserted(w, j, k);
    assert r[..j + 1] == w[..k] + [w[j]] + w[k..j];
    assert w[..j] == w[..k] + w[k..j];
    assert input[..j + 1] == input[..j] + [input[j]];
    assert w[j] == w[j..][0] == input[j..][0] == input[j];
    calc {
      multiset(r[..j + 1]);
      multiset(w[..k]) + multiset{w[j]} + multiset(w[k..j]);
      multiset(w[..j]) + multiset{input[j]};
      multiset(input[..j + 1]);
    }
    assert r[j + 1..] == w[j + 1..] == input[j + 1..] by {
      assert w[j + 1..] == w[j..][1..] && input[j + 1..] == input[j..][1..];
    }
  }

  /**
   * Inserting the key of round j at the slot after the last element not
   * greater than it, and before the strictly greater ones, keeps the
   * prefix sorted.
   */
  lemma InsertedSorted(w: seq<int>, j: nat, k: nat)
    requires k <= j < |w| && Sorted(w[..j])
    requires k > 0 ==> w[k - 1] <= w[j]
    requires forall q :: k <= q < j ==> w[j] < w[q]
    ensures Sorted(Inserted(w, j, k)[..j + 1])
  {
    var r := Inserted(w, j, k);
    forall a, b | 0 <= a < b < j + 1 ensures r[a] <= r[b] {
      if b < k {
        assert w[..j][a] == w[a] && w[..j][b] == w[b];
      } else if b == k {
        if a < k - 1 { assert w[..j][a] == w[a] && w[..j][k - 1] == w[k - 1]; }
      } else if a < k {
        assert w[..j][a] == w[a] && w[..j][b - 1] == w[b - 1];
      } else if a > k {
        assert w[..j][a - 1] == w[a - 1] && w[..j][b - 1] == w[b - 1];
      }
    }
  }

  /** The insert step that ends round j is placed. */
  lemma InsertedPlaced(w: seq<int>, input: seq<int>, j: nat, k: nat, s: InsertionStep)
    requires Prepared(w, input, j) && k <= j < |w|
    requires k > 0 ==> w[k - 1] <= w[j]
    requires forall q :: k <= q < j ==> w[j] < w[q]
    requires s.snapshot == Inserted(w, j, k) && s.cursor.sortedUpTo == j + 1 && s.cursor.keyIndex == k
    ensures Placed(s, input) && Prepared(s.snapshot, input, j + 1)
  {
    InsertedPermutes(w, input, j, k);
    InsertedSorted(w, j, k);
  }

  /** A run on two or more elements starts between rounds with one element sorted. */
  lemma Start(input: seq<int>)
    requires |input| >= 2
    ensures Between([FirstStep(input)], input, input, 1, 0, 0)
  {
    assert Front([FirstStep(input)]) == [];
    assert Sorted(input[..1]);
  }

  /** Recording pick_key for index j after init or the previous insert starts a scan. */
  lemma RecordPickKey(steps: seq<InsertionStep>, input: seq<int>, w: seq<int>, j: nat, comparisons: nat, swaps: nat)
    requires Between(steps, input, w, j, comparisons, swaps) && j < |w|
    ensures Scan(steps + [Step(w, PickKey, Cursor(j, j, j - 1), comparisons, swaps)], input, w, w, j, j - 1, false,
                 comparisons, swaps, comparisons, swaps)
  {
    var s := Step(w, PickKey, Cursor(j, j, j - 1), comparisons, swaps);
    Record(steps, input, j - 1, s);
    FrontAppend(steps, s);
    assert Opened(w, j - 1, j) == w;
  }

  /**
   * The scan of round j with key w[j], where `w` is the snapshot at
   * pick_key: every index above i was compared and shifted, and `stop` says
   * whether the compare at i found an element not greater than the key.
   * Counters have grown by one comparison and one movement per shift, plus
   * the stopping comparison.
   */
  ghost predicate Scan(steps: seq<InsertionStep>, input: seq<int>, w: seq<int>, work: seq<int>, j: nat, i: int, stop: bool,
                       comparisons0: nat, swaps0: nat, comparisons: nat, swaps: nat) {
    && 1 <= j < |w| && Prepared(w, input, j) && Bounded(j, comparisons0, swaps0)
    && Recorded(steps, input, work, j - 1, comparisons, swaps) && PassKey(steps) == w[j]
    && -1 <= i < j && work == Opened(w, i, j)
    && (forall q :: i < q < j ==> w[j] < w[q])
    && swaps == swaps0 + (j - 1 - i)
    && comparisons == comparisons0 + (j - 1 - i) + (if stop then 1 else 0)
    && (stop ==> 0 <= i && w[i] <= w[j] && Last(steps).action == Compare && Last(steps).cursor == Cursor(j, j, i))
    && (!stop ==> && Last(steps).action in {PickKey, Shift}
                  && Last(steps).cursor == Cursor(j, j, if Last(steps).action == PickKey then i else i + 1)
                  && (Last(steps).action == PickKey ==> i == j - 1))
  }

  /** A compare that finds an element not greater than the key ends the scan. */
  lemma RecordStop(steps: seq<InsertionStep>, input: seq<int>, w: seq<int>, work: seq<int>, j: nat, i: nat,
                   comparisons0: nat, swaps0: nat, comparisons: nat, swaps: nat)
    requires Scan(steps, input, w, work, j, i, false, comparisons0, swaps0, comparisons, swaps) && w[i] <= w[j]
    ensures Scan(steps + [Step(work, Compare, Cursor(j, j, i), comparisons + 1, swaps)], input, w, work, j, i, true,
                 comparisons0, swaps0, comparisons + 1, swaps)
  {
    var s := Step(work, Compare, Cursor(j, j, i), comparisons + 1, swaps);
    Record(steps, input, j - 1, s);
    FrontAppend(steps, s);
  }

  /** The scan of round j right after a compare at i found an element strictly greater than the key. */
  ghost predicate Greater(steps: seq<InsertionStep>, input: seq<int>, w: seq<int>, work: seq<int>, j: nat, i: nat,
                          comparisons0: nat, swaps0: nat, comparisons: nat, swaps: nat) {
    && 1 <= j < |w| && Prepared(w, input, j) && Bounded(j, comparisons0, swaps0)
    && Recorded(steps, input, work, j - 1, comparisons, swaps) && PassKey(steps) == w[j]
    && i < j && work == Opened(w, i, j)
    && (forall q :: i <= q < j ==> w[j] < w[q])
    && swaps == swaps0 + (j - 1 - i) && comparisons == comparisons0 + (j - i)
    && Last(steps).action == Compare && Last(steps).cursor == Cursor(j, j, i)
  }

  /** A compare that finds an element strictly greater than the key. */
  lemma RecordGreater(steps: seq<InsertionStep>, input: seq<int>, w: seq<int>, work: seq<int>, j: nat, i: nat,
                      comparisons0: nat, swaps0: nat, comparisons: nat, swaps: nat)
    requires Scan(steps, input, w, work, j, i, false, comparisons0, swaps0, comparisons, swaps) && w[j] < w[i]
    ensures Greater(steps + [Step(work, Compare, Cursor(j, j, i), comparisons + 1, swaps)], input, w, work, j, i,
                    comparisons0, swaps0, comparisons + 1, swaps)
  {
    var s := Step(work, Compare, Cursor(j, j, i), comparisons + 1, swaps);
    Record(steps, input, j - 1, s);
    FrontAppend(steps, s);
  }

  /** The shift that follows moves the gap one index left. */
  lemma RecordShift(steps: seq<InsertionStep>, input: seq<int>, w: seq<int>, work: seq<int>, j: nat, i: nat,
                    comparisons0: nat, swaps0: nat, comparisons: nat, swaps: nat)
    requires Greater(steps, input, w, work, j, i, comparisons0, swaps0, comparisons, swaps)
    ensures Scan(steps + [Step(Opened(w, i - 1, j), Shift, Cursor(j, j, i), comparisons, swaps + 1)],
                 input, w, Opened(w, i - 1, j), j, i - 1, false, comparisons0, swaps0, comparisons, swaps + 1)
  {
    var shift := Step(Opened(w, i - 1, j), Shift, Cursor(j, j, i), comparisons, swaps + 1);
    OpenFurther(w, i, j);
    Record(steps, input, j - 1, shift);
    FrontAppend(steps, shift);
  }

  /**
   * One iteration of the leftward scan at index i: compare the element
   * there with the key; stop if it is not greater, otherwise shift it one
   * place right and move on to i - 1.
   */
  method CompareAndShift(result: array<int>, ghost input: seq<int>, ghost w: seq<int>, j: nat, key: int, i0: nat,
                         steps0: seq<InsertionStep>, ghost comparisons0: nat, ghost swaps0: nat, comparisons1: nat, swaps1: nat)
    returns (steps: seq<InsertionStep>, comparisons: nat, swaps: nat, i: int, stop: bool)
    requires Scan(steps0, input, w, result[..], j, i0, false, comparisons0, swaps0, comparisons1, swaps1) && key == w[j]
    modifies result
    ensures Scan(steps, input, w, result[..], j, i, stop, comparisons0, swaps0, comparisons, swaps)
    ensures if stop then i == i0 else i == i0 - 1
  {
    ghost var work := result[..];
    var compare := Step(result[..], Compare, Cursor(j, j, i0), comparisons1 + 1, swaps1);
    if result[i0] <= key {
      RecordStop(steps0, input, w, work, j, i0, comparisons0, swaps0, comparisons1, swaps1);
      steps, comparisons, swaps, i, stop := steps0 + [compare], comparisons1 + 1, swaps1, i0, true;
    } else {
      RecordGreater(steps0, input, w, work, j, i0, comparisons0, swaps0, comparisons1, swaps1);
      RecordShift(steps0 + [compare], input, w, work, j, i0, comparisons0, swaps0, comparisons1 + 1, swaps1);
      result[i0 + 1] := result[i0];
      OpenFurther(w, i0, j);
      assert result[..] == Opened(w, i0 - 1, j);
      steps := steps0 + [compare] + [Step(result[..], Shift, Cursor(j, j, i0), comparisons1 + 1, swaps1 + 1)];
      comparisons, swaps, i, stop := comparisons1 + 1, swaps1 + 1, i0 - 1, false;
    }
  }

  /**
   * The leftward scan of round j: compares the key with each element of
   * the sorted prefix from right to left, shifting the strictly greater
   * ones right, until an element not greater than the key or the start of
   * the array is reached.
   */
  method ShiftGreater(result: array<int>, ghost input: seq<int>, ghost w: seq<int>, j: nat, key: int,
                      steps0: seq<InsertionStep>, comparisons0: nat, swaps0: nat)
    returns (steps: seq<InsertionStep>, comparisons: nat, swaps: nat, i: int, stop: bool)
    requires Scan(steps0, input, w, result[..], j, j - 1, false, comparisons0, swaps0, comparisons0, swaps0) && key == w[j]
    modifies result
    ensures Scan(steps, input, w, result[..], j, i, stop, comparisons0, swaps0, comparisons, swaps)
    ensures stop || i == -1
  {
    steps, comparisons, swaps, i, stop := steps0, comparisons0, swaps0, j - 1, false;
    while i >= 0 && !stop
      invariant Scan(steps, input, w, result[..], j, i, stop, comparisons0, swaps0, comparisons, swaps)
      decreases i + 1, if stop then 0 else 1
    {
      steps, comparisons, swaps, i, stop := CompareAndShift(result, input, w, j, key, i, steps, comparisons0, swaps0, comparisons, swaps);
    }
  }

  /** Writing the key into the gap records an insert and ends round j. */
  lemma RecordInsert(steps: seq<InsertionStep>, input: seq<int>, w: seq<int>, work: seq<int>, j: nat, i: int, stop: bool,
                     comparisons0: nat, swaps0: nat, comparisons: nat, swaps: nat)
    requires Scan(steps, input, w, work, j, i, stop, comparisons0, swaps0, comparisons, swaps) && (stop || i == -1)
    ensures Between(steps + [Step(Inserted(w, j, i + 1), Insert, Cursor(j + 1, i + 1, -1), comparisons, swaps)],
                    input, Inserted(w, j, i + 1), j + 1, comparisons, swaps)
  {
    var s := Step(Inserted(w, j, i + 1), Insert, Cursor(j + 1, i + 1, -1), comparisons, swaps);
    Land(w, i, j);
    InsertedPlaced(w, input, j, i + 1, s);
    Record(steps, input, j - 1, s);
    FrontAppend(steps, s);
    assert (j + 1) * j == j * (j - 1) + 2 * j;
  }

  /** One round: pick the key at j, shift the greater elements of the prefix right, insert the key. */
  method InsertRound(result: array<int>, ghost input: seq<int>, j: nat, steps0: seq<InsertionStep>, comparisons0: nat, swaps0: nat)
    returns (steps: seq<InsertionStep>, comparisons: nat, swaps: nat)
    requires Between(steps0, input, result[..], j, comparisons0, swaps0) && j < result.Length
    modifies result
    ensures Between(steps, input, result[..], j + 1, comparisons, swaps)
  {
    ghost var w := result[..];
    var key := result[j];
    RecordPickKey(steps0, input, w, j, comparisons0, swaps0);
    steps := steps0 + [Step(result[..], PickKey, Cursor(j, j, j - 1), comparisons0, swaps0)];
    var i, stop;
    steps, comparisons, swaps, i, stop := ShiftGreater(result, input, w, j, key, steps, comparisons0, swaps0);
    RecordInsert(steps, input, w, result[..], j, i, stop, comparisons0, swaps0, comparisons, swaps);
    result[i + 1] := key;
    Land(w, i, j);
    assert result[..] == Inserted(w, j, i + 1);
    steps := steps + [Step(result[..], Insert, Cursor(j + 1, i + 1, -1), comparisons, swaps)];
  }

  /** Every step of `steps` follows its predecessor under the key of its round. */
  ghost predicate EveryStepFollows(steps: seq<InsertionStep>) {
    forall k :: 0 < k < |steps| ==> Follows(steps[k - 1], steps[k], PassKey(steps[..k]))
  }

  /** Every insert step of `steps` is placed. */
  ghost predicate EveryInsertPlaced(steps: seq<InsertionStep>, input: seq<int>) {
    forall k :: 0 <= k < |steps| && steps[k].action == Insert ==> Placed(steps[k], input)
  }

  /** A trace that replays satisfies the step-by-step properties stated for whole runs. */
  lemma EveryFollows(t: seq<InsertionStep>, input: seq<int>)
    requires Replays(t) && InsertsPlaced(t, input)
    ensures EveryStepFollows(t) && EveryInsertPlaced(t, input) && NonDecreasing(t)
  {
    ReplaysNonDecreasing(t);
    forall k | 0 < k < |t| ensures Follows(t[k - 1], t[k], PassKey(t[..k])) {
      FollowsAt(t, k);
    }
    forall k | 0 <= k < |t| && t[k].action == Insert ensures Placed(t[k], input) {
      PlacedAt(t, input, k);
    }
  }

  /** A finished run: its trace ends with `complete` on a sorted permutation of the input after every round. */
  ghost predicate Done(t: seq<InsertionStep>, input: seq<int>, comparisons: nat, swaps: nat) {
    && |t| > 0 && Recorded(t, input, Last(t).snapshot, Rounds(|input|), comparisons, swaps) && Bounded(|input|, comparisons, swaps)
    && Last(t).action == Complete && Last(t).cursor == Idle(|input|)
    && Sorted(Last(t).snapshot) && multiset(Last(t).snapshot) == multiset(input)
  }

  /** Appending `complete` after the last round finishes the run. */
  lemma Conclude(steps: seq<InsertionStep>, input: seq<int>, work: seq<int>, comparisons: nat, swaps: nat, t: seq<InsertionStep>)
    requires Between(steps, input, work, |work|, comparisons, swaps) && |work| >= 2
    requires t == steps + [Step(work, Complete, Idle(|work|), comparisons, swaps)]
    ensures Done(t, input, comparisons, swaps)
  {
    Record(steps, input, |work| - 1, Last(t));
    FrontAppend(steps, Last(t));
    assert work[..|work|] == work && input[..|input|] == input;
  }

  /** A run on at most one element is its single complete step. */
  lemma Single(input: seq<int>, t: seq<InsertionStep>)
    requires |input| <= 1 && t == [FirstStep(input)]
    ensures Done(t, input, 0, 0)
  {
    assert Front(t) == [];
  }

  /** A finished run has every property promised for it, stated over all its steps. */
  lemma Finished(t: seq<InsertionStep>, input: seq<int>, comparisons: nat, swaps: nat)
    requires Done(t, input, comparisons, swaps)
    ensures |t| > 0 && t[0] == FirstStep(input)
    ensures Last(t).action == Complete && Last(t).cursor == Idle(|input|)
    ensures Last(t).comparisons == comparisons && Last(t).swaps == swaps
    ensures Sorted(Last(t).snapshot) && multiset(Last(t).snapshot) == multiset(input)
    ensures swaps <= comparisons && 2 * comparisons <= |input| * (|input| - 1)
    ensures |input| >= 1 ==> |input| - 1 <= comparisons <= swaps + (|input| - 1)
    ensures Count(t, Compare) == comparisons && Count(t, Shift) == swaps && Count(t, Insert) == Rounds(|input|)
    ensures EveryStepFollows(t) && EveryInsertPlaced(t, input) && NonDecreasing(t)
  {
    CountersTally(t);
    EveryFollows(t, input);
  }

  /** Sorts `result`, which holds `input`, recording the trace. */
  method Run(result: array<int>, ghost input: seq<int>) returns (steps: seq<InsertionStep>, comparisons: nat, swaps: nat)
    requires result[..] == input
    modifies result
    ensures Done(steps, input, comparisons, swaps)
    ensures |input| <= 1 ==> steps == [Step(input, Complete, Idle(|input|), 0, 0)]
  {
    var n := result.Length;
    comparisons, swaps := 0, 0;
    steps := [FirstStep(result[..])];
    if n <= 1 {
      Single(input, steps);
      return;
    }

    Start(input);
    for j := 1 to n
      invariant Between(steps, input, result[..], j, comparisons, swaps)
    {
      steps, comparisons, swaps := InsertRound(result, input, j, steps, comparisons, swaps);
    }

    var complete := Step(result[..], Complete, Idle(n), comparisons, swaps);
    Conclude(steps, input, result[..], comparisons, swaps, steps + [complete]);
    steps := steps + [complete];
  }

  /**
   * Sorts a copy of `arr` and returns the trace with its final counters.
   * The input itself is never written (there is no modifies clause).
   */
  method InsertionSort(arr: array<int>) returns (steps: seq<InsertionStep>, comparisons: nat, swaps: nat)
    ensures arr.Length <= 1 ==> steps == [Step(arr[..], Complete, Idle(arr.Length), 0, 0)]
    ensures |steps| > 0 && steps[0] == FirstStep(arr[..])
    ensures Last(steps).action == Complete && Last(steps).cursor == Idle(arr.Length)
    ensures Last(steps).comparisons == comparisons && Last(steps).swaps == swaps
    ensures Sorted(Last(steps).snapshot) && multiset(Last(steps).snapshot) == multiset(arr[..])
    ensures swaps <= comparisons && 2 * comparisons <= arr.Length * (arr.Length - 1)
    ensures arr.Length >= 1 ==> arr.Length - 1 <= comparisons <= swaps + (arr.Length - 1)
    ensures Count(steps, Compare) == comparisons && Count(steps, Shift) == swaps && Count(steps, Insert) == Rounds(arr.Length)
    ensures EveryStepFollows(steps) && EveryInsertPlaced(steps, arr[..]) && NonDecreasing(steps)
  {
    var result := new int[arr.Length](q requires 0 <= q < arr.Length reads arr => arr[q]);
    assert result[..] == arr[..];
    steps, comparisons, swaps := Run(result, arr[..]);
    Finished(steps, arr[..], comparisons, swaps);
  }
}
