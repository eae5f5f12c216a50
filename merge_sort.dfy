/**
 * Merge sort engine (bottom-up): for widths h = 1, 2, 4, ... below n, merge
 * each aligned pair of runs of width h from the working copy into a
 * temporary array, then copy the temporary array back and double h.
 */
module MergeEngine {
  import opened SortSpec
  import opened MergeSpec
  import opened Trace

  datatype Action =
    | Init | OuterLoopStart | MergeStart | Compare | Copy
    | CopyRemainingLeft | CopyRemainingRight | MergeStepComplete | CopyBack | Complete

  /**
   * `h`: the run width of the pass; `step`: the start of the block being
   * merged (after a block, the start of the next one); `i`, `j`: the next
   * unmerged index of the left and of the right run; `k`: the next slot of
   * the temporary array. -1 means "not applicable".
   */
  datatype Cursor = Cursor(h: int, step: int, i: int, j: int, k: int)

  type MergeStep = Step<Action, Cursor>

  /** The cursor of the steps outside a block. */
  function Idle(h: int): Cursor {
    Cursor(h, 0, -1, -1, -1)
  }

  /** The first step of every run. */
  function FirstStep(input: seq<int>): MergeStep {
    Step(input, Init, Idle(0), 0, 0)
  }

  /**
   * The action the engine takes after step `p`, decided by the loop
   * conditions on the values `p` holds: within a block, compare while both
   * runs have elements, then drain the left run, then the right one.
   */
  function NextAction(p: MergeStep): Action {
    var n := |p.snapshot|;
    var c := p.cursor;
    match p.action
    case Init => if n <= 1 then Complete else OuterLoopStart
    case OuterLoopStart => MergeStart
    case Compare => Copy
    case MergeStepComplete => if c.step < n then MergeStart else CopyBack
    case CopyBack => if c.h < n then OuterLoopStart else Complete
    case Complete => Complete
    case _ =>
      if c.i < Mid(n, c.step, c.h) && c.j < Right(n, c.step, c.h) then Compare
      else if c.i < Mid(n, c.step, c.h) then CopyRemainingLeft
      else if c.j < Right(n, c.step, c.h) then CopyRemainingRight
      else MergeStepComplete
  }

  ghost predicate SameCounters(p: MergeStep, c: MergeStep) {
    c.comparisons == p.comparisons && c.swaps == p.swaps
  }

  /** A comparison of the heads of both runs: both indices lie in the array. */
  ghost predicate Heads(c: Cursor, n: int) {
    0 <= c.i < c.j < n
  }

  /**
   * What may follow step `p` in a merge trace. The working copy is only
   * written by copy_back, which holds the pass of width h over the
   * snapshot before it and doubles h; a compare counts one comparison; a
   * copy takes the left head when it is not greater than the right one and
   * counts one movement, as do the two drains.
   */
  ghost predicate Follows(p: MergeStep, c: MergeStep) {
    var n := |p.snapshot|;
    && p.action != Complete
    && c.action == NextAction(p)
    && (c.action != CopyBack ==> c.snapshot == p.snapshot)
    && match c.action
       case Init => false
       case OuterLoopStart =>
         SameCounters(p, c) && c.cursor == Idle(if p.action == Init then 1 else p.cursor.h)
       case MergeStart =>
         var left := if p.action == OuterLoopStart then 0 else p.cursor.step;
         SameCounters(p, c) && c.cursor == Cursor(p.cursor.h, left, left, Mid(n, left, p.cursor.h), left)
       case Compare =>
         && Heads(p.cursor, n) && c.cursor == p.cursor
         && c.comparisons == p.comparisons + 1 && c.swaps == p.swaps
       case Copy =>
         && Heads(p.cursor, n) && c.comparisons == p.comparisons && c.swaps == p.swaps + 1
         && c.cursor == if p.snapshot[p.cursor.i] <= p.snapshot[p.cursor.j]
                        then p.cursor.(i := p.cursor.i + 1, k := p.cursor.k + 1)
                        else p.cursor.(j := p.cursor.j + 1, k := p.cursor.k + 1)
       case CopyRemainingLeft =>
         c.comparisons == p.comparisons && c.swaps == p.swaps + 1 && c.cursor == p.cursor.(i := p.cursor.i + 1, k := p.cursor.k + 1)
       case CopyRemainingRight =>
         c.comparisons == p.comparisons && c.swaps == p.swaps + 1 && c.cursor == p.cursor.(j := p.cursor.j + 1, k := p.cursor.k + 1)
       case MergeStepComplete =>
         SameCounters(p, c) && c.cursor == Cursor(p.cursor.h, p.cursor.step + 2 * p.cursor.h, -1, -1, -1)
       case CopyBack =>
         && p.cursor.h >= 1 && c.snapshot == MergePass(p.snapshot, p.cursor.h)
         && SameCounters(p, c) && c.cursor == Idle(2 * p.cursor.h)
       case Complete =>
         SameCounters(p, c) && c.cursor == Idle(p.cursor.h)
  }

  /** Every step follows its predecessor. */
  ghost predicate Replays(steps: seq<MergeStep>)
    decreases |steps|
  {
    |steps| <= 1 || (Replays(Front(steps)) && Follows(Last(Front(steps)), Last(steps)))
  }

  lemma {:induction false} FollowsAt(steps: seq<MergeStep>, k: nat)
    requires Replays(steps) && 0 < k < |steps|
    ensures Follows(steps[k - 1], steps[k])
    decreases |steps|
  {
    if k < |steps| - 1 {
      FollowsAt(Front(steps), k);
    }
  }

  /** A copy_back step: every aligned run of its width h is sorted. */
  ghost predicate RunsSortedAt(c: MergeStep) {
    c.cursor.h >= 1 && SortedRuns(c.snapshot, c.cursor.h)
  }

  /** Every copy_back step of `steps` leaves sorted runs of its width. */
  ghost predicate RunsSorted(steps: seq<MergeStep>)
    decreases |steps|
  {
    |steps| == 0 || (RunsSorted(Front(steps)) && (Last(steps).action == CopyBack ==> RunsSortedAt(Last(steps))))
  }

  lemma {:induction false} RunsSortedAtIndex(steps: seq<MergeStep>, k: nat)
    requires RunsSorted(steps) && k < |steps| && steps[k].action == CopyBack
    ensures RunsSortedAt(steps[k])
    decreases |steps|
  {
    if k < |steps| - 1 {
      RunsSortedAtIndex(Front(steps), k);
    }
  }

  /** In a trace that replays from init, each counter equals the number of steps recorded for it. */
  lemma {:induction false} CountersTally(steps: seq<MergeStep>)
    requires |steps| > 0 && Replays(steps)
    requires steps[0].action == Init && steps[0].comparisons == 0 && steps[0].swaps == 0
    ensures Last(steps).comparisons == Count(steps, Compare)
    ensures Last(steps).swaps == Count(steps, Copy) + Count(steps, CopyRemainingLeft) + Count(steps, CopyRemainingRight)
    decreases |steps|
  {
    if |steps| > 1 {
      CountersTally(Front(steps));
    }
  }

  /** Along a trace that replays, the counters never decrease. */
  lemma ReplaysNonDecreasing(steps: seq<MergeStep>)
    requires Replays(steps)
    ensures NonDecreasing(steps)
  {
    assert AdjacentNonDecreasing(steps) by {
      forall k | 0 < k < |steps|
        ensures steps[k - 1].comparisons <= steps[k].comparisons && steps[k - 1].swaps <= steps[k].swaps
      {
        FollowsAt(steps, k);
      }
    }
    NonDecreasingFromAdjacent(steps);
  }

  /**
   * The bookkeeping shared by every point of a run on `input` after
   * `passes` copy-backs and `blocks` merged blocks: the trace starts with
   * init, replays, leaves sorted runs at every copy_back, and its last step
   * holds `work` and the counters.
   */
  ghost predicate Recorded(steps: seq<MergeStep>, input: seq<int>, work: seq<int>, passes: nat, blocks: nat, comparisons: nat, swaps: nat) {
    && |steps| > 0 && steps[0] == FirstStep(input) && Replays(steps) && RunsSorted(steps)
    && Last(steps).snapshot == work && Last(steps).comparisons == comparisons && Last(steps).swaps == swaps
    && Count(steps, CopyBack) == passes && Count(steps, MergeStepComplete) == blocks
  }

  /** Appending a step that follows the last one keeps the bookkeeping. */
  lemma Record(steps: seq<MergeStep>, input: seq<int>, passes: nat, blocks: nat, s: MergeStep)
    requires |steps| > 0
    requires Recorded(steps, input, Last(steps).snapshot, passes, blocks, Last(steps).comparisons, Last(steps).swaps)
    requires Follows(Last(steps), s) && (s.action == CopyBack ==> RunsSortedAt(s))
    ensures Recorded(steps + [s], input, s.snapshot,
                     passes + (if s.action == CopyBack then 1 else 0),
                     blocks + (if s.action == MergeStepComplete then 1 else 0), s.comparisons, s.swaps)
  {
    FrontAppend(steps, s);
    CountAppend(steps, s);
    assert (steps + [s])[0] == steps[0];
  }

  /**
   * The data state inside the merge of the block at `left`: `k - left`
   * elements of the block's merge are in tmp[left..k), and what remains of
   * it is the merge of the unread parts of both runs.
   */
  ghost predicate Produced(work: seq<int>, tmp: seq<int>, h: nat, left: nat, i: nat, j: nat, k: nat) {
    var n := |work|;
    var mid := Mid(n, left, h);
    var right := Right(n, left, h);
    && 1 <= h && left < n == |tmp|
    && left <= i <= mid <= j <= right && k == i + j - mid
    && tmp[left..k] + Merge(work[i..mid], work[j..right]) == Merge(work[left..mid], work[mid..right])
  }

  /** The trace inside the merge of the block at `left`: its last step is a step of this block with indices i, j, k. */
  ghost predicate InBlock(steps: seq<MergeStep>, input: seq<int>, work: seq<int>, h: nat, left: nat,
                          i: nat, j: nat, k: nat, passes: nat, blocks: nat, comparisons: nat, swaps: nat) {
    && Recorded(steps, input, work, passes, blocks, comparisons, swaps)
    && Last(steps).action in {MergeStart, Copy, CopyRemainingLeft, CopyRemainingRight}
    && Last(steps).cursor == Cursor(h, left, i, j, k)
  }

  /**
   * The state inside the merge of the block at `left`, where the block
   * started with counters c0 and s0: one movement per element placed, and
   * fewer comparisons than the block has elements.
   */
  ghost predicate Merging(steps: seq<MergeStep>, input: seq<int>, work: seq<int>, tmp: seq<int>, h: nat, left: nat,
                          i: nat, j: nat, k: nat, passes: nat, blocks: nat, c0: nat, s0: nat, comparisons: nat, swaps: nat) {
    && Produced(work, tmp, h, left, i, j, k)
    && InBlock(steps, input, work, h, left, i, j, k, passes, blocks, comparisons, swaps)
    && swaps == s0 + (k - left) && c0 <= comparisons <= c0 + (Right(|work|, left, h) - left - 1)
  }

  /** One element of a merge is produced from the head of its left input. */
  lemma AdvanceLeft(work: seq<int>, tmp: seq<int>, left: nat, i: nat, j: nat, k: nat, mid: nat, right: nat)
    requires left <= i < mid <= j <= right <= |work| && left <= k < |tmp|
    requires j == right || work[i] <= work[j]
    requires tmp[left..k] + Merge(work[i..mid], work[j..right]) == Merge(work[left..mid], work[mid..right])
    ensures tmp[k := work[i]][left..k + 1] + Merge(work[i + 1..mid], work[j..right]) == Merge(work[left..mid], work[mid..right])
  {
    var xs, ys := work[i..mid], work[j..right];
    assert xs[0] == work[i] && xs[1..] == work[i + 1..mid];
    assert j < right ==> ys[0] == work[j];
    var done := tmp[left..k];
    calc {
      tmp[k := work[i]][left..k + 1] + Merge(work[i + 1..mid], ys);
      { assert tmp[k := work[i]][left..k + 1] == done + [work[i]]; }
      (done + [work[i]]) + Merge(xs[1..], ys);
      done + ([work[i]] + Merge(xs[1..], ys));
      { MergeTakesLeft(xs, ys); }
      done + Merge(xs, ys);
    }
  }

  /** One element of a merge is produced from the head of its right input. */
  lemma AdvanceRight(work: seq<int>, tmp: seq<int>, left: nat, i: nat, j: nat, k: nat, mid: nat, right: nat)
    requires left <= i <= mid <= j < right <= |work| && left <= k < |tmp|
    requires i == mid || work[j] < work[i]
    requires tmp[left..k] + Merge(work[i..mid], work[j..right]) == Merge(work[left..mid], work[mid..right])
    ensures tmp[k := work[j]][left..k + 1] + Merge(work[i..mid], work[j + 1..right]) == Merge(work[left..mid], work[mid..right])
  {
    var xs, ys := work[i..mid], work[j..right];
    assert ys[0] == work[j] && ys[1..] == work[j + 1..right];
    assert i < mid ==> xs[0] == work[i];
    var done := tmp[left..k];
    calc {
      tmp[k := work[j]][left..k + 1] + Merge(xs, work[j + 1..right]);
      { assert tmp[k := work[j]][left..k + 1] == done + [work[j]]; }
      (done + [work[j]]) + Merge(xs, ys[1..]);
      done + ([work[j]] + Merge(xs, ys[1..]));
      { MergeTakesRight(xs, ys); }
      done + Merge(xs, ys);
    }
  }

  /** Copying the left head to temp produces the next element of the block's merge when it comes first. */
  lemma ProduceLeft(work: seq<int>, tmp: seq<int>, h: nat, left: nat, i: nat, j: nat, k: nat)
    requires Produced(work, tmp, h, left, i, j, k)
    requires i < Mid(|work|, left, h) && (j == Right(|work|, left, h) || work[i] <= work[j])
    ensures Produced(work, tmp[k := work[i]], h, left, i + 1, j, k + 1)
  {
    AdvanceLeft(work, tmp, left, i, j, k, Mid(|work|, left, h), Right(|work|, left, h));
  }

  /** Copying the right head to temp produces the next element of the block's merge when it comes first. */
  lemma ProduceRight(work: seq<int>, tmp: seq<int>, h: nat, left: nat, i: nat, j: nat, k: nat)
    requires Produced(work, tmp, h, left, i, j, k)
    requires j < Right(|work|, left, h) && (i == Mid(|work|, left, h) || work[j] < work[i])
    ensures Produced(work, tmp[k := work[j]], h, left, i, j + 1, k + 1)
  {
    AdvanceRight(work, tmp, left, i, j, k, Mid(|work|, left, h), Right(|work|, left, h));
  }

  /** The copy a compare decides produces the next element of the block's merge. */
  lemma TakeProduced(work: seq<int>, tmp: seq<int>, h: nat, left: nat, i: nat, j: nat, k: nat, i': nat, j': nat, v: int)
    requires Produced(work, tmp, h, left, i, j, k)
    requires i < Mid(|work|, left, h) && j < Right(|work|, left, h)
    requires if work[i] <= work[j] then i' == i + 1 && j' == j && v == work[i] else i' == i && j' == j + 1 && v == work[j]
    ensures Produced(work, tmp[k := v], h, left, i', j', k + 1)
  {
    if work[i] <= work[j] {
      ProduceLeft(work, tmp, h, left, i, j, k);
    } else {
      ProduceRight(work, tmp, h, left, i, j, k);
    }
  }

  /** A compare of both heads followed by the copy it decides continue the block's trace. */
  lemma TakeRecorded(steps: seq<MergeStep>, input: seq<int>, work: seq<int>, h: nat, left: nat,
                     i: nat, j: nat, k: nat, passes: nat, blocks: nat, c: nat, s: nat, i': nat, j': nat)
    requires InBlock(steps, input, work, h, left, i, j, k, passes, blocks, c, s)
    requires left <= i < Mid(|work|, left, h) <= j < Right(|work|, left, h)
    requires if work[i] <= work[j] then i' == i + 1 && j' == j else i' == i && j' == j + 1
    ensures InBlock(steps + [Step(work, Compare, Cursor(h, left, i, j, k), c + 1, s),
                             Step(work, Copy, Cursor(h, left, i', j', k + 1), c + 1, s + 1)],
                    input, work, h, left, i', j', k + 1, passes, blocks, c + 1, s + 1)
  {
    var compare := Step(work, Compare, Cursor(h, left, i, j, k), c + 1, s);
    var copy := Step(work, Copy, Cursor(h, left, i', j', k + 1), c + 1, s + 1);
    Record(steps, input, passes, blocks, compare);
    FrontAppend(steps, compare);
    Record(steps + [compare], input, passes, blocks, copy);
    FrontAppend(steps + [compare], copy);
    assert steps + [compare] + [copy] == steps + [compare, copy];
  }

  /** A compare and the copy it decides keep the merge state. */
  lemma StepTake(steps: seq<MergeStep>, input: seq<int>, work: seq<int>, tmp: seq<int>, h: nat, left: nat,
                 i: nat, j: nat, k: nat, passes: nat, blocks: nat, c0: nat, s0: nat, c: nat, s: nat,
                 i': nat, j': nat, v: int, steps': seq<MergeStep>, tmp': seq<int>)
    requires Merging(steps, input, work, tmp, h, left, i, j, k, passes, blocks, c0, s0, c, s)
    requires i < Mid(|work|, left, h) && j < Right(|work|, left, h) && c == c0 + (k - left)
    requires if work[i] <= work[j] then i' == i + 1 && j' == j && v == work[i] else i' == i && j' == j + 1 && v == work[j]
    requires steps' == steps + [Step(work, Compare, Cursor(h, left, i, j, k), c + 1, s),
                                Step(work, Copy, Cursor(h, left, i', j', k + 1), c + 1, s + 1)]
    requires tmp' == tmp[k := v]
    ensures Merging(steps', input, work, tmp', h, left, i', j', k + 1, passes, blocks, c0, s0, c + 1, s + 1)
    ensures c + 1 == c0 + (k + 1 - left)
  {
    TakeProduced(work, tmp, h, left, i, j, k, i', j', v);
    TakeRecorded(steps, input, work, h, left, i, j, k, passes, blocks, c, s, i', j');
  }

  /** copy_remaining_left continues the block's trace once the right run is used up. */
  lemma DrainLeftRecorded(steps: seq<MergeStep>, input: seq<int>, work: seq<int>, h: nat, left: nat,
                          i: nat, j: nat, k: nat, passes: nat, blocks: nat, c: nat, s: nat)
    requires InBlock(steps, input, work, h, left, i, j, k, passes, blocks, c, s)
    requires i < Mid(|work|, left, h) && j == Right(|work|, left, h)
    ensures InBlock(steps + [Step(work, CopyRemainingLeft, Cursor(h, left, i + 1, j, k + 1), c, s + 1)],
                    input, work, h, left, i + 1, j, k + 1, passes, blocks, c, s + 1)
  {
    var drain := Step(work, CopyRemainingLeft, Cursor(h, left, i + 1, j, k + 1), c, s + 1);
    Record(steps, input, passes, blocks, drain);
    FrontAppend(steps, drain);
  }

  /** copy_remaining_right continues the block's trace once the left run is used up. */
  lemma DrainRightRecorded(steps: seq<MergeStep>, input: seq<int>, work: seq<int>, h: nat, left: nat,
                           i: nat, j: nat, k: nat, passes: nat, blocks: nat, c: nat, s: nat)
    requires InBlock(steps, input, work, h, left, i, j, k, passes, blocks, c, s)
    requires i == Mid(|work|, left, h) && j < Right(|work|, left, h)
    ensures InBlock(steps + [Step(work, CopyRemainingRight, Cursor(h, left, i, j + 1, k + 1), c, s + 1)],
                    input, work, h, left, i, j + 1, k + 1, passes, blocks, c, s + 1)
  {
    var drain := Step(work, CopyRemainingRight, Cursor(h, left, i, j + 1, k + 1), c, s + 1);
    Record(steps, input, passes, blocks, drain);
    FrontAppend(steps, drain);
  }

  /** Copying the next element of the left run once the right one is used up keeps the merge state. */
  lemma StepDrainLeft(steps: seq<MergeStep>, input: seq<int>, work: seq<int>, tmp: seq<int>, h: nat, left: nat,
                      i: nat, j: nat, k: nat, passes: nat, blocks: nat, c0: nat, s0: nat, c: nat, s: nat,
                      steps': seq<MergeStep>, tmp': seq<int>)
    requires Merging(steps, input, work, tmp, h, left, i, j, k, passes, blocks, c0, s0, c, s)
    requires i < Mid(|work|, left, h) && j == Right(|work|, left, h)
    requires steps' == steps + [Step(work, CopyRemainingLeft, Cursor(h, left, i + 1, j, k + 1), c, s + 1)]
    requires tmp' == tmp[k := work[i]]
    ensures Merging(steps', input, work, tmp', h, left, i + 1, j, k + 1, passes, blocks, c0, s0, c, s + 1)
  {
    DrainLeftRecorded(steps, input, work, h, left, i, j, k, passes, blocks, c, s);
    ProduceLeft(work, tmp, h, left, i, j, k);
  }

  /** Copying the next element of the right run once the left one is used up keeps the merge state. */
  lemma StepDrainRight(steps: seq<MergeStep>, input: seq<int>, work: seq<int>, tmp: seq<int>, h: nat, left: nat,
                       i: nat, j: nat, k: nat, passes: nat, blocks: nat, c0: nat, s0: nat, c: nat, s: nat,
                       steps': seq<MergeStep>, tmp': seq<int>)
    requires Merging(steps, input, work, tmp, h, left, i, j, k, passes, blocks, c0, s0, c, s)
    requires i == Mid(|work|, left, h) && j < Right(|work|, left, h)
    requires steps' == steps + [Step(work, CopyRemainingRight, Cursor(h, left, i, j + 1, k + 1), c, s + 1)]
    requires tmp' == tmp[k := work[j]]
    ensures Merging(steps', input, work, tmp', h, left, i, j + 1, k + 1, passes, blocks, c0, s0, c, s + 1)
  {
    DrainRightRecorded(steps, input, work, h, left, i, j, k, passes, blocks, c, s);
    ProduceRight(work, tmp, h, left, i, j, k);
  }

  /** One turn of the comparing loop: compare both heads, copy the smaller (the left one on a tie) to temp. */
  method TakeSmaller(result: array<int>, temp: array<int>, ghost input: seq<int>, h: nat, left: nat,
                     i: nat, j: nat, k: nat, steps0: seq<MergeStep>, ghost passes: nat, ghost blocks: nat,
                     ghost c0: nat, ghost s0: nat, comparisons0: nat, swaps0: nat)
    returns (steps: seq<MergeStep>, comparisons: nat, swaps: nat, i': nat, j': nat, k': nat)
    requires result != temp
    requires Merging(steps0, input, result[..], temp[..], h, left, i, j, k, passes, blocks, c0, s0, comparisons0, swaps0)
    requires i < Mid(result.Length, left, h) && j < Right(result.Length, left, h) && comparisons0 == c0 + (k - left)
    modifies temp
    ensures Merging(steps, input, result[..], temp[..], h, left, i', j', k', passes, blocks, c0, s0, comparisons, swaps)
    ensures comparisons == c0 + (k' - left) && i' + j' == i + j + 1
    ensures temp[..left] == old(temp[..left]) && steps0 < steps
  {
    comparisons := comparisons0 + 1;
    var v;
    if result[i] <= result[j] {
      v, i', j' := result[i], i + 1, j;
    } else {
      v, i', j' := result[j], i, j + 1;
    }
    ghost var work, tmp := result[..], temp[..];
    temp[k] := v;
    assert result[..] == work;
    k', swaps := k + 1, swaps0 + 1;
    var taken := [Step(result[..], Compare, Cursor(h, left, i, j, k), comparisons, swaps0),
                        Step(result[..], Copy, Cursor(h, left, i', j', k'), comparisons, swaps)];
    PrefixKept(steps0, steps0, taken);
    steps := steps0 + taken;
    StepTake(steps0, input, result[..], tmp, h, left, i, j, k, passes, blocks, c0, s0, comparisons0, swaps0, i', j', v, steps, temp[..]);
  }

  /** The comparing loop of a block: merge while both runs have elements. */
  method MergeHeads(result: array<int>, temp: array<int>, ghost input: seq<int>, h: nat, left: nat,
                    steps0: seq<MergeStep>, ghost passes: nat, ghost blocks: nat, comparisons0: nat, swaps0: nat)
    returns (steps: seq<MergeStep>, comparisons: nat, swaps: nat, i: nat, j: nat, k: nat)
    requires result != temp
    requires Merging(steps0, input, result[..], temp[..], h, left, left, Mid(result.Length, left, h), left,
                     passes, blocks, comparisons0, swaps0, comparisons0, swaps0)
    modifies temp
    ensures Merging(steps, input, result[..], temp[..], h, left, i, j, k, passes, blocks, comparisons0, swaps0, comparisons, swaps)
    ensures !(i < Mid(result.Length, left, h) && j < Right(result.Length, left, h))
    ensures temp[..left] == old(temp[..left]) && steps0 <= steps
  {
    steps, comparisons, swaps := steps0, comparisons0, swaps0;
    i, j, k := left, Mid(result.Length, left, h), left;
    while i < Mid(result.Length, left, h) && j < Right(result.Length, left, h)
      invariant Merging(steps, input, result[..], temp[..], h, left, i, j, k, passes, blocks, comparisons0, swaps0, comparisons, swaps)
      invariant comparisons == comparisons0 + (k - left)
      invariant temp[..left] == old(temp[..left]) && steps0 <= steps
      decreases Mid(result.Length, left, h) + Right(result.Length, left, h) - i - j
    {
      ghost var before := steps;
      steps, comparisons, swaps, i, j, k :=
        TakeSmaller(result, temp, input, h, left, i, j, k, steps, passes, blocks, comparisons0, swaps0, comparisons, swaps);
      PrefixChain(steps0, before, steps);
    }
  }

  /** One turn of the loop copying what is left of the left run into temp. */
  method CopyLeftOnce(result: array<int>, temp: array<int>, ghost input: seq<int>, h: nat, left: nat,
                       i: nat, j: nat, k: nat, steps0: seq<MergeStep>, ghost passes: nat, ghost blocks: nat,
                       ghost c0: nat, ghost s0: nat, comparisons: nat, swaps0: nat)
    returns (steps: seq<MergeStep>, swaps: nat, i': nat, k': nat)
    requires result != temp
    requires Merging(steps0, input, result[..], temp[..], h, left, i, j, k, passes, blocks, c0, s0, comparisons, swaps0)
    requires i < Mid(result.Length, left, h) && j == Right(result.Length, left, h)
    modifies temp
    ensures Merging(steps, input, result[..], temp[..], h, left, i', j, k', passes, blocks, c0, s0, comparisons, swaps)
    ensures i' == i + 1
    ensures temp[..left] == old(temp[..left]) && steps0 < steps
  {
    ghost var work, tmp := result[..], temp[..];
    temp[k] := result[i];
    assert result[..] == work;
    steps := steps0 + [Step(result[..], CopyRemainingLeft, Cursor(h, left, i + 1, j, k + 1), comparisons, swaps0 + 1)];
    StepDrainLeft(steps0, input, work, tmp, h, left, i, j, k, passes, blocks, c0, s0, comparisons, swaps0, steps, temp[..]);
    i', k', swaps := i + 1, k + 1, swaps0 + 1;
  }

  /** The loop copying what is left of the left run. */
  method DrainLeft(result: array<int>, temp: array<int>, ghost input: seq<int>, h: nat, left: nat,
                   i0: nat, j: nat, k0: nat, steps0: seq<MergeStep>, ghost passes: nat, ghost blocks: nat,
                   ghost c0: nat, ghost s0: nat, comparisons: nat, swaps0: nat)
    returns (steps: seq<MergeStep>, swaps: nat, i: nat, k: nat)
    requires result != temp
    requires Merging(steps0, input, result[..], temp[..], h, left, i0, j, k0, passes, blocks, c0, s0, comparisons, swaps0)
    requires !(i0 < Mid(result.Length, left, h) && j < Right(result.Length, left, h))
    modifies temp
    ensures Merging(steps, input, result[..], temp[..], h, left, i, j, k, passes, blocks, c0, s0, comparisons, swaps)
    ensures i == Mid(result.Length, left, h)
    ensures temp[..left] == old(temp[..left]) && steps0 <= steps
  {
    steps, swaps, i, k := steps0, swaps0, i0, k0;
    while i < Mid(result.Length, left, h)
      invariant Merging(steps, input, result[..], temp[..], h, left, i, j, k, passes, blocks, c0, s0, comparisons, swaps)
      invariant !(i < Mid(result.Length, left, h) && j < Right(result.Length, left, h))
      invariant temp[..left] == old(temp[..left]) && steps0 <= steps
      decreases Mid(result.Length, left, h) - i
    {
      ghost var before := steps;
      steps, swaps, i, k := CopyLeftOnce(result, temp, input, h, left, i, j, k, steps, passes, blocks, c0, s0, comparisons, swaps);
      PrefixChain(steps0, before, steps);
    }
  }

  /** One turn of the loop copying what is left of the right run into temp. */
  method CopyRightOnce(result: array<int>, temp: array<int>, ghost input: seq<int>, h: nat, left: nat,
                       i: nat, j: nat, k: nat, steps0: seq<MergeStep>, ghost passes: nat, ghost blocks: nat,
                       ghost c0: nat, ghost s0: nat, comparisons: nat, swaps0: nat)
    returns (steps: seq<MergeStep>, swaps: nat, j': nat, k': nat)
    requires result != temp
    requires Merging(steps0, input, result[..], temp[..], h, left, i, j, k, passes, blocks, c0, s0, comparisons, swaps0)
    requires i == Mid(result.Length, left, h) && j < Right(result.Length, left, h)
    modifies temp
    ensures Merging(steps, input, result[..], temp[..], h, left, i, j', k', passes, blocks, c0, s0, comparisons, swaps)
    ensures j' == j + 1
    ensures temp[..left] == old(temp[..left]) && steps0 < steps
  {
    ghost var work, tmp := result[..], temp[..];
    temp[k] := result[j];
    assert result[..] == work;
    steps := steps0 + [Step(result[..], CopyRemainingRight, Cursor(h, left, i, j + 1, k + 1), comparisons, swaps0 + 1)];
    StepDrainRight(steps0, input, work, tmp, h, left, i, j, k, passes, blocks, c0, s0, comparisons, swaps0, steps, temp[..]);
    j', k', swaps := j + 1, k + 1, swaps0 + 1;
  }

  /** The loop copying what is left of the right run. */
  method DrainRight(result: array<int>, temp: array<int>, ghost input: seq<int>, h: nat, left: nat,
                    i: nat, j0: nat, k0: nat, steps0: seq<MergeStep>, ghost passes: nat, ghost blocks: nat,
                    ghost c0: nat, ghost s0: nat, comparisons: nat, swaps0: nat)
    returns (steps: seq<MergeStep>, swaps: nat, j: nat, k: nat)
    requires result != temp
    requires Merging(steps0, input, result[..], temp[..], h, left, i, j0, k0, passes, blocks, c0, s0, comparisons, swaps0)
    requires i == Mid(result.Length, left, h)
    modifies temp
    ensures Merging(steps, input, result[..], temp[..], h, left, i, j, k, passes, blocks, c0, s0, comparisons, swaps)
    ensures j == Right(result.Length, left, h)
    ensures temp[..left] == old(temp[..left]) && steps0 <= steps
  {
    steps, swaps, j, k := steps0, swaps0, j0, k0;
    while j < Right(result.Length, left, h)
      invariant Merging(steps, input, result[..], temp[..], h, left, i, j, k, passes, blocks, c0, s0, comparisons, swaps)
      invariant temp[..left] == old(temp[..left]) && steps0 <= steps
      decreases Right(result.Length, left, h) - j
    {
      ghost var before := steps;
      steps, swaps, j, k := CopyRightOnce(result, temp, input, h, left, i, j, k, steps, passes, blocks, c0, s0, comparisons, swaps);
      PrefixChain(steps0, before, steps);
    }
  }

  /** The step before a block's merge_start: the pass's outer_loop_start or the previous block's merge_step_complete. */
  ghost predicate Opens(p: MergeStep, h: nat, left: nat) {
    || (p.action == OuterLoopStart && left == 0 && p.cursor == Idle(h))
    || (p.action == MergeStepComplete && p.cursor == Cursor(h, left, -1, -1, -1))
  }

  /** merge_start opens the merge state of a block with nothing merged yet. */
  lemma StartBlock(steps: seq<MergeStep>, input: seq<int>, work: seq<int>, tmp: seq<int>, h: nat, left: nat,
                   passes: nat, blocks: nat, c: nat, s: nat)
    requires Recorded(steps, input, work, passes, blocks, c, s) && Opens(Last(steps), h, left)
    requires 1 <= h && left < |work| == |tmp|
    ensures Merging(steps + [Step(work, MergeStart, Cursor(h, left, left, Mid(|work|, left, h), left), c, s)],
                    input, work, tmp, h, left, left, Mid(|work|, left, h), left, passes, blocks, c, s, c, s)
  {
    var start := Step(work, MergeStart, Cursor(h, left, left, Mid(|work|, left, h), left), c, s);
    Record(steps, input, passes, blocks, start);
    FrontAppend(steps, start);
  }

  /** merge_step_complete closes a block whose runs are both used up. */
  lemma EndBlock(steps: seq<MergeStep>, input: seq<int>, work: seq<int>, tmp: seq<int>, h: nat, left: nat,
                 i: nat, j: nat, k: nat, passes: nat, blocks: nat, c0: nat, s0: nat, c: nat, s: nat)
    requires Merging(steps, input, work, tmp, h, left, i, j, k, passes, blocks, c0, s0, c, s)
    requires i == Mid(|work|, left, h) && j == Right(|work|, left, h)
    ensures Recorded(steps + [Step(work, MergeStepComplete, Cursor(h, left + 2 * h, -1, -1, -1), c, s)],
                     input, work, passes, blocks + 1, c, s)
    ensures tmp[left..Right(|work|, left, h)] == Merge(work[left..Mid(|work|, left, h)], work[Mid(|work|, left, h)..Right(|work|, left, h)])
  {
    var done := Step(work, MergeStepComplete, Cursor(h, left + 2 * h, -1, -1, -1), c, s);
    Record(steps, input, passes, blocks, done);
    FrontAppend(steps, done);
    assert work[i..Mid(|work|, left, h)] == [] && work[j..Right(|work|, left, h)] == [];
  }

  /**
   * Merges the block at `left` (runs [left, mid) and [mid, right)) into
   * temp[left..right), recording merge_start, the compares and copies, and
   * merge_step_complete.
   */
  method MergeBlock(result: array<int>, temp: array<int>, ghost input: seq<int>, ghost work: seq<int>, h: nat, left: nat,
                    steps0: seq<MergeStep>, ghost passes: nat, ghost blocks: nat, comparisons0: nat, swaps0: nat)
    returns (steps: seq<MergeStep>, comparisons: nat, swaps: nat)
    requires result != temp && result.Length == temp.Length && 1 <= h && left < result.Length && result[..] == work
    requires Recorded(steps0, input, work, passes, blocks, comparisons0, swaps0) && Opens(Last(steps0), h, left)
    modifies temp
    ensures Recorded(steps, input, work, passes, blocks + 1, comparisons, swaps)
    ensures Last(steps).action == MergeStepComplete && Last(steps).cursor == Cursor(h, left + 2 * h, -1, -1, -1)
    ensures temp[..left] == old(temp[..left])
    ensures temp[..][left..Right(|work|, left, h)]
         == Merge(work[left..Mid(|work|, left, h)], work[Mid(|work|, left, h)..Right(|work|, left, h)])
    ensures swaps == swaps0 + (Right(|work|, left, h) - left)
    ensures comparisons0 <= comparisons <= comparisons0 + (Right(|work|, left, h) - left - 1)
    ensures steps0 < steps
  {
    var n := result.Length;
    StartBlock(steps0, input, result[..], temp[..], h, left, passes, blocks, comparisons0, swaps0);
    steps := steps0 + [Step(result[..], MergeStart, Cursor(h, left, left, Mid(n, left, h), left), comparisons0, swaps0)];
    ghost var started := steps;
    var i, j, k;
    steps, comparisons, swaps, i, j, k := MergeHeads(result, temp, input, h, left, steps, passes, blocks, comparisons0, swaps0);
    ghost var heads := steps;
    steps, swaps, i, k := DrainLeft(result, temp, input, h, left, i, j, k, steps, passes, blocks, comparisons0, swaps0, comparisons, swaps);
    PrefixChain(started, heads, steps);
    ghost var drained := steps;
    steps, swaps, j, k := DrainRight(result, temp, input, h, left, i, j, k, steps, passes, blocks, comparisons0, swaps0, comparisons, swaps);
    PrefixChain(started, drained, steps);
    EndBlock(steps, input, result[..], temp[..], h, left, i, j, k, passes, blocks, comparisons0, swaps0, comparisons, swaps);
    PrefixChain(steps0, started, steps);
    PrefixKept(steps0, steps, [Step(result[..], MergeStepComplete, Cursor(h, left + 2 * h, -1, -1, -1), comparisons, swaps)]);
    steps := steps + [Step(result[..], MergeStepComplete, Cursor(h, left + 2 * h, -1, -1, -1), comparisons, swaps)];
  }

  /** Temp up to `left` holds the output of the pass of width h so far, and the rest of the pass is still to come. */
  ghost predicate PassSoFar(work: seq<int>, tmp: seq<int>, h: nat, left: nat) {
    && 1 <= h && |tmp| == |work|
    && tmp[..Min(left, |work|)] + MergePass(work[Min(left, |work|)..], h) == MergePass(work, h)
  }

  /**
   * The state of the block loop of a pass of width h, where the pass
   * started with counters c0, s0 and `blocks0` blocks: the last step is the
   * pass's outer_loop_start or the previous block's merge_step_complete,
   * every element before `left` was moved once, and each block compared
   * fewer elements than it moved.
   */
  ghost predicate Widening(steps: seq<MergeStep>, input: seq<int>, work: seq<int>, h: nat, left: nat,
                           passes: nat, blocks: nat, comparisons: nat, swaps: nat, blocks0: nat, c0: nat, s0: nat) {
    && Recorded(steps, input, work, passes, blocks, comparisons, swaps)
    && (if left == 0 then Last(steps).action == OuterLoopStart && Last(steps).cursor == Idle(h)
        else Last(steps).action == MergeStepComplete && Last(steps).cursor == Cursor(h, left, -1, -1, -1))
    && swaps == s0 + Min(left, |work|)
    && blocks0 <= blocks && c0 <= comparisons && (comparisons - c0) + (blocks - blocks0) <= swaps - s0
  }

  /** Merging the block at `left` into temp extends the pass's output by that block. */
  lemma PassSoFarStep(work: seq<int>, tmp0: seq<int>, tmp: seq<int>, h: nat, left: nat, next: nat)
    requires PassSoFar(work, tmp0, h, left) && left < |work| && next == left + 2 * h
    requires |tmp| == |work| && tmp[..left] == tmp0[..left]
    requires tmp[left..Right(|work|, left, h)] == Merge(work[left..Mid(|work|, left, h)], work[Mid(|work|, left, h)..Right(|work|, left, h)])
    ensures PassSoFar(work, tmp, h, next)
  {
    var right := Right(|work|, left, h);
    var done, merged, rest := tmp0[..left], tmp[left..right], MergePass(work[right..], h);
    MergePassFrom(work, left, h);
    assert Min(left, |work|) == left && Min(next, |work|) == right;
    assert tmp[..right] == done + merged;
    Regroup(done, merged, rest, MergePass(work, h), tmp[..right]);
  }

  /** Regrouping a concatenation of three blocks. */
  lemma Regroup(done: seq<int>, merged: seq<int>, rest: seq<int>, whole: seq<int>, prefix: seq<int>)
    requires done + (merged + rest) == whole && prefix == done + merged
    ensures prefix + rest == whole
  {
  }

  /** Before the first block nothing of the pass is in temp. */
  lemma PassStarts(work: seq<int>, tmp: seq<int>, h: nat)
    requires 1 <= h && |tmp| == |work|
    ensures PassSoFar(work, tmp, h, 0)
  {
    assert tmp[..0] == [] && work[0..] == work;
  }

  /** Once the blocks reach the end, temp holds the whole pass. */
  lemma PassEnds(work: seq<int>, tmp: seq<int>, h: nat, left: nat)
    requires PassSoFar(work, tmp, h, left) && left >= |work|
    ensures tmp == MergePass(work, h)
  {
    assert Min(left, |work|) == |work|;
    assert work[|work|..] == [] && tmp[..|work|] == tmp;
    assert MergePass([], h) == [];
  }

  /** Recording the block at `left` advances the block loop's trace by one block. */
  lemma WidenStep(steps: seq<MergeStep>, steps': seq<MergeStep>, input: seq<int>, work: seq<int>, h: nat, left: nat, next: nat,
                  passes: nat, blocks: nat, blocks': nat, c: nat, s: nat, c': nat, s': nat, blocks0: nat, c0: nat, s0: nat)
    requires Widening(steps, input, work, h, left, passes, blocks, c, s, blocks0, c0, s0) && 1 <= h && left < |work|
    requires next == left + 2 * h && blocks' == blocks + 1
    requires Recorded(steps', input, work, passes, blocks', c', s')
    requires Last(steps').action == MergeStepComplete && Last(steps').cursor == Cursor(h, next, -1, -1, -1)
    requires s' == s + (Right(|work|, left, h) - left) && c <= c' <= c + (Right(|work|, left, h) - left - 1)
    ensures Widening(steps', input, work, h, next, passes, blocks', c', s', blocks0, c0, s0)
  {
    assert next != 0;
    assert s' == s0 + Min(next, |work|);
  }

  /** One turn of the block loop: merge the block at `left` into temp. */
  method NextBlock(result: array<int>, temp: array<int>, ghost input: seq<int>, ghost work: seq<int>, h: nat, left: nat,
                   next: nat, steps0: seq<MergeStep>, ghost passes: nat, ghost blocks: nat, ghost blocks': nat,
                   comparisons0: nat, swaps0: nat, ghost blocks0: nat, ghost c0: nat, ghost s0: nat)
    returns (steps: seq<MergeStep>, comparisons: nat, swaps: nat)
    requires result != temp && left < result.Length && result[..] == work
    requires next == left + 2 * h && blocks' == blocks + 1
    requires PassSoFar(work, temp[..], h, left)
    requires Widening(steps0, input, work, h, left, passes, blocks, comparisons0, swaps0, blocks0, c0, s0)
    modifies temp
    ensures PassSoFar(work, temp[..], h, next)
    ensures Widening(steps, input, work, h, next, passes, blocks', comparisons, swaps, blocks0, c0, s0)
    ensures steps0 < steps
  {
    ghost var tmp0 := temp[..];
    steps, comparisons, swaps := MergeBlock(result, temp, input, work, h, left, steps0, passes, blocks, comparisons0, swaps0);
    PassSoFarStep(work, tmp0, temp[..], h, left, next);
    WidenStep(steps0, steps, input, work, h, left, next, passes, blocks, blocks', comparisons0, swaps0, comparisons, swaps, blocks0, c0, s0);
  }

  /**
   * The block loop of a pass of width h: merges every aligned pair of runs
   * of the working copy into temp, so that temp holds the pass.
   */
  method MergeWidth(result: array<int>, temp: array<int>, ghost input: seq<int>, h: nat, steps0: seq<MergeStep>,
                    ghost passes: nat, ghost blocks0: nat, comparisons0: nat, swaps0: nat)
    returns (steps: seq<MergeStep>, ghost blocks: nat, comparisons: nat, swaps: nat)
    requires result != temp && result.Length == temp.Length && 1 <= h < result.Length
    requires Widening(steps0, input, result[..], h, 0, passes, blocks0, comparisons0, swaps0, blocks0, comparisons0, swaps0)
    modifies temp
    ensures temp[..] == MergePass(result[..], h)
    ensures PassMerged(steps, input, result[..], h, passes, blocks, comparisons, swaps, blocks0, comparisons0, swaps0)
    ensures steps0 <= steps
  {
    var n := result.Length;
    steps, blocks, comparisons, swaps := steps0, blocks0, comparisons0, swaps0;
    var left := 0;
    ghost var work := result[..];
    PassStarts(work, temp[..], h);
    while left < n
      invariant result[..] == work
      invariant PassSoFar(work, temp[..], h, left)
      invariant Widening(steps, input, work, h, left, passes, blocks, comparisons, swaps, blocks0, comparisons0, swaps0)
      invariant steps0 <= steps
      decreases n - left
    {
      var next := left + 2 * h;
      ghost var before := steps;
      steps, comparisons, swaps := NextBlock(result, temp, input, work, h, left, next, steps, passes, blocks, blocks + 1,
                                             comparisons, swaps, blocks0, comparisons0, swaps0);
      PrefixChain(steps0, before, steps);
      blocks, left := blocks + 1, next;
    }
    PassEnds(work, temp[..], h, left);
    EndWidth(steps, input, work, h, left, passes, blocks, comparisons, swaps, blocks0, comparisons0, swaps0);
  }

  /**
   * The trace at the end of the block loop of a pass of width h: the last
   * merge_step_complete points past the end, every element was moved once
   * in the pass, and each block compared fewer elements than it moved.
   */
  ghost predicate PassMerged(steps: seq<MergeStep>, input: seq<int>, work: seq<int>, h: nat,
                             passes: nat, blocks: nat, comparisons: nat, swaps: nat, blocks0: nat, c0: nat, s0: nat) {
    && Recorded(steps, input, work, passes, blocks, comparisons, swaps)
    && Last(steps).action == MergeStepComplete
    && Last(steps).cursor == Cursor(h, Last(steps).cursor.step, -1, -1, -1) && Last(steps).cursor.step >= |work|
    && swaps == s0 + |work|
    && blocks0 <= blocks && c0 <= comparisons && (comparisons - c0) + (blocks - blocks0) <= |work|
  }

  /** The block loop ends once the blocks reach the end. */
  lemma EndWidth(steps: seq<MergeStep>, input: seq<int>, work: seq<int>, h: nat, left: nat,
                 passes: nat, blocks: nat, c: nat, s: nat, blocks0: nat, c0: nat, s0: nat)
    requires Widening(steps, input, work, h, left, passes, blocks, c, s, blocks0, c0, s0) && left >= |work| > 0
    ensures PassMerged(steps, input, work, h, passes, blocks, c, s, blocks0, c0, s0)
  {
    assert Min(left, |work|) == |work|;
  }

  /** The loop copying temp back into the working copy. */
  method CopyTempBack(result: array<int>, temp: array<int>)
    requires result != temp && result.Length == temp.Length
    modifies result
    ensures result[..] == temp[..]
  {
    for q := 0 to result.Length
      invariant forall p :: 0 <= p < q ==> result[p] == temp[p]
    {
      result[q] := temp[q];
    }
  }

  /**
   * The state before a pass of width h, after `passes` copy-backs: h is
   * 2^passes and the previous width was below n, every aligned run of
   * width h is sorted, each pass moved all n elements, and each block
   * compared fewer elements than it moved.
   */
  ghost predicate Between(steps: seq<MergeStep>, input: seq<int>, work: seq<int>, h: nat, passes: nat, blocks: nat, comparisons: nat, swaps: nat) {
    && 2 <= |work| == |input| && h == Pow2(passes) && (passes > 0 ==> Pow2(passes - 1) < |work|)
    && Recorded(steps, input, work, passes, blocks, comparisons, swaps)
    && SortedRuns(work, h) && multiset(work) == multiset(input)
    && swaps == |work| * passes && comparisons + blocks <= swaps
    && (if passes == 0 then Last(steps).action == Init else Last(steps).action == CopyBack && Last(steps).cursor == Idle(h))
  }

  /** A run on two or more elements starts before its first pass, with runs of width 1. */
  lemma Start(input: seq<int>)
    requires |input| >= 2
    ensures Between([FirstStep(input)], input, input, 1, 0, 0, 0, 0)
  {
    SortedRunsOfOne(input);
    assert Front([FirstStep(input)]) == [];
  }

  /** outer_loop_start opens a pass while the width is below n. */
  lemma OpenPass(steps: seq<MergeStep>, input: seq<int>, work: seq<int>, h: nat, passes: nat, blocks: nat, c: nat, s: nat)
    requires Between(steps, input, work, h, passes, blocks, c, s) && h < |work|
    ensures Widening(steps + [Step(work, OuterLoopStart, Idle(h), c, s)], input, work, h, 0, passes, blocks, c, s, blocks, c, s)
  {
    var start := Step(work, OuterLoopStart, Idle(h), c, s);
    Record(steps, input, passes, blocks, start);
    FrontAppend(steps, start);
  }

  /** copy_back closes a pass: the working copy becomes the pass, with sorted runs of twice the width. */
  lemma ClosePass(steps0: seq<MergeStep>, steps: seq<MergeStep>, input: seq<int>, work: seq<int>, h: nat,
                  passes: nat, blocks0: nat, blocks: nat, c0: nat, s0: nat, c: nat, s: nat)
    requires Between(steps0, input, work, h, passes, blocks0, c0, s0) && h < |work|
    requires PassMerged(steps, input, work, h, passes, blocks, c, s, blocks0, c0, s0)
    ensures Between(steps + [Step(MergePass(work, h), CopyBack, Idle(2 * h), c, s)], input, MergePass(work, h), 2 * h, passes + 1, blocks, c, s)
  {
    var back := Step(MergePass(work, h), CopyBack, Idle(2 * h), c, s);
    MergePassSorts(work, h);
    MergePassPermutes(work, h);
    Record(steps, input, passes, blocks, back);
    FrontAppend(steps, back);
    assert |work| * (passes + 1) == |work| * passes + |work|;
  }

  /** One pass of the outer loop: outer_loop_start, the blocks of width h, the copy back and copy_back. */
  method Pass(result: array<int>, temp: array<int>, ghost input: seq<int>, h: nat, steps0: seq<MergeStep>,
              ghost passes: nat, ghost blocks0: nat, comparisons0: nat, swaps0: nat)
    returns (steps: seq<MergeStep>, ghost blocks: nat, comparisons: nat, swaps: nat)
    requires result != temp && result.Length == temp.Length
    requires Between(steps0, input, result[..], h, passes, blocks0, comparisons0, swaps0) && h < result.Length
    modifies result, temp
    ensures Between(steps, input, result[..], 2 * h, passes + 1, blocks, comparisons, swaps)
    ensures result[..] == MergePass(old(result[..]), h) && steps0 < steps
  {
    ghost var work := result[..];
    OpenPass(steps0, input, result[..], h, passes, blocks0, comparisons0, swaps0);
    steps := steps0 + [Step(result[..], OuterLoopStart, Idle(h), comparisons0, swaps0)];
    ghost var started := steps;
    steps, blocks, comparisons, swaps := MergeWidth(result, temp, input, h, steps, passes, blocks0, comparisons0, swaps0);
    ClosePass(steps0, steps, input, work, h, passes, blocks0, blocks, comparisons0, swaps0, comparisons, swaps);
    CopyTempBack(result, temp);
    PrefixChain(steps0, started, steps);
    PrefixKept(steps0, steps, [Step(result[..], CopyBack, Idle(2 * h), comparisons, swaps)]);
    steps := steps + [Step(result[..], CopyBack, Idle(2 * h), comparisons, swaps)];
  }

  /** Every step of `steps` follows its predecessor. */
  ghost predicate EveryStepFollows(steps: seq<MergeStep>) {
    forall k :: 0 < k < |steps| ==> Follows(steps[k - 1], steps[k])
  }

  /** Every copy_back step of `steps` leaves sorted runs of its width. */
  ghost predicate EveryCopyBackSorted(steps: seq<MergeStep>) {
    forall k :: 0 <= k < |steps| && steps[k].action == CopyBack ==> RunsSortedAt(steps[k])
  }

  /** A trace that replays satisfies the step-by-step properties stated for whole runs. */
  lemma EveryFollows(t: seq<MergeStep>)
    requires Replays(t) && RunsSorted(t)
    ensures EveryStepFollows(t) && EveryCopyBackSorted(t) && NonDecreasing(t)
  {
    ReplaysNonDecreasing(t);
    forall k | 0 < k < |t| ensures Follows(t[k - 1], t[k]) {
      FollowsAt(t, k);
    }
    forall k | 0 <= k < |t| && t[k].action == CopyBack ensures RunsSortedAt(t[k]) {
      RunsSortedAtIndex(t, k);
    }
  }

  /**
   * A finished run: its trace ends with `complete` on a sorted permutation
   * of the input; every pass moved all n elements and every block compared
   * fewer elements than it moved; for two or more elements the final width
   * is the least power of two at or above n.
   */
  ghost predicate Done(t: seq<MergeStep>, input: seq<int>, comparisons: nat, swaps: nat) {
    && |t| > 1 && Recorded(t, input, Last(t).snapshot, Count(t, CopyBack), Count(t, MergeStepComplete), comparisons, swaps)
    && Last(t).action == Complete
    && Sorted(Last(t).snapshot) && multiset(Last(t).snapshot) == multiset(input)
    && swaps == |input| * Count(t, CopyBack) && comparisons + Count(t, MergeStepComplete) <= swaps
    && (|input| <= 1 ==> t == [FirstStep(input), Step(input, Complete, Idle(0), 0, 0)])
    && (|input| >= 2 ==> Count(t, CopyBack) > 0 && Last(t).cursor == Idle(Pow2(Count(t, CopyBack)))
                         && Pow2(Count(t, CopyBack) - 1) < |input| <= Pow2(Count(t, CopyBack)))
  }

  /** Appending `complete` once the width reaches n finishes the run. */
  lemma Conclude(steps: seq<MergeStep>, input: seq<int>, work: seq<int>, h: nat, passes: nat, blocks: nat,
                 comparisons: nat, swaps: nat, t: seq<MergeStep>)
    requires Between(steps, input, work, h, passes, blocks, comparisons, swaps) && h >= |work|
    requires t == steps + [Step(work, Complete, Idle(h), comparisons, swaps)]
    ensures Done(t, input, comparisons, swaps)
  {
    assert passes > 0;
    Record(steps, input, passes, blocks, Last(t));
    FrontAppend(steps, Last(t));
  }

  /** A run on at most one element is init followed by complete. */
  lemma Single(input: seq<int>, t: seq<MergeStep>)
    requires |input| <= 1 && t == [FirstStep(input), Step(input, Complete, Idle(0), 0, 0)]
    ensures Done(t, input, 0, 0)
  {
    var init := [FirstStep(input)];
    assert Front(init) == [];
    Record(init, input, 0, 0, Last(t));
    FrontAppend(init, Last(t));
    assert init + [Last(t)] == t;
  }

  /** A finished run has every property promised for it, stated over all its steps. */
  lemma Finished(t: seq<MergeStep>, input: seq<int>, comparisons: nat, swaps: nat)
    requires Done(t, input, comparisons, swaps)
    ensures |t| >= 2 && t[0] == FirstStep(input)
    ensures |input| <= 1 ==> t == [FirstStep(input), Step(input, Complete, Idle(0), 0, 0)]
    ensures Last(t).action == Complete && Last(t).comparisons == comparisons && Last(t).swaps == swaps
    ensures Sorted(Last(t).snapshot) && multiset(Last(t).snapshot) == multiset(input)
    ensures |input| >= 2 ==> Count(t, CopyBack) > 0 && Last(t).cursor == Idle(Pow2(Count(t, CopyBack)))
                             && Pow2(Count(t, CopyBack) - 1) < |input| <= Pow2(Count(t, CopyBack))
    ensures swaps == |input| * Count(t, CopyBack) && comparisons + Count(t, MergeStepComplete) <= swaps
    ensures Count(t, Compare) == comparisons
    ensures Count(t, Copy) + Count(t, CopyRemainingLeft) + Count(t, CopyRemainingRight) == swaps
    ensures EveryStepFollows(t) && EveryCopyBackSorted(t) && NonDecreasing(t)
  {
    CountersTally(t);
    EveryFollows(t);
  }

  /** Sorts `result`, which holds `input`, recording the trace. */
  method Run(result: array<int>, ghost input: seq<int>) returns (steps: seq<MergeStep>, comparisons: nat, swaps: nat)
    requires result[..] == input
    modifies result
    ensures Done(steps, input, comparisons, swaps)
  {
    var n := result.Length;
    comparisons, swaps := 0, 0;
    steps := [FirstStep(result[..])];
    if n <= 1 {
      var complete := Step(result[..], Complete, Idle(0), 0, 0);
      Single(input, steps + [complete]);
      steps := steps + [complete];
      return;
    }

    var h: nat := 1;
    var temp := new int[n];
    ghost var passes: nat, blocks: nat := 0, 0;
    Start(input);
    while h < n
      invariant Between(steps, input, result[..], h, passes, blocks, comparisons, swaps)
      decreases n - h
    {
      steps, blocks, comparisons, swaps := Pass(result, temp, input, h, steps, passes, blocks, comparisons, swaps);
      h, passes := 2 * h, passes + 1;
    }

    var complete := Step(result[..], Complete, Idle(h), comparisons, swaps);
    Conclude(steps, input, result[..], h, passes, blocks, comparisons, swaps, steps + [complete]);
    steps := steps + [complete];
  }

  /**
   * Sorts a copy of `arr` and returns the trace with its final counters.
   * The input itself is never written (there is no modifies clause).
   */
  method MergeSort(arr: array<int>) returns (steps: seq<MergeStep>, comparisons: nat, swaps: nat)
    ensures |steps| >= 2 && steps[0] == FirstStep(arr[..])
    ensures arr.Length <= 1 ==> steps == [FirstStep(arr[..]), Step(arr[..], Complete, Idle(0), 0, 0)]
    ensures Last(steps).action == Complete && Last(steps).comparisons == comparisons && Last(steps).swaps == swaps
    ensures Sorted(Last(steps).snapshot) && multiset(Last(steps).snapshot) == multiset(arr[..])
    ensures arr.Length >= 2 ==> Count(steps, CopyBack) > 0 && Last(steps).cursor == Idle(Pow2(Count(steps, CopyBack)))
                                && Pow2(Count(steps, CopyBack) - 1) < arr.Length <= Pow2(Count(steps, CopyBack))
    ensures swaps == arr.Length * Count(steps, CopyBack) && comparisons + Count(steps, MergeStepComplete) <= swaps
    ensures Count(steps, Compare) == comparisons
    ensures Count(steps, Copy) + Count(steps, CopyRemainingLeft) + Count(steps, CopyRemainingRight) == swaps
    ensures EveryStepFollows(steps) && EveryCopyBackSorted(steps) && NonDecreasing(steps)
  {
    var result := new int[arr.Length](q requires 0 <= q < arr.Length reads arr => arr[q]);
    assert result[..] == arr[..];
    steps, comparisons, swaps := Run(result, arr[..]);
    Finished(steps, arr[..], comparisons, swaps);
  }
}
