/**
 * Reference definitions for bottom-up merge sort: the merge of two runs,
 * one pass of merges at width h, and what it means for every aligned run
 * of width w to be sorted.
 */
module MergeSpec {
  import opened SortSpec

  function Min(a: int, b: int): int {
    if a <= b then a else b
  }

  /** 2 to the power e: the widths a bottom-up merge sort goes through. */
  function Pow2(e: nat): (r: nat)
    ensures r >= 1
  {
    if e == 0 then 1 else 2 * Pow2(e - 1)
  }

  /** Widths only grow with the number of doublings. */
  lemma {:induction false} Pow2Monotone(a: nat, b: nat)
    requires a <= b
    ensures Pow2(a) <= Pow2(b)
    decreases b
  {
    if a < b {
      Pow2Monotone(a, b - 1);
    }
  }

  /**
   * A width 2^p with 2^(p-1) < n <= 2^p is the least power of two at or
   * above n: every 2^q at or above n has q >= p.
   */
  lemma LeastWidth(p: nat, q: nat, n: int)
    requires p > 0 && Pow2(p - 1) < n <= Pow2(q)
    ensures p <= q
  {
    if q < p {
      Pow2Monotone(q, p - 1);
    }
  }

  /** End of the left run of the block starting at `left` in a pass of width h over n elements. */
  function Mid(n: int, left: int, h: int): int {
    Min(left + h, n)
  }

  /** End of the block starting at `left` in a pass of width h over n elements. */
  function Right(n: int, left: int, h: int): int {
    Min(left + 2 * h, n)
  }

  /**
   * The merge of `xs` and `ys`, taking from `xs` whenever its head is not
   * greater than the head of `ys` (ties go left).
   */
  function Merge(xs: seq<int>, ys: seq<int>): (r: seq<int>)
    ensures |r| == |xs| + |ys|
    decreases |xs| + |ys|
  {
    if |xs| == 0 then ys
    else if |ys| == 0 then xs
    else if xs[0] <= ys[0] then [xs[0]] + Merge(xs[1..], ys)
    else [ys[0]] + Merge(xs, ys[1..])
  }

  /** The merge starts with the head of `xs` when it is not greater than the head of `ys`. */
  lemma MergeTakesLeft(xs: seq<int>, ys: seq<int>)
    requires |xs| > 0 && (|ys| == 0 || xs[0] <= ys[0])
    ensures Merge(xs, ys) == [xs[0]] + Merge(xs[1..], ys)
  {
    if |ys| == 0 {
      assert Merge(xs[1..], ys) == xs[1..];
      assert xs == [xs[0]] + xs[1..];
    } else {
      assert |xs| != 0 && |ys| != 0 && xs[0] <= ys[0];
    }
  }

  /** The merge starts with the head of `ys` when it is smaller than the head of `xs`. */
  lemma MergeTakesRight(xs: seq<int>, ys: seq<int>)
    requires |ys| > 0 && (|xs| == 0 || ys[0] < xs[0])
    ensures Merge(xs, ys) == [ys[0]] + Merge(xs, ys[1..])
  {
    if |xs| == 0 {
      assert Merge(xs, ys[1..]) == ys[1..];
      assert ys == [ys[0]] + ys[1..];
    } else {
      assert |xs| != 0 && |ys| != 0 && !(xs[0] <= ys[0]);
    }
  }

  /** A merge holds exactly the elements of its two inputs. */
  lemma {:induction false} MergePermutes(xs: seq<int>, ys: seq<int>)
    ensures multiset(Merge(xs, ys)) == multiset(xs) + multiset(ys)
    decreases |xs| + |ys|
  {
    if |xs| > 0 && |ys| > 0 {
      if xs[0] <= ys[0] {
        var tail := Merge(xs[1..], ys);
        MergeTakesLeft(xs, ys);
        MergePermutes(xs[1..], ys);
        HeadPermutes(xs);
        HeadPermutes([xs[0]] + tail);
      } else {
        var tail := Merge(xs, ys[1..]);
        MergeTakesRight(xs, ys);
        MergePermutes(xs, ys[1..]);
        HeadPermutes(ys);
        HeadPermutes([ys[0]] + tail);
      }
    }
  }

  /** A sequence holds its head and the elements of its tail. */
  lemma HeadPermutes(s: seq<int>)
    requires |s| > 0
    ensures multiset(s) == multiset{s[0]} + multiset(s[1..])
  {
    assert s == [s[0]] + s[1..];
  }

  /** Putting an element in front of a sorted sequence of elements not below it keeps it sorted. */
  lemma SortedCons(x: int, t: seq<int>)
    requires Sorted(t) && forall q :: 0 <= q < |t| ==> x <= t[q]
    ensures Sorted([x] + t)
  {
    var r := [x] + t;
    forall a, b | 0 <= a < b < |r| ensures r[a] <= r[b] {
      if a > 0 { assert r[a] == t[a - 1] && r[b] == t[b - 1]; }
      else { assert r[b] == t[b - 1]; }
    }
  }

  /** Every element of a sorted sequence is at least its head. */
  lemma HeadIsLeast(s: seq<int>, v: int)
    requires Sorted(s) && |s| > 0 && v in multiset(s)
    ensures s[0] <= v
  {
    var q :| 0 <= q < |s| && s[q] == v;
  }

  /** Every element of a merge of sorted runs is at least the head taken first. */
  lemma MergeAbove(xs: seq<int>, ys: seq<int>, x: int)
    requires Sorted(xs) && Sorted(ys)
    requires |xs| > 0 ==> x <= xs[0]
    requires |ys| > 0 ==> x <= ys[0]
    ensures forall q :: 0 <= q < |Merge(xs, ys)| ==> x <= Merge(xs, ys)[q]
  {
    var r := Merge(xs, ys);
    MergePermutes(xs, ys);
    forall q | 0 <= q < |r| ensures x <= r[q] {
      assert r[q] in multiset(r);
      if r[q] in multiset(xs) { HeadIsLeast(xs, r[q]); } else { HeadIsLeast(ys, r[q]); }
    }
  }

  /** A sorted sequence stays sorted without its head. */
  lemma SortedTail(s: seq<int>)
    requires Sorted(s) && |s| > 0
    ensures Sorted(s[1..])
  {
    forall a, b | 0 <= a < b < |s| - 1 ensures s[1..][a] <= s[1..][b] {
      assert s[1..][a] == s[a + 1] && s[1..][b] == s[b + 1];
    }
  }

  /** The merge of two sorted runs is sorted. */
  lemma {:induction false} MergeSorted(xs: seq<int>, ys: seq<int>)
    requires Sorted(xs) && Sorted(ys)
    ensures Sorted(Merge(xs, ys))
    decreases |xs| + |ys|
  {
    if |xs| > 0 && |ys| > 0 {
      if xs[0] <= ys[0] {
        SortedTail(xs);
        MergeSorted(xs[1..], ys);
        assert |xs[1..]| > 0 ==> xs[0] <= xs[1..][0];
        MergeAbove(xs[1..], ys, xs[0]);
        SortedCons(xs[0], Merge(xs[1..], ys));
      } else {
        SortedTail(ys);
        MergeSorted(xs, ys[1..]);
        assert |ys[1..]| > 0 ==> ys[0] <= ys[1..][0];
        MergeAbove(xs, ys[1..], ys[0]);
        SortedCons(ys[0], Merge(xs, ys[1..]));
      }
    }
  }

  /**
   * Stability of the merge: when an element of `xs` equals an element of
   * `ys`, the copy from `xs` comes first in the result. `MergeOrigin`
   * records, for each output position, which input it was taken from.
   */
  datatype Origin = FromLeft(index: nat) | FromRight(index: nat)

  function MergeOrigin(xs: seq<int>, ys: seq<int>): (r: seq<Origin>)
    ensures |r| == |xs| + |ys|
    decreases |xs| + |ys|
  {
    if |xs| == 0 then seq(|ys|, q requires 0 <= q => FromRight(q))
    else if |ys| == 0 then seq(|xs|, q requires 0 <= q => FromLeft(q))
    else if xs[0] <= ys[0] then [FromLeft(0)] + Shifted(MergeOrigin(xs[1..], ys), true)
    else [FromRight(0)] + Shifted(MergeOrigin(xs, ys[1..]), false)
  }

  /** Origins re-indexed after dropping the head of the left (`left`) or right input. */
  function Shifted(os: seq<Origin>, left: bool): (r: seq<Origin>)
    ensures |r| == |os|
    ensures forall q :: 0 <= q < |os| ==> r[q] == Bump(os[q], left)
  {
    seq(|os|, q requires 0 <= q < |os| => Bump(os[q], left))
  }

  function Bump(o: Origin, left: bool): Origin {
    match o
    case FromLeft(i) => if left then FromLeft(i + 1) else FromLeft(i)
    case FromRight(j) => if left then FromRight(j) else FromRight(j + 1)
  }

  /** Each output element of a merge is the input element its origin names. */
  ghost predicate Traced(xs: seq<int>, ys: seq<int>, r: seq<int>, os: seq<Origin>) {
    && |os| == |r|
    && forall q :: 0 <= q < |r| ==>
         match os[q]
         case FromLeft(i) => i < |xs| && r[q] == xs[i]
         case FromRight(j) => j < |ys| && r[q] == ys[j]
  }

  /** An equal pair split across the inputs: the left copy is placed before the right one. */
  ghost predicate TiesGoLeft(xs: seq<int>, ys: seq<int>, os: seq<Origin>) {
    forall p, q ::
      (0 <= p < |os| && 0 <= q < |os| && os[p].FromLeft? && os[q].FromRight? &&
       os[p].index < |xs| && os[q].index < |ys| && xs[os[p].index] == ys[os[q].index]) ==> p < q
  }

  /**
   * Along the output, the positions taken from the same input strictly
   * increase: each run keeps its own order and no position is taken twice.
   */
  ghost predicate RunsInOrder(os: seq<Origin>) {
    forall p, q :: 0 <= p < q < |os| && os[p].FromLeft? == os[q].FromLeft? ==> os[p].index < os[q].index
  }

  /** Every position of both inputs is the origin of some output position. */
  ghost predicate Covered(xs: seq<int>, ys: seq<int>, os: seq<Origin>) {
    LeftUsed(|xs|, os) && RightUsed(|ys|, os)
  }

  /** Each of the first `n` left positions is the origin of some output position. */
  ghost predicate LeftUsed(n: nat, os: seq<Origin>) {
    forall i :: 0 <= i < n ==> FromLeft(i) in os
  }

  /** Each of the first `n` right positions is the origin of some output position. */
  ghost predicate RightUsed(n: nat, os: seq<Origin>) {
    forall j :: 0 <= j < n ==> FromRight(j) in os
  }

  /** The output's first element, taken from the left (`left`) or the right input. */
  function Head(left: bool): Origin {
    if left then FromLeft(0) else FromRight(0)
  }

  /** Placing a head in front of the shifted origins keeps every left position used, one more when it came from the left. */
  lemma LeftUsedAfter(os: seq<Origin>, n: nat, left: bool)
    requires LeftUsed(n, os)
    ensures LeftUsed(if left then n + 1 else n, [Head(left)] + Shifted(os, left))
  {
    var os' := [Head(left)] + Shifted(os, left);
    forall i | 0 <= i < (if left then n + 1 else n) ensures FromLeft(i) in os' {
      if left && i == 0 {
        assert os'[0] == FromLeft(0);
      } else {
        var q :| 0 <= q < |os| && os[q] == FromLeft(if left then i - 1 else i);
        assert os'[q + 1] == Bump(os[q], left);
      }
    }
  }

  /** Placing a head in front of the shifted origins keeps every right position used, one more when it came from the right. */
  lemma RightUsedAfter(os: seq<Origin>, n: nat, left: bool)
    requires RightUsed(n, os)
    ensures RightUsed(if left then n else n + 1, [Head(left)] + Shifted(os, left))
  {
    var os' := [Head(left)] + Shifted(os, left);
    forall j | 0 <= j < (if left then n else n + 1) ensures FromRight(j) in os' {
      if !left && j == 0 {
        assert os'[0] == FromRight(0);
      } else {
        var q :| 0 <= q < |os| && os[q] == FromRight(if left then j else j - 1);
        assert os'[q + 1] == Bump(os[q], left);
      }
    }
  }

  /** Placing a head in front of the shifted origins keeps both runs in order. */
  lemma OrderAfter(os: seq<Origin>, left: bool)
    requires RunsInOrder(os)
    ensures RunsInOrder([Head(left)] + Shifted(os, left))
  {
    var os' := [Head(left)] + Shifted(os, left);
    forall p, q | 0 <= p < q < |os'| && os'[p].FromLeft? == os'[q].FromLeft?
      ensures os'[p].index < os'[q].index
    {
      assert os'[q] == Bump(os[q - 1], left);
      if p > 0 { assert os'[p] == Bump(os[p - 1], left); }
    }
  }

  /** Taking the head of the left input: the tail's origins, shifted, still name the placed elements. */
  lemma TracedTakeLeft(xs: seq<int>, ys: seq<int>, r: seq<int>, os: seq<Origin>)
    requires |xs| > 0 && Traced(xs[1..], ys, r, os)
    ensures Traced(xs, ys, [xs[0]] + r, [FromLeft(0)] + Shifted(os, true))
  {
    var os' := [FromLeft(0)] + Shifted(os, true);
    forall q | 1 <= q < |os'|
      ensures match os'[q]
        case FromLeft(i) => i < |xs| && ([xs[0]] + r)[q] == xs[i]
        case FromRight(j) => j < |ys| && ([xs[0]] + r)[q] == ys[j]
    {
      assert os'[q] == Bump(os[q - 1], true);
    }
  }

  /** Taking the head of the right input: the tail's origins, shifted, still name the placed elements. */
  lemma TracedTakeRight(xs: seq<int>, ys: seq<int>, r: seq<int>, os: seq<Origin>)
    requires |ys| > 0 && Traced(xs, ys[1..], r, os)
    ensures Traced(xs, ys, [ys[0]] + r, [FromRight(0)] + Shifted(os, false))
  {
    var os' := [FromRight(0)] + Shifted(os, false);
    forall q | 1 <= q < |os'|
      ensures match os'[q]
        case FromLeft(i) => i < |xs| && ([ys[0]] + r)[q] == xs[i]
        case FromRight(j) => j < |ys| && ([ys[0]] + r)[q] == ys[j]
    {
      assert os'[q] == Bump(os[q - 1], false);
    }
  }

  /** Taking the head of the left input first keeps an equal left/right pair with the left copy first. */
  lemma PairsTakeLeft(xs: seq<int>, ys: seq<int>, os: seq<Origin>)
    requires |xs| > 0 && TiesGoLeft(xs[1..], ys, os)
    ensures TiesGoLeft(xs, ys, [FromLeft(0)] + Shifted(os, true))
  {
    var os' := [FromLeft(0)] + Shifted(os, true);
    forall p, q | 0 <= p < |os'| && 0 <= q < |os'| && os'[p].FromLeft? && os'[q].FromRight? &&
      os'[p].index < |xs| && os'[q].index < |ys| && xs[os'[p].index] == ys[os'[q].index]
      ensures p < q
    {
      if p > 0 {
        assert os'[p] == Bump(os[p - 1], true) && os'[q] == Bump(os[q - 1], true);
        assert xs[1..][os[p - 1].index] == xs[os'[p].index];
      }
    }
  }

  /** Taking the head of the left input first keeps equal elements in input order and every input position used once. */
  lemma TiesTakeLeft(xs: seq<int>, ys: seq<int>, os: seq<Origin>)
    requires |xs| > 0 && TiesGoLeft(xs[1..], ys, os) && RunsInOrder(os) && Covered(xs[1..], ys, os)
    ensures TiesGoLeft(xs, ys, [FromLeft(0)] + Shifted(os, true))
    ensures RunsInOrder([FromLeft(0)] + Shifted(os, true)) && Covered(xs, ys, [FromLeft(0)] + Shifted(os, true))
  {
    PairsTakeLeft(xs, ys, os);
    OrderAfter(os, true);
    LeftUsedAfter(os, |xs| - 1, true);
    RightUsedAfter(os, |ys|, true);
  }

  /** Taking a strictly smaller right head first keeps an equal left/right pair with the left copy first. */
  lemma PairsTakeRight(xs: seq<int>, ys: seq<int>, os: seq<Origin>)
    requires |xs| > 0 && |ys| > 0 && ys[0] < xs[0] && Sorted(xs) && TiesGoLeft(xs, ys[1..], os)
    ensures TiesGoLeft(xs, ys, [FromRight(0)] + Shifted(os, false))
  {
    var os' := [FromRight(0)] + Shifted(os, false);
    forall p, q | 0 <= p < |os'| && 0 <= q < |os'| && os'[p].FromLeft? && os'[q].FromRight? &&
      os'[p].index < |xs| && os'[q].index < |ys| && xs[os'[p].index] == ys[os'[q].index]
      ensures p < q
    {
      if q == 0 {
        assert false;
      } else {
        assert os'[p] == Bump(os[p - 1], false) && os'[q] == Bump(os[q - 1], false);
        assert ys[1..][os[q - 1].index] == ys[os'[q].index];
      }
    }
  }

  /** Taking a strictly smaller right head first keeps equal elements in input order and every input position used once. */
  lemma TiesTakeRight(xs: seq<int>, ys: seq<int>, os: seq<Origin>)
    requires |xs| > 0 && |ys| > 0 && ys[0] < xs[0] && Sorted(xs)
    requires TiesGoLeft(xs, ys[1..], os) && RunsInOrder(os) && Covered(xs, ys[1..], os)
    ensures TiesGoLeft(xs, ys, [FromRight(0)] + Shifted(os, false))
    ensures RunsInOrder([FromRight(0)] + Shifted(os, false)) && Covered(xs, ys, [FromRight(0)] + Shifted(os, false))
  {
    PairsTakeRight(xs, ys, os);
    OrderAfter(os, false);
    LeftUsedAfter(os, |xs|, false);
    RightUsedAfter(os, |ys| - 1, false);
  }

  /**
   * The origins of a merge name the elements it placed, one output position
   * per input position; equal elements from the left are placed first, and
   * each run keeps its own order.
   */
  lemma {:induction false} MergeStable(xs: seq<int>, ys: seq<int>)
    requires Sorted(xs) && Sorted(ys)
    ensures Traced(xs, ys, Merge(xs, ys), MergeOrigin(xs, ys))
    ensures TiesGoLeft(xs, ys, MergeOrigin(xs, ys))
    ensures RunsInOrder(MergeOrigin(xs, ys)) && Covered(xs, ys, MergeOrigin(xs, ys))
    decreases |xs| + |ys|
  {
    var os := MergeOrigin(xs, ys);
    if |xs| == 0 || |ys| == 0 {
      forall i | 0 <= i < |xs| ensures FromLeft(i) in os { assert os[i] == FromLeft(i); }
      forall j | 0 <= j < |ys| ensures FromRight(j) in os { assert os[j] == FromRight(j); }
    } else {
      if xs[0] <= ys[0] {
        SortedTail(xs);
        MergeStable(xs[1..], ys);
        TracedTakeLeft(xs, ys, Merge(xs[1..], ys), MergeOrigin(xs[1..], ys));
        TiesTakeLeft(xs, ys, MergeOrigin(xs[1..], ys));
      } else {
        SortedTail(ys);
        MergeStable(xs, ys[1..]);
        TracedTakeRight(xs, ys, Merge(xs, ys[1..]), MergeOrigin(xs, ys[1..]));
        TiesTakeRight(xs, ys, MergeOrigin(xs, ys[1..]));
      }
    }
  }

  /**
   * One pass of width h: merge each aligned pair of runs of length h (the
   * last block clipped to the end; a lone last run merges with nothing).
   */
  function MergePass(s: seq<int>, h: nat): (r: seq<int>)
    requires h > 0
    ensures |r| == |s|
    decreases |s|
  {
    if |s| <= 2 * h then Merge(s[..Min(h, |s|)], s[Min(h, |s|)..])
    else Merge(s[..h], s[h..2 * h]) + MergePass(s[2 * h..], h)
  }

  /** A pass holds exactly the elements it was given. */
  lemma {:induction false} MergePassPermutes(s: seq<int>, h: nat)
    requires h > 0
    ensures multiset(MergePass(s, h)) == multiset(s)
    decreases |s|
  {
    if |s| <= 2 * h {
      var m := Min(h, |s|);
      MergePermutes(s[..m], s[m..]);
      SplitPermutes(s, m);
    } else {
      var first, rest := Merge(s[..h], s[h..2 * h]), MergePass(s[2 * h..], h);
      assert MergePass(s, h) == first + rest;
      MergePermutes(s[..h], s[h..2 * h]);
      MergePassPermutes(s[2 * h..], h);
      SplitPermutes(s[..2 * h], h);
      SplitPermutes(s, 2 * h);
      assert s[..2 * h][..h] == s[..h] && s[..2 * h][h..] == s[h..2 * h];
    }
  }

  /** Cutting a sequence in two splits its multiset. */
  lemma SplitPermutes(s: seq<int>, m: nat)
    requires m <= |s|
    ensures multiset(s) == multiset(s[..m]) + multiset(s[m..])
  {
    assert s == s[..m] + s[m..];
  }

  /** Every aligned run of width w (the last one clipped) is sorted. */
  ghost predicate SortedRuns(s: seq<int>, w: nat)
    requires w > 0
    decreases |s|
  {
    if |s| <= w then Sorted(s) else Sorted(s[..w]) && SortedRuns(s[w..], w)
  }

  /** Runs of width 1 are always sorted. */
  lemma {:induction false} SortedRunsOfOne(s: seq<int>)
    ensures SortedRuns(s, 1)
    decreases |s|
  {
    if |s| > 1 {
      SortedRunsOfOne(s[1..]);
    }
  }

  /** A pass of width h over sorted runs of width h leaves sorted runs of width 2h. */
  lemma {:induction false} MergePassSorts(s: seq<int>, h: nat)
    requires h > 0 && SortedRuns(s, h)
    ensures SortedRuns(MergePass(s, h), 2 * h)
    decreases |s|
  {
    if |s| <= h {
      assert s[..|s|] == s && s[|s|..] == [];
      assert Min(h, |s|) == |s|;
    } else if |s| <= 2 * h {
      MergeSorted(s[..h], s[h..]);
    } else {
      assert s[h..][..h] == s[h..2 * h] && s[h..][h..] == s[2 * h..];
      MergeSorted(s[..h], s[h..2 * h]);
      MergePassSorts(s[2 * h..], h);
      var r := MergePass(s, h);
      assert r[..2 * h] == Merge(s[..h], s[h..2 * h]) && r[2 * h..] == MergePass(s[2 * h..], h);
    }
  }

  /** The part of a pass from block `left` on: the block's merge, then the pass over what follows it. */
  lemma MergePassFrom(s: seq<int>, left: nat, h: nat)
    requires h > 0 && left < |s|
    ensures MergePass(s[left..], h)
         == Merge(s[left..Mid(|s|, left, h)], s[Mid(|s|, left, h)..Right(|s|, left, h)]) + MergePass(s[Right(|s|, left, h)..], h)
  {
    var t := s[left..];
    if |t| <= 2 * h {
      assert t[..Min(h, |t|)] == s[left..Mid(|s|, left, h)];
      assert t[Min(h, |t|)..] == s[Mid(|s|, left, h)..Right(|s|, left, h)];
      assert s[Right(|s|, left, h)..] == [];
    } else {
      assert t[..h] == s[left..left + h] && t[h..2 * h] == s[left + h..left + 2 * h] && t[2 * h..] == s[left + 2 * h..];
    }
  }
}
