/**
 * The data model every engine shares: a trace is an append-only sequence of
 * steps, each holding a full snapshot of the working copy, the action tag,
 * the engine's cursor fields and the cumulative comparison and movement
 * counters at that instant.
 */
module Trace {

  datatype Step<A, C> = Step(snapshot: seq<int>, action: A, cursor: C, comparisons: nat, swaps: nat)

  function Last<T>(s: seq<T>): T
    requires |s| > 0
  {
    s[|s| - 1]
  }

  /** Everything but the last element. */
  function Front<T>(s: seq<T>): (r: seq<T>)
    requires |s| > 0
    ensures |r| == |s| - 1 && forall k :: 0 <= k < |r| ==> r[k] == s[k]
  {
    s[..|s| - 1]
  }

  lemma FrontAppend<T>(s: seq<T>, x: T)
    ensures Front(s + [x]) == s && Last(s + [x]) == x
  {
    assert (s + [x])[..|s|] == s;
  }

  /** Appending to a sequence keeps every prefix it already had. */
  lemma PrefixKept<T>(s0: seq<T>, s: seq<T>, more: seq<T>)
    requires s0 <= s
    ensures s0 <= s + more && |s + more| == |s| + |more|
  {
    assert (s + more)[..|s0|] == s[..|s0|];
  }

  /** A prefix of a prefix is a prefix. */
  lemma PrefixChain<T>(a: seq<T>, b: seq<T>, c: seq<T>)
    requires a <= b && b <= c
    ensures a <= c
  {
    assert c[..|a|] == c[..|b|][..|a|];
  }

  /** How many steps of `steps` carry the action tag `a`. */
  function Count<A(==), C>(steps: seq<Step<A, C>>, a: A): nat
  {
    if |steps| == 0 then 0
    else Count(Front(steps), a) + (if Last(steps).action == a then 1 else 0)
  }

  lemma CountAppend<A, C>(steps: seq<Step<A, C>>, s: Step<A, C>)
    ensures forall a :: Count(steps + [s], a) == Count(steps, a) + (if s.action == a then 1 else 0)
  {
    FrontAppend(steps, s);
  }

  /** The counters never go down between two consecutive steps. */
  ghost predicate AdjacentNonDecreasing<A, C>(steps: seq<Step<A, C>>) {
    forall k :: 0 < k < |steps| ==>
      steps[k - 1].comparisons <= steps[k].comparisons && steps[k - 1].swaps <= steps[k].swaps
  }

  /** The counters never go down anywhere along the trace. */
  ghost predicate NonDecreasing<A, C>(steps: seq<Step<A, C>>) {
    forall a, b :: 0 <= a <= b < |steps| ==>
      steps[a].comparisons <= steps[b].comparisons && steps[a].swaps <= steps[b].swaps
  }

  lemma {:induction false} NonDecreasingFromAdjacent<A, C>(steps: seq<Step<A, C>>)
    requires AdjacentNonDecreasing(steps)
    ensures NonDecreasing(steps)
  {
    if |steps| > 1 {
      var init := steps[..|steps| - 1];
      assert AdjacentNonDecreasing(init) by {
        forall k | 0 < k < |init|
          ensures init[k - 1].comparisons <= init[k].comparisons && init[k - 1].swaps <= init[k].swaps
        {
          assert init[k - 1] == steps[k - 1] && init[k] == steps[k];
        }
      }
      NonDecreasingFromAdjacent(init);
      forall a, b | 0 <= a <= b < |steps|
        ensures steps[a].comparisons <= steps[b].comparisons && steps[a].swaps <= steps[b].swaps
      {
        if b < |steps| - 1 {
          assert init[a] == steps[a] && init[b] == steps[b];
        } else if a < b {
          assert init[a] == steps[a] && init[b - 1] == steps[b - 1];
        }
      }
    }
  }
}
