/** Order properties shared by the four sorting engines. */
module SortSpec {

  /** Every element is at most every element to its right. */
  ghost predicate Sorted(s: seq<int>) {
    forall a, b :: 0 <= a < b < |s| ==> s[a] <= s[b]
  }

  /** No element before position `b` exceeds an element at or after `b`. */
  ghost predicate Partitioned(s: seq<int>, b: int) {
    forall x, y :: 0 <= x < b <= y < |s| ==> s[x] <= s[y]
  }

  /**
   * A sequence whose first `k` elements are sorted and no larger than the
   * rest is sorted once at most one element remains after them.
   */
  lemma SortedWhenSettled(s: seq<int>, k: nat)
    requires |s| - 1 <= k <= |s| && Sorted(s[..k]) && Partitioned(s, k)
    ensures Sorted(s)
  {
    forall a, b | 0 <= a < b < |s| ensures s[a] <= s[b] {
      if b < k {
        assert s[..k][a] == s[a] && s[..k][b] == s[b];
      }
    }
  }

  /** `s` with the elements at `i` and `j` exchanged. */
  function Exchanged(s: seq<int>, i: nat, j: nat): (r: seq<int>)
    requires i < |s| && j < |s|
    ensures |r| == |s| && r[i] == s[j] && r[j] == s[i]
    ensures forall q :: 0 <= q < |s| && q != i && q != j ==> r[q] == s[q]
    ensures multiset(r) == multiset(s)
  {
    s[i := s[j]][j := s[i]]
  }

  /**
   * Comparisons made by the first `passes` passes of a scan whose pass `p`
   * compares `size - 1 - p` pairs (bubble sort's shrinking inner loop and
   * selection sort's suffix scan both have this shape).
   */
  function ScanComparisons(size: nat, passes: nat): nat
    requires passes <= size
  {
    if passes == 0 then 0 else ScanComparisons(size, passes - 1) + (size - passes)
  }

  /** Closed form of `ScanComparisons`, doubled to stay clear of division. */
  lemma {:induction false} ScanComparisonsClosed(size: nat, passes: nat)
    requires passes <= size
    ensures 2 * ScanComparisons(size, passes) == passes * (2 * size - passes - 1)
  {
    if passes > 0 {
      ScanComparisonsClosed(size, passes - 1);
      var p := passes - 1;
      calc {
        2 * ScanComparisons(size, passes);
        2 * ScanComparisons(size, p) + 2 * (size - passes);
        p * (2 * size - p - 1) + 2 * (size - passes);
        { assert p * (2 * size - p - 1) == passes * (2 * size - passes - 1) - 2 * size + 2 * passes; }
        passes * (2 * size - passes - 1);
      }
    }
  }

  /** All passes of an n-element scan together make n(n-1)/2 comparisons. */
  lemma ScanComparisonsTotal(size: nat)
    ensures ScanComparisons(size, size) == size * (size - 1) / 2
    ensures size > 0 ==> ScanComparisons(size, size - 1) == size * (size - 1) / 2
  {
    ScanComparisonsClosed(size, size);
  }
}
