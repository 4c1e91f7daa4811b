/**
 * Bubble sort: n-1 passes of adjacent compare-and-swap over a shrinking
 * prefix, with no early exit.
 */
module Bubble {
  import opened SortSpec

  /**
   * Sorts a in place. `passes` counts the outer iterations and `swaps` the
   * exchanges: there are always n-1 passes, and an input that is already in
   * order is never touched.
   */
  method BubbleSort(a: array<int>) returns (ghost passes: nat, ghost swaps: nat)
    modifies a
    ensures Sorted(a[..])
    ensures multiset(a[..]) == old(multiset(a[..]))
    ensures passes == if a.Length >= 1 then a.Length - 1 else 0
    ensures Sorted(old(a[..])) ==> swaps == 0 && a[..] == old(a[..])
  {
    var n := a.Length;
    passes, swaps := 0, 0;
    var i := 0;
    while i < n - 1
      invariant 0 <= i <= if n >= 1 then n - 1 else 0
      invariant passes == i
      // the last i cells hold the i largest elements, in order
      invariant forall p, q :: n - i <= p < q < n ==> a[p] <= a[q]
      invariant forall p, q :: 0 <= p < n - i <= q < n ==> a[p] <= a[q]
      invariant multiset(a[..]) == old(multiset(a[..]))
      invariant Sorted(old(a[..])) ==> swaps == 0 && a[..] == old(a[..])
    {
      ghost var s := swaps;
      var passSwaps := BubblePass(a, n - i - 1);
      swaps := s + passSwaps;
      i := i + 1;
      passes := passes + 1;
    }
    if n >= 1 {
      forall p, q | 0 <= p < q < n ensures a[p] <= a[q] {
        if p == 0 {
          assert 0 <= p < n - i <= q < n;
        }
      }
    }
  }

  /**
   * One inner pass over a[..bound+1]: carries the largest of those cells to
   * a[bound], exchanging neighbours only when the left one is strictly
   * greater, and leaves every cell after bound alone.
   */
  method BubblePass(a: array<int>, bound: int) returns (ghost swaps: nat)
    requires 0 <= bound < a.Length
    requires forall p, q :: 0 <= p <= bound < q < a.Length ==> a[p] <= a[q]
    modifies a
    ensures forall p, q :: 0 <= p <= bound < q < a.Length ==> a[p] <= a[q]
    ensures forall k :: 0 <= k <= bound ==> a[k] <= a[bound]
    ensures forall k :: bound < k < a.Length ==> a[k] == old(a[k])
    ensures multiset(a[..]) == old(multiset(a[..]))
    ensures Sorted(old(a[..])) ==> swaps == 0 && a[..] == old(a[..])
  {
    swaps := 0;
    var j := 0;
    while j < bound
      invariant 0 <= j <= bound
      // the largest of a[..j+1] has been carried to a[j]
      invariant forall k :: 0 <= k <= j ==> a[k] <= a[j]
      invariant forall p, q :: 0 <= p <= bound < q < a.Length ==> a[p] <= a[q]
      invariant forall k :: bound < k < a.Length ==> a[k] == old(a[k])
      invariant multiset(a[..]) == old(multiset(a[..]))
      invariant Sorted(old(a[..])) ==> swaps == 0 && a[..] == old(a[..])
    {
      if a[j] > a[j + 1] {
        Swap(a, j, j + 1);
        swaps := swaps + 1;
      }
      j := j + 1;
    }
  }
}
