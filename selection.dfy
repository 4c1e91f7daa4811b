/**
 * Selection sort: for each position in turn, find the leftmost minimum of
 * the unsorted suffix and swap it into place.
 */
module Selection {
  import opened SortSpec

  /**
   * The inner scan: the index of the leftmost minimum of a[i..]. A later
   * cell replaces the candidate only when it is strictly smaller.
   */
  method MinIndexFrom(a: array<int>, i: int) returns (m: int)
    requires 0 <= i < a.Length
    ensures i <= m < a.Length
    ensures forall k :: i <= k < a.Length ==> a[m] <= a[k]
    ensures forall k :: i <= k < m ==> a[k] > a[m]
  {
    m := i;
    var j := i + 1;
    while j < a.Length
      invariant i <= m < j <= a.Length
      invariant forall k :: i <= k < j ==> a[m] <= a[k]
      invariant forall k :: i <= k < m ==> a[k] > a[m]
    {
      if a[j] < a[m] {
        m := j;
      }
      j := j + 1;
    }
  }

  /**
   * Sorts a in place. Every one of the n-1 outer iterations swaps exactly
   * once, counted in `swaps`, even when the minimum is already in place.
   */
  method SelectionSort(a: array<int>) returns (ghost swaps: nat)
    modifies a
    ensures Sorted(a[..])
    ensures multiset(a[..]) == old(multiset(a[..]))
    ensures swaps == if a.Length >= 1 then a.Length - 1 else 0
    ensures Sorted(old(a[..])) ==> a[..] == old(a[..])
  {
    var n := a.Length;
    swaps := 0;
    var i := 0;
    while i < n - 1
      invariant 0 <= i <= if n >= 1 then n - 1 else 0
      invariant swaps == i
      // the prefix is sorted and no element of it exceeds any of the suffix
      invariant forall p, q :: 0 <= p < q < i ==> a[p] <= a[q]
      invariant forall p, q :: 0 <= p < i <= q < n ==> a[p] <= a[q]
      invariant multiset(a[..]) == old(multiset(a[..]))
    {
      var minIndex := MinIndexFrom(a, i);
      Swap(a, i, minIndex);
      swaps := swaps + 1;
      i := i + 1;
    }
    forall p, q | 0 <= p < q < n ensures a[p] <= a[q] {
      if q >= i {
        assert 0 <= p < i <= q < n;
      }
    }
    SortedPermutationOfSorted(old(a[..]), a[..]);
  }
}
