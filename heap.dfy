/**
 * Heap sort: build a max-heap in the array bottom-up with a recursive
 * sift-down, then repeatedly swap the root to the end of the shrinking heap
 * and sift the new root down.
 */
module Heap {
  import opened SortSpec

  /** Parent p and child c are both cells of s and the child is not greater. */
  ghost predicate HeapEdge(s: seq<int>, p: int, c: int) {
    0 <= p < |s| && 0 <= c < |s| && s[c] <= s[p]
  }

  /**
   * The max-heap property below bound n for every node from lo on: each
   * child 2p+1, 2p+2 below n is at most its parent p.
   */
  ghost predicate Heap(s: seq<int>, lo: int, n: int) {
    forall p, c :: lo <= p && c < n && (c == 2 * p + 1 || c == 2 * p + 2) ==> HeapEdge(s, p, c)
  }

  /** The heap property for every node from lo on except node i. */
  ghost predicate HeapExcept(s: seq<int>, lo: int, n: int, i: int) {
    forall p, c :: lo <= p && p != i && c < n && (c == 2 * p + 1 || c == 2 * p + 2) ==> HeapEdge(s, p, c)
  }

  /** The parent of i, when it is a node from lo on, is at least the children of i. */
  ghost predicate Bridged(s: seq<int>, lo: int, n: int, i: int) {
    forall p, c :: lo <= p && (i == 2 * p + 1 || i == 2 * p + 2) && c < n && (c == 2 * i + 1 || c == 2 * i + 2) ==> HeapEdge(s, p, c)
  }

  /**
   * heapify(arr, n, i): sifts a[i] down within the first n cells. Before,
   * every node from lo on but i is heap-ordered and i's parent bounds i's
   * children; after, every node from lo on is. Only cells in [i, n) move,
   * and they are permuted. The recursion goes to a child, so n - i falls.
   */
  method Heapify(a: array<int>, n: int, i: int, ghost lo: int)
    requires 0 <= lo <= i < n <= a.Length
    requires HeapExcept(a[..], lo, n, i) && Bridged(a[..], lo, n, i)
    modifies a
    ensures Heap(a[..], lo, n)
    ensures multiset(a[..]) == old(multiset(a[..]))
    ensures SameOutside(old(a[..]), a[..], i, n)
    decreases n - i
  {
    var largest := i;
    var left := 2 * i + 1;
    var right := 2 * i + 2;
    if left < n && a[left] > a[largest] {
      largest := left;
    }
    if right < n && a[right] > a[largest] {
      largest := right;
    }
    if largest != i {
      ghost var s := a[..];
      Swap(a, i, largest);
      SiftStep(s, a[..], lo, n, i, largest);
      Heapify(a, n, largest, lo);
    } else {
      SiftDone(a[..], lo, n, i);
    }
  }

  /**
   * After swapping node i with its larger child m, which is greater than
   * a[i], the only node that may be out of order is m, and i bounds m's
   * children.
   */
  lemma SiftStep(s: seq<int>, t: seq<int>, lo: int, n: int, i: int, m: int)
    requires 0 <= lo <= i < m < n <= |s| == |t|
    requires HeapExcept(s, lo, n, i) && Bridged(s, lo, n, i)
    requires m == 2 * i + 1 || m == 2 * i + 2
    requires s[m] > s[i]
    requires forall c :: c < n && (c == 2 * i + 1 || c == 2 * i + 2) ==> s[c] <= s[m]
    requires t[i] == s[m] && t[m] == s[i]
    requires forall k :: 0 <= k < |s| && k != i && k != m ==> t[k] == s[k]
    ensures HeapExcept(t, lo, n, m) && Bridged(t, lo, n, m)
  {
    forall p, c | lo <= p && p != m && c < n && (c == 2 * p + 1 || c == 2 * p + 2) ensures HeapEdge(t, p, c) {
      if p == i {
        assert s[c] <= s[m];
      } else if c == i {
        assert HeapEdge(s, p, m);
      } else {
        assert HeapEdge(s, p, c);
      }
    }
    forall p, c | lo <= p && (m == 2 * p + 1 || m == 2 * p + 2) && c < n && (c == 2 * m + 1 || c == 2 * m + 2)
      ensures HeapEdge(t, p, c)
    {
      assert HeapEdge(s, m, c);
    }
  }

  /** A node at least as large as its children completes the heap. */
  lemma SiftDone(s: seq<int>, lo: int, n: int, i: int)
    requires 0 <= lo <= i < n <= |s|
    requires HeapExcept(s, lo, n, i)
    requires 2 * i + 1 < n ==> s[2 * i + 1] <= s[i]
    requires 2 * i + 2 < n ==> s[2 * i + 2] <= s[i]
    ensures Heap(s, lo, n)
  {
  }

  /** Every cell of a heap over the first n cells is at most the root. */
  lemma {:induction false} RootAbove(s: seq<int>, n: int, k: int)
    requires Heap(s, 0, n) && 0 <= k < n <= |s|
    ensures s[k] <= s[0]
    decreases k
  {
    if k > 0 {
      var p := (k - 1) / 2;
      assert HeapEdge(s, p, k);
      RootAbove(s, n, p);
    }
  }

  /** The root of a heap is its maximum. */
  lemma RootIsMax(s: seq<int>, n: int)
    requires Heap(s, 0, n) && 0 < n <= |s|
    ensures AllAtMost(s[..n], s[0])
  {
    forall k | 0 <= k < n ensures s[..n][k] <= s[0] {
      RootAbove(s, n, k);
    }
  }

  /** The nodes from n/2 on have no children below n. */
  lemma Leaves(s: seq<int>, n: int)
    requires 0 <= n
    ensures Heap(s, n / 2, n)
  {
  }

  /** The cells up to i are at most the first cell of the sorted tail. */
  ghost predicate BelowTail(s: seq<int>, i: int, n: int) {
    0 <= i + 1 < n <= |s| ==> forall k :: 0 <= k <= i ==> s[k] <= s[i + 1]
  }

  /**
   * heapSort(arr): builds a max-heap over the whole array, then moves the
   * root behind the shrinking heap n-1 times. The array ends up sorted and
   * a permutation of what it held; a sorted array is left as it was.
   */
  method HeapSort(a: array<int>)
    modifies a
    ensures Sorted(a[..])
    ensures multiset(a[..]) == old(multiset(a[..]))
    ensures Sorted(old(a[..])) ==> a[..] == old(a[..])
  {
    var n := a.Length;
    BuildHeap(a);
    var i := n - 1;
    while i > 0
      invariant -1 <= i < n && (n > 0 ==> i >= 0)
      invariant Heap(a[..], 0, i + 1) && SortedBetween(a[..], i + 1, n) && BelowTail(a[..], i, n)
      invariant multiset(a[..]) == old(multiset(a[..]))
    {
      ghost var s := a[..];
      Swap(a, 0, i);
      ghost var t := a[..];
      ExtractStart(s, t, i);
      Heapify(a, i, 0, 0);
      ExtractStep(s, t, a[..], i, n);
      i := i - 1;
    }
    if n > 0 {
      assert a[..] == [a[0]] + a[1..n];
      SortedCons(a[0], a[1..n]);
    }
    SortedPermutationOfSorted(old(a[..]), a[..]);
  }

  /** The build loop: heapify every internal node from n/2 - 1 down to the root. */
  method BuildHeap(a: array<int>)
    modifies a
    ensures Heap(a[..], 0, a.Length)
    ensures multiset(a[..]) == old(multiset(a[..]))
  {
    var n := a.Length;
    Leaves(a[..], n);
    var i := n / 2 - 1;
    while i >= 0
      invariant -1 <= i < n
      invariant Heap(a[..], i + 1, n)
      invariant multiset(a[..]) == old(multiset(a[..]))
    {
      Heapify(a, n, i, i);
      i := i - 1;
    }
  }

  /** Swapping the root with the last heap cell leaves a heap broken at the root only. */
  lemma ExtractStart(s: seq<int>, t: seq<int>, i: int)
    requires 0 < i < |s| == |t| && Heap(s, 0, i + 1)
    requires t[0] == s[i] && t[i] == s[0]
    requires forall k :: 0 <= k < |s| && k != 0 && k != i ==> t[k] == s[k]
    ensures HeapExcept(t, 0, i, 0) && Bridged(t, 0, i, 0)
  {
    forall p, c | 0 <= p && p != 0 && c < i && (c == 2 * p + 1 || c == 2 * p + 2) ensures HeapEdge(t, p, c) {
      assert HeapEdge(s, p, c);
    }
  }

  /**
   * One extraction: s before, t after moving the root to cell i, u after
   * sifting the new root down within the first i cells. The tail, now one
   * cell longer, stays sorted and above the heap.
   */
  lemma ExtractStep(s: seq<int>, t: seq<int>, u: seq<int>, i: int, n: int)
    requires 0 < i < n == |s| == |t| == |u|
    requires Heap(s, 0, i + 1) && SortedBetween(s, i + 1, n) && BelowTail(s, i, n)
    requires t[0] == s[i] && t[i] == s[0]
    requires forall k :: 0 <= k < |s| && k != 0 && k != i ==> t[k] == s[k]
    requires multiset(u) == multiset(t) && SameOutside(t, u, 0, i)
    ensures SortedBetween(u, i, n) && BelowTail(u, i - 1, n)
  {
    RootIsMax(s, i + 1);
    forall k | 0 <= k < i ensures t[..i][k] <= s[0] {
      assert s[..i + 1][k] == s[k];
      assert s[..i + 1][i] == s[i];
    }
    OutsidePermutation(t, u, 0, i);
    AtMostPermutation(t[..i], u[..i], s[0]);
    forall k | 0 <= k <= i - 1 ensures u[k] <= u[i] {
      assert u[..i][k] == u[k];
    }
    assert u[i..n] == [s[0]] + s[i + 1..n];
    if i + 1 < n {
      assert s[0] <= s[i + 1];
    }
    SortedCons(s[0], s[i + 1..n]);
  }

  /** A head no greater than the first element of a sorted rest gives a sorted whole. */
  lemma SortedCons(v: int, rest: seq<int>)
    requires Sorted(rest) && (|rest| > 0 ==> v <= rest[0])
    ensures Sorted([v] + rest)
  {
    var s := [v] + rest;
    forall p, q | 0 <= p < q < |s| ensures s[p] <= s[q] {
      assert s[q] == rest[q - 1];
      if p > 0 {
        assert s[p] == rest[p - 1];
      }
    }
  }
}
