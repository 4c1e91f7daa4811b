/**
 * Quick sort with the Lomuto partition: the last cell of the range is the
 * pivot, the cells not greater than it are gathered at the front, and the
 * pivot is swapped in right after them before both sides are sorted.
 */
module Quick {
  import opened SortSpec

  /** The cells [low, p) of s are at most s[p] and the cells (p, high] greater. */
  ghost predicate PartitionedAt(s: seq<int>, low: int, p: int, high: int) {
    && 0 <= low <= p <= high < |s|
    && (forall k :: low <= k < p ==> s[k] <= s[p])
    && (forall k :: p < k <= high ==> s[k] > s[p])
  }

  /**
   * partition(arr, low, high): returns the pivot's final index p. The pivot
   * (the old a[high]) sits at p, everything in [low, p) is at most it,
   * everything in (p, high] is greater, the range holds the same elements
   * as before and no cell outside it changes.
   */
  method Partition(a: array<int>, low: int, high: int) returns (p: int)
    requires 0 <= low <= high < a.Length
    modifies a
    ensures low <= p <= high && a[p] == old(a[high])
    ensures PartitionedAt(a[..], low, p, high)
    ensures PermutedBetween(old(a[..]), a[..], low, high + 1)
    ensures SameOutside(old(a[..]), a[..], low, high + 1)
  {
    var pivot := a[high];
    var i := low - 1;
    var j := low;
    while j < high
      invariant low - 1 <= i < j <= high
      invariant a[high] == pivot
      invariant forall k :: low <= k <= i ==> a[k] <= pivot
      invariant forall k :: i < k < j ==> a[k] > pivot
      invariant multiset(a[..]) == old(multiset(a[..]))
      invariant SameOutside(old(a[..]), a[..], low, high + 1)
    {
      if a[j] <= pivot {
        i := i + 1;
        Swap(a, i, j);
      }
      j := j + 1;
    }
    Swap(a, i + 1, high);
    p := i + 1;
    OutsidePermutation(old(a[..]), a[..], low, high + 1);
  }

  /**
   * quickSort(arr, low, high): a range with fewer than two cells is left
   * alone; otherwise it is partitioned and both sides of the pivot are
   * sorted recursively. The range ends up sorted and a permutation of what
   * it held, and no cell outside it changes.
   */
  method QuickSort(a: array<int>, low: int, high: int)
    requires low < high ==> 0 <= low && high < a.Length
    modifies a
    ensures low < high ==> SortedBetween(a[..], low, high + 1) && PermutedBetween(old(a[..]), a[..], low, high + 1)
    ensures SameOutside(old(a[..]), a[..], low, high + 1)
    ensures low >= high ==> a[..] == old(a[..])
    ensures low < high && SortedBetween(old(a[..]), low, high + 1) ==> a[..] == old(a[..])
    decreases high - low
  {
    if low < high {
      ghost var s0 := a[..];
      var pivotIndex := Partition(a, low, high);
      ghost var s1 := a[..];
      QuickSort(a, low, pivotIndex - 1);
      ghost var s2 := a[..];
      QuickSort(a, pivotIndex + 1, high);
      QuickSortStep(s0, s1, s2, a[..], low, pivotIndex, high);
      SortedRangeUnchanged(s0, a[..], low, high + 1);
    }
  }

  /**
   * What a recursive call leaves on its range, whether it sorted it or,
   * having fewer than two cells, left it alone: a sorted permutation.
   */
  lemma SideSorted(before: seq<int>, after: seq<int>, lo: int, hi: int)
    requires 0 <= lo <= hi + 1 <= |before| == |after|
    requires lo < hi ==> SortedBetween(after, lo, hi + 1) && PermutedBetween(before, after, lo, hi + 1)
    requires lo >= hi ==> after == before
    ensures SortedBetween(after, lo, hi + 1) && PermutedBetween(before, after, lo, hi + 1)
  {
  }

  /**
   * What the partition and the two recursive calls add up to: s0 is the
   * range before, s1 after the partition around the pivot at p, s2 after
   * sorting [low, p), s3 after sorting (p, high].
   */
  lemma QuickSortStep(s0: seq<int>, s1: seq<int>, s2: seq<int>, s3: seq<int>, low: int, p: int, high: int)
    requires 0 <= low <= p <= high < |s0| == |s1| == |s2| == |s3|
    requires PartitionedAt(s1, low, p, high)
    requires PermutedBetween(s0, s1, low, high + 1) && SameOutside(s0, s1, low, high + 1)
    requires low < p - 1 ==> SortedBetween(s2, low, p) && PermutedBetween(s1, s2, low, p)
    requires low >= p - 1 ==> s2 == s1
    requires SameOutside(s1, s2, low, p)
    requires p + 1 < high ==> SortedBetween(s3, p + 1, high + 1) && PermutedBetween(s2, s3, p + 1, high + 1)
    requires p + 1 >= high ==> s3 == s2
    requires SameOutside(s2, s3, p + 1, high + 1)
    ensures SortedBetween(s3, low, high + 1) && PermutedBetween(s0, s3, low, high + 1)
    ensures SameOutside(s0, s3, low, high + 1)
  {
    var v := s1[p];
    var left, right := s3[low..p], s3[p + 1..high + 1];
    SideSorted(s1, s2, low, p - 1);
    SideSorted(s2, s3, p + 1, high);
    QuickSortPieces(s1, s2, s3, low, p, high);
    assert AllAtMost(s1[low..p], v);
    assert AllAbove(s1[p + 1..high + 1], v);
    AtMostPermutation(s1[low..p], left, v);
    AbovePermutation(s1[p + 1..high + 1], right, v);
    SortedAround(left, v, right);
  }

  /**
   * How the range of s3 is assembled: the sorted left side as the first
   * recursive call left it, the pivot, and the sorted right side; the
   * permutation of the range and the frame are those of the three calls.
   */
  lemma QuickSortPieces(s1: seq<int>, s2: seq<int>, s3: seq<int>, low: int, p: int, high: int)
    requires 0 <= low <= p <= high < |s1| == |s2| == |s3|
    requires PermutedBetween(s1, s2, low, p) && SameOutside(s1, s2, low, p)
    requires PermutedBetween(s2, s3, p + 1, high + 1) && SameOutside(s2, s3, p + 1, high + 1)
    ensures s3[low..p] == s2[low..p] && multiset(s3[low..p]) == multiset(s1[low..p])
    ensures multiset(s3[p + 1..high + 1]) == multiset(s1[p + 1..high + 1])
    ensures s3[low..high + 1] == s3[low..p] + [s1[p]] + s3[p + 1..high + 1]
    ensures multiset(s3[low..high + 1]) == multiset(s1[low..high + 1])
    ensures SameOutside(s1, s3, low, high + 1)
  {
    assert s3[low..p] == s2[low..p];
    assert s2[p + 1..high + 1] == s1[p + 1..high + 1];
    assert s3[low..high + 1] == s3[low..p] + [s1[p]] + s3[p + 1..high + 1];
    assert s1[low..high + 1] == s1[low..p] + [s1[p]] + s1[p + 1..high + 1];
  }

  /** Sorted sides on either side of a pivot that separates them make a sorted whole. */
  lemma SortedAround(left: seq<int>, v: int, right: seq<int>)
    requires Sorted(left) && Sorted(right) && AllAtMost(left, v) && AllAbove(right, v)
    ensures Sorted(left + [v] + right)
  {
    var s := left + [v] + right;
    forall i, j | 0 <= i < j < |s| ensures s[i] <= s[j] {
      if j < |left| {
        assert s[i] == left[i] && s[j] == left[j];
      } else if i < |left| {
        assert s[i] == left[i] <= v;
        if j > |left| {
          assert s[j] == right[j - |left| - 1];
        }
      } else if i == |left| {
        assert s[j] == right[j - |left| - 1];
      } else {
        assert s[i] == right[i - |left| - 1] && s[j] == right[j - |left| - 1];
      }
    }
  }
}
