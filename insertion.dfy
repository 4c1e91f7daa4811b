/**
 * Insertion sort: each element in turn is held aside as the key while the
 * larger elements of the sorted prefix shift one place to the right, and
 * is then written into the gap.
 */
module Insertion {
  import opened SortSpec

  /**
   * Sorts a in place. `shifts` counts the right shifts of the inner loop:
   * an input that is already in order needs none and is left as it was.
   */
  method InsertionSort(a: array<int>) returns (ghost shifts: nat)
    modifies a
    ensures Sorted(a[..])
    ensures multiset(a[..]) == old(multiset(a[..]))
    ensures Sorted(old(a[..])) ==> shifts == 0 && a[..] == old(a[..])
  {
    var n := a.Length;
    shifts := 0;
    var i := 1;
    while i < n
      invariant 1 <= i <= if n >= 1 then n else 1
      // the prefix is sorted and the suffix is untouched
      invariant n > 0 ==> Sorted(a[..i]) && a[i..] == old(a[i..])
      invariant multiset(a[..]) == old(multiset(a[..]))
      invariant Sorted(old(a[..])) ==> shifts == 0 && a[..] == old(a[..])
    {
      ghost var s := shifts;
      var moved := Insert(a, i);
      shifts := s + moved;
      i := i + 1;
    }
    if n > 0 {
      assert a[..] == a[..n];
    }
  }

  /**
   * One outer iteration: a[i] is held as the key, the elements of the sorted
   * prefix a[..i] that are strictly greater than it move one place right,
   * and the key lands in the gap. `shifts` counts the moves.
   */
  method Insert(a: array<int>, i: int) returns (ghost shifts: nat)
    requires 1 <= i < a.Length
    requires Sorted(a[..i])
    modifies a
    ensures Sorted(a[..i + 1])
    ensures a[i + 1..] == old(a[i + 1..])
    ensures multiset(a[..]) == old(multiset(a[..]))
    ensures old(a[i - 1]) <= old(a[i]) ==> shifts == 0 && a[..] == old(a[..])
  {
    var key := a[i];
    ghost var original := a[..];
    var j := ShiftGreater(a, i, key, original);
    ghost var shifted := a[..];
    a[j + 1] := key;
    shifts := i - 1 - j;
    Landed(original, shifted, a[..], i, j, key);
  }

  /**
   * The state of the shifting loop started on `original`, now at s with the
   * key original[i] held aside: s[..j+1] is untouched, s[j+2..i+1] holds
   * original[j+1..i] shifted one place right, everything shifted is greater
   * than the key, and nothing after i has moved.
   */
  ghost predicate Shifted(original: seq<int>, s: seq<int>, i: int, j: int, key: int) {
    && -1 <= j < i < |s| == |original|
    && key == original[i]
    && (forall k :: 0 <= k <= j ==> s[k] == original[k])
    && (forall k :: j + 1 < k <= i ==> s[k] == original[k - 1])
    && (forall k :: i < k < |s| ==> s[k] == original[k])
    && (forall k :: j < k < i ==> original[k] > key)
  }

  /** Moving s[j], which is greater than the key, one place right moves the gap down. */
  lemma ShiftStep(original: seq<int>, s: seq<int>, i: int, j: int, key: int)
    requires Shifted(original, s, i, j, key) && 0 <= j && s[j] > key
    ensures Shifted(original, s[j + 1 := s[j]], i, j - 1, key)
  {
  }

  /** The shifting loop: the gap moves down past every element greater than the key. */
  method ShiftGreater(a: array<int>, i: int, key: int, ghost original: seq<int>) returns (j: int)
    requires 1 <= i < a.Length && original == a[..] && key == a[i]
    modifies a
    ensures Shifted(original, a[..], i, j, key)
    ensures j < 0 || a[j] <= key
  {
    j := i - 1;
    while j >= 0 && a[j] > key
      invariant Shifted(original, a[..], i, j, key)
    {
      ShiftStep(original, a[..], i, j, key);
      a[j + 1] := a[j];
      j := j - 1;
    }
  }

  /** Writing the key into the gap completes the insertion. */
  lemma Landed(original: seq<int>, s: seq<int>, t: seq<int>, i: int, j: int, key: int)
    requires 1 <= i && Shifted(original, s, i, j, key) && (j < 0 || s[j] <= key)
    requires t == s[j + 1 := key] && Sorted(original[..i])
    ensures Sorted(t[..i + 1])
    ensures t[i + 1..] == original[i + 1..]
    ensures multiset(t) == multiset(original)
    ensures original[i - 1] <= original[i] ==> j == i - 1 && t == original
  {
    assert Rotated(original, t, j + 1, i);
    Inserted(original, t, j + 1, i);
  }

  /**
   * What one insertion leaves behind: s[hi] inserted at lo into the sorted
   * s[..hi], with everything before lo at most s[hi] and everything moved
   * past it greater, gives a sorted t[..hi+1], the same elements, the same
   * suffix, and no change at all when nothing moved.
   */
  lemma Inserted(s: seq<int>, t: seq<int>, lo: int, hi: int)
    requires Rotated(s, t, lo, hi)
    requires Sorted(s[..hi])
    requires 0 < lo ==> s[lo - 1] <= s[hi]
    requires forall k :: lo <= k < hi ==> s[k] > s[hi]
    ensures Sorted(t[..hi + 1])
    ensures t[hi + 1..] == s[hi + 1..]
    ensures multiset(t) == multiset(s)
    ensures lo == hi ==> t == s
  {
    RotatePermutes(s, t, lo, hi);
    forall p, q | 0 <= p < q <= hi ensures t[p] <= t[q] {
      assert forall k :: 0 <= k < hi ==> s[..hi][k] == s[k];
      if q < lo {
        assert t[p] == s[p] && t[q] == s[q];
      } else if q == lo {
        assert t[p] == s[p] <= s[lo - 1];
      } else if p < lo {
        assert t[p] == s[p] && t[q] == s[q - 1];
      } else if p == lo {
        assert t[q] == s[q - 1];
      } else {
        assert t[p] == s[p - 1] && t[q] == s[q - 1];
      }
    }
  }
}
