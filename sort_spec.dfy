/**
 * Vocabulary shared by the nine sorting procedures: what "sorted" means,
 * the in-place swap the comparison sorts use, the maximum that counting and
 * radix sort size their buffers with, and the fact that makes every sort
 * idempotent: a sorted permutation is unique.
 */
module SortSpec {

  /** Non-decreasing order over the whole sequence. */
  ghost predicate Sorted(s: seq<int>) {
    forall i, j :: 0 <= i < j < |s| ==> s[i] <= s[j]
  }

  /** The largest element (std::max_element on a non-empty range). */
  function MaxElement(s: seq<int>): (m: int)
    requires |s| > 0
    ensures m in s
    ensures forall x :: x in s ==> x <= m
  {
    if |s| == 1 then s[0]
    else
      var rest := MaxElement(s[1..]);
      assert s == [s[0]] + s[1..];
      if s[0] > rest then s[0] else rest
  }

  /** Exchanges the two cells i and j of a (a no-op when i == j). */
  method Swap(a: array<int>, i: int, j: int)
    requires 0 <= i < a.Length && 0 <= j < a.Length
    modifies a
    ensures a[i] == old(a[j]) && a[j] == old(a[i])
    ensures forall k :: 0 <= k < a.Length && k != i && k != j ==> a[k] == old(a[k])
    ensures multiset(a[..]) == old(multiset(a[..]))
  {
    var t := a[i];
    a[i] := a[j];
    a[j] := t;
  }

  /** Exchanging two entries of a sequence permutes it. */
  lemma SwapPermutes(s: seq<int>, i: int, j: int)
    requires 0 <= i < |s| && 0 <= j < |s|
    ensures multiset(s[i := s[j]][j := s[i]]) == multiset(s)
  {
  }

  /**
   * t is s with s[hi] moved down to position lo and s[lo..hi] moved up by
   * one place: what inserting s[hi] into s[..hi] at lo leaves behind.
   */
  ghost predicate Rotated(s: seq<int>, t: seq<int>, lo: int, hi: int) {
    && 0 <= lo <= hi < |s| == |t|
    && (forall k :: 0 <= k < lo ==> t[k] == s[k])
    && t[lo] == s[hi]
    && (forall k :: lo < k <= hi ==> t[k] == s[k - 1])
    && (forall k :: hi < k < |s| ==> t[k] == s[k])
  }

  /** A rotation is a permutation. */
  lemma RotatePermutes(s: seq<int>, t: seq<int>, lo: int, hi: int)
    requires Rotated(s, t, lo, hi)
    ensures multiset(t) == multiset(s)
  {
    var front, middle, back := s[..lo], s[lo..hi], s[hi + 1..];
    var moved := front + [s[hi]] + middle + back;
    assert |moved| == |t|;
    forall k | 0 <= k < |t| ensures t[k] == moved[k] {
      if k < lo {
        assert moved[k] == front[k];
      } else if k == lo {
        assert moved[k] == s[hi];
      } else if k <= hi {
        assert moved[k] == middle[k - lo - 1];
      } else {
        assert moved[k] == back[k - hi - 1];
      }
    }
    assert t == moved;
    assert s == front + middle + [s[hi]] + back;
  }

  /** Adjacent pairs in order means the whole sequence is in order. */
  lemma {:induction false} AdjacentSorted(s: seq<int>)
    requires forall k :: 1 <= k < |s| ==> s[k - 1] <= s[k]
    ensures Sorted(s)
  {
    if |s| > 1 {
      AdjacentSorted(s[1..]);
      assert s[0] <= s[1];
    }
  }

  /** The head of a sorted sequence is its least element. */
  lemma SortedHeadLeast(s: seq<int>, x: int)
    requires Sorted(s) && x in s
    ensures s[0] <= x
  {
    var i :| 0 <= i < |s| && s[i] == x;
  }

  /** Dropping the head removes one occurrence of it. */
  lemma MultisetTail(s: seq<int>)
    requires |s| > 0
    ensures multiset(s[1..]) == multiset(s) - multiset{s[0]}
  {
    assert s == [s[0]] + s[1..];
  }

  /** Two non-empty sorted sequences holding the same multiset start alike. */
  lemma SortedHeadsEqual(s: seq<int>, t: seq<int>)
    requires Sorted(s) && Sorted(t) && multiset(s) == multiset(t) && |s| > 0 && |t| > 0
    ensures s[0] == t[0]
  {
    assert s[0] in multiset(s);
    assert t[0] in multiset(t);
    SortedHeadLeast(t, s[0]);
    SortedHeadLeast(s, t[0]);
  }

  /** Two sorted sequences holding the same multiset are equal. */
  lemma {:induction false} SortedUnique(s: seq<int>, t: seq<int>)
    requires Sorted(s) && Sorted(t) && multiset(s) == multiset(t)
    ensures s == t
  {
    assert |s| == |multiset(s)| == |t|;
    if |s| > 0 {
      SortedHeadsEqual(s, t);
      MultisetTail(s);
      MultisetTail(t);
      SortedUnique(s[1..], t[1..]);
      assert s == [s[0]] + s[1..];
      assert t == [t[0]] + t[1..];
    }
  }

  /**
   * Idempotence: a procedure that returns a sorted permutation returns its
   * input unchanged when that input was already sorted.
   */
  lemma SortedPermutationOfSorted(before: seq<int>, after: seq<int>)
    requires Sorted(after) && multiset(after) == multiset(before)
    ensures Sorted(before) ==> after == before
  {
    if Sorted(before) {
      SortedUnique(after, before);
    }
  }

  /** Permuting the cells [lo, hi) and nothing else permutes the whole sequence. */
  lemma RangePermutation(s: seq<int>, t: seq<int>, lo: int, hi: int)
    requires 0 <= lo <= hi <= |s| == |t|
    requires s[..lo] == t[..lo] && s[hi..] == t[hi..]
    ensures multiset(s[lo..hi]) == multiset(t[lo..hi]) <==> multiset(s) == multiset(t)
  {
    assert s == s[..lo] + s[lo..hi] + s[hi..];
    assert t == t[..lo] + t[lo..hi] + t[hi..];
    var outside := multiset(s[..lo]) + multiset(s[hi..]);
    assert multiset(s) == multiset(s[lo..hi]) + outside;
    assert multiset(t) == multiset(t[lo..hi]) + outside;
    if multiset(s) == multiset(t) {
      assert multiset(s[lo..hi]) == multiset(s) - outside;
      assert multiset(t[lo..hi]) == multiset(t) - outside;
    }
  }

  /** The cells [lo, hi) of s are in order. */
  ghost predicate SortedBetween(s: seq<int>, lo: int, hi: int) {
    0 <= lo <= hi <= |s| && Sorted(s[lo..hi])
  }

  /** The cells [lo, hi) of t hold the same elements as those of s. */
  ghost predicate PermutedBetween(s: seq<int>, t: seq<int>, lo: int, hi: int) {
    0 <= lo <= hi <= |s| == |t| && multiset(s[lo..hi]) == multiset(t[lo..hi])
  }

  /** Outside [lo, hi) t agrees with s cell by cell. */
  ghost predicate SameOutside(s: seq<int>, t: seq<int>, lo: int, hi: int) {
    |s| == |t| && forall q :: 0 <= q < |s| && (q < lo || hi <= q) ==> t[q] == s[q]
  }

  /** Concatenation is associative (stated apart so that proofs can cite it on opaque parts). */
  lemma Associative(a: seq<int>, b: seq<int>, c: seq<int>)
    ensures a + (b + c) == (a + b) + c
  {
  }

  /** The cells [lo, hi) are the cells [lo, mid) followed by the cells [mid, hi). */
  lemma SliceSplit(s: seq<int>, lo: int, mid: int, hi: int)
    requires 0 <= lo <= mid <= hi <= |s|
    ensures s[lo..hi] == s[lo..mid] + s[mid..hi]
    ensures multiset(s[lo..hi]) == multiset(s[lo..mid]) + multiset(s[mid..hi])
  {
    var whole, front, back := s[lo..hi], s[lo..mid], s[mid..hi];
    forall k | 0 <= k < |whole| ensures whole[k] == (front + back)[k] {
      if k < |front| {
        assert whole[k] == s[lo + k] == front[k];
      } else {
        assert whole[k] == s[lo + k] == back[k - |front|];
      }
    }
    assert whole == front + back;
  }

  /** A slice [a, b) clear of [lo, hi) is the same in s and t when t changes only [lo, hi). */
  lemma SameSlice(s: seq<int>, t: seq<int>, lo: int, hi: int, a: int, b: int)
    requires SameOutside(s, t, lo, hi) && 0 <= a <= b <= |s| && (b <= lo || hi <= a)
    ensures s[a..b] == t[a..b]
  {
    forall k | 0 <= k < b - a ensures s[a..b][k] == t[a..b][k] {
      assert s[a + k] == t[a + k];
    }
  }

  /** A permutation of the whole sequence that leaves every cell outside [lo, hi) alone permutes [lo, hi). */
  lemma OutsidePermutation(s: seq<int>, t: seq<int>, lo: int, hi: int)
    requires 0 <= lo <= hi <= |s| && SameOutside(s, t, lo, hi) && multiset(s) == multiset(t)
    ensures PermutedBetween(s, t, lo, hi)
  {
    assert s[..lo] == t[..lo];
    assert s[hi..] == t[hi..];
    RangePermutation(s, t, lo, hi);
  }

  /**
   * Idempotence on a range: if [lo, hi) was sorted before and after, holds
   * the same elements, and nothing outside it changed, nothing changed.
   */
  lemma SortedRangeUnchanged(s: seq<int>, t: seq<int>, lo: int, hi: int)
    requires SortedBetween(t, lo, hi) && PermutedBetween(s, t, lo, hi) && SameOutside(s, t, lo, hi)
    ensures SortedBetween(s, lo, hi) ==> t == s
  {
    if SortedBetween(s, lo, hi) {
      SortedUnique(s[lo..hi], t[lo..hi]);
      forall q | 0 <= q < |s| ensures t[q] == s[q] {
        if lo <= q < hi {
          assert t[q] == t[lo..hi][q - lo];
          assert s[q] == s[lo..hi][q - lo];
        }
      }
    }
  }

  /** No element of s is greater than v. */
  ghost predicate AllAtMost(s: seq<int>, v: int) {
    forall k :: 0 <= k < |s| ==> s[k] <= v
  }

  /** Every element of s is greater than v. */
  ghost predicate AllAbove(s: seq<int>, v: int) {
    forall k :: 0 <= k < |s| ==> s[k] > v
  }

  /** A bound from above survives a permutation. */
  lemma AtMostPermutation(s: seq<int>, t: seq<int>, v: int)
    requires AllAtMost(s, v) && multiset(s) == multiset(t)
    ensures AllAtMost(t, v)
  {
    forall k | 0 <= k < |t| ensures t[k] <= v {
      assert t[k] in multiset(s);
      var q :| 0 <= q < |s| && s[q] == t[k];
    }
  }

  /** A strict bound from below survives a permutation. */
  lemma AbovePermutation(s: seq<int>, t: seq<int>, v: int)
    requires AllAbove(s, v) && multiset(s) == multiset(t)
    ensures AllAbove(t, v)
  {
    forall k | 0 <= k < |t| ensures t[k] > v {
      assert t[k] in multiset(s);
      var q :| 0 <= q < |s| && s[q] == t[k];
    }
  }
}
