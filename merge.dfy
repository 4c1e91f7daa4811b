/**
 * Top-down merge sort over the inclusive range [left, right]: sort both
 * halves, copy them into two buffers, and merge the buffers back, taking
 * from the left buffer on ties.
 */
module Merge {
  import opened SortSpec
  import opened Distribution

  /**
   * The merge of l and r by key: repeatedly take the head with the smaller
   * key, the head of l when the keys tie. The merge procedure compares the
   * values themselves, that is key Value; stating the merge for any key is
   * what lets the tie rule be read as stability.
   */
  function Merged(l: seq<int>, r: seq<int>, key: Key): (m: seq<int>)
    ensures |m| == |l| + |r|
    decreases |l| + |r|
  {
    if |l| == 0 then r
    else if |r| == 0 then l
    else if KeyOf(key, l[0]) <= KeyOf(key, r[0]) then [l[0]] + Merged(l[1..], r, key)
    else [r[0]] + Merged(l, r[1..], key)
  }

  /** Merging loses and invents nothing. */
  lemma {:induction false} MergedPermutation(l: seq<int>, r: seq<int>, key: Key)
    ensures multiset(Merged(l, r, key)) == multiset(l) + multiset(r)
    decreases |l| + |r|
  {
    if |l| > 0 && |r| > 0 {
      if KeyOf(key, l[0]) <= KeyOf(key, r[0]) {
        MergedPermutation(l[1..], r, key);
        ConsMultiset(l, Merged(l[1..], r, key), Merged(l, r, key), multiset(r));
      } else {
        MergedPermutation(l, r[1..], key);
        ConsMultiset(r, Merged(l, r[1..], key), Merged(l, r, key), multiset(l));
      }
    }
  }

  /** Putting the head of s in front of a merge with its tail adds that head back. */
  lemma ConsMultiset(s: seq<int>, rest: seq<int>, m: seq<int>, other: multiset<int>)
    requires |s| > 0 && m == [s[0]] + rest && multiset(rest) == multiset(s[1..]) + other
    ensures multiset(m) == multiset(s) + other
  {
    assert s == [s[0]] + s[1..];
  }

  /** Every element of s has a key of at least k. */
  ghost predicate KeysAtLeast(s: seq<int>, key: Key, k: int) {
    forall i :: 0 <= i < |s| ==> k <= KeyOf(key, s[i])
  }

  /** A lower bound on the keys of both inputs bounds the keys of the merge. */
  lemma {:induction false} MergedKeysAtLeast(l: seq<int>, r: seq<int>, key: Key, k: int)
    requires KeysAtLeast(l, key, k) && KeysAtLeast(r, key, k)
    ensures KeysAtLeast(Merged(l, r, key), key, k)
    decreases |l| + |r|
  {
    if |l| > 0 && |r| > 0 {
      if KeyOf(key, l[0]) <= KeyOf(key, r[0]) {
        MergedKeysAtLeast(l[1..], r, key, k);
      } else {
        MergedKeysAtLeast(l, r[1..], key, k);
      }
    }
  }

  /** Merging two key-sorted sequences gives a key-sorted sequence. */
  lemma {:induction false} MergedSorted(l: seq<int>, r: seq<int>, key: Key)
    requires KeySorted(l, key) && KeySorted(r, key)
    ensures KeySorted(Merged(l, r, key), key)
    decreases |l| + |r|
  {
    if |l| > 0 && |r| > 0 {
      if KeyOf(key, l[0]) <= KeyOf(key, r[0]) {
        var h, rest := l[0], Merged(l[1..], r, key);
        MergedSorted(l[1..], r, key);
        MergedKeysAtLeast(l[1..], r, key, KeyOf(key, h));
        HeadThenSorted(h, rest, key);
      } else {
        var h, rest := r[0], Merged(l, r[1..], key);
        MergedSorted(l, r[1..], key);
        MergedKeysAtLeast(l, r[1..], key, KeyOf(key, h));
        HeadThenSorted(h, rest, key);
      }
    }
  }

  /** A head no greater than a key-sorted rest gives a key-sorted whole. */
  lemma HeadThenSorted(h: int, rest: seq<int>, key: Key)
    requires KeySorted(rest, key) && KeysAtLeast(rest, key, KeyOf(key, h))
    ensures KeySorted([h] + rest, key)
  {
    var s := [h] + rest;
    forall i, j | 0 <= i < j < |s| ensures KeyOf(key, s[i]) <= KeyOf(key, s[j]) {
      assert s[j] == rest[j - 1];
      if i > 0 {
        assert s[i] == rest[i - 1];
      }
    }
  }

  /**
   * Stability: among the elements with any one key, the merge keeps those
   * from l before those from r, each in their own order.
   */
  lemma {:induction false} MergedStable(l: seq<int>, r: seq<int>, key: Key, k: int)
    requires KeySorted(l, key) && KeySorted(r, key)
    ensures Select(Merged(l, r, key), key, k) == Select(l, key, k) + Select(r, key, k)
    decreases |l| + |r|
  {
    if |l| > 0 && |r| > 0 {
      if KeyOf(key, l[0]) <= KeyOf(key, r[0]) {
        KeySortedTail(l, key);
        MergedStable(l[1..], r, key, k);
        SelectCons(l, Merged(l[1..], r, key), Merged(l, r, key), key, k, Select(r, key, k));
      } else {
        KeySortedTail(r, key);
        MergedStable(l, r[1..], key, k);
        if KeyOf(key, r[0]) == k {
          // every element of l has a key above k, so l contributes nothing
          SelectNone(l, key, k);
        }
        StableRight(l, r, Merged(l, r[1..], key), Merged(l, r, key), key, k);
      }
    }
  }

  /** Dropping the head keeps a sequence key-sorted. */
  lemma KeySortedTail(s: seq<int>, key: Key)
    requires KeySorted(s, key) && |s| > 0
    ensures KeySorted(s[1..], key)
  {
    assert forall i :: 0 <= i < |s| - 1 ==> s[1..][i] == s[i + 1];
  }

  /** Selecting from x followed by t: x if its key is k, then the selection from t. */
  lemma SelectFront(x: int, t: seq<int>, key: Key, k: int)
    ensures Select([x] + t, key, k) == (if KeyOf(key, x) == k then [x] else []) + Select(t, key, k)
  {
    assert ([x] + t)[1..] == t;
  }

  /** Putting the head of s in front of a merge with its tail selects that head first. */
  lemma SelectCons(s: seq<int>, rest: seq<int>, m: seq<int>, key: Key, k: int, other: seq<int>)
    requires |s| > 0 && m == [s[0]] + rest && Select(rest, key, k) == Select(s[1..], key, k) + other
    ensures Select(m, key, k) == Select(s, key, k) + other
  {
    var h := if KeyOf(key, s[0]) == k then [s[0]] else [];
    SelectFront(s[0], rest, key, k);
    Associative(h, Select(s[1..], key, k), other);
  }

  /**
   * Taking the head of r first does not disturb the selection: when its key
   * is k, nothing of l is selected.
   */
  lemma StableRight(l: seq<int>, r: seq<int>, rest: seq<int>, m: seq<int>, key: Key, k: int)
    requires |r| > 0 && m == [r[0]] + rest
    requires Select(rest, key, k) == Select(l, key, k) + Select(r[1..], key, k)
    requires KeyOf(key, r[0]) == k ==> Select(l, key, k) == []
    ensures Select(m, key, k) == Select(l, key, k) + Select(r, key, k)
  {
    var h := if KeyOf(key, r[0]) == k then [r[0]] else [];
    var sl, sr := Select(l, key, k), Select(r[1..], key, k);
    SelectFront(r[0], rest, key, k);
    Associative(h, sl, sr);
    Associative(sl, h, sr);
    if KeyOf(key, r[0]) == k {
      assert h + sl == sl + h;
    } else {
      assert h + sl == sl + h;
    }
  }

  /** Nothing is selected from a key-sorted sequence whose first key exceeds k. */
  lemma {:induction false} SelectNone(s: seq<int>, key: Key, k: int)
    requires KeySorted(s, key) && |s| > 0 && k < KeyOf(key, s[0])
    ensures Select(s, key, k) == []
  {
    if |s| > 1 {
      assert KeySorted(s[1..], key);
      SelectNone(s[1..], key, k);
    }
  }

  /**
   * The merge of the buffer suffixes l[i..] and r[j..], written with the
   * indices i and j of the merge loops: the next element comes from the
   * left buffer when the right one is used up or its head is not smaller.
   */
  function MergedFrom(l: seq<int>, r: seq<int>, i: int, j: int): seq<int>
    requires 0 <= i <= |l| && 0 <= j <= |r|
    decreases |l| - i + |r| - j
  {
    if i == |l| && j == |r| then []
    else if j == |r| || (i < |l| && l[i] <= r[j]) then [l[i]] + MergedFrom(l, r, i + 1, j)
    else [r[j]] + MergedFrom(l, r, i, j + 1)
  }

  /** From the start of both buffers the index form is the whole merge. */
  lemma MergedFromAll(l: seq<int>, r: seq<int>)
    ensures MergedFrom(l, r, 0, 0) == Merged(l, r, Value)
  {
    MergedFromSlices(l, r, 0, 0);
    assert l[0..] == l && r[0..] == r;
  }

  /** The index form agrees with the merge of the slices under key Value. */
  lemma {:induction false} MergedFromSlices(l: seq<int>, r: seq<int>, i: int, j: int)
    requires 0 <= i <= |l| && 0 <= j <= |r|
    ensures MergedFrom(l, r, i, j) == Merged(l[i..], r[j..], Value)
    decreases |l| - i + |r| - j
  {
    if i < |l| {
      assert l[i..][1..] == l[i + 1..];
    }
    if j < |r| {
      assert r[j..][1..] == r[j + 1..];
    }
    if i == |l| && j == |r| {
    } else if j == |r| || (i < |l| && l[i] <= r[j]) {
      MergedFromSlices(l, r, i + 1, j);
    } else {
      MergedFromSlices(l, r, i, j + 1);
    }
  }

  /** Emitting the head of what is still to be merged. */
  lemma Emit(out: seq<int>, x: int, rest: seq<int>, merged: seq<int>)
    requires out + ([x] + rest) == merged
    ensures (out + [x]) + rest == merged
  {
    assert out + ([x] + rest) == (out + [x]) + rest;
  }

  /**
   * merge(arr, left, middle, right): copies a[left..middle] and
   * a[middle+1..right] into fresh buffers and merges them back into
   * a[left..right]; nothing outside that range changes.
   */
  method MergeRanges(a: array<int>, left: int, middle: int, right: int)
    requires 0 <= left <= middle + 1 && middle <= right < a.Length
    modifies a
    ensures a[left..right + 1] == Merged(old(a[left..middle + 1]), old(a[middle + 1..right + 1]), Value)
    ensures a[..left] == old(a[..left]) && a[right + 1..] == old(a[right + 1..])
  {
    var n1 := middle - left + 1;
    var n2 := right - middle;
    var leftArray := CopyOut(a, left, n1);
    var rightArray := CopyOut(a, middle + 1, n2);
    MergeBack(a, leftArray, rightArray, left);
  }

  /** One buffer-filling loop of merge: the n cells of a from `from` on, in order. */
  method CopyOut(a: array<int>, from: int, n: int) returns (buffer: seq<int>)
    requires 0 <= from && 0 <= n && from + n <= a.Length
    ensures buffer == a[from..from + n]
  {
    buffer := [];
    var p := 0;
    while p < n
      invariant 0 <= p <= n
      invariant buffer == a[from..from + p]
    {
      buffer := buffer + [a[from + p]];
      p := p + 1;
    }
  }

  /**
   * The state of the merge loops on s, started from `original`: the cells
   * from left on hold `out`, the first i + j elements of the merge, whose
   * remainder is MergedFrom(l, r, i, j), and no cell outside the
   * destination range has changed.
   */
  ghost predicate MergeProgress(original: seq<int>, s: seq<int>, left: int, l: seq<int>, r: seq<int>, i: int, j: int, out: seq<int>) {
    && 0 <= i <= |l| && 0 <= j <= |r| && |out| == i + j
    && 0 <= left && left + |l| + |r| <= |s| == |original|
    && (forall q :: 0 <= q < |s| && (q < left || left + |l| + |r| <= q) ==> s[q] == original[q])
    && (forall q :: 0 <= q < |out| ==> s[left + q] == out[q])
    && out + MergedFrom(l, r, i, j) == MergedFrom(l, r, 0, 0)
  }

  /** Writing the next element x of the merge at cell left + i + j. */
  lemma EmitStep(original: seq<int>, s: seq<int>, left: int, l: seq<int>, r: seq<int>, i: int, j: int, out: seq<int>, fromLeft: bool, x: int)
    requires MergeProgress(original, s, left, l, r, i, j, out)
    requires fromLeft ==> i < |l| && (j == |r| || l[i] <= r[j]) && x == l[i]
    requires !fromLeft ==> j < |r| && (i == |l| || l[i] > r[j]) && x == r[j]
    ensures fromLeft ==> MergeProgress(original, s[left + i + j := x], left, l, r, i + 1, j, out + [x])
    ensures !fromLeft ==> MergeProgress(original, s[left + i + j := x], left, l, r, i, j + 1, out + [x])
  {
    var rest := if fromLeft then MergedFrom(l, r, i + 1, j) else MergedFrom(l, r, i, j + 1);
    assert MergedFrom(l, r, i, j) == [x] + rest;
    Emit(out, x, rest, MergedFrom(l, r, 0, 0));
  }

  /** When both buffers are used up the destination range holds the whole merge. */
  lemma MergeDone(original: seq<int>, s: seq<int>, left: int, l: seq<int>, r: seq<int>, out: seq<int>)
    requires MergeProgress(original, s, left, l, r, |l|, |r|, out)
    ensures s[left..left + |l| + |r|] == Merged(l, r, Value)
    ensures s[..left] == original[..left]
    ensures s[left + |l| + |r|..] == original[left + |l| + |r|..]
  {
    MergedFromAll(l, r);
    assert out + [] == out;
    assert s[left..left + |l| + |r|] == out;
  }

  /**
   * The three merge loops of merge(): while both buffers have elements take
   * the smaller head (the left one on ties), then drain whichever is left.
   * Both buffers are used up and a[left..left+n1+n2] ends up holding their
   * merge.
   */
  method MergeBack(a: array<int>, leftArray: seq<int>, rightArray: seq<int>, left: int)
    requires 0 <= left && left + |leftArray| + |rightArray| <= a.Length
    modifies a
    ensures a[left..left + |leftArray| + |rightArray|] == Merged(leftArray, rightArray, Value)
    ensures a[..left] == old(a[..left])
    ensures a[left + |leftArray| + |rightArray|..] == old(a[left + |leftArray| + |rightArray|..])
  {
    ghost var original := a[..];
    ghost var out: seq<int> := [];
    var i, j;
    i, j, out := TakeSmaller(a, leftArray, rightArray, left, original);
    i, out := DrainLeft(a, leftArray, rightArray, left, original, i, j, out);
    j, out := DrainRight(a, leftArray, rightArray, left, original, i, j, out);
    MergeDone(original, a[..], left, leftArray, rightArray, out);
  }

  /** The first merge loop: while both buffers have elements, take the smaller head. */
  method TakeSmaller(a: array<int>, leftArray: seq<int>, rightArray: seq<int>, left: int, ghost original: seq<int>)
    returns (i: int, j: int, ghost out: seq<int>)
    requires 0 <= left && left + |leftArray| + |rightArray| <= a.Length && a[..] == original
    modifies a
    ensures MergeProgress(original, a[..], left, leftArray, rightArray, i, j, out)
    ensures i == |leftArray| || j == |rightArray|
  {
    i, j, out := 0, 0, [];
    var k := left;
    while i < |leftArray| && j < |rightArray|
      invariant k == left + i + j
      invariant MergeProgress(original, a[..], left, leftArray, rightArray, i, j, out)
    {
      if leftArray[i] <= rightArray[j] {
        EmitStep(original, a[..], left, leftArray, rightArray, i, j, out, true, leftArray[i]);
        a[k] := leftArray[i];
        out := out + [leftArray[i]];
        i := i + 1;
      } else {
        EmitStep(original, a[..], left, leftArray, rightArray, i, j, out, false, rightArray[j]);
        a[k] := rightArray[j];
        out := out + [rightArray[j]];
        j := j + 1;
      }
      k := k + 1;
    }
  }

  /** The second merge loop: copy what remains of the left buffer. */
  method DrainLeft(a: array<int>, leftArray: seq<int>, rightArray: seq<int>, left: int, ghost original: seq<int>,
                   i0: int, j: int, ghost out0: seq<int>)
    returns (i: int, ghost out: seq<int>)
    requires MergeProgress(original, a[..], left, leftArray, rightArray, i0, j, out0)
    requires i0 == |leftArray| || j == |rightArray|
    modifies a
    ensures MergeProgress(original, a[..], left, leftArray, rightArray, i, j, out)
    ensures i == |leftArray|
  {
    i, out := i0, out0;
    var k := left + i + j;
    while i < |leftArray|
      invariant k == left + i + j && (i < |leftArray| ==> j == |rightArray|)
      invariant MergeProgress(original, a[..], left, leftArray, rightArray, i, j, out)
    {
      EmitStep(original, a[..], left, leftArray, rightArray, i, j, out, true, leftArray[i]);
      a[k] := leftArray[i];
      out := out + [leftArray[i]];
      i := i + 1;
      k := k + 1;
    }
  }

  /** The third merge loop: copy what remains of the right buffer. */
  method DrainRight(a: array<int>, leftArray: seq<int>, rightArray: seq<int>, left: int, ghost original: seq<int>,
                    i: int, j0: int, ghost out0: seq<int>)
    returns (j: int, ghost out: seq<int>)
    requires MergeProgress(original, a[..], left, leftArray, rightArray, i, j0, out0)
    requires i == |leftArray|
    modifies a
    ensures MergeProgress(original, a[..], left, leftArray, rightArray, i, j, out)
    ensures j == |rightArray|
  {
    j, out := j0, out0;
    var k := left + i + j;
    while j < |rightArray|
      invariant k == left + i + j
      invariant MergeProgress(original, a[..], left, leftArray, rightArray, i, j, out)
    {
      EmitStep(original, a[..], left, leftArray, rightArray, i, j, out, false, rightArray[j]);
      a[k] := rightArray[j];
      out := out + [rightArray[j]];
      j := j + 1;
      k := k + 1;
    }
  }

  /**
   * mergeSort(arr, left, right): a range with fewer than two cells is left
   * alone; otherwise the halves split at middle = left + (right-left)/2 are
   * sorted recursively and merged. The range ends up sorted and a
   * permutation of what it held, and no cell outside it changes.
   */
  method MergeSort(a: array<int>, left: int, right: int)
    requires left < right ==> 0 <= left && right < a.Length
    modifies a
    ensures left < right ==> SortedBetween(a[..], left, right + 1) && PermutedBetween(old(a[..]), a[..], left, right + 1)
    ensures SameOutside(old(a[..]), a[..], left, right + 1)
    ensures left >= right ==> a[..] == old(a[..])
    ensures left < right && SortedBetween(old(a[..]), left, right + 1) ==> a[..] == old(a[..])
    decreases right - left
  {
    if left < right {
      var middle := left + (right - left) / 2;
      ghost var s0 := a[..];
      MergeSort(a, left, middle);
      ghost var s1 := a[..];
      MergeSort(a, middle + 1, right);
      ghost var s2 := a[..];
      MergeRanges(a, left, middle, right);
      MergeSortStep(s0, s1, s2, a[..], left, middle, right);
      SortedRangeUnchanged(s0, a[..], left, right + 1);
    }
  }

  /**
   * What the three calls of one mergeSort step add up to: s0 is the range
   * before, s1 after sorting the left half, s2 after sorting the right
   * half, s3 after the merge.
   */
  lemma MergeSortStep(s0: seq<int>, s1: seq<int>, s2: seq<int>, s3: seq<int>, left: int, middle: int, right: int)
    requires 0 <= left <= middle < right < |s0|
    requires SortedBetween(s1, left, middle + 1) && PermutedBetween(s0, s1, left, middle + 1) && SameOutside(s0, s1, left, middle + 1)
    requires SortedBetween(s2, middle + 1, right + 1) && PermutedBetween(s1, s2, middle + 1, right + 1)
    requires SameOutside(s1, s2, middle + 1, right + 1)
    requires |s3| == |s2| && s3[left..right + 1] == Merged(s2[left..middle + 1], s2[middle + 1..right + 1], Value)
    requires s3[..left] == s2[..left] && s3[right + 1..] == s2[right + 1..]
    ensures SortedBetween(s3, left, right + 1) && PermutedBetween(s0, s3, left, right + 1)
    ensures SameOutside(s0, s3, left, right + 1)
  {
    var l, r := s2[left..middle + 1], s2[middle + 1..right + 1];
    HalvesPermuted(s0, s1, s2, left, middle, right);
    MergedHalves(l, r, s3[left..right + 1]);
    StepFrame(s2, s3, left, right);
    FrameChain(s0, s1, s2, s3, left, middle, right);
  }

  /** After sorting both halves in place, the two halves together hold the elements the range held. */
  lemma HalvesPermuted(s0: seq<int>, s1: seq<int>, s2: seq<int>, left: int, middle: int, right: int)
    requires 0 <= left <= middle < right < |s0|
    requires PermutedBetween(s0, s1, left, middle + 1) && SameOutside(s0, s1, left, middle + 1)
    requires PermutedBetween(s1, s2, middle + 1, right + 1) && SameOutside(s1, s2, middle + 1, right + 1)
    ensures s2[left..middle + 1] == s1[left..middle + 1]
    ensures multiset(s2[left..middle + 1]) + multiset(s2[middle + 1..right + 1]) == multiset(s0[left..right + 1])
  {
    SameSlice(s1, s2, middle + 1, right + 1, left, middle + 1);
    SameSlice(s0, s1, left, middle + 1, middle + 1, right + 1);
    SliceSplit(s0, left, middle + 1, right + 1);
  }

  /** Three steps that each leave everything outside [left, right] alone leave it alone together. */
  lemma FrameChain(s0: seq<int>, s1: seq<int>, s2: seq<int>, s3: seq<int>, left: int, middle: int, right: int)
    requires 0 <= left <= middle < right
    requires SameOutside(s0, s1, left, middle + 1) && SameOutside(s1, s2, middle + 1, right + 1)
    requires SameOutside(s2, s3, left, right + 1)
    ensures SameOutside(s0, s3, left, right + 1)
  {
  }

  /** The merge of two sorted halves is sorted and holds the elements of both. */
  lemma MergedHalves(l: seq<int>, r: seq<int>, m: seq<int>)
    requires Sorted(l) && Sorted(r) && m == Merged(l, r, Value)
    ensures Sorted(m) && multiset(m) == multiset(l) + multiset(r)
  {
    ValueSorted(l);
    ValueSorted(r);
    MergedSorted(l, r, Value);
    ValueSorted(m);
    MergedPermutation(l, r, Value);
  }

  /** Equal slices before left and after right mean equal cells there. */
  lemma StepFrame(s: seq<int>, t: seq<int>, left: int, right: int)
    requires 0 <= left <= right < |s| == |t|
    requires t[..left] == s[..left] && t[right + 1..] == s[right + 1..]
    ensures SameOutside(s, t, left, right + 1)
  {
    forall q | 0 <= q < |s| && (q < left || right < q) ensures t[q] == s[q] {
      if q < left {
        assert t[q] == t[..left][q];
      } else {
        assert t[q] == t[right + 1..][q - right - 1];
      }
    }
  }
}
