/**
 * Counting sort of non-negative integers: count array of size max + 1,
 * prefix sums, stable right-to-left placement into an output buffer, and
 * a copy back.
 */
module Counting {
  import opened SortSpec
  import opened Distribution
  import opened CountingPass

  /**
   * countingSort(arr): the array must be non-empty (the maximum is taken
   * of it) and hold no negative value (values index the count array). It
   * ends up as the buckets 0 .. max laid out in order: sorted, a
   * permutation, and stable.
   */
  method CountingSort(a: array<int>)
    requires a.Length > 0
    requires forall k :: 0 <= k < a.Length ==> a[k] >= 0
    modifies a
    ensures Sorted(a[..]) && multiset(a[..]) == old(multiset(a[..]))
    ensures forall k :: Select(a[..], Value, k) == Select(old(a[..]), Value, k)
    ensures Sorted(old(a[..])) ==> a[..] == old(a[..])
  {
    ghost var s := a[..];
    var maxElement := MaxElement(a[..]);
    ValuesWithin(s, maxElement);
    Distribute(a, Value, maxElement + 1);
    CountingSorted(s, maxElement + 1, a[..]);
  }

  /** Non-negative values up to the maximum are keys of the buckets 0 .. max. */
  lemma ValuesWithin(s: seq<int>, max: int)
    requires forall k :: 0 <= k < |s| ==> s[k] >= 0
    requires forall x :: x in s ==> x <= max
    ensures KeysWithin(s, Value, max + 1)
  {
    forall i | 0 <= i < |s| ensures 0 <= KeyOf(Value, s[i]) < max + 1 {
      assert s[i] in s;
    }
  }

  /** The buckets of the values, laid out, are sorted, a permutation and stable, and leave sorted input as it was. */
  lemma CountingSorted(s: seq<int>, m: int, t: seq<int>)
    requires KeysWithin(s, Value, m) && t == Bucketed(s, Value, m)
    ensures Sorted(t) && multiset(t) == multiset(s)
    ensures forall k :: Select(t, Value, k) == Select(s, Value, k)
    ensures Sorted(s) ==> t == s
  {
    BucketedKeySorted(s, Value, m);
    ValueSorted(t);
    BucketedPermutation(s, Value, m);
    BucketedStableAll(s, Value, m);
    SortedPermutationOfSorted(s, t);
  }
}
