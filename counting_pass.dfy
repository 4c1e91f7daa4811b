/**
 * The four loops of a counting pass, as both counting sort and each digit
 * pass of radix sort write them: tally the keys into `count`, turn the
 * tallies into prefix sums, place the elements right to left into `output`
 * at count[key] - 1, and copy `output` back. Each loop is proved against
 * the specification in Distribution.
 */
module CountingPass {
  import opened Distribution

  /**
   * One whole counting pass over a by `key` into buckets 0 .. m-1: a ends
   * up as the buckets laid out in order, each in input order.
   */
  method Distribute(a: array<int>, key: Key, m: int)
    requires 0 < m && KeysWithin(a[..], key, m)
    modifies a
    ensures a[..] == Bucketed(old(a[..]), key, m)
  {
    var count := Tally(a, key, m);
    PrefixSums(count, a[..], key);
    var output := BuildOutput(a, key, m, count);
    CopyBack(a, output);
  }

  /** The tally loop: count[d] ends up as the size of bucket d. */
  method Tally(a: array<int>, key: Key, m: int) returns (count: array<int>)
    requires 0 < m && KeysWithin(a[..], key, m)
    ensures fresh(count) && count.Length == m
    ensures forall d :: 0 <= d < m ==> count[d] == |Select(a[..], key, d)|
  {
    count := new int[m](d => 0);
    var i := 0;
    while i < a.Length
      invariant 0 <= i <= a.Length
      invariant forall d :: 0 <= d < m ==> count[d] == Occ(a[..], i, key, d)
    {
      var d := KeyOf(key, a[i]);
      count[d] := count[d] + 1;
      i := i + 1;
    }
    assert a[..][..a.Length] == a[..];
    forall d | 0 <= d < m ensures count[d] == |Select(a[..], key, d)| {
      OccSelect(a[..], a.Length, key, d);
    }
  }

  /** The prefix-sum loop: count[d] ends up as the end of bucket d in the output. */
  method PrefixSums(count: array<int>, ghost s: seq<int>, key: Key)
    requires count.Length > 0
    requires forall d :: 0 <= d < count.Length ==> count[d] == |Select(s, key, d)|
    modifies count
    ensures BucketEnds(s, key, count[..])
  {
    assert Bucketed(s, key, 1) == Bucketed(s, key, 0) + Select(s, key, 0);
    var i := 1;
    while i < count.Length
      invariant 1 <= i <= count.Length
      invariant forall d :: 0 <= d < i ==> count[d] == |Bucketed(s, key, d + 1)|
      invariant forall d :: i <= d < count.Length ==> count[d] == |Select(s, key, d)|
    {
      assert Bucketed(s, key, i + 1) == Bucketed(s, key, i) + Select(s, key, i);
      count[i] := count[i] + count[i - 1];
      i := i + 1;
    }
  }

  /**
   * The placement loop: from the last element to the first, each goes to
   * count[key] - 1 and that counter is decremented. The output is the
   * buckets laid out in order, each in input order.
   */
  method BuildOutput(a: array<int>, key: Key, m: int, count: array<int>) returns (output: array<int>)
    requires count != a && count.Length == m && KeysWithin(a[..], key, m)
    requires BucketEnds(a[..], key, count[..])
    modifies count
    ensures fresh(output) && output.Length == a.Length
    ensures output[..] == Bucketed(a[..], key, m)
  {
    output := new int[a.Length](k => 0);
    ghost var ends := count[..];
    PlacedStart(a[..], key, m, ends, output[..]);
    var i := a.Length - 1;
    while i >= 0
      invariant -1 <= i < a.Length
      invariant Placed(a[..], key, m, ends, count[..], output[..], i + 1)
    {
      PlaceOne(a, key, m, ends, count, output, i);
      i := i - 1;
    }
    PlacedDone(a[..], key, m, ends, count[..], output[..]);
  }

  /** One iteration of the placement loop: a[i] goes to output[count[key] - 1] and that counter drops by one. */
  method PlaceOne(a: array<int>, key: Key, m: int, ghost ends: seq<int>, count: array<int>, output: array<int>, i: int)
    requires count != a && output != a && count != output
    requires 0 <= i < a.Length && KeysWithin(a[..], key, m) && Ascending(ends)
    requires Placed(a[..], key, m, ends, count[..], output[..], i + 1)
    modifies count, output
    ensures Placed(a[..], key, m, ends, count[..], output[..], i)
  {
    var d := KeyOf(key, a[i]);
    ghost var c, o := count[..], output[..];
    PlaceStep(a[..], key, m, ends, c, o, i + 1, d);
    output[count[d] - 1] := a[i];
    count[d] := count[d] - 1;
    assert output[..] == o[c[d] - 1 := a[i]];
    assert count[..] == c[d := c[d] - 1];
  }

  /** The copy-back loop: a ends up holding the output. */
  method CopyBack(a: array<int>, output: array<int>)
    requires a != output && a.Length == output.Length
    modifies a
    ensures a[..] == output[..]
  {
    var i := 0;
    while i < a.Length
      invariant 0 <= i <= a.Length
      invariant forall k :: 0 <= k < i ==> a[k] == output[k]
    {
      a[i] := output[i];
      i := i + 1;
    }
  }
}
