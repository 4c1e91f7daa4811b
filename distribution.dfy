/**
 * The specification of one stable counting pass, shared by counting sort
 * (the key is the value itself) and by each digit pass of radix sort (the
 * key is one decimal digit). Keys are bucket numbers 0 .. m-1. The pass
 * tallies the keys, turns the tallies into prefix sums, and places the
 * elements right to left at count[key] - 1; its result is the buckets laid
 * out one after the other, each bucket in input order (Bucketed).
 */
module Distribution {
  import opened SortSpec

  /** A positive place value: 1, 10, 100, ... in radix sort. */
  type Place = p: int | p > 0 witness 1

  /**
   * What a pass sorts by: the value itself, its decimal digit at a place,
   * or its digits below a place (the part radix sort has already sorted).
   */
  datatype Key = Value | Digit(place: Place) | Low(place: Place)

  /**
   * The key of x under each kind of key. Dafny's `/` and `%` are Euclidean,
   * so a digit is always one of 0 .. 9; C++ truncates instead, and the two
   * agree on non-negative values only (DigitAgreesWithCpp, DigitOfNegative).
   */
  function KeyOf(key: Key, x: int): int {
    match key
    case Value => x
    case Digit(place) => (x / place) % 10
    case Low(place) => x % place
  }

  /** C++ integer division, which truncates toward zero. */
  function CppDiv(x: int, y: Place): int {
    if x >= 0 then x / y else -((-x) / y)
  }

  /** C++ remainder, which keeps the sign of the dividend. */
  function CppRem(x: int, y: Place): int {
    x - y * CppDiv(x, y)
  }

  /** On a non-negative value the digit key is the C++ expression (x / exp) % 10. */
  lemma DigitAgreesWithCpp(x: int, p: Place)
    requires x >= 0
    ensures KeyOf(Digit(p), x) == CppRem(CppDiv(x, p), 10)
  {
    var q := x / p;
    assert CppDiv(x, p) == q && q >= 0;
    assert CppDiv(q, 10) == q / 10;
  }

  /** On a negative value they differ: the C++ digit of -3 at the units is -3, the key is 7. */
  lemma DigitOfNegative()
    ensures CppRem(CppDiv(-3, 1), 10) == -3
    ensures KeyOf(Digit(1), -3) == 7
  {
  }

  /** The keys of s never decrease. */
  ghost predicate KeySorted(s: seq<int>, key: Key) {
    forall i, j :: 0 <= i < j < |s| ==> KeyOf(key, s[i]) <= KeyOf(key, s[j])
  }

  /** With key Value, key-sorted is sorted. */
  lemma ValueSorted(s: seq<int>)
    ensures KeySorted(s, Value) <==> Sorted(s)
  {
  }

  /**
   * The elements of s whose key is k, in their order in s. A procedure is
   * stable for `key` when it leaves Select(s, key, k) unchanged for every k.
   */
  function Select(s: seq<int>, key: Key, k: int): (r: seq<int>)
    ensures |r| <= |s|
  {
    if |s| == 0 then []
    else (if KeyOf(key, s[0]) == k then [s[0]] else []) + Select(s[1..], key, k)
  }

  /** Everything Select returns has the selected key. */
  lemma {:induction false} SelectKeys(s: seq<int>, key: Key, k: int)
    ensures forall i :: 0 <= i < |Select(s, key, k)| ==> KeyOf(key, Select(s, key, k)[i]) == k
  {
    if s != [] {
      SelectKeys(s[1..], key, k);
    }
  }

  /** Selecting from a concatenation selects from each part. */
  lemma {:induction false} SelectAppend(s: seq<int>, t: seq<int>, key: Key, k: int)
    ensures Select(s + t, key, k) == Select(s, key, k) + Select(t, key, k)
  {
    if s == [] {
      assert s + t == t;
    } else {
      assert (s + t)[1..] == s[1..] + t;
      SelectAppend(s[1..], t, key, k);
    }
  }

  /** Selecting again by the same key keeps all of a selection or none of it. */
  lemma {:induction false} SelectTwice(s: seq<int>, key: Key, e: int, k: int)
    ensures Select(Select(s, key, e), key, k) == if e == k then Select(s, key, e) else []
  {
    if s != [] {
      SelectTwice(s[1..], key, e, k);
      var head := if KeyOf(key, s[0]) == e then [s[0]] else [];
      SelectAppend(head, Select(s[1..], key, e), key, k);
    }
  }

  /** Every key of s names one of the buckets 0 .. m-1. */
  ghost predicate KeysWithin(s: seq<int>, key: Key, m: int) {
    forall i :: 0 <= i < |s| ==> 0 <= KeyOf(key, s[i]) < m
  }

  /** Buckets 0 .. d-1 one after the other, each holding its elements in input order. */
  function Bucketed(s: seq<int>, key: Key, d: int): seq<int>
  {
    if d <= 0 then [] else Bucketed(s, key, d - 1) + Select(s, key, d - 1)
  }

  /** Bucket d starts where the earlier buckets end: the prefix sums never decrease. */
  lemma {:induction false} BucketedLengthMonotone(s: seq<int>, key: Key, d: int, e: int)
    requires d <= e
    ensures |Bucketed(s, key, d)| <= |Bucketed(s, key, e)|
    decreases e - d
  {
    if d < e {
      BucketedLengthMonotone(s, key, d, e - 1);
    }
  }

  /** How often v occurs in s; the bucket lemmas count occurrences value by value. */
  ghost function Occurrences(s: seq<int>, v: int): nat
  {
    if |s| == 0 then 0 else (if s[0] == v then 1 else 0) + Occurrences(s[1..], v)
  }

  /** Occurrences add up over a concatenation. */
  lemma {:induction false} OccurrencesAppend(s: seq<int>, t: seq<int>, v: int)
    ensures Occurrences(s + t, v) == Occurrences(s, v) + Occurrences(t, v)
  {
    if |s| > 0 {
      assert (s + t)[1..] == s[1..] + t;
      OccurrencesAppend(s[1..], t, v);
    } else {
      assert s + t == t;
    }
  }

  /** Occurrences is the multiplicity in the multiset. */
  lemma {:induction false} OccurrencesMultiplicity(s: seq<int>, v: int)
    ensures Occurrences(s, v) == multiset(s)[v]
  {
    if |s| > 0 {
      OccurrencesMultiplicity(s[1..], v);
      assert s == [s[0]] + s[1..];
      assert multiset(s) == multiset{s[0]} + multiset(s[1..]);
    }
  }

  /** Taking the head off the input takes it out of its bucket and nowhere else. */
  lemma {:induction false} BucketedTail(s: seq<int>, key: Key, d: int, v: int)
    requires |s| > 0
    ensures Occurrences(Bucketed(s, key, d), v)
         == Occurrences(Bucketed(s[1..], key, d), v) + (if 0 <= KeyOf(key, s[0]) < d && s[0] == v then 1 else 0)
  {
    if d > 0 {
      var x, t := s[0], s[1..];
      var head: seq<int> := if KeyOf(key, x) == d - 1 then [x] else [];
      assert Occurrences(head, v) == if KeyOf(key, x) == d - 1 && x == v then 1 else 0;
      assert Select(s, key, d - 1) == head + Select(t, key, d - 1);
      BucketedTail(s, key, d - 1, v);
      OccurrencesAppend(Bucketed(s, key, d - 1), Select(s, key, d - 1), v);
      OccurrencesAppend(head, Select(t, key, d - 1), v);
      OccurrencesAppend(Bucketed(t, key, d - 1), Select(t, key, d - 1), v);
    }
  }

  /** Laying out all m buckets keeps the number of occurrences of every value. */
  lemma {:induction false} BucketedOccurrences(s: seq<int>, key: Key, m: int, v: int)
    requires KeysWithin(s, key, m)
    ensures Occurrences(Bucketed(s, key, m), v) == Occurrences(s, v)
  {
    if |s| == 0 {
      BucketedEmpty(s, key, m);
    } else {
      assert KeysWithin(s[1..], key, m);
      BucketedOccurrences(s[1..], key, m, v);
      BucketedTail(s, key, m, v);
    }
  }

  /** Laying out all m buckets permutes the input. */
  lemma BucketedPermutation(s: seq<int>, key: Key, m: int)
    requires KeysWithin(s, key, m)
    ensures multiset(Bucketed(s, key, m)) == multiset(s)
    ensures |Bucketed(s, key, m)| == |s|
  {
    forall v ensures multiset(Bucketed(s, key, m))[v] == multiset(s)[v] {
      BucketedOccurrences(s, key, m, v);
      OccurrencesMultiplicity(s, v);
      OccurrencesMultiplicity(Bucketed(s, key, m), v);
    }
    assert multiset(Bucketed(s, key, m)) == multiset(s);
    assert |Bucketed(s, key, m)| == |multiset(Bucketed(s, key, m))| == |multiset(s)| == |s|;
  }

  /** Nothing to distribute, nothing laid out. */
  lemma {:induction false} BucketedEmpty(s: seq<int>, key: Key, d: int)
    requires |s| == 0
    ensures Bucketed(s, key, d) == []
  {
    if d > 0 {
      BucketedEmpty(s, key, d - 1);
    }
  }

  /** The first d buckets hold only keys below d. */
  lemma {:induction false} BucketedKeys(s: seq<int>, key: Key, d: int)
    ensures KeysWithin(Bucketed(s, key, d), key, d)
  {
    if d > 0 {
      BucketedKeys(s, key, d - 1);
      SelectKeys(s, key, d - 1);
      var front, back := Bucketed(s, key, d - 1), Select(s, key, d - 1);
      assert Bucketed(s, key, d) == front + back;
      forall i | 0 <= i < |front + back| ensures 0 <= KeyOf(key, (front + back)[i]) < d {
        if i < |front| {
          assert (front + back)[i] == front[i];
        } else {
          assert (front + back)[i] == back[i - |front|];
        }
      }
    }
  }

  /** The buckets come out ordered by key. */
  lemma {:induction false} BucketedKeySorted(s: seq<int>, key: Key, d: int)
    ensures KeySorted(Bucketed(s, key, d), key)
  {
    if d > 0 {
      BucketedKeySorted(s, key, d - 1);
      BucketedKeys(s, key, d - 1);
      SelectKeys(s, key, d - 1);
      var front, back := Bucketed(s, key, d - 1), Select(s, key, d - 1);
      forall i, j | 0 <= i < j < |front + back|
        ensures KeyOf(key, (front + back)[i]) <= KeyOf(key, (front + back)[j])
      {
        if j < |front| {
          assert (front + back)[i] == front[i] && (front + back)[j] == front[j];
        } else if i < |front| {
          assert (front + back)[i] == front[i];
          assert (front + back)[j] == back[j - |front|];
        } else {
          assert (front + back)[i] == back[i - |front|];
          assert (front + back)[j] == back[j - |front|];
        }
      }
    }
  }

  /** Stability: the elements of each bucket keep their input order. */
  lemma {:induction false} BucketedStable(s: seq<int>, key: Key, d: int, k: int)
    ensures Select(Bucketed(s, key, d), key, k) == if 0 <= k < d then Select(s, key, k) else []
  {
    if d > 0 {
      var front, back := Bucketed(s, key, d - 1), Select(s, key, d - 1);
      assert Bucketed(s, key, d) == front + back;
      BucketedStable(s, key, d - 1, k);
      SelectAppend(front, back, key, k);
      SelectTwice(s, key, d - 1, k);
      var whole := Select(Bucketed(s, key, d), key, k);
      assert whole == Select(front, key, k) + Select(back, key, k);
      if k == d - 1 {
        assert Select(front, key, k) == [] && Select(back, key, k) == Select(s, key, k);
        assert whole == Select(s, key, k);
      } else {
        assert Select(back, key, k) == [];
        assert whole == Select(front, key, k);
      }
    }
  }

  /** No element has key k, so none is selected. */
  lemma {:induction false} SelectAbsent(s: seq<int>, key: Key, k: int)
    requires forall i :: 0 <= i < |s| ==> KeyOf(key, s[i]) != k
    ensures Select(s, key, k) == []
  {
    if |s| > 0 {
      SelectAbsent(s[1..], key, k);
    }
  }

  /** Laying out all the buckets keeps, for every key, its elements in input order. */
  lemma BucketedStableAll(s: seq<int>, key: Key, m: int)
    requires KeysWithin(s, key, m)
    ensures forall k :: Select(Bucketed(s, key, m), key, k) == Select(s, key, k)
  {
    forall k ensures Select(Bucketed(s, key, m), key, k) == Select(s, key, k) {
      BucketedStable(s, key, m, k);
      if !(0 <= k < m) {
        SelectAbsent(s, key, k);
      }
    }
  }

  /** How many of the first i elements of s have key d. */
  ghost function Occ(s: seq<int>, i: int, key: Key, d: int): (c: nat)
    requires 0 <= i <= |s|
    ensures c <= i
  {
    if i == 0 then 0 else Occ(s, i - 1, key, d) + (if KeyOf(key, s[i - 1]) == d then 1 else 0)
  }

  /** The elements of s from index i on whose key is d, in order. */
  ghost function SelectFrom(s: seq<int>, i: int, key: Key, d: int): seq<int>
    requires 0 <= i <= |s|
    decreases |s| - i
  {
    if i == |s| then [] else (if KeyOf(key, s[i]) == d then [s[i]] else []) + SelectFrom(s, i + 1, key, d)
  }

  /** Occ counts the selection from the prefix. */
  lemma {:induction false} OccSelect(s: seq<int>, i: int, key: Key, d: int)
    requires 0 <= i <= |s|
    ensures Occ(s, i, key, d) == |Select(s[..i], key, d)|
  {
    if i == 0 {
      assert s[..0] == [];
    } else {
      OccSelect(s, i - 1, key, d);
      assert s[..i] == s[..i - 1] + [s[i - 1]];
      SelectAppend(s[..i - 1], [s[i - 1]], key, d);
    }
  }

  /** SelectFrom is the selection from the suffix. */
  lemma {:induction false} SelectFromSuffix(s: seq<int>, i: int, key: Key, d: int)
    requires 0 <= i <= |s|
    ensures SelectFrom(s, i, key, d) == Select(s[i..], key, d)
    decreases |s| - i
  {
    if i < |s| {
      SelectFromSuffix(s, i + 1, key, d);
      assert s[i..][1..] == s[i + 1..];
    }
  }

  /** Where bucket d starts, given where every bucket ends. */
  function Start(ends: seq<int>, d: int): int
    requires 0 <= d < |ends|
  {
    if d == 0 then 0 else ends[d - 1]
  }

  /** The bucket ends never decrease. */
  ghost predicate Ascending(ends: seq<int>) {
    forall d, e :: 0 <= d <= e < |ends| ==> ends[d] <= ends[e]
  }

  /** out holds t from index lo on. */
  ghost predicate Holds(out: seq<int>, lo: int, t: seq<int>) {
    0 <= lo && lo + |t| <= |out| && forall q :: lo <= q < lo + |t| ==> out[q] == t[q - lo]
  }

  /** Writing x just below where out holds t makes it hold x followed by t. */
  lemma PushBucket(out: seq<int>, lo: int, t: seq<int>, x: int)
    requires Holds(out, lo, t) && 0 < lo
    ensures Holds(out[lo - 1 := x], lo - 1, [x] + t)
  {
    var out' := out[lo - 1 := x];
    forall q | lo - 1 <= q < lo + |t| ensures out'[q] == ([x] + t)[q - (lo - 1)] {
      if q >= lo {
        assert out'[q] == out[q] == t[q - lo];
      }
    }
  }

  /** Writing outside the slots that hold t leaves them holding t. */
  lemma KeepBucket(out: seq<int>, lo: int, t: seq<int>, p: int, x: int)
    requires Holds(out, lo, t) && 0 <= p < |out| && (p < lo || lo + |t| <= p)
    ensures Holds(out[p := x], lo, t)
  {
  }

  /**
   * Bucket d once s[i..] has been placed: count[d] is the start of the
   * bucket plus the number of its elements among s[..i], and the slots
   * from count[d] up to the end of the bucket hold its elements from s[i..],
   * in order.
   */
  ghost predicate PlacedAt(s: seq<int>, key: Key, ends: seq<int>, count: seq<int>, out: seq<int>, i: int, d: int)
    requires 0 <= i <= |s| && 0 <= d < |count| == |ends|
  {
    && 0 <= Start(ends, d)
    && count[d] == Start(ends, d) + Occ(s, i, key, d)
    && count[d] + |SelectFrom(s, i, key, d)| == ends[d]
    && Holds(out, count[d], SelectFrom(s, i, key, d))
  }

  /** The state of the right-to-left placement loop once s[i..] has been placed. */
  ghost predicate Placed(s: seq<int>, key: Key, m: int, ends: seq<int>, count: seq<int>, out: seq<int>, i: int)
  {
    && 0 <= i <= |s|
    && |count| == m == |ends|
    && |out| == |s|
    && forall d :: 0 <= d < m ==> PlacedAt(s, key, ends, count, out, i, d)
  }

  /** count[d] holds the end of bucket d, as the prefix sums leave it. */
  ghost predicate BucketEnds(s: seq<int>, key: Key, ends: seq<int>) {
    forall d :: 0 <= d < |ends| ==> ends[d] == |Bucketed(s, key, d + 1)|
  }

  /** Bucket d starts where the buckets before it end. */
  lemma BucketStart(s: seq<int>, key: Key, ends: seq<int>, d: int)
    requires BucketEnds(s, key, ends) && 0 <= d < |ends|
    ensures Start(ends, d) == |Bucketed(s, key, d)|
  {
    if d == 0 {
      assert Bucketed(s, key, 0) == [];
    }
  }

  /** All of s has been counted. */
  lemma OccAll(s: seq<int>, key: Key, d: int)
    ensures Occ(s, |s|, key, d) == |Select(s, key, d)|
  {
    OccSelect(s, |s|, key, d);
    assert s[..|s|] == s;
  }

  /** Before placement, bucket d has nothing placed and its counter at its end. */
  lemma PlacedStartAt(s: seq<int>, key: Key, ends: seq<int>, out: seq<int>, d: int)
    requires 0 <= d < |ends|
    requires Start(ends, d) == |Bucketed(s, key, d)| && ends[d] == |Bucketed(s, key, d + 1)| <= |out|
    ensures PlacedAt(s, key, ends, ends, out, |s|, d)
  {
    OccAll(s, key, d);
    assert |Bucketed(s, key, d + 1)| == |Bucketed(s, key, d)| + |Select(s, key, d)|;
    assert SelectFrom(s, |s|, key, d) == [];
  }

  /** After the prefix sums, nothing is placed yet and count[d] is the end of bucket d. */
  lemma PlacedStart(s: seq<int>, key: Key, m: int, ends: seq<int>, out: seq<int>)
    requires KeysWithin(s, key, m) && |ends| == m && |out| == |s| && BucketEnds(s, key, ends)
    ensures Placed(s, key, m, ends, ends, out, |s|) && Ascending(ends)
  {
    BucketedPermutation(s, key, m);
    forall d | 0 <= d < m
      ensures PlacedAt(s, key, ends, ends, out, |s|, d)
    {
      BucketStart(s, key, ends, d);
      BucketedLengthMonotone(s, key, d + 1, m);
      PlacedStartAt(s, key, ends, out, d);
    }
    BucketEndsAscending(s, key, ends);
  }

  /** The bucket ends never decrease. */
  lemma BucketEndsAscending(s: seq<int>, key: Key, ends: seq<int>)
    requires BucketEnds(s, key, ends)
    ensures Ascending(ends)
  {
    forall d, e | 0 <= d <= e < |ends| ensures ends[d] <= ends[e] {
      BucketedLengthMonotone(s, key, d + 1, e + 1);
    }
  }

  /** s[i-1] goes into the slot just below the placed part of its own bucket d. */
  lemma PlaceOwn(s: seq<int>, key: Key, ends: seq<int>, count: seq<int>, out: seq<int>, i: int, d: int)
    requires 0 < i <= |s| && d == KeyOf(key, s[i - 1]) && 0 <= d < |count| == |ends|
    requires PlacedAt(s, key, ends, count, out, i, d)
    ensures 0 <= Start(ends, d) <= count[d] - 1 < ends[d] <= |out|
    ensures PlacedAt(s, key, ends, count[d := count[d] - 1], out[count[d] - 1 := s[i - 1]], i - 1, d)
  {
    var rest := SelectFrom(s, i, key, d);
    assert Occ(s, i, key, d) == Occ(s, i - 1, key, d) + 1;
    assert SelectFrom(s, i - 1, key, d) == [s[i - 1]] + rest;
    PushBucket(out, count[d], rest, s[i - 1]);
  }

  /** Placing s[i-1] at p, outside the placed part of bucket e, leaves bucket e as it was. */
  lemma PlaceOther(s: seq<int>, key: Key, ends: seq<int>, count: seq<int>, out: seq<int>, i: int, d: int, e: int)
    requires 0 < i <= |s| && d == KeyOf(key, s[i - 1]) && 0 <= d < |count| == |ends| && 0 <= e < |count| && e != d
    requires 0 <= count[d] - 1 < |out| && (count[d] - 1 < count[e] || ends[e] <= count[d] - 1)
    requires PlacedAt(s, key, ends, count, out, i, e)
    ensures PlacedAt(s, key, ends, count[d := count[d] - 1], out[count[d] - 1 := s[i - 1]], i - 1, e)
  {
    assert Occ(s, i, key, e) == Occ(s, i - 1, key, e);
    assert SelectFrom(s, i - 1, key, e) == SelectFrom(s, i, key, e);
    KeepBucket(out, count[e], SelectFrom(s, i, key, e), count[d] - 1, s[i - 1]);
  }

  /**
   * One step of the placement loop: s[i-1] goes to count[key] - 1, which
   * lies inside its bucket and below the part already placed, and the
   * counter is decremented.
   */
  lemma PlaceStep(s: seq<int>, key: Key, m: int, ends: seq<int>, count: seq<int>, out: seq<int>, i: int, d: int)
    requires KeysWithin(s, key, m) && Ascending(ends) && Placed(s, key, m, ends, count, out, i) && 0 < i
    requires d == KeyOf(key, s[i - 1])
    ensures 0 <= d < m && 0 <= count[d] - 1 < |out|
    ensures Placed(s, key, m, ends, count[d := count[d] - 1], out[count[d] - 1 := s[i - 1]], i - 1)
  {
    assert PlacedAt(s, key, ends, count, out, i, d);
    PlaceOwn(s, key, ends, count, out, i, d);
    var count', out', j := count[d := count[d] - 1], out[count[d] - 1 := s[i - 1]], i - 1;
    forall e | 0 <= e < m
      ensures PlacedAt(s, key, ends, count', out', j, e)
    {
      if e != d {
        assert PlacedAt(s, key, ends, count, out, i, e);
        if e < d {
          assert ends[e] <= ends[d - 1];
        } else {
          assert ends[d] <= ends[e - 1];
        }
        PlaceOther(s, key, ends, count, out, i, d, e);
      }
    }
  }

  /** Once everything is placed, bucket d occupies its own slots, which start after the buckets before it. */
  lemma PlacedBucket(s: seq<int>, key: Key, ends: seq<int>, count: seq<int>, out: seq<int>, d: int)
    requires 0 <= d < |count| == |ends| && PlacedAt(s, key, ends, count, out, 0, d)
    requires Start(ends, d) == |Bucketed(s, key, d)|
    ensures Holds(out, |Bucketed(s, key, d)|, Select(s, key, d))
  {
    SelectFromAll(s, key, d);
  }

  /** Selecting from index 0 on is selecting from the whole sequence. */
  lemma SelectFromAll(s: seq<int>, key: Key, d: int)
    ensures SelectFrom(s, 0, key, d) == Select(s, key, d)
  {
    SelectFromSuffix(s, 0, key, d);
    assert s[0..] == s;
  }

  /** t is the beginning of out. */
  ghost predicate Leads(t: seq<int>, out: seq<int>) {
    |t| <= |out| && forall q :: 0 <= q < |t| ==> out[q] == t[q]
  }

  /** If out begins with front and then holds back, it begins with front + back. */
  lemma LeadsConcat(out: seq<int>, front: seq<int>, back: seq<int>)
    requires Leads(front, out) && Holds(out, |front|, back)
    ensures Leads(front + back, out)
  {
  }

  /** The first e buckets, read off an output that holds every bucket in its place. */
  lemma {:induction false} PlacedPrefix(s: seq<int>, key: Key, m: int, out: seq<int>, e: int)
    requires forall d :: 0 <= d < m ==> Holds(out, |Bucketed(s, key, d)|, Select(s, key, d))
    requires 0 <= e <= m
    ensures Leads(Bucketed(s, key, e), out)
  {
    if e > 0 {
      PlacedPrefix(s, key, m, out, e - 1);
      var front, back := Bucketed(s, key, e - 1), Select(s, key, e - 1);
      assert Holds(out, |front|, back);
      LeadsConcat(out, front, back);
      assert Bucketed(s, key, e) == front + back;
    } else {
      assert Bucketed(s, key, 0) == [];
    }
  }

  /** When every element is placed, the output is the buckets laid out in order. */
  lemma PlacedDone(s: seq<int>, key: Key, m: int, ends: seq<int>, count: seq<int>, out: seq<int>)
    requires KeysWithin(s, key, m) && Placed(s, key, m, ends, count, out, 0) && BucketEnds(s, key, ends)
    ensures out == Bucketed(s, key, m)
  {
    forall d | 0 <= d < m ensures Holds(out, |Bucketed(s, key, d)|, Select(s, key, d)) {
      BucketStart(s, key, ends, d);
      assert PlacedAt(s, key, ends, count, out, 0, d);
      PlacedBucket(s, key, ends, count, out, d);
    }
    PlacedPrefix(s, key, m, out, m);
    BucketedPermutation(s, key, m);
    assert Leads(Bucketed(s, key, m), out);
  }
}
