/**
 * Radix sort of non-negative integers: one stable counting pass per
 * decimal digit, from the units upwards, for as long as the maximum still
 * has digits at the current place. After the pass at place p the array is
 * sorted by its last digits, x % (10 * p); once p exceeds the maximum
 * that is the value itself.
 */
module Radix {
  import opened SortSpec
  import opened Distribution
  import opened CountingPass

  /**
   * countingSort(arr, exp): one counting pass keyed by the decimal digit
   * (x / exp) % 10. The values must be non-negative (a negative value
   * would give a negative digit, which indexes outside the count array).
   * The result is the ten digit buckets laid out in order: ordered by the
   * digit, a permutation, and stable.
   */
  method CountingSortByDigit(a: array<int>, exp: Place)
    requires forall k :: 0 <= k < a.Length ==> a[k] >= 0
    modifies a
    ensures a[..] == Bucketed(old(a[..]), Digit(exp), 10)
    ensures KeySorted(a[..], Digit(exp)) && multiset(a[..]) == old(multiset(a[..]))
    ensures forall k :: Select(a[..], Digit(exp), k) == Select(old(a[..]), Digit(exp), k)
  {
    ghost var s := a[..];
    DigitsWithin(s, exp);
    Distribute(a, Digit(exp), 10);
    DigitBuckets(s, exp, a[..]);
  }

  /** Every decimal digit names one of the ten buckets. */
  lemma DigitsWithin(s: seq<int>, p: Place)
    ensures KeysWithin(s, Digit(p), 10)
  {
    forall i | 0 <= i < |s| ensures 0 <= KeyOf(Digit(p), s[i]) < 10 {
      assert KeyOf(Digit(p), s[i]) == (s[i] / p) % 10;
    }
  }

  /** The ten digit buckets, laid out, are ordered by the digit, a permutation, and stable. */
  lemma DigitBuckets(s: seq<int>, p: Place, t: seq<int>)
    requires t == Bucketed(s, Digit(p), 10)
    ensures KeySorted(t, Digit(p)) && multiset(t) == multiset(s)
    ensures forall k :: Select(t, Digit(p), k) == Select(s, Digit(p), k)
  {
    DigitsWithin(s, p);
    BucketedKeySorted(s, Digit(p), 10);
    BucketedPermutation(s, Digit(p), 10);
    BucketedStableAll(s, Digit(p), 10);
  }

  /**
   * radixSort(arr): the array must be non-empty (its maximum is taken) and
   * hold no negative value. One digit pass per place 1, 10, 100, ... while
   * the maximum has a digit there; the result is sorted and a permutation,
   * and sorted input comes back as it was.
   */
  method RadixSort(a: array<int>)
    requires a.Length > 0
    requires forall k :: 0 <= k < a.Length ==> a[k] >= 0
    modifies a
    ensures Sorted(a[..]) && multiset(a[..]) == old(multiset(a[..]))
    ensures Sorted(old(a[..])) ==> a[..] == old(a[..])
  {
    ghost var s := a[..];
    var maxElement := MaxElement(a[..]);
    MaxBounds(s, maxElement);
    var exp: Place := 1;
    LowOne(s);
    while maxElement / exp > 0
      invariant RadixProgress(s, a[..], exp, maxElement)
      decreases maxElement - exp
    {
      DivPositive(maxElement, exp);
      DigitRound(a, exp, maxElement, s);
      exp := exp * 10;
    }
    RadixDone(s, a[..], exp, maxElement);
  }

  /**
   * The state of the radix loop started on s, now at t before the pass at
   * place p: a permutation of s whose values lie in 0 .. max, sorted by
   * the digits below p.
   */
  ghost predicate RadixProgress(s: seq<int>, t: seq<int>, p: Place, max: int) {
    && multiset(t) == multiset(s)
    && 0 <= max && AllAtMost(t, max)
    && (forall k :: 0 <= k < |t| ==> t[k] >= 0)
    && KeySorted(t, Low(p))
  }

  /** One iteration of the radix loop: the pass at place exp. */
  method DigitRound(a: array<int>, exp: Place, max: int, ghost s: seq<int>)
    requires RadixProgress(s, a[..], exp, max)
    modifies a
    ensures RadixProgress(s, a[..], 10 * exp, max)
  {
    ghost var before := a[..];
    CountingSortByDigit(a, exp);
    DigitPass(before, exp, a[..]);
    AbovePermutation(before, a[..], -1);
    AtMostPermutation(before, a[..], max);
  }

  /** When the place is past the maximum, the loop state is a sorted permutation. */
  lemma RadixDone(s: seq<int>, t: seq<int>, p: Place, max: int)
    requires RadixProgress(s, t, p, max) && max / p <= 0
    ensures Sorted(t) && multiset(t) == multiset(s)
    ensures Sorted(s) ==> t == s
  {
    DivZero(max, p);
    LowIsValue(t, p, max);
    SortedPermutationOfSorted(s, t);
  }

  /** The maximum bounds every element, and non-negative input has a non-negative maximum. */
  lemma MaxBounds(s: seq<int>, max: int)
    requires |s| > 0 && max == MaxElement(s)
    requires forall k :: 0 <= k < |s| ==> s[k] >= 0
    ensures AllAtMost(s, max) && max >= 0
  {
    forall k | 0 <= k < |s| ensures s[k] <= max {
      assert s[k] in s;
    }
    assert s[0] <= max;
  }

  /** A positive quotient means the place is at most the maximum, so the loop ends. */
  lemma DivPositive(x: int, p: Place)
    requires x / p > 0
    ensures p <= x
  {
  }

  /** A zero quotient of a non-negative value means the place is past it. */
  lemma DivZero(x: int, p: Place)
    requires 0 <= x && x / p <= 0
    ensures x < p
  {
  }

  /** Nothing is below the units, so any order is sorted by the last zero digits. */
  lemma LowOne(s: seq<int>)
    ensures KeySorted(s, Low(1))
  {
    forall i | 0 <= i < |s| ensures KeyOf(Low(1), s[i]) == 0 {
      assert s[i] % 1 == 0;
    }
  }

  /** Once the place is past every value, sorted by the low digits is sorted. */
  lemma LowIsValue(t: seq<int>, p: Place, max: int)
    requires forall k :: 0 <= k < |t| ==> t[k] >= 0
    requires AllAtMost(t, max) && max < p
    requires KeySorted(t, Low(p))
    ensures Sorted(t)
  {
    forall i | 0 <= i < |t| ensures KeyOf(Low(p), t[i]) == t[i] {
      ModSmall(t[i], p);
    }
  }

  /** A value below the modulus is its own remainder. */
  lemma ModSmall(x: int, p: Place)
    requires 0 <= x < p
    ensures x % p == x
  {
  }

  /** The last digits up to place 10p are the digit at p followed by the last digits up to p. */
  lemma ModSplit(x: int, p: Place)
    ensures x % (10 * p) == (x / p) % 10 * p + x % p
  {
    var q, r := x / p, x % p;
    Regroup(x, p, q, r, q / 10, q % 10);
    Remainder(x, 10 * p, q / 10, q % 10 * p + r);
  }

  /** x = q p + r with q = 10 hi + d regroups as hi (10 p) + (d p + r), the last part below 10 p. */
  lemma Regroup(x: int, p: Place, q: int, r: int, hi: int, d: int)
    requires x == q * p + r && 0 <= r < p && q == hi * 10 + d && 0 <= d < 10
    ensures x == hi * (10 * p) + (d * p + r) && 0 <= d * p + r < 10 * p
  {
    assert q * p == hi * (10 * p) + d * p;
    MulAtLeast(10 - d, p);
    assert (10 - d) * p == 10 * p - d * p;
  }

  /** A positive multiple of m is at least m. */
  lemma MulAtLeast(k: int, m: int)
    requires k >= 1 && m > 0
    ensures k * m >= m
  {
    assert k * m == (k - 1) * m + m;
    assert (k - 1) * m >= 0;
  }

  /** Euclidean division is unique: a remainder in range is the remainder. */
  lemma Remainder(x: int, m: int, q: int, r: int)
    requires 0 < m && x == q * m + r && 0 <= r < m
    ensures x % m == r
  {
    var q', r' := x / m, x % m;
    assert x == q' * m + r';
    if q' < q {
      assert (q - q') * m == r' - r;
      MulAtLeast(q - q', m);
    } else if q' > q {
      assert (q' - q) * m == r - r';
      MulAtLeast(q' - q, m);
    }
  }

  /** A smaller digit at p gives smaller last digits up to 10p. */
  lemma DigitDecides(x: int, y: int, p: Place)
    requires KeyOf(Digit(p), x) < KeyOf(Digit(p), y)
    ensures KeyOf(Low(10 * p), x) < KeyOf(Low(10 * p), y)
  {
    ModSplit(x, p);
    ModSplit(y, p);
    DigitFirst((x / p) % 10, x % p, (y / p) % 10, y % p, p);
  }

  /** With remainders below p, a smaller leading digit decides: dx p + rx < dy p + ry. */
  lemma DigitFirst(dx: int, rx: int, dy: int, ry: int, p: Place)
    requires 0 <= rx < p && 0 <= ry && dx < dy
    ensures dx * p + rx < dy * p + ry
  {
    MulAtLeast(dy - dx, p);
    assert (dy - dx) * p == dy * p - dx * p;
  }

  /** Equal digits at p leave the order to the last digits up to p. */
  lemma LowDecides(x: int, y: int, p: Place)
    requires KeyOf(Digit(p), x) == KeyOf(Digit(p), y) && KeyOf(Low(p), x) <= KeyOf(Low(p), y)
    ensures KeyOf(Low(10 * p), x) <= KeyOf(Low(10 * p), y)
  {
    ModSplit(x, p);
    ModSplit(y, p);
  }

  /** What Select returns comes from s. */
  lemma {:induction false} SelectMembers(s: seq<int>, key: Key, k: int)
    ensures forall i :: 0 <= i < |Select(s, key, k)| ==> Select(s, key, k)[i] in s
  {
    if |s| > 0 {
      SelectMembers(s[1..], key, k);
      var head := if KeyOf(key, s[0]) == k then [s[0]] else [];
      var rest := Select(s[1..], key, k);
      forall i | 0 <= i < |head + rest| ensures (head + rest)[i] in s {
        if i >= |head| {
          assert (head + rest)[i] == rest[i - |head|];
          assert rest[i - |head|] in s[1..];
        }
      }
    }
  }

  /** A selection from a sequence ordered by one key is still ordered by that key. */
  lemma {:induction false} SelectKeySorted(s: seq<int>, key: Key, k: int, other: Key)
    requires KeySorted(s, other)
    ensures KeySorted(Select(s, key, k), other)
  {
    if |s| > 0 {
      var x, tail := s[0], s[1..];
      assert KeySorted(tail, other);
      SelectKeySorted(tail, key, k, other);
      if KeyOf(key, x) == k {
        var rest := Select(tail, key, k);
        SelectMembers(tail, key, k);
        forall i, j | 0 <= i < j < |[x] + rest|
          ensures KeyOf(other, ([x] + rest)[i]) <= KeyOf(other, ([x] + rest)[j])
        {
          var y := rest[j - 1];
          assert ([x] + rest)[j] == y;
          if i == 0 {
            var q :| 0 <= q < |tail| && tail[q] == y;
            assert s[q + 1] == y;
          } else {
            assert ([x] + rest)[i] == rest[i - 1];
          }
        }
      }
    }
  }

  /**
   * The first e digit buckets of a sequence sorted by its last digits up to
   * p are sorted by their last digits up to 10p: a smaller digit at p comes
   * first, and within one bucket the input order, which is ordered by the
   * lower digits, is kept.
   */
  lemma {:induction false} DigitPassSorted(s: seq<int>, p: Place, e: int)
    requires KeySorted(s, Low(p))
    ensures KeySorted(Bucketed(s, Digit(p), e), Low(10 * p))
  {
    if e > 0 {
      DigitPassSorted(s, p, e - 1);
      BucketedKeys(s, Digit(p), e - 1);
      SelectKeys(s, Digit(p), e - 1);
      SelectKeySorted(s, Digit(p), e - 1, Low(p));
      var front, back := Bucketed(s, Digit(p), e - 1), Select(s, Digit(p), e - 1);
      assert Bucketed(s, Digit(p), e) == front + back;
      forall i, j | 0 <= i < j < |front + back|
        ensures KeyOf(Low(10 * p), (front + back)[i]) <= KeyOf(Low(10 * p), (front + back)[j])
      {
        if j < |front| {
          assert (front + back)[i] == front[i] && (front + back)[j] == front[j];
        } else if i < |front| {
          assert (front + back)[i] == front[i] && (front + back)[j] == back[j - |front|];
          DigitDecides(front[i], back[j - |front|], p);
        } else {
          assert (front + back)[i] == back[i - |front|] && (front + back)[j] == back[j - |front|];
          LowDecides(back[i - |front|], back[j - |front|], p);
        }
      }
    }
  }

  /** One digit pass extends the sorted low digits by one digit and permutes the input. */
  lemma DigitPass(s: seq<int>, p: Place, t: seq<int>)
    requires KeySorted(s, Low(p)) && t == Bucketed(s, Digit(p), 10)
    ensures KeySorted(t, Low(10 * p)) && multiset(t) == multiset(s)
  {
    DigitPassSorted(s, p, 10);
    DigitsWithin(s, p);
    BucketedPermutation(s, Digit(p), 10);
  }
}
