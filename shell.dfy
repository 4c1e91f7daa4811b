/**
 * Shell sort: gapped insertion sorts with the gap halved after each pass,
 * starting from n/2 and ending with a plain insertion sort at gap 1.
 */
module Shell {
  import opened SortSpec

  /** The gaps the outer loop runs through when it starts at g: g, g/2, g/4, ... while positive. */
  function Gaps(g: int): (gaps: seq<int>)
    ensures gaps == [] <==> g <= 0
    ensures gaps != [] ==> gaps[0] == g
    decreases g
  {
    if g <= 0 then [] else [g] + Gaps(g / 2)
  }

  /** Every gap is positive and each is smaller than the one before, so the passes end. */
  lemma {:induction false} GapsDecrease(g: int)
    ensures forall k :: 0 <= k < |Gaps(g)| ==> 0 < Gaps(g)[k] <= g
    ensures forall k :: 0 < k < |Gaps(g)| ==> Gaps(g)[k] < Gaps(g)[k - 1]
    decreases g
  {
    if g > 0 {
      GapsDecrease(g / 2);
      var r := Gaps(g);
      assert r == [g] + Gaps(g / 2);
      forall k | 0 < k < |r| ensures r[k] < r[k - 1] {
        if k == 1 {
          assert r[1] == Gaps(g / 2)[0] <= g / 2;
        } else {
          assert r[k] == Gaps(g / 2)[k - 1] && r[k - 1] == Gaps(g / 2)[k - 2];
        }
      }
    }
  }

  /** The last pass, if there is one, uses gap 1. */
  lemma {:induction false} GapsEndAtOne(g: int)
    ensures g >= 1 <==> |Gaps(g)| > 0
    ensures g >= 1 ==> Gaps(g)[|Gaps(g)| - 1] == 1
    decreases g
  {
    if g > 1 {
      GapsEndAtOne(g / 2);
      assert Gaps(g) == [g] + Gaps(g / 2);
    } else if g == 1 {
      assert Gaps(1) == [1] + Gaps(0);
    }
  }

  /**
   * Sorts a in place. `gaps` records the gap of every pass: n/2, n/4, ...,
   * ending at 1 whenever n >= 2.
   */
  method ShellSort(a: array<int>) returns (ghost gaps: seq<int>)
    modifies a
    ensures gaps == Gaps(a.Length / 2)
    ensures Sorted(a[..])
    ensures multiset(a[..]) == old(multiset(a[..]))
    ensures Sorted(old(a[..])) ==> a[..] == old(a[..])
  {
    var n := a.Length;
    gaps := [];
    var gap := n / 2;
    while gap > 0
      invariant 0 <= gap <= n / 2
      invariant gaps + Gaps(gap) == Gaps(n / 2)
      invariant multiset(a[..]) == old(multiset(a[..]))
      invariant gap == 0 ==> Sorted(a[..])
    {
      GapPass(a, gap);
      assert Gaps(gap) == [gap] + Gaps(gap / 2);
      assert gaps + [gap] + Gaps(gap / 2) == gaps + Gaps(gap);
      gaps := gaps + [gap];
      if gap == 1 {
        forall k | 1 <= k < n ensures a[..][k - 1] <= a[..][k] {
          var p := k - 1;
          assert Ordered(a[..], p, k);
        }
        AdjacentSorted(a[..]);
      }
      gap := gap / 2;
    }
    SortedPermutationOfSorted(old(a[..]), a[..]);
  }

  /** One pass of gapped insertion sort: afterwards a is gap-sorted. */
  method GapPass(a: array<int>, gap: int)
    requires 0 < gap <= a.Length
    modifies a
    ensures GapSorted(a[..], gap, a.Length)
    ensures multiset(a[..]) == old(multiset(a[..]))
    ensures ChainsPermuted(old(a[..]), a[..], gap)
  {
    var i := gap;
    ChainsPermutedSame(a[..], gap);
    while i < a.Length
      invariant gap <= i <= a.Length
      invariant GapSorted(a[..], gap, i)
      invariant multiset(a[..]) == old(multiset(a[..]))
      invariant ChainsPermuted(old(a[..]), a[..], gap)
    {
      ghost var before := a[..];
      GapInsert(a, gap, i);
      ChainsPermutedTrans(old(a[..]), before, a[..], gap);
      i := i + 1;
    }
  }

  /**
   * Adds a[i] to the gap-sorted a[..i]: it is held in `temp` while the
   * larger elements of its chain shift up, and then fills the hole.
   */
  method GapInsert(a: array<int>, gap: int, i: int)
    requires 0 < gap <= i < a.Length
    requires GapSorted(a[..], gap, i)
    modifies a
    ensures GapSorted(a[..], gap, i + 1)
    ensures forall k :: 0 <= k < a.Length && !OnChain(i, gap, k) ==> a[k] == old(a[k])
    ensures multiset(a[..]) == old(multiset(a[..]))
    ensures ChainsPermuted(old(a[..]), a[..], gap)
  {
    ghost var original := a[..];
    var temp := a[i];
    HoleStart(original, gap, i);
    var j := ShiftChain(a, gap, i, temp, original);
    HoleFilled(original, a[..], a[..][j := temp], gap, i, j, temp);
    a[j] := temp;
    ChainInsertPermutes(original, a[..], gap, i);
  }

  /**
   * The shifting loop: the hole at j moves down the chain i, i-gap,
   * i-2*gap, ... past every element strictly greater than temp.
   */
  method ShiftChain(a: array<int>, gap: int, i: int, temp: int, ghost original: seq<int>) returns (j: int)
    requires Shifting(original, a[..], gap, i, i, temp)
    modifies a
    ensures Shifting(original, a[..], gap, i, j, temp)
    ensures j < gap || a[j - gap] <= temp
  {
    j := i;
    while j >= gap && a[j - gap] > temp
      invariant 0 <= j <= i < a.Length
      invariant Shifting(original, a[..], gap, i, j, temp)
    {
      ShiftDown(a, gap, i, j, temp, original);
      j := j - gap;
    }
  }

  /** One shift: a[j - gap], greater than temp, moves up into the hole at j. */
  method ShiftDown(a: array<int>, gap: int, i: int, j: int, temp: int, ghost original: seq<int>)
    requires Shifting(original, a[..], gap, i, j, temp) && j >= gap && a[j - gap] > temp
    modifies a
    ensures Shifting(original, a[..], gap, i, j - gap, temp)
  {
    ghost var s := a[..];
    HoleStep(original, s, s[j := s[j - gap]], gap, i, j, temp);
    a[j] := a[j - gap];
    assert a[..] == s[j := s[j - gap]];
  }

  /** Cells p and q both exist and hold values in order. */
  ghost predicate Ordered(s: seq<int>, p: int, q: int) {
    0 <= p < |s| && 0 <= q < |s| && s[p] <= s[q]
  }

  /** Every pair of cells gap apart below n is in order. */
  ghost predicate GapSorted(s: seq<int>, gap: int, n: int) {
    forall p, q :: 0 <= p && q < n && q == p + gap ==> Ordered(s, p, q)
  }

  /** Cell k lies on the chain i, i - gap, i - 2*gap, ... that the insertion of a[i] walks. */
  ghost predicate OnChain(i: int, gap: int, k: int)
    decreases i - k
  {
    0 < gap && k <= i && (k == i || OnChain(i - gap, gap, k))
  }

  /**
   * The cells the shifting loop has moved so far, with the hole at j: each
   * chain cell above the hole holds the original value one gap below it,
   * and every other cell but the hole holds its original value.
   */
  ghost predicate ShiftedChain(original: seq<int>, s: seq<int>, gap: int, i: int, j: int) {
    && |s| == |original|
    && (forall k :: j < k < |s| && OnChain(i, gap, k) ==> gap <= k && s[k] == original[k - gap])
    && (forall k :: 0 <= k < |s| && k != j && !(j < k && OnChain(i, gap, k)) ==> s[k] == original[k])
  }

  /**
   * The state of the shifting loop, started on the sequence `original`, now
   * at s with temp = original[i] held aside and the hole at j on the chain:
   * every gap pair that does not touch the hole is in order, the pair
   * bridging the hole is in order, the element above the hole is greater
   * than temp, the chain cells above the hole have moved up one gap and no
   * other cell has moved, and putting temp into the hole gives back the
   * original elements.
   */
  ghost predicate Shifting(original: seq<int>, s: seq<int>, gap: int, i: int, j: int, temp: int) {
    && 0 < gap && 0 <= j <= i < |s| == |original|
    && OnChain(i, gap, j) && temp == original[i]
    && (forall p, q :: 0 <= p && q <= i && q == p + gap && p != j && q != j ==> Ordered(s, p, q))
    && (j >= gap && j + gap <= i ==> Ordered(s, j - gap, j + gap))
    && (j + gap <= i ==> s[j + gap] > temp)
    && ShiftedChain(original, s, gap, i, j)
    && multiset(s[j := temp]) == multiset(original)
  }

  /** Lifting a[i] out of the gap-sorted a[..i] starts the shifting loop. */
  lemma HoleStart(original: seq<int>, gap: int, i: int)
    requires 0 < gap <= i < |original| && GapSorted(original, gap, i)
    ensures Shifting(original, original, gap, i, i, original[i])
  {
    assert original[i := original[i]] == original;
  }

  /** One shift of the loop, t being s with the hole's lower neighbour moved up into it. */
  lemma HoleStep(original: seq<int>, s: seq<int>, t: seq<int>, gap: int, i: int, j: int, temp: int)
    requires Shifting(original, s, gap, i, j, temp)
    requires j >= gap && s[j - gap] > temp
    requires t == s[j := s[j - gap]]
    ensures Shifting(original, t, gap, i, j - gap, temp)
  {
    var h := j - gap;
    ChainBelow(i, gap, j);
    HoleFrame(original, s, t, gap, i, j);
    forall p, q | 0 <= p && q <= i && q == p + gap && p != h && q != h ensures Ordered(t, p, q) {
      if p == j {
        assert Ordered(s, h, q);
      } else {
        assert Ordered(s, p, q);
      }
    }
    if h >= gap {
      var g := h - gap;
      assert Ordered(s, g, h);
    }
    HoleMove(s, t, h, j, temp);
  }

  /** One shift moves the chain cell below the hole up into it and nothing else. */
  lemma HoleFrame(original: seq<int>, s: seq<int>, t: seq<int>, gap: int, i: int, j: int)
    requires ShiftedChain(original, s, gap, i, j) && 0 <= j <= i < |s|
    requires OnChain(i, gap, j) && j >= gap && t == s[j := s[j - gap]]
    requires OnChain(i, gap, j - gap) && forall k :: j - gap < k < j ==> !OnChain(i, gap, k)
    ensures ShiftedChain(original, t, gap, i, j - gap)
  {
  }

  /** When the loop stops, writing temp into the hole finishes the insertion. */
  lemma HoleFilled(original: seq<int>, s: seq<int>, t: seq<int>, gap: int, i: int, j: int, temp: int)
    requires Shifting(original, s, gap, i, j, temp)
    requires j < gap || s[j - gap] <= temp
    requires t == s[j := temp]
    ensures GapSorted(t, gap, i + 1)
    ensures |t| == |original| && forall k :: 0 <= k < |t| && !OnChain(i, gap, k) ==> t[k] == original[k]
    ensures multiset(t) == multiset(original)
  {
    forall p, q | 0 <= p && q < i + 1 && q == p + gap ensures Ordered(t, p, q) {
      if p != j && q != j {
        assert Ordered(s, p, q);
      }
    }
  }

  /** The chain cell one gap below j is on the chain, and no cell strictly between them is. */
  lemma {:induction false} ChainBelow(i: int, gap: int, j: int)
    requires OnChain(i, gap, j) && j >= gap
    ensures OnChain(i, gap, j - gap)
    ensures forall k :: j - gap < k < j ==> !OnChain(i, gap, k)
    decreases i - j
  {
    if j == i {
      assert OnChain(i - gap, gap, i - gap);
      forall k | j - gap < k < j ensures !OnChain(i, gap, k) {
        assert !OnChain(i - gap, gap, k);
      }
    } else {
      ChainBelow(i - gap, gap, j);
    }
  }

  /** Adding a multiple of gap keeps the remainder modulo gap. */
  lemma ModAddMultiple(y: int, x: int, gap: int)
    requires 0 < gap && x % gap == 0
    ensures (y + x) % gap == y % gap
  {
    var a, q := y / gap, x / gap;
    assert y == a * gap + y % gap;
    assert x == q * gap;
    assert y + x == (a + q) * gap + y % gap;
    ModOfMultiplePlus(a + q, gap, y % gap);
  }

  /** The remainder of q * gap + d for 0 <= d < gap is d. */
  lemma ModOfMultiplePlus(q: int, gap: int, d: int)
    requires 0 < gap && 0 <= d < gap
    ensures (q * gap + d) % gap == d
  {
    var x := q * gap + d;
    var m, r := x / gap, x % gap;
    assert x == m * gap + r && 0 <= r < gap;
    var e := q - m;
    assert e * gap == q * gap - m * gap;
    assert e * gap == r - d;
    if e >= 1 {
      MulAtLeast(e, gap);
    } else if e <= -1 {
      MulAtLeast(-e, gap);
    }
    assert e == 0;
  }

  /** A positive multiple of a positive number is at least that number. */
  lemma {:induction false} MulAtLeast(e: int, gap: int)
    requires e >= 1 && gap > 0
    ensures e * gap >= gap
    decreases e
  {
    if e > 1 {
      MulAtLeast(e - 1, gap);
      assert e * gap == (e - 1) * gap + gap;
    }
  }

  /**
   * The cells of s below n whose index is congruent to r modulo gap (when
   * `on`), or the cells whose index is not (when not `on`), in index order.
   * With `on`, this is one of the gap chains the passes sort independently.
   */
  ghost function Strided(s: seq<int>, gap: int, r: int, n: int, on: bool): seq<int>
    requires 0 < gap && 0 <= n <= |s|
  {
    if n == 0 then []
    else Strided(s, gap, r, n - 1, on) + (if InClass(n - 1, gap, r) == on then [s[n - 1]] else [])
  }

  /** Index k is congruent to r modulo gap: taking gap away repeatedly from k reaches r. */
  ghost predicate InClass(k: int, gap: int, r: int)
    decreases k
  {
    0 < gap && 0 <= k && (if k < gap then k == r else InClass(k - gap, gap, r))
  }

  /** InClass is congruence modulo gap, for every residue r in 0 .. gap-1. */
  lemma {:induction false} InClassMod(k: int, gap: int, r: int)
    requires 0 <= k && 0 <= r < gap
    ensures InClass(k, gap, r) <==> k % gap == r
    decreases k
  {
    if k < gap {
      ModOfMultiplePlus(0, gap, k);
    } else {
      InClassMod(k - gap, gap, r);
      ModOfMultiplePlus(1, gap, 0);
      ModAddMultiple(k - gap, gap, gap);
      assert k == (k - gap) + gap;
    }
  }

  /** Every chain of t holds the same elements as the same chain of s. */
  ghost predicate ChainsPermuted(s: seq<int>, t: seq<int>, gap: int) {
    && 0 < gap && |s| == |t|
    && forall r :: 0 <= r < gap ==> multiset(Strided(t, gap, r, |t|, true)) == multiset(Strided(s, gap, r, |s|, true))
  }

  /** A sequence's cells below n are one chain together with the cells off it. */
  lemma {:induction false} StridedSplit(s: seq<int>, gap: int, r: int, n: int)
    requires 0 < gap && 0 <= n <= |s|
    ensures multiset(s[..n]) == multiset(Strided(s, gap, r, n, true)) + multiset(Strided(s, gap, r, n, false))
  {
    if n > 0 {
      StridedSplit(s, gap, r, n - 1);
      assert s[..n] == s[..n - 1] + [s[n - 1]];
      SplitStep(s[..n - 1], Strided(s, gap, r, n - 1, true), Strided(s, gap, r, n - 1, false), s[n - 1],
                Strided(s, gap, r, n, true), Strided(s, gap, r, n, false), InClass(n - 1, gap, r));
    }
  }

  /** Appending x to a sequence split in two parts appends it to the part it belongs to. */
  lemma SplitStep(whole: seq<int>, on: seq<int>, off: seq<int>, x: int, on2: seq<int>, off2: seq<int>, isOn: bool)
    requires multiset(whole) == multiset(on) + multiset(off)
    requires isOn ==> on2 == on + [x] && off2 == off
    requires !isOn ==> on2 == on && off2 == off + [x]
    ensures multiset(whole + [x]) == multiset(on2) + multiset(off2)
  {
  }

  /** Cells that agree wherever the selection looks give the same selection. */
  lemma {:induction false} StridedSame(s: seq<int>, t: seq<int>, gap: int, r: int, n: int, on: bool)
    requires 0 < gap && 0 <= n <= |s| && n <= |t|
    requires forall k :: 0 <= k < n && InClass(k, gap, r) == on ==> s[k] == t[k]
    ensures Strided(s, gap, r, n, on) == Strided(t, gap, r, n, on)
  {
    if n > 0 {
      StridedSame(s, t, gap, r, n - 1, on);
    }
  }

  /** A cell on the chain of i lies in the same residue class modulo gap as i. */
  lemma {:induction false} ChainResidue(i: int, gap: int, k: int, r: int)
    requires OnChain(i, gap, k) && 0 <= k
    ensures InClass(k, gap, r) == InClass(i, gap, r)
    decreases i - k
  {
    if k != i {
      ChainResidue(i - gap, gap, k, r);
    }
  }

  /**
   * An insertion that permutes the whole array and moves no cell off the
   * chain of i permutes every chain: the other chains are untouched, and
   * the chain of i holds what is left.
   */
  lemma ChainInsertPermutes(s: seq<int>, t: seq<int>, gap: int, i: int)
    requires 0 < gap && |s| == |t| && multiset(s) == multiset(t)
    requires forall k :: 0 <= k < |t| && !OnChain(i, gap, k) ==> t[k] == s[k]
    ensures ChainsPermuted(s, t, gap)
  {
    forall r | 0 <= r < gap
      ensures multiset(Strided(t, gap, r, |t|, true)) == multiset(Strided(s, gap, r, |s|, true))
    {
      ChainInsertPermutesAt(s, t, gap, i, r);
    }
  }

  /** The residue-r part of ChainInsertPermutes. */
  lemma ChainInsertPermutesAt(s: seq<int>, t: seq<int>, gap: int, i: int, r: int)
    requires 0 < gap && |s| == |t| && multiset(s) == multiset(t)
    requires forall k :: 0 <= k < |t| && !OnChain(i, gap, k) ==> t[k] == s[k]
    requires 0 <= r < gap
    ensures multiset(Strided(t, gap, r, |t|, true)) == multiset(Strided(s, gap, r, |s|, true))
  {
    var n := |s|;
    var on := !InClass(i, gap, r);
    forall k | 0 <= k < n && InClass(k, gap, r) == on ensures s[k] == t[k] {
      if OnChain(i, gap, k) {
        ChainResidue(i, gap, k, r);
      }
    }
    StridedSame(s, t, gap, r, n, on);
    if !on {
      StridedSplit(s, gap, r, n);
      StridedSplit(t, gap, r, n);
      assert s[..n] == s && t[..n] == t;
      MultisetCancel(multiset(Strided(s, gap, r, n, true)), multiset(Strided(t, gap, r, n, true)), multiset(Strided(s, gap, r, n, false)));
    }
  }

  /** Equal sums with a common part have equal other parts. */
  lemma MultisetCancel(a: multiset<int>, b: multiset<int>, c: multiset<int>)
    requires a + c == b + c
    ensures a == b
  {
    forall x ensures a[x] == b[x] {
      assert (a + c)[x] == (b + c)[x];
    }
  }

  /** Every sequence permutes its own chains. */
  lemma ChainsPermutedSame(s: seq<int>, gap: int)
    requires 0 < gap
    ensures ChainsPermuted(s, s, gap)
  {
  }

  /** Chain permutations compose. */
  lemma ChainsPermutedTrans(s: seq<int>, t: seq<int>, u: seq<int>, gap: int)
    requires ChainsPermuted(s, t, gap) && ChainsPermuted(t, u, gap)
    ensures ChainsPermuted(s, u, gap)
  {
  }

  /** Moving the hole from `to` down to `from` keeps the multiset with temp in the hole. */
  lemma HoleMove(s: seq<int>, t: seq<int>, from: int, to: int, v: int)
    requires 0 <= from < to < |s|
    requires t == s[to := s[from]]
    ensures multiset(t[from := v]) == multiset(s[to := v])
  {
    var c := s[to := v];
    assert t[from := v] == c[from := c[to]][to := c[from]];
    SwapPermutes(c, from, to);
  }
}
