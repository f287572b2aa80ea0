// The static helpers of `java.util.TimSort`: finding and extending runs,
// binary insertion sort, the run-length policy and the galloping searches.
// Arrays are sorted in place; every comparison goes through `Rank`.
//
// Contracts write some predicates as `P(...) == true`: the comparison keeps
// the predicate as one fact rather than unfolded into its conjuncts, which
// keeps the proofs that carry it small.
module TimSortRuns {
  import opened SortSpec
  import opened JavaInts
  import ArrayCopy

  /** Arrays shorter than this are sorted by binary insertion alone. */
  const MIN_MERGE: int := 32

  function Pow2(k: nat): (r: nat)
    ensures r >= 1
  {
    if k == 0 then 1 else 2 * Pow2(k - 1)
  }

  predicate IsPowerOfTwo(n: nat)
    decreases n
  {
    n == 1 || (n > 1 && n % 2 == 0 && IsPowerOfTwo(n / 2))
  }

  /** How many times `minRunLength` halves `n` before it drops below `MIN_MERGE`. */
  function Shifts(n: nat): nat
    decreases n
  {
    if n < MIN_MERGE then 0 else 1 + Shifts(n / 2)
  }

  /** `n` divided by `2^Shifts(n)`, rounded up: the minimum run length for an array of `n` elements. */
  function MinRun(n: nat): nat
  {
    var p := Pow2(Shifts(n));
    n / p + (if n % p == 0 then 0 else 1)
  }

  lemma {:induction false} MulAtLeast(a: int, d: int)
    requires a >= 1 && d >= 0
    ensures a * d >= d
    decreases a
  {
    if a > 1 {
      MulAtLeast(a - 1, d);
      assert a * d == (a - 1) * d + d;
    }
  }

  /** Division has one quotient and one remainder. */
  lemma DivUnique(x: nat, d: nat, q: nat, r: nat)
    requires d >= 1 && r < d && x == q * d + r
    ensures x / d == q && x % d == r
  {
    var q0, r0 := x / d, x % d;
    assert (q - q0) * d == r0 - r by {
      assert q0 * d + r0 == x;
      assert q * d - q0 * d == (q - q0) * d;
    }
    if q > q0 {
      MulAtLeast(q - q0, d);
    } else if q < q0 {
      MulAtLeast(q0 - q, d);
    }
  }

  lemma MulDistrib(c: int, q: int, e: int, p: int)
    ensures (c * q + e) * p == c * (p * q) + e * p
  {
  }

  lemma MulBelow(e: nat, q: nat, p: nat, b: nat)
    requires e < q && b < p
    ensures e * p + b < p * q
  {
    if e < q - 1 {
      MulAtLeast(q - 1 - e, p);
    }
    assert (q - 1 - e) * p == q * p - p - e * p;
  }

  /** Dividing by `p` and then by `q` is dividing by `p * q`; it is exact when both steps are. */
  lemma DivDiv(x: nat, p: nat, q: nat)
    requires p >= 1 && q >= 1
    ensures x / (p * q) == (x / p) / q
    ensures x % (p * q) == 0 <==> x % p == 0 && (x / p) % q == 0
  {
    var a: nat, b: nat := x / p, x % p;
    var c: nat, e: nat := a / q, a % q;
    MulDistrib(c, q, e, p);
    MulBelow(e, q, p, b);
    if e > 0 {
      MulAtLeast(e, p);
    }
    DivUnique(x, p * q, c, e * p + b);
  }

  /** Halving `n` once more than the minimum run length leaves a value in `[16, 32)`. */
  lemma {:induction false} ShiftedRange(n: nat)
    requires n >= MIN_MERGE
    ensures 16 <= n / Pow2(Shifts(n)) < 32
    decreases n
  {
    var m := n / 2;
    DivDiv(n, 2, Pow2(Shifts(m)));
    if m >= MIN_MERGE {
      ShiftedRange(m);
    }
  }

  lemma {:induction false} PowerOfTwoBetween(m: nat, h: nat)
    requires IsPowerOfTwo(m) && IsPowerOfTwo(h) && h <= m < 2 * h
    ensures m == h
    decreases h
  {
    if h > 1 {
      PowerOfTwoBetween(m / 2, h / 2);
    }
  }

  /** A power of two is halved exactly, down to 16. */
  lemma {:induction false} ShiftedPowerOfTwo(n: nat)
    requires n >= MIN_MERGE && IsPowerOfTwo(n)
    ensures n / Pow2(Shifts(n)) == 16 && n % Pow2(Shifts(n)) == 0
    decreases n
  {
    var m := n / 2;
    if m < MIN_MERGE {
      assert IsPowerOfTwo(16) by {
        assert IsPowerOfTwo(8) && IsPowerOfTwo(4) && IsPowerOfTwo(2);
      }
      PowerOfTwoBetween(m, 16);
      DivDiv(n, 2, 1);
    } else {
      ShiftedPowerOfTwo(m);
      DivDiv(n, 2, Pow2(Shifts(m)));
    }
  }

  /** The minimum run length is `n` itself below `MIN_MERGE`, otherwise between 16 and 32, and 16 for a power of two. */
  lemma MinRunBounds(n: nat)
    ensures n < MIN_MERGE ==> MinRun(n) == n
    ensures n >= MIN_MERGE ==> 16 <= MinRun(n) <= 32
    ensures n >= MIN_MERGE && IsPowerOfTwo(n) ==> MinRun(n) == 16
  {
    if n >= MIN_MERGE {
      ShiftedRange(n);
      if IsPowerOfTwo(n) {
        ShiftedPowerOfTwo(n);
      }
    }
  }

  /**
   * For `n` of at least `MIN_MERGE`, `n / MinRun(n)` is at most the power
   * of two `2^Shifts(n)` and above fifteen sixteenths of it; it is strictly
   * below it exactly when a 1 bit was shifted off.
   */
  lemma MinRunRatio(n: nat)
    requires n >= MIN_MERGE
    ensures (MinRun(n) - 1) * Pow2(Shifts(n)) < n <= MinRun(n) * Pow2(Shifts(n))
    ensures n < MinRun(n) * Pow2(Shifts(n)) <==> n % Pow2(Shifts(n)) != 0
    ensures 15 * (MinRun(n) * Pow2(Shifts(n))) < 16 * n
  {
    MinRunBounds(n);
    CeilingBounds(n, Pow2(Shifts(n)), MinRun(n));
  }

  /** `r`, the quotient `n / p` rounded up and at least 16, brackets `n / p`. */
  lemma CeilingBounds(n: nat, p: nat, r: nat)
    requires p >= 1 && r >= 16
    requires r == n / p + (if n % p == 0 then 0 else 1)
    ensures (r - 1) * p < n <= r * p
    ensures n < r * p <==> n % p != 0
    ensures 15 * (r * p) < 16 * n
  {
    var q, rem := n / p, n % p;
    assert n == q * p + rem;
    assert (r - 1) * p == r * p - p;
    if rem == 0 {
      assert r * p == n;
    } else {
      assert r * p == q * p + p;
    }
    assert r * p == 16 * p + (r - 16) * p;
    assert (r - 16) * p >= 0;
  }

  /** One step of `minRunLength`: halving `n / 2^k` once more, and the bit it shifts off. */
  lemma HalveStep(n: nat, k: nat, m: nat)
    requires m == n / Pow2(k) && m >= MIN_MERGE
    ensures m / 2 == n / Pow2(k + 1)
    ensures n % Pow2(k + 1) == 0 <==> n % Pow2(k) == 0 && m % 2 == 0
    ensures Shifts(m) == 1 + Shifts(m / 2)
  {
    assert Pow2(k + 1) == Pow2(k) * 2;
    DivDiv(n, Pow2(k), 2);
  }

  /**
   * The minimum acceptable run length for an array of `n` elements: `n`
   * shifted right until it is below `MIN_MERGE`, plus one if any 1 bit was
   * shifted off.
   */
  method MinRunLength(n: int) returns (r: int)
    requires n >= 0
    ensures r == MinRun(n)
    ensures n < MIN_MERGE ==> r == n
    ensures n >= MIN_MERGE ==> 16 <= r <= 32
    ensures n >= MIN_MERGE && IsPowerOfTwo(n) ==> r == 16
  {
    var m := n;
    var bit := 0;
    ghost var k: nat := 0;
    while m >= MIN_MERGE
      invariant m >= 0 && m == n / Pow2(k)
      invariant bit == if n % Pow2(k) == 0 then 0 else 1
      invariant Shifts(n) == k + Shifts(m)
      decreases m
    {
      HalveStep(n, k, m);
      if m % 2 == 1 {
        bit := 1;  // r |= (n & 1)
      }
      m := m / 2;
      k := k + 1;
    }
    r := m + bit;
    MinRunBounds(n);
  }

  /** A sequence is its three slices at `lo` and `hi`, put back together. */
  lemma Splice<T>(s: seq<T>, lo: int, hi: int)
    requires 0 <= lo <= hi <= |s|
    ensures s == s[..lo] + s[lo..hi] + s[hi..]
  {
  }

  /** Reverses `a[lo..hi]` in place. */
  method ReverseRange<T>(a: array<T>, lo: int, hi: int)
    requires 0 <= lo <= hi <= a.Length
    modifies a
    ensures a[..] == old(a[..lo]) + Reversed(old(a[lo..hi])) + old(a[hi..])
  {
    ghost var A := a[..];
    var l, h := lo, hi - 1;
    while l < h
      invariant lo <= l && l - lo == hi - 1 - h && l <= h + 1
      invariant forall k :: lo <= k < l || h < k < hi ==> a[k] == A[lo + hi - 1 - k]
      invariant forall k :: 0 <= k < lo || l <= k <= h || hi <= k < a.Length ==> a[k] == A[k]
    {
      var t := a[l];
      a[l] := a[h];
      a[h] := t;
      l, h := l + 1, h - 1;
    }
    ReversedInPlace(a[..], A, lo, hi);
  }

  /** A sequence that mirrors `A[lo..hi]` and agrees with `A` elsewhere is `A` with that slice reversed. */
  lemma ReversedInPlace<T>(s: seq<T>, A: seq<T>, lo: int, hi: int)
    requires |s| == |A| && 0 <= lo <= hi <= |A|
    requires forall k :: lo <= k < hi ==> s[k] == A[lo + hi - 1 - k]
    requires forall k :: 0 <= k < lo || hi <= k < |A| ==> s[k] == A[k]
    ensures s == A[..lo] + Reversed(A[lo..hi]) + A[hi..]
  {
    ghost var R := Reversed(A[lo..hi]);
    assert s[lo..hi] == R;
    assert s[..lo] == A[..lo] && s[hi..] == A[hi..];
    Splice(s, lo, hi);
  }

  /** The three parts of a concatenation are its slices. */
  lemma SpliceParts<T>(s: seq<T>, p: seq<T>, m: seq<T>, q: seq<T>)
    requires s == p + m + q
    ensures s[..|p|] == p && s[|p|..|p| + |m|] == m && s[|p| + |m|..] == q
  {
  }

  /** The end of the strictly descending run that starts with the descent `a[lo] > a[lo + 1]`. */
  method DescendingRunEnd<T>(a: array<T>, lo: int, hi: int, rank: T -> int) returns (runHi: int)
    requires 0 <= lo && lo + 2 <= hi <= a.Length
    requires Rank(rank, a[lo + 1]) < Rank(rank, a[lo])
    ensures lo + 2 <= runHi <= hi
    ensures Descending(rank, a[lo..runHi])
    ensures runHi < hi ==> Rank(rank, a[runHi - 1]) <= Rank(rank, a[runHi])
  {
    runHi := lo + 2;
    while runHi < hi && Rank(rank, a[runHi]) < Rank(rank, a[runHi - 1])
      invariant lo + 2 <= runHi <= hi
      invariant Descending(rank, a[lo..runHi])
    {
      runHi := runHi + 1;
    }
  }

  /** The end of the non-decreasing run that starts with `a[lo] <= a[lo + 1]`. */
  method AscendingRunEnd<T>(a: array<T>, lo: int, hi: int, rank: T -> int) returns (runHi: int)
    requires 0 <= lo && lo + 2 <= hi <= a.Length
    requires Rank(rank, a[lo]) <= Rank(rank, a[lo + 1])
    ensures lo + 2 <= runHi <= hi
    ensures Sorted(rank, a[lo..runHi])
    ensures runHi < hi ==> Rank(rank, a[runHi]) < Rank(rank, a[runHi - 1])
  {
    runHi := lo + 2;
    while runHi < hi && Rank(rank, a[runHi]) >= Rank(rank, a[runHi - 1])
      invariant lo + 2 <= runHi <= hi
      invariant Sorted(rank, a[lo..runHi])
    {
      runHi := runHi + 1;
    }
  }

  /**
   * Finds the run that begins at `lo`: the longest non-decreasing prefix of
   * `a[lo..hi]`, or the longest strictly decreasing one, which is reversed
   * in place.  Returns the run's length.
   */
  method CountRunAndMakeAscending<T>(a: array<T>, lo: int, hi: int, rank: T -> int) returns (n: int)
    requires 0 <= lo < hi <= a.Length
    modifies a
    ensures 1 <= n <= hi - lo
    ensures a[..lo] == old(a[..lo]) && a[lo + n..] == old(a[lo + n..])
    ensures lo + 1 == hi || Rank(rank, old(a[lo])) <= Rank(rank, old(a[lo + 1])) ==>
              a[lo..lo + n] == old(a[lo..lo + n]) && Sorted(rank, a[lo..lo + n])
              && (lo + n < hi ==> Rank(rank, old(a[lo + n])) < Rank(rank, old(a[lo + n - 1])))
    ensures lo + 1 < hi && Rank(rank, old(a[lo + 1])) < Rank(rank, old(a[lo])) ==>
              Descending(rank, old(a[lo..lo + n])) && a[lo..lo + n] == Reversed(old(a[lo..lo + n]))
              && (lo + n < hi ==> Rank(rank, old(a[lo + n - 1])) <= Rank(rank, old(a[lo + n])))
    ensures Sorted(rank, a[lo..lo + n]) && SameTies(rank, a[lo..lo + n], old(a[lo..lo + n]))
  {
    if lo + 1 == hi {
      n := 1;
      SameTiesRefl(rank, a[lo..hi]);
      assert a[lo..lo + n] == old(a[lo..lo + n]) && Sorted(rank, a[lo..lo + n]);
    } else if Rank(rank, a[lo + 1]) < Rank(rank, a[lo]) {
      n := ReverseDescendingRun(a, lo, hi, rank);
    } else {
      var runHi := AscendingRunEnd(a, lo, hi, rank);
      SameTiesRefl(rank, a[lo..runHi]);
      n := runHi - lo;
      assert a[lo..lo + n] == old(a[lo..lo + n]) && Sorted(rank, a[lo..lo + n]);
    }
  }

  /**
   * The descending case of `countRunAndMakeAscending`: the strictly
   * descending run at `lo` is found and reversed in place.
   */
  method ReverseDescendingRun<T>(a: array<T>, lo: int, hi: int, rank: T -> int) returns (n: int)
    requires 0 <= lo && lo + 2 <= hi <= a.Length
    requires Rank(rank, a[lo + 1]) < Rank(rank, a[lo])
    modifies a
    ensures 2 <= n <= hi - lo
    ensures a[..lo] == old(a[..lo]) && a[lo + n..] == old(a[lo + n..])
    ensures Descending(rank, old(a[lo..lo + n])) && a[lo..lo + n] == Reversed(old(a[lo..lo + n]))
    ensures lo + n < hi ==> Rank(rank, old(a[lo + n - 1])) <= Rank(rank, old(a[lo + n]))
    ensures Sorted(rank, a[lo..lo + n]) && SameTies(rank, a[lo..lo + n], old(a[lo..lo + n]))
  {
    var runHi := DescendingRunEnd(a, lo, hi, rank);
    ghost var A := a[..];
    ReverseRange(a, lo, runHi);
    SpliceParts(a[..], A[..lo], Reversed(A[lo..runHi]), A[runHi..]);
    ReversedDescending(rank, A[lo..runHi]);
    n := runHi - lo;
  }

  /**
   * Binary search for the slot of `pivot` in the sorted `a[lo..start]`: after
   * every element ranked no higher and before every element ranked higher.
   */
  method PivotSlot<T>(a: array<T>, lo: int, start: int, pivot: T, rank: T -> int) returns (left: int)
    requires 0 <= lo <= start <= a.Length
    requires Sorted(rank, a[lo..start])
    ensures lo <= left <= start
    ensures forall i :: lo <= i < left ==> Rank(rank, a[i]) <= Rank(rank, pivot)
    ensures forall i :: left <= i < start ==> Rank(rank, pivot) < Rank(rank, a[i])
  {
    left := lo;
    var right := start;
    while left < right
      invariant lo <= left <= right <= start
      invariant forall i :: lo <= i < left ==> Rank(rank, a[i]) <= Rank(rank, pivot)
      invariant forall i :: right <= i < start ==> Rank(rank, pivot) < Rank(rank, a[i])
    {
      var mid := (left + right) / 2;  // (left + right) >>> 1
      if Rank(rank, pivot) < Rank(rank, a[mid]) {
        assert forall i :: mid <= i < start ==> Rank(rank, a[mid]) <= Rank(rank, a[i]) by {
          assert forall i :: mid <= i < start ==> a[i] == a[lo..start][i - lo];
        }
        right := mid;
      } else {
        assert forall i :: lo <= i <= mid ==> Rank(rank, a[i]) <= Rank(rank, a[mid]) by {
          assert forall i :: lo <= i <= mid ==> a[i] == a[lo..start][i - lo];
        }
        left := mid + 1;
      }
    }
  }

  /**
   * Shifts `a[left..start]` up by one and stores `pivot` at `left`; the
   * element at `start` is overwritten.
   */
  method SlideAndPlace<T>(a: array<T>, left: int, start: int, pivot: T)
    requires 0 <= left <= start < a.Length
    modifies a
    ensures a[..] == old(a[..left]) + [pivot] + old(a[left..start]) + old(a[start + 1..])
  {
    ghost var A := a[..];
    var n := start - left;
    if n == 2 {
      a[left + 2] := a[left + 1];
      a[left + 1] := a[left];
    } else if n == 1 {
      a[left + 1] := a[left];
    } else {
      ArrayCopy.Copy(a, left, a, left + 1, n);
    }
    a[left] := pivot;
    assert a[..] == A[..left] + [pivot] + A[left..start] + A[start + 1..];
  }

  /** `a[lo..start]` is a stable sort of the same range of `A`, and nothing else has moved. */
  ghost predicate SortedPrefix<T>(rank: T -> int, s: seq<T>, lo: int, start: int, A: seq<T>)
  {
    0 <= lo <= start <= |s| == |A|
    && Sorted(rank, s[lo..start]) && SameTies(rank, s[lo..start], A[lo..start])
    && s[..lo] == A[..lo] && s[start..] == A[start..]
  }

  lemma SameTiesTrans<T>(rank: T -> int, s: seq<T>, t: seq<T>, u: seq<T>)
    requires SameTies(rank, s, t) && SameTies(rank, t, u)
    ensures SameTies(rank, s, u)
  {
  }

  /** One round of binary insertion sort: `a[start]` is inserted into the sorted `a[lo..start]`. */
  method InsertStep<T>(a: array<T>, lo: int, start: int, rank: T -> int, ghost A: seq<T>)
    requires lo < start < a.Length
    requires SortedPrefix(rank, a[..], lo, start, A)
    modifies a
    ensures SortedPrefix(rank, a[..], lo, start + 1, A) == true
  {
    ghost var B := a[..];
    var pivot := a[start];
    var left := PivotSlot(a, lo, start, pivot, rank);
    SlideAndPlace(a, left, start, pivot);
    ghost var run := B[lo..start];
    InsertStable(rank, run, pivot, left - lo);
    SameTiesAppend(rank, run, [pivot], A[lo..start], [A[start]]);
    InsertParts(a[..], B, lo, left, start, pivot, A);
    SameTiesTrans(rank, a[lo..start + 1], run + [pivot], A[lo..start + 1]);
  }

  lemma InsertParts<T>(s: seq<T>, B: seq<T>, lo: int, left: int, start: int, pivot: T, A: seq<T>)
    requires 0 <= lo <= left <= start < |B| == |A|
    requires B[start..] == A[start..] && B[..lo] == A[..lo] && pivot == B[start]
    requires s == B[..left] + [pivot] + B[left..start] + B[start + 1..]
    ensures s[lo..start + 1] == B[lo..start][..left - lo] + [pivot] + B[lo..start][left - lo..]
    ensures A[lo..start] + [A[start]] == A[lo..start + 1]
    ensures s[..lo] == A[..lo] && s[start + 1..] == A[start + 1..]
  {
    assert A[start] == B[start];
  }

  /**
   * Sorts `a[lo..hi]` by binary insertion, given that `a[lo..start]` is
   * already sorted.  Each element is inserted after the elements it ties
   * with, so the sort is stable.
   */
  method BinarySort<T>(a: array<T>, lo: int, hi: int, start: int, rank: T -> int)
    requires 0 <= lo <= start <= hi <= a.Length
    requires Sorted(rank, a[lo..start])
    modifies a
    ensures Sorted(rank, a[lo..hi]) && SameTies(rank, a[lo..hi], old(a[lo..hi]))
    ensures a[..lo] == old(a[..lo]) && a[hi..] == old(a[hi..])
  {
    ghost var A := a[..];
    var s := start;
    if s == lo {
      s := s + 1;
    }
    if lo == hi {
      SameTiesRefl(rank, a[lo..hi]);
      return;
    }
    assert SortedPrefix(rank, a[..], lo, s, A) by {
      SameTiesRefl(rank, a[lo..s]);
    }
    while s < hi
      invariant lo < s <= hi
      invariant SortedPrefix(rank, a[..], lo, s, A) == true
    {
      InsertStep(a, lo, s, rank, A);
      s := s + 1;
    }
  }

  /**
   * The cut of a sorted range `a[base..base + len]` at `key` that
   * `gallopLeft` finds: every element before index `k` is ranked below
   * `key`, every element from `k` on at least as high.
   */
  ghost predicate LeftCut<T>(rank: T -> int, a: array<T>, base: int, len: int, key: T, k: int)
    reads a
    requires 0 <= base && base + len <= a.Length
  {
    0 <= k <= len
    && (forall i :: base <= i < base + k ==> Rank(rank, a[i]) < Rank(rank, key))
    && (forall i :: base + k <= i < base + len ==> Rank(rank, key) <= Rank(rank, a[i]))
  }

  /**
   * The cut that `gallopRight` finds: every element before index `k` is
   * ranked no higher than `key`, every element from `k` on higher.
   */
  ghost predicate RightCut<T>(rank: T -> int, a: array<T>, base: int, len: int, key: T, k: int)
    reads a
    requires 0 <= base && base + len <= a.Length
  {
    0 <= k <= len
    && (forall i :: base <= i < base + k ==> Rank(rank, a[i]) <= Rank(rank, key))
    && (forall i :: base + k <= i < base + len ==> Rank(rank, key) < Rank(rank, a[i]))
  }

  /** In a sorted range the cut is decided by the elements on either side of it. */
  lemma LeftCutAt<T>(rank: T -> int, a: array<T>, base: int, len: int, key: T, k: int)
    requires 0 <= base && base + len <= a.Length && 0 <= k <= len
    requires Sorted(rank, a[base..base + len])
    requires k == 0 || Rank(rank, a[base + k - 1]) < Rank(rank, key)
    requires k == len || Rank(rank, key) <= Rank(rank, a[base + k])
    ensures LeftCut(rank, a, base, len, key, k)
  {
    assert forall i :: base <= i < base + len ==> a[i] == a[base..base + len][i - base];
  }

  lemma RightCutAt<T>(rank: T -> int, a: array<T>, base: int, len: int, key: T, k: int)
    requires 0 <= base && base + len <= a.Length && 0 <= k <= len
    requires Sorted(rank, a[base..base + len])
    requires k == 0 || Rank(rank, a[base + k - 1]) <= Rank(rank, key)
    requires k == len || Rank(rank, key) < Rank(rank, a[base + k])
    ensures RightCut(rank, a, base, len, key, k)
  {
    assert forall i :: base <= i < base + len ==> a[i] == a[base..base + len][i - base];
  }

  /** The number of elements of `s` ranked below `key`. */
  function CountBelow<T>(rank: T -> int, s: seq<T>, key: T): (r: nat)
    ensures r <= |s|
  {
    if s == [] then 0 else (if Rank(rank, s[0]) < Rank(rank, key) then 1 else 0) + CountBelow(rank, s[1..], key)
  }

  /** The number of elements of `s` ranked no higher than `key`. */
  function CountAtMost<T>(rank: T -> int, s: seq<T>, key: T): (r: nat)
    ensures r <= |s|
  {
    if s == [] then 0 else (if Rank(rank, s[0]) <= Rank(rank, key) then 1 else 0) + CountAtMost(rank, s[1..], key)
  }

  /** Where `s` is cut into elements ranked below `key` and the rest, the cut is at the count of the former. */
  lemma {:induction false} CountBelowCut<T>(rank: T -> int, s: seq<T>, key: T, k: int)
    requires 0 <= k <= |s|
    requires forall i :: 0 <= i < k ==> Rank(rank, s[i]) < Rank(rank, key)
    requires forall i :: k <= i < |s| ==> Rank(rank, key) <= Rank(rank, s[i])
    ensures CountBelow(rank, s, key) == k
    decreases |s|
  {
    if s != [] {
      CountBelowCut(rank, s[1..], key, if k == 0 then 0 else k - 1);
    }
  }

  /** Where `s` is cut into elements ranked no higher than `key` and the rest, the cut is at the count of the former. */
  lemma {:induction false} CountAtMostCut<T>(rank: T -> int, s: seq<T>, key: T, k: int)
    requires 0 <= k <= |s|
    requires forall i :: 0 <= i < k ==> Rank(rank, s[i]) <= Rank(rank, key)
    requires forall i :: k <= i < |s| ==> Rank(rank, key) < Rank(rank, s[i])
    ensures CountAtMost(rank, s, key) == k
    decreases |s|
  {
    if s != [] {
      CountAtMostCut(rank, s[1..], key, if k == 0 then 0 else k - 1);
    }
  }

  /** The left cut is the number of elements ranked below `key`, so there is only one. */
  lemma LeftCutCount<T>(rank: T -> int, a: array<T>, base: int, len: int, key: T, k: int)
    requires 0 <= base && base + len <= a.Length
    requires LeftCut(rank, a, base, len, key, k)
    ensures k == CountBelow(rank, a[base..base + len], key)
  {
    CountBelowCut(rank, a[base..base + len], key, k);
  }

  /** The right cut is the number of elements ranked no higher than `key`, so there is only one. */
  lemma RightCutCount<T>(rank: T -> int, a: array<T>, base: int, len: int, key: T, k: int)
    requires 0 <= base && base + len <= a.Length
    requires RightCut(rank, a, base, len, key, k)
    ensures k == CountAtMost(rank, a[base..base + len], key)
  {
    CountAtMostCut(rank, a[base..base + len], key, k);
  }

  /** Gallops up from `hint` while `key` is ranked above the element reached; brackets the left cut. */
  method GallopLeftUp<T>(key: T, a: array<T>, base: int, len: int, hint: int, rank: T -> int) returns (lastOfs: int, ofs: int)
    requires 0 <= hint < len && 0 <= base && base + len <= a.Length <= INT_MAX
    requires Rank(rank, a[base + hint]) < Rank(rank, key)
    ensures hint <= lastOfs < ofs <= len
    ensures Rank(rank, a[base + lastOfs]) < Rank(rank, key)
    ensures ofs == len || Rank(rank, key) <= Rank(rank, a[base + ofs])
  {
    lastOfs, ofs := 0, 1;
    var maxOfs := len - hint;
    while ofs < maxOfs && Rank(rank, key) > Rank(rank, a[base + hint + ofs])
      invariant 0 <= lastOfs < ofs <= INT_MAX && lastOfs < maxOfs
      invariant Rank(rank, a[base + hint + lastOfs]) < Rank(rank, key)
      decreases maxOfs - lastOfs
    {
      lastOfs := ofs;
      ofs := Add(Add(ofs, ofs), 1);  // (ofs << 1) + 1
      if ofs <= 0 {  // int overflow
        ofs := maxOfs;
      }
    }
    if ofs > maxOfs {
      ofs := maxOfs;
    }
    lastOfs := lastOfs + hint;
    ofs := ofs + hint;
  }

  /** Gallops down from `hint` while `key` is ranked no higher than the element reached; brackets the left cut. */
  method GallopLeftDown<T>(key: T, a: array<T>, base: int, len: int, hint: int, rank: T -> int) returns (lastOfs: int, ofs: int)
    requires 0 <= hint < len && 0 <= base && base + len <= a.Length <= INT_MAX
    requires Rank(rank, key) <= Rank(rank, a[base + hint])
    ensures -1 <= lastOfs < ofs <= hint
    ensures lastOfs == -1 || Rank(rank, a[base + lastOfs]) < Rank(rank, key)
    ensures Rank(rank, key) <= Rank(rank, a[base + ofs])
  {
    lastOfs, ofs := 0, 1;
    var maxOfs := hint + 1;
    while ofs < maxOfs && Rank(rank, key) <= Rank(rank, a[base + hint - ofs])
      invariant 0 <= lastOfs < ofs <= INT_MAX && lastOfs < maxOfs
      invariant Rank(rank, key) <= Rank(rank, a[base + hint - lastOfs])
      decreases maxOfs - lastOfs
    {
      lastOfs := ofs;
      ofs := Add(Add(ofs, ofs), 1);  // (ofs << 1) + 1
      if ofs <= 0 {  // int overflow
        ofs := maxOfs;
      }
    }
    if ofs > maxOfs {
      ofs := maxOfs;
    }
    var tmp := lastOfs;
    lastOfs := hint - ofs;
    ofs := hint - tmp;
  }

  /** Binary search for the left cut inside the bracket `(lastOfs, ofs]`. */
  method NarrowLeft<T>(key: T, a: array<T>, base: int, len: int, lastOfs0: int, ofs0: int, rank: T -> int) returns (k: int)
    requires 0 <= base && base + len <= a.Length && -1 <= lastOfs0 < ofs0 <= len
    requires lastOfs0 == -1 || Rank(rank, a[base + lastOfs0]) < Rank(rank, key)
    requires ofs0 == len || Rank(rank, key) <= Rank(rank, a[base + ofs0])
    ensures lastOfs0 < k <= ofs0
    ensures k == 0 || Rank(rank, a[base + k - 1]) < Rank(rank, key)
    ensures k == len || Rank(rank, key) <= Rank(rank, a[base + k])
  {
    var lastOfs, ofs := lastOfs0 + 1, ofs0;
    while lastOfs < ofs
      invariant lastOfs0 < lastOfs <= ofs <= ofs0
      invariant lastOfs == 0 || Rank(rank, a[base + lastOfs - 1]) < Rank(rank, key)
      invariant ofs == len || Rank(rank, key) <= Rank(rank, a[base + ofs])
    {
      var m := lastOfs + (ofs - lastOfs) / 2;  // lastOfs + ((ofs - lastOfs) >>> 1)
      if Rank(rank, key) > Rank(rank, a[base + m]) {
        lastOfs := m + 1;  // a[base + m] < key
      } else {
        ofs := m;  // key <= a[base + m]
      }
    }
    k := ofs;
  }

  /**
   * Locates the position at which to insert `key` into the sorted range
   * `a[base..base + len]`, before any elements equal to it: the number of
   * elements ranked below `key`.  The search gallops from `hint` in steps
   * of 1, 3, 7, ... (with Java `int` wrap-around of the step) and then
   * binary-searches the bracket found.
   */
  method GallopLeft<T>(key: T, a: array<T>, base: int, len: int, hint: int, rank: T -> int) returns (k: int)
    requires len > 0 && 0 <= hint < len && 0 <= base && base + len <= a.Length <= INT_MAX
    requires Sorted(rank, a[base..base + len])
    ensures LeftCut(rank, a, base, len, key, k)
    ensures k == CountBelow(rank, a[base..base + len], key)
  {
    var lastOfs, ofs;
    if Rank(rank, key) > Rank(rank, a[base + hint]) {
      lastOfs, ofs := GallopLeftUp(key, a, base, len, hint, rank);
    } else {
      lastOfs, ofs := GallopLeftDown(key, a, base, len, hint, rank);
    }
    k := NarrowLeft(key, a, base, len, lastOfs, ofs, rank);
    LeftCutAt(rank, a, base, len, key, k);
    LeftCutCount(rank, a, base, len, key, k);
  }

  /** Gallops down from `hint` while `key` is ranked below the element reached; brackets the right cut. */
  method GallopRightDown<T>(key: T, a: array<T>, base: int, len: int, hint: int, rank: T -> int) returns (lastOfs: int, ofs: int)
    requires 0 <= hint < len && 0 <= base && base + len <= a.Length <= INT_MAX
    requires Rank(rank, key) < Rank(rank, a[base + hint])
    ensures -1 <= lastOfs < ofs <= hint
    ensures lastOfs == -1 || Rank(rank, a[base + lastOfs]) <= Rank(rank, key)
    ensures Rank(rank, key) < Rank(rank, a[base + ofs])
  {
    ofs, lastOfs := 1, 0;
    var maxOfs := hint + 1;
    while ofs < maxOfs && Rank(rank, key) < Rank(rank, a[base + hint - ofs])
      invariant 0 <= lastOfs < ofs <= INT_MAX && lastOfs < maxOfs
      invariant Rank(rank, key) < Rank(rank, a[base + hint - lastOfs])
      decreases maxOfs - lastOfs
    {
      lastOfs := ofs;
      ofs := Add(Add(ofs, ofs), 1);  // (ofs << 1) + 1
      if ofs <= 0 {  // int overflow
        ofs := maxOfs;
      }
    }
    if ofs > maxOfs {
      ofs := maxOfs;
    }
    var tmp := lastOfs;
    lastOfs := hint - ofs;
    ofs := hint - tmp;
  }

  /** Gallops up from `hint` while `key` is ranked at least as high as the element reached; brackets the right cut. */
  method GallopRightUp<T>(key: T, a: array<T>, base: int, len: int, hint: int, rank: T -> int) returns (lastOfs: int, ofs: int)
    requires 0 <= hint < len && 0 <= base && base + len <= a.Length <= INT_MAX
    requires Rank(rank, a[base + hint]) <= Rank(rank, key)
    ensures hint <= lastOfs < ofs <= len
    ensures Rank(rank, a[base + lastOfs]) <= Rank(rank, key)
    ensures ofs == len || Rank(rank, key) < Rank(rank, a[base + ofs])
  {
    ofs, lastOfs := 1, 0;
    var maxOfs := len - hint;
    while ofs < maxOfs && Rank(rank, key) >= Rank(rank, a[base + hint + ofs])
      invariant 0 <= lastOfs < ofs <= INT_MAX && lastOfs < maxOfs
      invariant Rank(rank, a[base + hint + lastOfs]) <= Rank(rank, key)
      decreases maxOfs - lastOfs
    {
      lastOfs := ofs;
      ofs := Add(Add(ofs, ofs), 1);  // (ofs << 1) + 1
      if ofs <= 0 {  // int overflow
        ofs := maxOfs;
      }
    }
    if ofs > maxOfs {
      ofs := maxOfs;
    }
    lastOfs := lastOfs + hint;
    ofs := ofs + hint;
  }

  /** Binary search for the right cut inside the bracket `(lastOfs, ofs]`. */
  method NarrowRight<T>(key: T, a: array<T>, base: int, len: int, lastOfs0: int, ofs0: int, rank: T -> int) returns (k: int)
    requires 0 <= base && base + len <= a.Length && -1 <= lastOfs0 < ofs0 <= len
    requires lastOfs0 == -1 || Rank(rank, a[base + lastOfs0]) <= Rank(rank, key)
    requires ofs0 == len || Rank(rank, key) < Rank(rank, a[base + ofs0])
    ensures lastOfs0 < k <= ofs0
    ensures k == 0 || Rank(rank, a[base + k - 1]) <= Rank(rank, key)
    ensures k == len || Rank(rank, key) < Rank(rank, a[base + k])
  {
    var lastOfs, ofs := lastOfs0 + 1, ofs0;
    while lastOfs < ofs
      invariant lastOfs0 < lastOfs <= ofs <= ofs0
      invariant lastOfs == 0 || Rank(rank, a[base + lastOfs - 1]) <= Rank(rank, key)
      invariant ofs == len || Rank(rank, key) < Rank(rank, a[base + ofs])
    {
      var m := lastOfs + (ofs - lastOfs) / 2;  // lastOfs + ((ofs - lastOfs) >>> 1)
      if Rank(rank, key) < Rank(rank, a[base + m]) {
        ofs := m;  // key < a[base + m]
      } else {
        lastOfs := m + 1;  // a[base + m] <= key
      }
    }
    k := ofs;
  }

  /**
   * Like `GallopLeft`, but the position found is after any elements equal
   * to `key`: the number of elements ranked no higher than `key`.
   */
  method GallopRight<T>(key: T, a: array<T>, base: int, len: int, hint: int, rank: T -> int) returns (k: int)
    requires len > 0 && 0 <= hint < len && 0 <= base && base + len <= a.Length <= INT_MAX
    requires Sorted(rank, a[base..base + len])
    ensures RightCut(rank, a, base, len, key, k)
    ensures k == CountAtMost(rank, a[base..base + len], key)
  {
    var lastOfs, ofs;
    if Rank(rank, key) < Rank(rank, a[base + hint]) {
      lastOfs, ofs := GallopRightDown(key, a, base, len, hint, rank);
    } else {
      lastOfs, ofs := GallopRightUp(key, a, base, len, hint, rank);
    }
    k := NarrowRight(key, a, base, len, lastOfs, ofs, rank);
    RightCutAt(rank, a, base, len, key, k);
    RightCutCount(rank, a, base, len, key, k);
  }
}
