// The `java.util.TimSort` object: the array being sorted, the temporary
// storage for merges, the stack of pending runs, and the merge procedures
// that keep the stack balanced; and the static `sort` that drives them.
//
// Contracts write some predicates as `P(...) == true`: the comparison keeps
// the predicate as one fact rather than unfolded into its conjuncts, which
// keeps the proofs that carry it small.
module TimSorting {
  import opened SortSpec
  import opened JavaInts
  import opened TimSortRuns
  import opened MergeSteps
  import opened RunStack
  import opened PendingRuns
  import ArrayCopy

  /** The number of consecutive wins after which a merge switches to galloping. */
  const MIN_GALLOP: int := 7

  /** The most temporary storage allocated up front. */
  const INITIAL_TMP_STORAGE_LENGTH: int := 256

  /**
   * `n` with every bit below its highest 1 bit set as well, as the five
   * shift-and-or steps of `ensureCapacity` leave a positive `int`.
   */
  function FillBits(n: nat): (r: nat)
    ensures n <= r
  {
    if n == 0 then 0 else 2 * FillBits(n / 2) + 1
  }

  /** `FillBits(n) + 1` is the least power of two above `n`. */
  lemma {:induction false} FillBitsPower(n: nat)
    requires n > 0
    ensures IsPowerOfTwo(FillBits(n) + 1) && n < FillBits(n) + 1 <= 2 * n
  {
    var m := n / 2;
    var p := FillBits(m) + 1;
    assert FillBits(n) + 1 == 2 * p;
    if n > 1 {
      FillBitsPower(m);
      assert n <= 2 * m + 1 && m < p <= 2 * m;
    } else {
      assert p == 1;
    }
    assert (2 * p) / 2 == p && (2 * p) % 2 == 0;
  }

  /** Filling the bits below the highest one does not reach the next power of two. */
  lemma {:induction false} FillBitsBelow(n: nat, k: nat)
    requires n < Pow2(k)
    ensures FillBits(n) < Pow2(k)
  {
    if n > 0 {
      FillBitsBelow(n / 2, k - 1);
    }
  }

  lemma Pow2At31()
    ensures Pow2(31) == 0x8000_0000
  {
    assert Pow2(8) == 0x100;
    assert Pow2(16) == 0x1_0000;
    assert Pow2(24) == 0x100_0000;
  }

  /**
   * The length `ensureCapacity` chooses for a temporary array that must
   * hold `minCapacity` elements while sorting an array of length `len`.
   */
  function NewCapacity(minCapacity: int, len: int): (r: int)
    requires 0 < minCapacity <= INT_MAX && 0 <= len
    ensures minCapacity <= len / 2 ==> minCapacity <= r <= len / 2
    ensures r == len / 2 || r == minCapacity || (minCapacity < r <= 2 * minCapacity && IsPowerOfTwo(r))
  {
    Pow2At31();
    FillBitsBelow(minCapacity, 31);
    FillBitsPower(minCapacity);
    var newSize := Add(FillBits(minCapacity), 1);
    if newSize < 0 then minCapacity
    else if newSize < len / 2 then newSize else len / 2
  }

  /** `mergeLo` moves the second run's head down: `a[dest++] = a[cursor2++]`. */
  method LoMoveRight<T>(a: array<T>, t: array<T>, rank: T -> int, dest: int, c1: int, l1: int, c2: int,
                        ghost base1: int, ghost end: int, ghost M: seq<T>, ghost S0: seq<T>)
    requires a != t
    requires LoMerging(rank, a[..], t[..], base1, dest, c1, l1, c2, end, M, S0) == true
    requires c2 < end && Rank(rank, a[c2]) < Rank(rank, t[c1])
    modifies a
    ensures LoMerging(rank, a[..], t[..], base1, dest + 1, c1, l1, c2 + 1, end, M, S0) == true
  {
    LoTakeRight(rank, a[..], t[..], base1, dest, c1, l1, c2, end, M, S0);
    a[dest] := a[c2];
  }

  /** `mergeLo` copies the first run's head out: `a[dest++] = tmp[cursor1++]`. */
  method LoMoveLeft<T>(a: array<T>, t: array<T>, rank: T -> int, dest: int, c1: int, l1: int, c2: int,
                       ghost base1: int, ghost end: int, ghost M: seq<T>, ghost S0: seq<T>)
    requires a != t
    requires LoMerging(rank, a[..], t[..], base1, dest, c1, l1, c2, end, M, S0) == true
    requires 2 <= l1 && c2 < end && Rank(rank, t[c1]) <= Rank(rank, a[c2])
    modifies a
    ensures LoMerging(rank, a[..], t[..], base1, dest + 1, c1 + 1, l1 - 1, c2, end, M, S0) == true
  {
    LoTakeLeft(rank, a[..], t[..], base1, dest, c1, l1, c2, end, M, S0);
    a[dest] := t[c1];
  }

  /**
   * `mergeLo` gallops in the first run for the second run's head and
   * copies out, in one go, the `count1` elements ranked no higher.
   */
  method LoCopyFirst<T>(a: array<T>, t: array<T>, rank: T -> int, dest: int, c1: int, l1: int, c2: int,
                        ghost base1: int, ghost end: int, ghost M: seq<T>, ghost S0: seq<T>)
    returns (count1: int)
    requires a != t && t.Length <= INT_MAX
    requires LoMerging(rank, a[..], t[..], base1, dest, c1, l1, c2, end, M, S0) == true
    requires c2 < end
    modifies a
    ensures 0 <= count1 < l1 && a[c2] == old(a[c2]) && Rank(rank, a[c2]) < Rank(rank, t[c1 + count1])
    ensures LoMerging(rank, a[..], t[..], base1, dest + count1, c1 + count1, l1 - count1, c2, end, M, S0) == true
  {
    count1 := GallopRight(a[c2], t, c1, l1, 0, rank);
    if count1 != 0 {
      LoCopyLeft(rank, a[..], t[..], base1, dest, c1, l1, c2, end, M, S0, count1);
      ArrayCopy.Copy(t, c1, a, dest, count1);
    } else {
      LoCopyLeft(rank, a[..], t[..], base1, dest, c1, l1, c2, end, M, S0, 0);
    }
  }

  /**
   * `mergeLo` gallops in the second run for the first run's head and
   * moves down, in one go, the `count2` elements ranked below it.
   */
  method LoCopySecond<T>(a: array<T>, t: array<T>, rank: T -> int, dest: int, c1: int, l1: int, c2: int, l2: int,
                         ghost base1: int, ghost end: int, ghost M: seq<T>, ghost S0: seq<T>)
    returns (count2: int)
    requires a != t && a.Length <= INT_MAX
    requires LoMerging(rank, a[..], t[..], base1, dest, c1, l1, c2, end, M, S0) == true
    requires 0 < l2 == end - c2
    modifies a
    ensures 0 <= count2 <= l2
    ensures c2 + count2 < end ==> Rank(rank, t[c1]) <= Rank(rank, a[c2 + count2])
    ensures LoMerging(rank, a[..], t[..], base1, dest + count2, c1, l1, c2 + count2, end, M, S0) == true
  {
    ghost var S := a[..];
    count2 := GallopLeft(t[c1], a, c2, l2, 0, rank);
    ghost var next := a[c2 + count2 - 1];
    if count2 < l2 {
      next := a[c2 + count2];
    }
    LoCopyRight(rank, S, t[..], base1, dest, c1, l1, c2, end, M, S0, count2);
    if count2 != 0 {
      ArrayCopy.Copy(a, c2, a, dest, count2);
      assert a[..] == S[..dest] + S[c2..c2 + count2] + S[dest + count2..];
      assert c2 + count2 < end ==> a[c2 + count2] == next;
    } else {
      assert S[..dest] + S[c2..c2 + count2] + S[dest + count2..] == S;
    }
  }

  /**
   * One comparison of `mergeLo`'s one-pair-at-a-time phase: the lower of
   * the two runs' heads moves to `a[dest]`, the first run's on a tie;
   * `second` tells whether the second run's head won.
   */
  method LoPairStep<T>(a: array<T>, t: array<T>, rank: T -> int,
                       dest0: int, c10: int, l10: int, c20: int, l20: int,
                       ghost base1: int, ghost end: int, ghost M: seq<T>, ghost S0: seq<T>)
    returns (dest: int, c1: int, l1: int, c2: int, l2: int, second: bool)
    requires a != t
    requires LoMerging(rank, a[..], t[..], base1, dest0, c10, l10, c20, end, M, S0) == true
    requires 1 < l10 && 0 < l20 == end - c20
    modifies a
    ensures LoMerging(rank, a[..], t[..], base1, dest, c1, l1, c2, end, M, S0) == true
    ensures l2 == end - c2
    ensures if second then l1 == l10 && l2 == l20 - 1 else l1 == l10 - 1 && l2 == l20
  {
    dest, c1, l1, c2, l2 := dest0, c10, l10, c20, l20;
    second := Rank(rank, a[c2]) < Rank(rank, t[c1]);
    if second {
      LoMoveRight(a, t, rank, dest, c1, l1, c2, base1, end, M, S0);
      dest, c2, l2 := dest + 1, c2 + 1, l2 - 1;
    } else {
      LoMoveLeft(a, t, rank, dest, c1, l1, c2, base1, end, M, S0);
      dest, c1, l1 := dest + 1, c1 + 1, l1 - 1;
    }
  }

  /**
   * The one-pair-at-a-time phase of `mergeLo`: single comparisons until
   * one run has won `minGallop` times in a row or the merge is down to its
   * last case (the first run down to one element or the second used up).
   * The two win counters are never both non-zero, so their `|` is their sum.
   */
  method LoPairwise<T>(a: array<T>, t: array<T>, rank: T -> int, minGallop: int,
                       dest0: int, c10: int, l10: int, c20: int, l20: int,
                       ghost base1: int, ghost end: int, ghost M: seq<T>, ghost S0: seq<T>)
    returns (dest: int, c1: int, l1: int, c2: int, l2: int, done: bool)
    requires a != t
    requires LoMerging(rank, a[..], t[..], base1, dest0, c10, l10, c20, end, M, S0) == true
    requires 1 < l10 && 0 < l20 == end - c20
    modifies a
    ensures LoMerging(rank, a[..], t[..], base1, dest, c1, l1, c2, end, M, S0) == true
    ensures l2 == end - c2 && l1 + l2 < l10 + l20
    ensures if done then l1 == 1 || l2 == 0 else 1 < l1 && 0 < l2
  {
    dest, c1, l1, c2, l2 := dest0, c10, l10, c20, l20;
    var count1, count2 := 0, 0;
    done := false;
    var more := true;
    while more
      invariant LoMerging(rank, a[..], t[..], base1, dest, c1, l1, c2, end, M, S0) == true
      invariant l2 == end - c2 && l1 + l2 <= l10 + l20
      invariant more ==> !done && 1 < l1 && 0 < l2
      invariant !more ==> l1 + l2 < l10 + l20 && if done then l1 == 1 || l2 == 0 else 1 < l1 && 0 < l2
      decreases l1 + l2
    {
      var second;
      dest, c1, l1, c2, l2, second := LoPairStep(a, t, rank, dest, c1, l1, c2, l2, base1, end, M, S0);
      if second {
        count2, count1 := count2 + 1, 0;
      } else {
        count1, count2 := count1 + 1, 0;
      }
      done := l1 == 1 || l2 == 0;
      more := !done && count1 + count2 < minGallop;
    }
  }

  /**
   * The first half of a galloping round of `mergeLo`: the elements of the
   * first run ranked no higher than the second run's head are copied out
   * in one go, and then the second run's head moves down.
   */
  method LoGallopFirst<T>(a: array<T>, t: array<T>, rank: T -> int,
                          dest0: int, c10: int, l10: int, c20: int, l20: int,
                          ghost base1: int, ghost end: int, ghost M: seq<T>, ghost S0: seq<T>)
    returns (dest: int, c1: int, l1: int, c2: int, l2: int, count1: int, done: bool)
    requires a != t && t.Length <= INT_MAX
    requires LoMerging(rank, a[..], t[..], base1, dest0, c10, l10, c20, end, M, S0) == true
    requires 1 < l10 && 0 < l20 == end - c20
    modifies a
    ensures LoMerging(rank, a[..], t[..], base1, dest, c1, l1, c2, end, M, S0) == true
    ensures l2 == end - c2 && l1 + l2 < l10 + l20 && 0 <= count1
    ensures if done then l1 == 1 || l2 == 0 else 1 < l1 && 0 < l2
  {
    dest, c1, l1, c2, l2 := dest0, c10, l10, c20, l20;
    count1 := LoCopyFirst(a, t, rank, dest, c1, l1, c2, base1, end, M, S0);
    dest, c1, l1 := dest + count1, c1 + count1, l1 - count1;
    if l1 <= 1 {
      done := true;
      return;
    }
    LoMoveRight(a, t, rank, dest, c1, l1, c2, base1, end, M, S0);
    dest, c2, l2 := dest + 1, c2 + 1, l2 - 1;
    done := l2 == 0;
  }

  /**
   * The second half of a galloping round of `mergeLo`: the elements of the
   * second run ranked below the first run's head are moved down in one
   * go, and then the first run's head is copied out.
   */
  method LoGallopSecond<T>(a: array<T>, t: array<T>, rank: T -> int,
                           dest0: int, c10: int, l10: int, c20: int, l20: int,
                           ghost base1: int, ghost end: int, ghost M: seq<T>, ghost S0: seq<T>)
    returns (dest: int, c1: int, l1: int, c2: int, l2: int, count2: int, done: bool)
    requires a != t && a.Length <= INT_MAX
    requires LoMerging(rank, a[..], t[..], base1, dest0, c10, l10, c20, end, M, S0) == true
    requires 1 < l10 && 0 < l20 == end - c20
    modifies a
    ensures LoMerging(rank, a[..], t[..], base1, dest, c1, l1, c2, end, M, S0) == true
    ensures l2 == end - c2 && l1 + l2 < l10 + l20 && 0 <= count2
    ensures if done then l1 == 1 || l2 == 0 else 1 < l1 && 0 < l2
  {
    dest, c1, l1, c2, l2 := dest0, c10, l10, c20, l20;
    count2 := LoCopySecond(a, t, rank, dest, c1, l1, c2, l2, base1, end, M, S0);
    dest, c2, l2 := dest + count2, c2 + count2, l2 - count2;
    if l2 == 0 {
      done := true;
      return;
    }
    LoMoveLeft(a, t, rank, dest, c1, l1, c2, base1, end, M, S0);
    dest, c1, l1 := dest + 1, c1 + 1, l1 - 1;
    done := l1 == 1;
  }

  /**
   * The galloping phase of `mergeLo`: rounds of `LoGallopFirst` and
   * `LoGallopSecond`, each making galloping cheaper, for as long as one of
   * them moves at least `MIN_GALLOP` elements at once; leaving the phase
   * makes galloping dearer again.
   */
  method LoGallop<T>(a: array<T>, t: array<T>, rank: T -> int, minGallop0: int,
                     dest0: int, c10: int, l10: int, c20: int, l20: int,
                     ghost base1: int, ghost end: int, ghost M: seq<T>, ghost S0: seq<T>)
    returns (dest: int, c1: int, l1: int, c2: int, l2: int, minGallop: int, done: bool)
    requires a != t && a.Length <= INT_MAX && t.Length <= INT_MAX
    requires LoMerging(rank, a[..], t[..], base1, dest0, c10, l10, c20, end, M, S0) == true
    requires 1 < l10 && 0 < l20 == end - c20
    modifies a
    ensures LoMerging(rank, a[..], t[..], base1, dest, c1, l1, c2, end, M, S0) == true
    ensures l2 == end - c2 && l1 + l2 < l10 + l20
    ensures if done then l1 == 1 || l2 == 0 else 1 < l1 && 0 < l2 && 2 <= minGallop
  {
    dest, c1, l1, c2, l2 := dest0, c10, l10, c20, l20;
    minGallop := minGallop0;
    done := false;
    var more := true;
    while more
      invariant LoMerging(rank, a[..], t[..], base1, dest, c1, l1, c2, end, M, S0) == true
      invariant l2 == end - c2 && l1 + l2 <= l10 + l20
      invariant more ==> !done && 1 < l1 && 0 < l2
      invariant !more ==> l1 + l2 < l10 + l20 && if done then l1 == 1 || l2 == 0 else 1 < l1 && 0 < l2
      decreases l1 + l2
    {
      var count1, count2;
      dest, c1, l1, c2, l2, count1, done := LoGallopFirst(a, t, rank, dest, c1, l1, c2, l2, base1, end, M, S0);
      if done {
        more := false;
      } else {
        dest, c1, l1, c2, l2, count2, done := LoGallopSecond(a, t, rank, dest, c1, l1, c2, l2, base1, end, M, S0);
        if done {
          more := false;
        } else {
          minGallop := minGallop - 1;
          more := count1 >= MIN_GALLOP || count2 >= MIN_GALLOP;
        }
      }
    }
    if !done {
      if minGallop < 0 {
        minGallop := 0;
      }
      minGallop := minGallop + 2;
    }
  }

  /**
   * The start of `mergeLo`, once the first run is in `t[c1..c1 + l1]`:
   * the second run's head, ranked below every element of the first run,
   * goes to the front.
   */
  method LoStartMove<T>(a: array<T>, t: array<T>, rank: T -> int, base1: int, l1: int, base2: int, l2: int, c1: int)
    requires a != t && 0 <= base1 && base1 + l1 == base2 && 0 < l1 && 0 < l2 && base2 + l2 <= a.Length
    requires 0 <= c1 && c1 + l1 <= t.Length && t[c1..c1 + l1] == a[base1..base2]
    requires Sorted(rank, a[base1..base2]) && Sorted(rank, a[base2..base2 + l2])
    requires Rank(rank, a[base2]) < Rank(rank, a[base1])
    requires Rank(rank, a[base2 + l2 - 1]) < Rank(rank, a[base2 - 1])
    modifies a
    ensures LoMerging(rank, a[..], t[..], base1, base1 + 1, c1, l1, base2 + 1, base2 + l2,
                      Merge(rank, old(a[base1..base2]), old(a[base2..base2 + l2])), old(a[..])) == true
  {
    LoStart(rank, a[..], t[..], base1, l1, base2, l2, c1);
    a[base1] := a[base2];
  }

  /** A sequence that agrees with `S0` outside `[base1, end)` and holds `M` inside. */
  lemma Reassemble<T>(s: seq<T>, S0: seq<T>, base1: int, end: int, M: seq<T>)
    requires 0 <= base1 <= end <= |s| == |S0|
    requires s[..base1] == S0[..base1] && s[base1..end] == M && s[end..] == S0[end..]
    ensures s == S0[..base1] + M + S0[end..]
  {
    assert s == s[..base1] + s[base1..end] + s[end..];
  }

  /**
   * The end of `mergeLo` when the first run is down to its last element:
   * the rest of the second run moves down and that element goes last.
   */
  method LoFinishOneMove<T>(a: array<T>, t: array<T>, rank: T -> int, dest: int, c1: int, l1: int, c2: int, l2: int,
                            ghost base1: int, ghost end: int, ghost M: seq<T>, ghost S0: seq<T>)
    requires a != t
    requires LoMerging(rank, a[..], t[..], base1, dest, c1, l1, c2, end, M, S0) == true
    requires l1 == 1 && l2 == end - c2
    modifies a
    ensures a[..] == S0[..base1] + M + S0[end..]
  {
    LoFinishOne(rank, a[..], t[..], base1, dest, c1, l1, c2, end, M, S0);
    ArrayCopy.Copy(a, c2, a, dest, l2);
    a[dest + l2] := t[c1];
    Reassemble(a[..], S0, base1, end, M);
  }

  /** The end of `mergeLo` when the second run is used up: the rest of the first run goes last. */
  method LoFinishRestMove<T>(a: array<T>, t: array<T>, rank: T -> int, dest: int, c1: int, l1: int, c2: int,
                             ghost base1: int, ghost end: int, ghost M: seq<T>, ghost S0: seq<T>)
    requires a != t
    requires LoMerging(rank, a[..], t[..], base1, dest, c1, l1, c2, end, M, S0) == true
    requires c2 == end
    modifies a
    ensures a[..] == S0[..base1] + M + S0[end..]
  {
    LoFinishRest(rank, a[..], t[..], base1, dest, c1, l1, c2, end, M, S0);
    ArrayCopy.Copy(t, c1, a, dest, l1);
    Reassemble(a[..], S0, base1, end, M);
  }

  /**
   * The body of `mergeLo` once temporary storage `t[c1..]` is large
   * enough: the first run is copied there, the second run's head goes to
   * the front, and the merge runs on unless one run is already down to its
   * last case.  Returns the updated `minGallop` (unchanged when the merge
   * finished at once).
   */
  method LoMergeRuns<T>(a: array<T>, t: array<T>, rank: T -> int, c1: int,
                        base1: int, len1: int, base2: int, len2: int, minGallop: int)
    returns (mg: int)
    requires a != t && a.Length <= INT_MAX && t.Length <= INT_MAX
    requires 0 < len1 && 0 < len2 && 0 <= base1 && base1 + len1 == base2 && base2 + len2 <= a.Length
    requires 0 <= c1 && c1 + len1 <= t.Length
    requires Sorted(rank, a[base1..base2]) && Sorted(rank, a[base2..base2 + len2])
    requires Rank(rank, a[base2]) < Rank(rank, a[base1])
    requires Rank(rank, a[base2 + len2 - 1]) < Rank(rank, a[base2 - 1])
    modifies a, t
    ensures a[..] == MergedAt(rank, old(a[..]), base1, base2, base2 + len2)
  {
    ghost var S0 := a[..];
    ghost var end := base2 + len2;
    ghost var M := Merge(rank, a[base1..base2], a[base2..end]);
    var cursor1 := c1;
    var cursor2 := base2;
    var dest := base1;
    ghost var T0 := t[..];
    ArrayCopy.Copy(a, base1, t, cursor1, len1);
    SpliceParts(t[..], T0[..cursor1], a[base1..base2], T0[cursor1 + len1..]);
    assert a[..] == S0;
    LoStartMove(a, t, rank, base1, len1, base2, len2, cursor1);
    dest, cursor2 := dest + 1, cursor2 + 1;
    var l1, l2 := len1, len2 - 1;
    mg := minGallop;
    if l2 == 0 {
      LoFinishRestMove(a, t, rank, dest, cursor1, l1, cursor2, base1, end, M, S0);
    } else if l1 == 1 {
      LoFinishOneMove(a, t, rank, dest, cursor1, l1, cursor2, l2, base1, end, M, S0);
    } else {
      mg := LoMergeLoop(a, t, rank, minGallop, dest, cursor1, l1, cursor2, l2, base1, end, M, S0);
    }
  }

  /** The `outer` loop of `mergeLo`, alternating the two phases, and the end of the merge. */
  method LoMergeLoop<T>(a: array<T>, t: array<T>, rank: T -> int, minGallop: int,
                        dest0: int, c10: int, l10: int, c20: int, l20: int,
                        ghost base1: int, ghost end: int, ghost M: seq<T>, ghost S0: seq<T>)
    returns (mg: int)
    requires a != t && a.Length <= INT_MAX && t.Length <= INT_MAX
    requires LoMerging(rank, a[..], t[..], base1, dest0, c10, l10, c20, end, M, S0) == true
    requires 1 < l10 && 0 < l20 == end - c20
    modifies a
    ensures a[..] == S0[..base1] + M + S0[end..]
  {
    var dest, cursor1, l1, cursor2, l2 := dest0, c10, l10, c20, l20;
    mg := minGallop;
    var done := false;
    while !done
      invariant LoMerging(rank, a[..], t[..], base1, dest, cursor1, l1, cursor2, end, M, S0) == true
      invariant l2 == end - cursor2
      invariant if done then l1 == 1 || l2 == 0 else 1 < l1 && 0 < l2
      decreases l1 + l2
    {
      dest, cursor1, l1, cursor2, l2, done := LoPairwise(a, t, rank, mg, dest, cursor1, l1, cursor2, l2, base1, end, M, S0);
      if !done {
        dest, cursor1, l1, cursor2, l2, mg, done := LoGallop(a, t, rank, mg, dest, cursor1, l1, cursor2, l2, base1, end, M, S0);
      }
    }
    if l1 == 1 {
      LoFinishOneMove(a, t, rank, dest, cursor1, l1, cursor2, l2, base1, end, M, S0);
    } else if l1 == 0 {
      assert false;  // "Comparison method violates its general contract!"
    } else {
      LoFinishRestMove(a, t, rank, dest, cursor1, l1, cursor2, base1, end, M, S0);
    }
  }

  /** `mergeHi` moves the first run's top element up: `a[dest--] = a[cursor1--]`. */
  method HiMoveLeft<T>(a: array<T>, t: array<T>, rank: T -> int, base1: int, l1: int, tb: int, l2: int,
                       ghost end: int, ghost M: seq<T>, ghost S0: seq<T>)
    requires a != t
    requires HiMerging(rank, a[..], t[..], base1, l1, tb, l2, end, M, S0) == true
    requires 0 < l1 && Rank(rank, t[tb + l2 - 1]) < Rank(rank, a[base1 + l1 - 1])
    modifies a
    ensures HiMerging(rank, a[..], t[..], base1, l1 - 1, tb, l2, end, M, S0) == true
  {
    var cursor1, dest := base1 + l1 - 1, base1 + l1 + l2 - 1;
    SpliceOne(a[..], dest, dest + 1, a[..], cursor1, cursor1 + 1);
    HiTakeLeft(rank, a[..], t[..], base1, l1, tb, l2, end, M, S0, a[..][dest := a[cursor1]], l1 - 1, cursor1, dest);
    a[dest] := a[cursor1];
  }

  /** `mergeHi` copies the second run's top element back: `a[dest--] = tmp[cursor2--]`. */
  method HiMoveRight<T>(a: array<T>, t: array<T>, rank: T -> int, base1: int, l1: int, tb: int, l2: int,
                        ghost end: int, ghost M: seq<T>, ghost S0: seq<T>)
    requires a != t
    requires HiMerging(rank, a[..], t[..], base1, l1, tb, l2, end, M, S0) == true
    requires 0 < l1 && 2 <= l2 && Rank(rank, a[base1 + l1 - 1]) <= Rank(rank, t[tb + l2 - 1])
    modifies a
    ensures HiMerging(rank, a[..], t[..], base1, l1, tb, l2 - 1, end, M, S0) == true
  {
    var cursor2, dest := tb + l2 - 1, base1 + l1 + l2 - 1;
    SpliceOne(a[..], dest, dest + 1, t[..], cursor2, cursor2 + 1);
    HiTakeRight(rank, a[..], t[..], base1, l1, tb, l2, end, M, S0, a[..][dest := t[cursor2]], l2 - 1, cursor2, dest);
    a[dest] := t[cursor2];
  }

  /**
   * `mergeHi` moves the top `count1` elements of the first run, all ranked
   * above the second run's top element, up in one go.
   */
  method HiShiftFirst<T>(a: array<T>, t: array<T>, rank: T -> int, base1: int, l1: int, tb: int, l2: int, count1: int,
                         ghost end: int, ghost M: seq<T>, ghost S0: seq<T>)
    requires a != t
    requires HiMerging(rank, a[..], t[..], base1, l1, tb, l2, end, M, S0) == true
    requires 0 < count1 <= l1
    requires Rank(rank, t[tb + l2 - 1]) < Rank(rank, a[base1 + l1 - count1])
    modifies a
    ensures HiMerging(rank, a[..], t[..], base1, l1 - count1, tb, l2, end, M, S0) == true
    ensures a[..base1 + l1 - count1] == old(a[..base1 + l1 - count1])
  {
    ghost var s := a[..];
    ghost var T0 := t[..];
    var rest := l1 - count1;
    var from, to := base1 + rest, base1 + rest + l2;
    ArrayCopy.Copy(a, from, a, to, count1);
    HiCopyLeft(rank, s, T0, base1, l1, tb, l2, end, M, S0, count1, a[..], rest, from, to);
    assert t[..] == T0;
  }

  /**
   * `mergeHi` gallops in the first run for the second run's top element
   * and moves up, in one go, the `count1` elements ranked above it.
   */
  method HiCopyFirst<T>(a: array<T>, t: array<T>, rank: T -> int, base1: int, l1: int, tb: int, l2: int,
                        ghost end: int, ghost M: seq<T>, ghost S0: seq<T>)
    returns (count1: int)
    requires a != t && a.Length <= INT_MAX
    requires HiMerging(rank, a[..], t[..], base1, l1, tb, l2, end, M, S0) == true
    requires 0 < l1
    modifies a
    ensures 0 <= count1 <= l1
    ensures count1 < l1 ==> Rank(rank, a[base1 + l1 - count1 - 1]) <= Rank(rank, t[tb + l2 - 1])
    ensures HiMerging(rank, a[..], t[..], base1, l1 - count1, tb, l2, end, M, S0) == true
  {
    var k := GallopRight(t[tb + l2 - 1], a, base1, l1, l1 - 1, rank);
    count1 := l1 - k;
    if count1 != 0 {
      HiShiftFirst(a, t, rank, base1, l1, tb, l2, count1, end, M, S0);
      assert 0 < k ==> a[base1 + k - 1] == a[..base1 + k][base1 + k - 1];
    }
  }

  /**
   * `mergeHi` gallops in the second run for the first run's top element
   * and copies back, in one go, the `count2` elements ranked no lower; the
   * second run keeps at least its first element.
   */
  method HiCopySecond<T>(a: array<T>, t: array<T>, rank: T -> int, base1: int, l1: int, tb: int, l2: int,
                         ghost end: int, ghost M: seq<T>, ghost S0: seq<T>)
    returns (count2: int)
    requires a != t && t.Length <= INT_MAX
    requires HiMerging(rank, a[..], t[..], base1, l1, tb, l2, end, M, S0) == true
    requires 0 < l1
    modifies a
    ensures 0 <= count2 < l2
    ensures Rank(rank, t[tb + l2 - count2 - 1]) < Rank(rank, a[base1 + l1 - 1])
    ensures HiMerging(rank, a[..], t[..], base1, l1, tb, l2 - count2, end, M, S0) == true
  {
    var k := GallopLeft(a[base1 + l1 - 1], t, tb, l2, l2 - 1, rank);
    count2 := l2 - k;
    if count2 != 0 {
      ghost var s := a[..];
      ghost var T0 := t[..];
      ghost var top := a[base1 + l1 - 1];
      var rest := l2 - count2;
      var from, to := tb + rest, base1 + l1 + rest;
      ArrayCopy.Copy(t, from, a, to, count2);
      HiCopyRight(rank, s, T0, base1, l1, tb, l2, end, M, S0, count2, a[..], rest, from, to);
      assert a[base1 + l1 - 1] == top && t[..] == T0;
    }
    assert 0 < k by {
      assert Rank(rank, t[tb]) < Rank(rank, a[base1 + l1 - 1]);
    }
  }

  /**
   * One comparison of `mergeHi`'s one-pair-at-a-time phase: the higher of
   * the two runs' top elements moves to `a[dest]`, the second run's on a
   * tie; `first` tells whether the first run's top won.
   */
  method HiPairStep<T>(a: array<T>, t: array<T>, rank: T -> int, base1: int, l10: int, tb: int, l20: int,
                       ghost end: int, ghost M: seq<T>, ghost S0: seq<T>)
    returns (l1: int, l2: int, first: bool)
    requires a != t
    requires HiMerging(rank, a[..], t[..], base1, l10, tb, l20, end, M, S0) == true
    requires 0 < l10 && 1 < l20
    modifies a
    ensures HiMerging(rank, a[..], t[..], base1, l1, tb, l2, end, M, S0) == true
    ensures if first then l1 == l10 - 1 && l2 == l20 else l1 == l10 && l2 == l20 - 1
  {
    l1, l2 := l10, l20;
    first := Rank(rank, t[tb + l2 - 1]) < Rank(rank, a[base1 + l1 - 1]);
    if first {
      HiMoveLeft(a, t, rank, base1, l1, tb, l2, end, M, S0);
      l1 := l1 - 1;
    } else {
      HiMoveRight(a, t, rank, base1, l1, tb, l2, end, M, S0);
      l2 := l2 - 1;
    }
  }

  /**
   * The one-pair-at-a-time phase of `mergeHi`: single comparisons until
   * one run has won `minGallop` times in a row or the merge is down to its
   * last case (the first run used up or the second down to one element).
   */
  method HiPairwise<T>(a: array<T>, t: array<T>, rank: T -> int, minGallop: int,
                       base1: int, l10: int, tb: int, l20: int,
                       ghost end: int, ghost M: seq<T>, ghost S0: seq<T>)
    returns (l1: int, l2: int, done: bool)
    requires a != t
    requires HiMerging(rank, a[..], t[..], base1, l10, tb, l20, end, M, S0) == true
    requires 0 < l10 && 1 < l20
    modifies a
    ensures HiMerging(rank, a[..], t[..], base1, l1, tb, l2, end, M, S0) == true
    ensures l1 + l2 < l10 + l20
    ensures if done then l1 == 0 || l2 == 1 else 0 < l1 && 1 < l2
  {
    l1, l2 := l10, l20;
    var count1, count2 := 0, 0;
    done := false;
    var more := true;
    while more
      invariant HiMerging(rank, a[..], t[..], base1, l1, tb, l2, end, M, S0) == true
      invariant l1 + l2 <= l10 + l20
      invariant more ==> !done && 0 < l1 && 1 < l2
      invariant !more ==> l1 + l2 < l10 + l20 && if done then l1 == 0 || l2 == 1 else 0 < l1 && 1 < l2
      decreases l1 + l2
    {
      var first;
      l1, l2, first := HiPairStep(a, t, rank, base1, l1, tb, l2, end, M, S0);
      if first {
        count1, count2 := count1 + 1, 0;
      } else {
        count2, count1 := count2 + 1, 0;
      }
      done := l1 == 0 || l2 == 1;
      more := !done && count1 + count2 < minGallop;
    }
  }

  /**
   * The first half of a galloping round of `mergeHi`: the elements of the
   * first run ranked above the second run's top are moved up in one go,
   * and then the second run's top is copied back.
   */
  method HiGallopFirst<T>(a: array<T>, t: array<T>, rank: T -> int, base1: int, l10: int, tb: int, l20: int,
                          ghost end: int, ghost M: seq<T>, ghost S0: seq<T>)
    returns (l1: int, l2: int, count1: int, done: bool)
    requires a != t && a.Length <= INT_MAX
    requires HiMerging(rank, a[..], t[..], base1, l10, tb, l20, end, M, S0) == true
    requires 0 < l10 && 1 < l20
    modifies a
    ensures HiMerging(rank, a[..], t[..], base1, l1, tb, l2, end, M, S0) == true
    ensures l1 + l2 < l10 + l20 && 0 <= count1
    ensures if done then l1 == 0 || l2 == 1 else 0 < l1 && 1 < l2
  {
    count1 := HiCopyFirst(a, t, rank, base1, l10, tb, l20, end, M, S0);
    l1, l2 := l10 - count1, l20;
    if l1 == 0 {
      done := true;
      return;
    }
    HiMoveRight(a, t, rank, base1, l1, tb, l2, end, M, S0);
    l2 := l2 - 1;
    done := l2 == 1;
  }

  /**
   * The second half of a galloping round of `mergeHi`: the elements of the
   * second run ranked no lower than the first run's top are copied back in
   * one go, and then the first run's top is moved up.
   */
  method HiGallopSecond<T>(a: array<T>, t: array<T>, rank: T -> int, base1: int, l10: int, tb: int, l20: int,
                           ghost end: int, ghost M: seq<T>, ghost S0: seq<T>)
    returns (l1: int, l2: int, count2: int, done: bool)
    requires a != t && t.Length <= INT_MAX
    requires HiMerging(rank, a[..], t[..], base1, l10, tb, l20, end, M, S0) == true
    requires 0 < l10 && 1 < l20
    modifies a
    ensures HiMerging(rank, a[..], t[..], base1, l1, tb, l2, end, M, S0) == true
    ensures l1 + l2 < l10 + l20 && 0 <= count2
    ensures if done then l1 == 0 || l2 == 1 else 0 < l1 && 1 < l2
  {
    count2 := HiCopySecond(a, t, rank, base1, l10, tb, l20, end, M, S0);
    l1, l2 := l10, l20 - count2;
    if l2 <= 1 {
      done := true;
      return;
    }
    HiMoveLeft(a, t, rank, base1, l1, tb, l2, end, M, S0);
    l1 := l1 - 1;
    done := l1 == 0;
  }

  /**
   * The galloping phase of `mergeHi`: rounds of `HiGallopFirst` and
   * `HiGallopSecond`, each making galloping cheaper, for as long as one of
   * them moves at least `MIN_GALLOP` elements at once; leaving the phase
   * makes galloping dearer again.
   */
  method HiGallop<T>(a: array<T>, t: array<T>, rank: T -> int, minGallop0: int,
                     base1: int, l10: int, tb: int, l20: int,
                     ghost end: int, ghost M: seq<T>, ghost S0: seq<T>)
    returns (l1: int, l2: int, minGallop: int, done: bool)
    requires a != t && a.Length <= INT_MAX && t.Length <= INT_MAX
    requires HiMerging(rank, a[..], t[..], base1, l10, tb, l20, end, M, S0) == true
    requires 0 < l10 && 1 < l20
    modifies a
    ensures HiMerging(rank, a[..], t[..], base1, l1, tb, l2, end, M, S0) == true
    ensures l1 + l2 < l10 + l20
    ensures if done then l1 == 0 || l2 == 1 else 0 < l1 && 1 < l2 && 2 <= minGallop
  {
    l1, l2 := l10, l20;
    minGallop := minGallop0;
    done := false;
    var more := true;
    while more
      invariant HiMerging(rank, a[..], t[..], base1, l1, tb, l2, end, M, S0) == true
      invariant l1 + l2 <= l10 + l20
      invariant more ==> !done && 0 < l1 && 1 < l2
      invariant !more ==> l1 + l2 < l10 + l20 && if done then l1 == 0 || l2 == 1 else 0 < l1 && 1 < l2
      decreases l1 + l2
    {
      var count1, count2;
      l1, l2, count1, done := HiGallopFirst(a, t, rank, base1, l1, tb, l2, end, M, S0);
      if done {
        more := false;
      } else {
        l1, l2, count2, done := HiGallopSecond(a, t, rank, base1, l1, tb, l2, end, M, S0);
        if done {
          more := false;
        } else {
          minGallop := minGallop - 1;
          more := count1 >= MIN_GALLOP || count2 >= MIN_GALLOP;
        }
      }
    }
    if !done {
      if minGallop < 0 {
        minGallop := 0;
      }
      minGallop := minGallop + 2;
    }
  }

  /**
   * The start of `mergeHi`, once the second run is in `t[tb..tb + l2]`:
   * the first run's last element, ranked above every element of the second
   * run, goes to the top.
   */
  method HiStartMove<T>(a: array<T>, t: array<T>, rank: T -> int, base1: int, l1: int, base2: int, l2: int, tb: int)
    requires a != t && 0 <= base1 && base1 + l1 == base2 && 0 < l1 && 0 < l2 && base2 + l2 <= a.Length
    requires 0 <= tb && tb + l2 <= t.Length && t[tb..tb + l2] == a[base2..base2 + l2]
    requires Sorted(rank, a[base1..base2]) && Sorted(rank, a[base2..base2 + l2])
    requires Rank(rank, a[base2]) < Rank(rank, a[base1])
    requires Rank(rank, a[base2 + l2 - 1]) < Rank(rank, a[base2 - 1])
    modifies a
    ensures HiMerging(rank, a[..], t[..], base1, l1 - 1, tb, l2, base2 + l2,
                      Merge(rank, old(a[base1..base2]), old(a[base2..base2 + l2])), old(a[..])) == true
  {
    var cursor1, dest := base1 + l1 - 1, base2 + l2 - 1;
    SpliceOne(a[..], dest, dest + 1, a[..], cursor1, cursor1 + 1);
    HiStart(rank, a[..], t[..], base1, l1, base2, l2, tb, a[..][dest := a[cursor1]], l1 - 1, cursor1, dest);
    a[dest] := a[cursor1];
  }

  /**
   * The end of `mergeHi` when the second run is down to its first
   * element: the rest of the first run moves up and that element goes
   * first.
   */
  method HiFinishOneMove<T>(a: array<T>, t: array<T>, rank: T -> int, base1: int, l1: int, tb: int, l2: int,
                            ghost end: int, ghost M: seq<T>, ghost S0: seq<T>)
    requires a != t
    requires HiMerging(rank, a[..], t[..], base1, l1, tb, l2, end, M, S0) == true
    requires l2 == 1
    modifies a
    ensures a[..] == S0[..base1] + M + S0[end..]
  {
    HiFinishOne(rank, a[..], t[..], base1, l1, tb, l2, end, M, S0);
    ArrayCopy.Copy(a, base1, a, base1 + 1, l1);
    a[base1] := t[tb];
    Reassemble(a[..], S0, base1, end, M);
  }

  /** The end of `mergeHi` when the first run is used up: the rest of the second run goes first. */
  method HiFinishRestMove<T>(a: array<T>, t: array<T>, rank: T -> int, base1: int, l1: int, tb: int, l2: int,
                             ghost end: int, ghost M: seq<T>, ghost S0: seq<T>)
    requires a != t
    requires HiMerging(rank, a[..], t[..], base1, l1, tb, l2, end, M, S0) == true
    requires l1 == 0
    modifies a
    ensures a[..] == S0[..base1] + M + S0[end..]
  {
    HiFinishRest(rank, a[..], t[..], base1, l1, tb, l2, end, M, S0);
    ArrayCopy.Copy(t, tb, a, base1, l2);
    Reassemble(a[..], S0, base1, end, M);
  }

  /**
   * The body of `mergeHi` once temporary storage `t[tb..]` is large
   * enough: the second run is copied there, the first run's last element
   * goes to the top, and the merge runs on unless one run is already down
   * to its last case.  Returns the updated `minGallop` (unchanged when the
   * merge finished at once).
   */
  method HiMergeRuns<T>(a: array<T>, t: array<T>, rank: T -> int, tb: int,
                        base1: int, len1: int, base2: int, len2: int, minGallop: int)
    returns (mg: int)
    requires a != t && a.Length <= INT_MAX && t.Length <= INT_MAX
    requires 0 < len1 && 0 < len2 && 0 <= base1 && base1 + len1 == base2 && base2 + len2 <= a.Length
    requires 0 <= tb && tb + len2 <= t.Length
    requires Sorted(rank, a[base1..base2]) && Sorted(rank, a[base2..base2 + len2])
    requires Rank(rank, a[base2]) < Rank(rank, a[base1])
    requires Rank(rank, a[base2 + len2 - 1]) < Rank(rank, a[base2 - 1])
    modifies a, t
    ensures a[..] == MergedAt(rank, old(a[..]), base1, base2, base2 + len2)
  {
    ghost var S0 := a[..];
    ghost var end := base2 + len2;
    ghost var M := Merge(rank, a[base1..base2], a[base2..end]);
    ghost var T0 := t[..];
    ArrayCopy.Copy(a, base2, t, tb, len2);
    SpliceParts(t[..], T0[..tb], a[base2..end], T0[tb + len2..]);
    assert a[..] == S0;
    HiStartMove(a, t, rank, base1, len1, base2, len2, tb);
    var l1, l2 := len1 - 1, len2;
    mg := minGallop;
    if l1 == 0 {
      HiFinishRestMove(a, t, rank, base1, l1, tb, l2, end, M, S0);
    } else if l2 == 1 {
      HiFinishOneMove(a, t, rank, base1, l1, tb, l2, end, M, S0);
    } else {
      mg := HiMergeLoop(a, t, rank, minGallop, base1, l1, tb, l2, end, M, S0);
    }
  }

  /** The `outer` loop of `mergeHi`, alternating the two phases, and the end of the merge. */
  method HiMergeLoop<T>(a: array<T>, t: array<T>, rank: T -> int, minGallop: int,
                        base1: int, l10: int, tb: int, l20: int,
                        ghost end: int, ghost M: seq<T>, ghost S0: seq<T>)
    returns (mg: int)
    requires a != t && a.Length <= INT_MAX && t.Length <= INT_MAX
    requires HiMerging(rank, a[..], t[..], base1, l10, tb, l20, end, M, S0) == true
    requires 0 < l10 && 1 < l20
    modifies a
    ensures a[..] == S0[..base1] + M + S0[end..]
  {
    var l1, l2 := l10, l20;
    mg := minGallop;
    var done := false;
    while !done
      invariant HiMerging(rank, a[..], t[..], base1, l1, tb, l2, end, M, S0) == true
      invariant if done then l1 == 0 || l2 == 1 else 0 < l1 && 1 < l2
      decreases l1 + l2
    {
      l1, l2, done := HiPairwise(a, t, rank, mg, base1, l1, tb, l2, end, M, S0);
      if !done {
        l1, l2, mg, done := HiGallop(a, t, rank, mg, base1, l1, tb, l2, end, M, S0);
      }
    }
    if l2 == 1 {
      HiFinishOneMove(a, t, rank, base1, l1, tb, l2, end, M, S0);
    } else if l2 == 0 {
      assert false;  // "Comparison method violates its general contract!"
    } else {
      HiFinishRestMove(a, t, rank, base1, l1, tb, l2, end, M, S0);
    }
  }

  /**
   * `mergeAt`'s first cut: the head `a[base1..base1 + k]` of the first run,
   * ranked no higher than the second run's head, stays in place; when it is
   * all of the first run, the runs are already merged.
   */
  lemma HeadTrimmed<T>(rank: T -> int, a: array<T>, base1: int, len1: int, base2: int, len2: int, k: int, c: int, e: int)
    requires 0 < len1 && 0 < len2 && 0 <= base1 && base1 + len1 == base2 && base2 + len2 <= a.Length
    requires Sorted(rank, a[base1..base2]) && Sorted(rank, a[base2..base2 + len2])
    requires RightCut(rank, a, base1, len1, a[base2], k)
    requires c == base1 + k && e == base2 + len2
    ensures Sorted(rank, a[c..base2])
    ensures c < base2 ==> Rank(rank, a[base2]) < Rank(rank, a[c])
    ensures MergedAt(rank, a[..], base1, base2, e) == MergedAt(rank, a[..], c, base2, e)
    ensures c == base2 ==> MergedAt(rank, a[..], base1, base2, e) == a[..]
  {
    TrimmedMerge(rank, a[..], base1, c, base2, e, e);
    SortedPieces(rank, a[..], base1, c, base2);
  }

  /**
   * `mergeAt`'s second cut: the tail `a[base2 + l2..base2 + len2]` of the
   * second run, ranked at least as high as the first run's last element
   * `a[last]`, stays in place; when it is all of the second run, the runs
   * are already merged.
   */
  lemma TailTrimmed<T>(rank: T -> int, a: array<T>, base1: int, len1: int, base2: int, len2: int, l2: int, last: int,
                       f: int, e: int)
    requires 0 < len1 && 0 < len2 && 0 <= base1 && base1 + len1 == base2 && base2 + len2 <= a.Length
    requires Sorted(rank, a[base1..base2]) && Sorted(rank, a[base2..base2 + len2])
    requires last == base2 - 1 && LeftCut(rank, a, base2, len2, a[last], l2)
    requires f == base2 + l2 && e == base2 + len2
    ensures Sorted(rank, a[base2..f])
    ensures base2 < f ==> Rank(rank, a[f - 1]) < Rank(rank, a[last])
    ensures MergedAt(rank, a[..], base1, base2, e) == MergedAt(rank, a[..], base1, base2, f)
    ensures f == base2 ==> MergedAt(rank, a[..], base1, base2, e) == a[..]
  {
    TrimmedMerge(rank, a[..], base1, base1, base2, f, e);
    SortedPieces(rank, a[..], base2, f, e);
  }

  class TimSort<T(0)> {
    /** The array being sorted. */
    const a: array<T>
    /** The comparator, as the rank it orders elements by. */
    const rank: T -> int
    /** How many consecutive wins switch a merge to galloping. */
    var minGallop: int
    /** Temporary storage for merges, used from `tmpBase` for `tmpLen` elements. */
    var tmp: array<T>
    var tmpBase: int
    var tmpLen: int
    /** The pending runs: run `i` starts at `runBase[i]` and has `runLen[i]` elements. */
    var stackSize: int
    const runBase: array<int>
    const runLen: array<int>

    ghost predicate Valid()
      reads this
    {
      a != tmp && runBase != runLen
      && {a as object, tmp as object} !! {runBase as object, runLen as object}
      && runBase.Length == runLen.Length == StackLength(a.Length)
      && 0 <= stackSize <= runLen.Length
      && a.Length <= INT_MAX
      && 0 <= tmpBase && 0 <= tmpLen && tmpBase + tmpLen <= tmp.Length <= INT_MAX
      && minGallop >= 1
    }

    /**
     * A sorter for `a`, with temporary storage of half the array's length,
     * but no more than `INITIAL_TMP_STORAGE_LENGTH`; the caller's work array
     * is used instead when its slice is large enough.
     */
    constructor (a: array<T>, rank: T -> int, work: array?<T>, workBase: int, workLen: int)
      requires a.Length <= INT_MAX
      requires work != null ==> work != a && 0 <= workBase && 0 <= workLen && workBase + workLen <= work.Length <= INT_MAX
      ensures Valid() && fresh(runBase) && fresh(runLen)
      ensures this.a == a && this.rank == rank && stackSize == 0 && minGallop == MIN_GALLOP
      ensures var tlen := if a.Length < 2 * INITIAL_TMP_STORAGE_LENGTH then a.Length / 2 else INITIAL_TMP_STORAGE_LENGTH;
              if work == null || workLen < tlen || workBase + tlen > work.Length
              then fresh(tmp) && tmpBase == 0 && tmpLen == tmp.Length == tlen
              else tmp == work && tmpBase == workBase && tmpLen == workLen
    {
      var len := a.Length;
      var tlen := if len < 2 * INITIAL_TMP_STORAGE_LENGTH then len / 2 else INITIAL_TMP_STORAGE_LENGTH;
      this.a := a;
      this.rank := rank;
      minGallop := MIN_GALLOP;
      stackSize := 0;
      if work == null || workLen < tlen || workBase + tlen > work.Length {
        tmp := new T[tlen];
        tmpBase := 0;
        tmpLen := tlen;
      } else {
        tmp := work;
        tmpBase := workBase;
        tmpLen := workLen;
      }
      var stackLen := if len < 120 then 5 else if len < 1542 then 10 else if len < 119151 then 24 else 49;
      runBase := new int[stackLen];
      runLen := new int[stackLen];
    }

    /** Pushes the run `a[base..base + len]` onto the pending-run stack. */
    method PushRun(base: int, len: int)
      requires Valid() && stackSize < runLen.Length
      modifies this, runBase, runLen
      ensures Valid() && stackSize == old(stackSize) + 1
      ensures runBase[..stackSize] == old(runBase[..stackSize]) + [base]
      ensures runLen[..stackSize] == old(runLen[..stackSize]) + [len]
      ensures tmp == old(tmp) && tmpBase == old(tmpBase) && tmpLen == old(tmpLen) && minGallop == old(minGallop)
    {
      runBase[stackSize] := base;
      runLen[stackSize] := len;
      stackSize := stackSize + 1;
    }

    /**
     * Temporary storage for at least `minCapacity` elements: the current
     * array if it is large enough, otherwise a new one whose length is the
     * least power of two above `minCapacity`, capped at half the array.
     */
    method EnsureCapacity(minCapacity: int) returns (r: array<T>)
      requires Valid() && 0 < minCapacity <= a.Length / 2
      modifies this
      ensures Valid() && r == tmp && minCapacity <= tmpLen
      ensures stackSize == old(stackSize) && minGallop == old(minGallop)
      ensures old(tmpLen) >= minCapacity ==> tmp == old(tmp) && tmpBase == old(tmpBase) && tmpLen == old(tmpLen)
      ensures old(tmpLen) < minCapacity ==> fresh(tmp) && tmpBase == 0 && tmpLen == tmp.Length == NewCapacity(minCapacity, a.Length)
    {
      if tmpLen < minCapacity {
        var newSize := NewCapacity(minCapacity, a.Length);
        tmp := new T[newSize];
        tmpLen := newSize;
        tmpBase := 0;
      }
      r := tmp;
    }

    /**
     * Merges the adjacent sorted runs `a[base1..base2]` and
     * `a[base2..base2 + len2]` in place, stably, copying the first (the
     * shorter) to temporary storage and filling the array from the left.
     * The second run's head must be ranked below the first run's head, and
     * the first run's last element above the second run's last, as
     * `mergeAt` arranges.
     */
    method MergeLo(base1: int, len1: int, base2: int, len2: int)
      requires Valid()
      requires 0 < len1 <= len2 && 0 <= base1 && base1 + len1 == base2 && base2 + len2 <= a.Length
      requires Sorted(rank, a[base1..base2]) && Sorted(rank, a[base2..base2 + len2])
      requires Rank(rank, a[base2]) < Rank(rank, a[base1])
      requires Rank(rank, a[base2 + len2 - 1]) < Rank(rank, a[base2 - 1])
      modifies this, a, tmp
      ensures Valid() && stackSize == old(stackSize) && (tmp == old(tmp) || fresh(tmp))
      ensures a[..] == MergedAt(rank, old(a[..]), base1, base2, base2 + len2)
    {
      var t := EnsureCapacity(len1);
      var mg := LoMergeRuns(a, t, rank, tmpBase, base1, len1, base2, len2, minGallop);
      minGallop := if mg < 1 then 1 else mg;
    }

    /**
     * Like `MergeLo`, but for a second run no longer than the first: the
     * second run goes to temporary storage and the array fills from the
     * right.
     */
    method MergeHi(base1: int, len1: int, base2: int, len2: int)
      requires Valid()
      requires 0 < len2 <= len1 && 0 <= base1 && base1 + len1 == base2 && base2 + len2 <= a.Length
      requires Sorted(rank, a[base1..base2]) && Sorted(rank, a[base2..base2 + len2])
      requires Rank(rank, a[base2]) < Rank(rank, a[base1])
      requires Rank(rank, a[base2 + len2 - 1]) < Rank(rank, a[base2 - 1])
      modifies this, a, tmp
      ensures Valid() && stackSize == old(stackSize) && (tmp == old(tmp) || fresh(tmp))
      ensures a[..] == MergedAt(rank, old(a[..]), base1, base2, base2 + len2)
    {
      var t := EnsureCapacity(len2);
      var mg := HiMergeRuns(a, t, rank, tmpBase, base1, len1, base2, len2, minGallop);
      minGallop := if mg < 1 then 1 else mg;
    }

    /**
     * The merge half of `mergeAt`: the head of the first run ranked no
     * higher than the second run's head is already in place, and what is
     * left of the first run, if anything, goes on to `MergeTail`.
     */
    method MergeAdjacent(base1: int, len1: int, base2: int, len2: int)
      requires Valid()
      requires 0 < len1 && 0 < len2 && 0 <= base1 && base1 + len1 == base2 && base2 + len2 <= a.Length
      requires Sorted(rank, a[base1..base2]) && Sorted(rank, a[base2..base2 + len2])
      modifies this, a, tmp
      ensures Valid() && stackSize == old(stackSize) && (tmp == old(tmp) || fresh(tmp))
      ensures a[..] == MergedAt(rank, old(a[..]), base1, base2, base2 + len2)
    {
      ghost var A, e := a[..], base2 + len2;
      var k := GallopRight(a[base2], a, base1, len1, 0, rank);
      var b1, l1 := base1 + k, len1 - k;
      HeadTrimmed(rank, a, base1, len1, base2, len2, k, b1, e);
      if l1 == 0 {
        return;
      }
      MergeTail(b1, l1, base2, len2);
      assert a[..] == MergedAt(rank, A, b1, base2, e);
    }

    /**
     * The rest of `mergeAt`: the tail of the second run ranked at least as
     * high as the first run's last element is already in place, and what
     * is between is merged by `MergeLo` when the first run is no longer
     * than what is left of the second, otherwise by `MergeHi`.
     */
    method MergeTail(base1: int, len1: int, base2: int, len2: int)
      requires Valid()
      requires 0 < len1 && 0 < len2 && 0 <= base1 && base1 + len1 == base2 && base2 + len2 <= a.Length
      requires Sorted(rank, a[base1..base2]) && Sorted(rank, a[base2..base2 + len2])
      requires Rank(rank, a[base2]) < Rank(rank, a[base1])
      modifies this, a, tmp
      ensures Valid() && stackSize == old(stackSize) && (tmp == old(tmp) || fresh(tmp))
      ensures a[..] == MergedAt(rank, old(a[..]), base1, base2, base2 + len2)
    {
      var last := base1 + len1 - 1;
      var l2 := GallopLeft(a[last], a, base2, len2, len2 - 1, rank);
      TailTrimmed(rank, a, base1, len1, base2, len2, l2, last, base2 + l2, base2 + len2);
      if l2 == 0 {
        return;
      }
      MergeCore(base1, len1, base2, l2);
    }

    /**
     * The choice at the end of `mergeAt`: `MergeLo` when the first run is
     * no longer than the second, otherwise `MergeHi`.
     */
    method MergeCore(base1: int, len1: int, base2: int, len2: int)
      requires Valid()
      requires 0 < len1 && 0 < len2 && 0 <= base1 && base1 + len1 == base2 && base2 + len2 <= a.Length
      requires Sorted(rank, a[base1..base2]) && Sorted(rank, a[base2..base2 + len2])
      requires Rank(rank, a[base2]) < Rank(rank, a[base1])
      requires Rank(rank, a[base2 + len2 - 1]) < Rank(rank, a[base2 - 1])
      modifies this, a, tmp
      ensures Valid() && stackSize == old(stackSize) && (tmp == old(tmp) || fresh(tmp))
      ensures a[..] == MergedAt(rank, old(a[..]), base1, base2, base2 + len2)
    {
      if len1 <= len2 {
        MergeLo(base1, len1, base2, len2);
      } else {
        MergeHi(base1, len1, base2, len2);
      }
    }

    /**
     * The bookkeeping half of `mergeAt`: run `i` takes the combined length
     * of runs `i` and `i + 1`, the run above them (if any) moves down one
     * place, and the stack shrinks by one.
     */
    method MergeStackAt(i: int)
      requires Valid() && 2 <= stackSize && 0 <= i && (i == stackSize - 2 || i == stackSize - 3)
      requires runLen[i] + runLen[i + 1] <= INT_MAX
      modifies this, runBase, runLen
      ensures Valid() && stackSize == old(stackSize) - 1
      ensures tmp == old(tmp) && tmpBase == old(tmpBase) && tmpLen == old(tmpLen) && minGallop == old(minGallop)
      ensures runBase[..stackSize] == MergedBases(old(runBase[..stackSize]), i)
      ensures runLen[..stackSize] == MergeRuns(old(runLen[..stackSize]), i)
      ensures a[..] == old(a[..])
    {
      ghost var B, L := runBase[..stackSize], runLen[..stackSize];
      runLen[i] := runLen[i] + runLen[i + 1];
      if i == stackSize - 3 {
        runBase[i + 1] := runBase[i + 2];
        runLen[i + 1] := runLen[i + 2];
      }
      stackSize := stackSize - 1;
      assert runBase[..stackSize] == B[..i + 1] + B[i + 2..];
      assert runLen[..stackSize] == L[..i] + [L[i] + L[i + 1]] + L[i + 2..];
    }

    /**
     * The array half of `mergeAt` for pending runs `i` and `i + 1` of the
     * stack `B`, `L` as it was: the runs are merged in place, and after
     * the merge the stack with the two runs recorded as one covers the
     * same part of the array, with the order of ties kept.
     */
    method MergePending(ghost B: seq<int>, ghost L: seq<int>, i: int, ghost lo0: int, ghost lo: int,
                        base1: int, len1: int, base2: int, len2: int)
      requires Valid() && 0 <= i && i + 1 < |B|
      requires RunsCover(rank, a[..], B, L, lo0, lo) == true
      requires base1 == B[i] && len1 == L[i] && base2 == B[i + 1] && len2 == L[i + 1]
      modifies this, a, tmp
      ensures Valid() && stackSize == old(stackSize) && (tmp == old(tmp) || fresh(tmp))
      ensures runBase[..stackSize] == old(runBase[..stackSize]) && runLen[..stackSize] == old(runLen[..stackSize])
      ensures a[..] == MergedAt(rank, old(a[..]), base1, base2, base2 + len2)
      ensures RunsCover(rank, a[..], MergedBases(B, i), MergeRuns(L, i), lo0, lo) == true
      ensures Rearranged(rank, a[..], old(a[..]), lo0, lo) == true
    {
      ghost var S := a[..];
      RunsAdjacent(rank, S, B, L, lo0, lo, i, base1, len1, base2, len2);
      MergeAdjacent(base1, len1, base2, len2);
      RunsMerge(rank, S, B, L, lo0, lo, i, a[..], base1, base2, base2 + len2);
    }

    /**
     * Merges the pending runs `i` and `i + 1`, the second and third from
     * the top or the top two, in place: the stack records the merged run in
     * place of run `i`.
     */
    method MergeAt(i: int, ghost lo0: int, ghost lo: int)
      requires Valid() && 2 <= stackSize && 0 <= i && (i == stackSize - 2 || i == stackSize - 3)
      requires RunsCover(rank, a[..], runBase[..stackSize], runLen[..stackSize], lo0, lo) == true
      modifies this, a, tmp, runBase, runLen
      ensures Valid() && stackSize == old(stackSize) - 1 && (tmp == old(tmp) || fresh(tmp))
      ensures runBase[..stackSize] == MergedBases(old(runBase[..stackSize]), i)
      ensures runLen[..stackSize] == MergeRuns(old(runLen[..stackSize]), i)
      ensures a[..] == MergedAt(rank, old(a[..]), old(runBase[i]), old(runBase[i + 1]), old(runBase[i + 1]) + old(runLen[i + 1]))
      ensures RunsCover(rank, a[..], runBase[..stackSize], runLen[..stackSize], lo0, lo) == true
      ensures Rearranged(rank, a[..], old(a[..]), lo0, lo) == true
    {
      ghost var B, L, S := runBase[..stackSize], runLen[..stackSize], a[..];
      var base1, len1 := runBase[i], runLen[i];
      var base2, len2 := runBase[i + 1], runLen[i + 1];
      RunsAdjacentBounds(rank, S, B, L, lo0, lo, i, base1, len1, base2, len2);
      MergePending(B, L, i, lo0, lo, base1, len1, base2, len2);
      MergeStackAt(i);
    }

    /**
     * The main loop of `sort`: takes the next run of `a[lo0..hi]`, pushes it
     * and collapses the stack, until the range is used up.
     */
    method PushRuns(lo0: int, hi: int, minRun: int)
      requires Valid() && 0 <= lo0 < hi <= a.Length && 16 <= minRun && stackSize == 0
      modifies this, a, tmp, runBase, runLen
      ensures Valid() && 0 < stackSize && (tmp == old(tmp) || fresh(tmp))
      ensures RunsCover(rank, a[..], runBase[..stackSize], runLen[..stackSize], lo0, hi) == true
      ensures Rearranged(rank, a[..], old(a[..]), lo0, hi) == true
    {
      ghost var A := a[..];
      var nRemaining := hi - lo0;
      var cur := lo0;
      RearrangedRefl(rank, A, lo0, cur);
      while nRemaining != 0
        invariant Valid() && (tmp == old(tmp) || fresh(tmp))
        invariant lo0 <= cur <= hi && nRemaining == hi - cur
        invariant RunsCover(rank, a[..], runBase[..stackSize], runLen[..stackSize], lo0, cur) == true
        invariant Balanced(runLen[..stackSize]) == true
        invariant nRemaining != 0 ==> AtLeast(runLen[..stackSize], minRun) == true
        invariant lo0 < cur ==> 0 < stackSize
        invariant Rearranged(rank, a[..], A, lo0, cur) == true
        decreases nRemaining
      {
        var n := NextPendingRun(cur, hi, minRun, lo0, A);
        cur := cur + n;
        nRemaining := nRemaining - n;
      }
    }

    /**
     * The body of the main loop of `sort`: the next run at `lo`, pushed
     * and merged with the pending runs below it as `mergeCollapse` decides.
     */
    method NextPendingRun(lo: int, hi: int, minRun: int, ghost lo0: int, ghost A: seq<T>) returns (n: int)
      requires Valid() && lo0 <= lo < hi <= a.Length && 16 <= minRun
      requires RunsCover(rank, a[..], runBase[..stackSize], runLen[..stackSize], lo0, lo) == true
      requires Balanced(runLen[..stackSize]) && AtLeast(runLen[..stackSize], minRun)
      requires Rearranged(rank, a[..], A, lo0, lo) == true
      modifies this, a, tmp, runBase, runLen
      ensures Valid() && 0 < stackSize && (tmp == old(tmp) || fresh(tmp))
      ensures 0 < n <= hi - lo
      ensures RunsCover(rank, a[..], runBase[..stackSize], runLen[..stackSize], lo0, lo + n) == true
      ensures Balanced(runLen[..stackSize]) == true
      ensures lo + n < hi ==> AtLeast(runLen[..stackSize], minRun) == true
      ensures Rearranged(rank, a[..], A, lo0, lo + n) == true
    {
      ghost var S := a[..];
      n := NextRun(a, lo, hi, minRun, rank);
      var next := lo + n;
      ghost var S1 := a[..];
      NextRunFramed(rank, S, S1, A, runBase[..stackSize], runLen[..stackSize], lo0, lo, next);
      AddRun(lo, n, lo0, next, minRun);
      RearrangedTrans(rank, a[..], S1, A, lo0, next);
    }

    /**
     * One step of the main loop of `sort`: `pushRun` of the sorted run
     * `a[base..base + n]` just above the pending runs, then `mergeCollapse`.
     */
    method AddRun(base: int, n: int, ghost lo0: int, ghost lo: int, ghost minRun: int)
      requires Valid() && 0 <= base && 0 < n && lo == base + n && lo <= a.Length && Sorted(rank, a[base..lo])
      requires RunsCover(rank, a[..], runBase[..stackSize], runLen[..stackSize], lo0, base) == true
      requires Balanced(runLen[..stackSize]) && AtLeast(runLen[..stackSize], minRun) && 16 <= minRun
      modifies this, a, tmp, runBase, runLen
      ensures Valid() && 0 < stackSize && (tmp == old(tmp) || fresh(tmp))
      ensures RunsCover(rank, a[..], runBase[..stackSize], runLen[..stackSize], lo0, lo) == true
      ensures Balanced(runLen[..stackSize]) == true
      ensures minRun <= n ==> AtLeast(runLen[..stackSize], minRun) == true
      ensures Rearranged(rank, a[..], old(a[..]), lo0, lo) == true
    {
      ghost var B, L, S := runBase[..stackSize], runLen[..stackSize], a[..];
      RunsPositive(rank, S, B, L, lo0, base);
      StackFits(L, a.Length);
      RunsPush(rank, S, B, L, lo0, base, n);
      PushCollapse(L, n, minRun);
      PushRun(base, n);
      assert a[..] == S;
      MergeCollapse(lo0, lo);
    }

    /**
     * `mergeCollapse`, with the corrected choice: merges adjacent runs
     * until the run lengths are balanced again.  Every step merges two of
     * the top three runs, so the stack goes the way `Collapse` says.
     */
    method MergeCollapse(ghost lo0: int, ghost lo: int)
      requires Valid() && 0 < stackSize
      requires RunsCover(rank, a[..], runBase[..stackSize], runLen[..stackSize], lo0, lo) == true
      modifies this, a, tmp, runBase, runLen
      ensures Valid() && 0 < stackSize && (tmp == old(tmp) || fresh(tmp))
      ensures runLen[..stackSize] == Collapse(old(runLen[..stackSize]))
      ensures RunsCover(rank, a[..], runBase[..stackSize], runLen[..stackSize], lo0, lo) == true
      ensures Rearranged(rank, a[..], old(a[..]), lo0, lo) == true
    {
      ghost var A, L0 := a[..], runLen[..stackSize];
      RunsPositive(rank, A, runBase[..stackSize], L0, lo0, lo);
      RearrangedRefl(rank, A, lo0, lo);
      while stackSize > 1
        invariant Valid() && 0 < stackSize && (tmp == old(tmp) || fresh(tmp))
        invariant RunsCover(rank, a[..], runBase[..stackSize], runLen[..stackSize], lo0, lo) == true
        invariant Collapse(runLen[..stackSize]) == Collapse(L0)
        invariant Rearranged(rank, a[..], A, lo0, lo) == true
        decreases stackSize
      {
        ghost var S := a[..];
        var step := CollapseChoice();
        if step == Stop {
          break;
        }
        MergeAt(step.n, lo0, lo);
        RearrangedTrans(rank, a[..], S, A, lo0, lo);
      }
    }

    /**
     * The test at the head of `mergeCollapse`'s loop, with the corrected
     * condition: which two runs to merge next, if any.
     */
    method CollapseChoice() returns (step: CollapseStep)
      requires Valid() && 1 < stackSize
      ensures step == Choice(runLen[..stackSize])
    {
      ghost var L := runLen[..stackSize];
      var n := stackSize - 2;
      assert L[n] == runLen[n] && L[n + 1] == runLen[n + 1];
      assert n > 0 ==> L[n - 1] == runLen[n - 1];
      assert n > 1 ==> L[n - 2] == runLen[n - 2];
      if (n > 0 && runLen[n - 1] <= runLen[n] + runLen[n + 1]) || (n > 1 && runLen[n - 2] <= runLen[n - 1] + runLen[n]) {
        if runLen[n - 1] < runLen[n + 1] {
          n := n - 1;
        }
        step := CollapseStep.MergeAt(n);
      } else if runLen[n] <= runLen[n + 1] {
        step := CollapseStep.MergeAt(n);
      } else {
        step := Stop;
      }
    }

    /**
     * `mergeForceCollapse`: merges the top two runs, or the second and
     * third when the third is shorter than the top, until one run is left.
     */
    method MergeForceCollapse(ghost lo0: int, ghost lo: int)
      requires Valid() && 0 < stackSize
      requires RunsCover(rank, a[..], runBase[..stackSize], runLen[..stackSize], lo0, lo) == true
      modifies this, a, tmp, runBase, runLen
      ensures Valid() && stackSize == 1 && (tmp == old(tmp) || fresh(tmp))
      ensures RunsCover(rank, a[..], runBase[..stackSize], runLen[..stackSize], lo0, lo) == true
      ensures Rearranged(rank, a[..], old(a[..]), lo0, lo) == true
    {
      ghost var A := a[..];
      RearrangedRefl(rank, A, lo0, lo);
      while stackSize > 1
        invariant Valid() && 0 < stackSize && (tmp == old(tmp) || fresh(tmp))
        invariant RunsCover(rank, a[..], runBase[..stackSize], runLen[..stackSize], lo0, lo) == true
        invariant Rearranged(rank, a[..], A, lo0, lo) == true
        decreases stackSize
      {
        ghost var S := a[..];
        var n := stackSize - 2;
        if n > 0 && runLen[n - 1] < runLen[n + 1] {
          n := n - 1;
        }
        MergeAt(n, lo0, lo);
        RearrangedTrans(rank, a[..], S, A, lo0, lo);
      }
    }
  }

  /**
   * The next run of the main loop of `sort`, at `lo`: the natural run
   * there, made ascending, and extended by binary insertion to `minRun`
   * elements, or to `hi` when fewer remain.
   */
  method NextRun<T>(a: array<T>, lo: int, hi: int, minRun: int, rank: T -> int) returns (n: int)
    requires 0 <= lo < hi <= a.Length
    modifies a
    ensures 0 < n <= hi - lo && (minRun <= n || n == hi - lo)
    ensures Sorted(rank, a[lo..lo + n])
    ensures Rearranged(rank, a[..], old(a[..]), lo, lo + n) == true
  {
    ghost var A := a[..];
    n := AscendingRun(a, lo, hi, rank);
    var nRemaining := hi - lo;
    if n < minRun {
      var force := if nRemaining <= minRun then nRemaining else minRun;
      ghost var A1 := a[..];
      RearrangedWiden(rank, A1, A, lo, lo + n, lo + force);
      ExtendRun(a, lo, lo + n, lo + force, rank);
      RearrangedTrans(rank, a[..], A1, A, lo, lo + force);
      n := force;
    }
  }

  /** `countRunAndMakeAscending`, stated as a rearrangement of the run it finds. */
  method AscendingRun<T>(a: array<T>, lo: int, hi: int, rank: T -> int) returns (n: int)
    requires 0 <= lo < hi <= a.Length
    modifies a
    ensures 1 <= n <= hi - lo && Sorted(rank, a[lo..lo + n])
    ensures Rearranged(rank, a[..], old(a[..]), lo, lo + n) == true
  {
    ghost var A := a[..];
    n := CountRunAndMakeAscending(a, lo, hi, rank);
    RearrangedParts(rank, a[..], A, lo, lo + n, a[lo..lo + n], A[lo..lo + n]);
  }

  /** `binarySort` of `a[lo..hi]` whose first part `a[lo..start]` is sorted, stated as a rearrangement. */
  method ExtendRun<T>(a: array<T>, lo: int, start: int, hi: int, rank: T -> int)
    requires 0 <= lo <= start <= hi <= a.Length && Sorted(rank, a[lo..start])
    modifies a
    ensures Sorted(rank, a[lo..hi])
    ensures Rearranged(rank, a[..], old(a[..]), lo, hi) == true
  {
    ghost var A := a[..];
    BinarySort(a, lo, hi, start, rank);
    RearrangedParts(rank, a[..], A, lo, hi, a[lo..hi], A[lo..hi]);
  }

  /**
   * `sort`: sorts `a[lo..hi]` stably, in place.  Fewer than two elements
   * are sorted already; fewer than `MIN_MERGE` are sorted by binary
   * insertion after their first run; otherwise runs of at least `minRun`
   * elements are pushed one by one and merged as they come, and what is
   * left on the stack is merged at the end.  The optional work array is
   * used as temporary storage when it is large enough.
   */
  method Sort<T(0)>(a: array<T>, lo: int, hi: int, rank: T -> int, work: array?<T>, workBase: int, workLen: int)
    requires 0 <= lo <= hi <= a.Length <= INT_MAX
    requires work != null ==> work != a && 0 <= workBase && 0 <= workLen && workBase + workLen <= work.Length <= INT_MAX
    modifies a, work
    ensures Sorted(rank, a[lo..hi])
    ensures Rearranged(rank, a[..], old(a[..]), lo, hi) == true
    ensures multiset(a[lo..hi]) == multiset(old(a[lo..hi]))
  {
    ghost var A := a[..];
    var nRemaining := hi - lo;
    if nRemaining < 2 {
      RearrangedRefl(rank, A, lo, hi);
    } else if nRemaining < MIN_MERGE {
      MiniSort(a, lo, hi, rank);
    } else {
      SortRuns(a, lo, hi, rank, work, workBase, workLen);
    }
    SameTiesPermutes(rank, a[lo..hi], A[lo..hi]);
  }

  /** The branch of `sort` for fewer than `MIN_MERGE` elements: the first run, then binary insertion of the rest. */
  method MiniSort<T>(a: array<T>, lo: int, hi: int, rank: T -> int)
    requires 0 <= lo < hi <= a.Length
    modifies a
    ensures Sorted(rank, a[lo..hi])
    ensures Rearranged(rank, a[..], old(a[..]), lo, hi) == true
  {
    ghost var A := a[..];
    var initRunLen := AscendingRun(a, lo, hi, rank);
    ghost var A1 := a[..];
    RearrangedWiden(rank, A1, A, lo, lo + initRunLen, hi);
    ExtendRun(a, lo, lo + initRunLen, hi, rank);
    RearrangedTrans(rank, a[..], A1, A, lo, hi);
  }

  /**
   * The main branch of `sort`: runs of at least `minRun` elements, found
   * from left to right, pushed and merged as they come, then all merged.
   */
  method SortRuns<T(0)>(a: array<T>, lo: int, hi: int, rank: T -> int, work: array?<T>, workBase: int, workLen: int)
    requires 0 <= lo && MIN_MERGE <= hi - lo && hi <= a.Length <= INT_MAX
    requires work != null ==> work != a && 0 <= workBase && 0 <= workLen && workBase + workLen <= work.Length <= INT_MAX
    modifies a, work
    ensures Sorted(rank, a[lo..hi])
    ensures Rearranged(rank, a[..], old(a[..]), lo, hi) == true
  {
    ghost var A := a[..];
    var ts := new TimSort(a, rank, work, workBase, workLen);
    var minRun := MinRunLength(hi - lo);
    ts.PushRuns(lo, hi, minRun);
    ghost var A1 := a[..];
    ts.MergeForceCollapse(lo, hi);
    RearrangedTrans(rank, a[..], A1, A, lo, hi);
    RunsSorted(rank, a[..], ts.runBase[..ts.stackSize], ts.runLen[..ts.stackSize], lo, hi);
  }
}
