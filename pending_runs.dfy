// The pending runs of `java.util.TimSort` against the array they lie in:
// `B` holds the runs' start indices and `L` their lengths, bottom of the
// stack first, as `runBase[..stackSize]` and `runLen[..stackSize]` do.  The
// runs lie side by side from `lo0` up to `lo`, and each one is sorted.
//
// Contracts write some predicates as `P(...) == true`: the comparison keeps
// the predicate as one fact rather than unfolded into its conjuncts, which
// keeps the proofs that carry it small.
module PendingRuns {
  import opened SortSpec
  import opened RunStack

  /** The runs lie side by side, the first starting at `lo0` and the last ending at `lo`. */
  predicate Chain(B: seq<int>, L: seq<int>, lo0: int, lo: int)
  {
    |B| == |L|
    && (|B| == 0 ==> lo == lo0)
    && (|B| > 0 ==> B[0] == lo0 && B[|B| - 1] + L[|B| - 1] == lo)
    && (forall i :: 0 <= i < |B| - 1 ==> B[i] + L[i] == B[i + 1])
  }

  /**
   * `s[b..e]` is sorted, stated one adjacent pair at a time; the verifier
   * unfolds it a step at a time, which keeps proofs about many runs small.
   */
  predicate Ascends<T>(rank: T -> int, s: seq<T>, b: int, e: int)
    requires 0 <= b <= e <= |s|
    decreases e - b
  {
    e - b <= 1 || (Rank(rank, s[b]) <= Rank(rank, s[b + 1]) && Ascends(rank, s, b + 1, e))
  }

  lemma {:induction false} AscendsSorted<T>(rank: T -> int, s: seq<T>, b: int, e: int)
    requires 0 <= b <= e <= |s|
    ensures Ascends(rank, s, b, e) <==> Sorted(rank, s[b..e])
    decreases e - b
  {
    if e - b > 1 {
      AscendsSorted(rank, s, b + 1, e);
      if Ascends(rank, s, b, e) {
        var r := s[b..e];
        assert s[b + 1..e] == r[1..];
        forall i, j | 0 <= i < j < |r|
          ensures Rank(rank, r[i]) <= Rank(rank, r[j])
        {
          if i == 0 {
            assert Rank(rank, r[1]) <= Rank(rank, r[j]);
          } else {
            assert r[i] == r[1..][i - 1] && r[j] == r[1..][j - 1];
          }
        }
      }
      if Sorted(rank, s[b..e]) {
        assert s[b + 1..e] == s[b..e][1..];
        assert s[b] == s[b..e][0] && s[b + 1] == s[b..e][1];
      }
    }
  }

  /** `s[b..b + n]` is a non-empty sorted run between `lo0` and `lo`. */
  ghost predicate RunAt<T>(rank: T -> int, s: seq<T>, lo0: int, lo: int, b: int, n: int)
  {
    lo0 <= b && 0 < n && b + n <= lo <= |s| && 0 <= lo0 && Ascends(rank, s, b, b + n)
  }

  ghost predicate RunsCover<T>(rank: T -> int, s: seq<T>, B: seq<int>, L: seq<int>, lo0: int, lo: int)
  {
    0 <= lo0 <= lo <= |s| && Chain(B, L, lo0, lo)
    && (forall i :: 0 <= i < |B| ==> RunAt(rank, s, lo0, lo, B[i], L[i]))
  }

  /** The start indices after runs `i` and `i + 1` have been merged: the second start goes. */
  function MergedBases(B: seq<int>, i: int): (r: seq<int>)
    requires 0 <= i && i + 1 < |B|
    ensures |r| == |B| - 1 && r[..i + 1] == B[..i + 1] && r[i + 1..] == B[i + 2..]
  {
    B[..i + 1] + B[i + 2..]
  }

  /** A run ends no later than any run above it starts. */
  lemma {:induction false} RunsOrdered(B: seq<int>, L: seq<int>, lo0: int, lo: int, j: int, k: int)
    requires Chain(B, L, lo0, lo) && 0 <= j < k < |B|
    requires forall i :: 0 <= i < |L| ==> L[i] > 0
    ensures B[j] + L[j] <= B[k]
    decreases k - j
  {
    if j + 1 < k {
      RunsOrdered(B, L, lo0, lo, j, k - 1);
    }
  }

  /** The runs account for every element from `lo0` up to `lo`. */
  lemma {:induction false} RunsSum(B: seq<int>, L: seq<int>, lo0: int, lo: int)
    requires Chain(B, L, lo0, lo)
    ensures Sum(L) == lo - lo0
    decreases |B|
  {
    if |B| > 0 {
      var m := |B| - 1;
      SumConcat(L[..m], [L[m]]);
      assert L == L[..m] + [L[m]];
      assert Sum([L[m]]) == L[m];
      assert Chain(B[..m], L[..m], lo0, B[m]);
      RunsSum(B[..m], L[..m], lo0, B[m]);
    }
  }

  /** A sorted run pushed right after the pending runs is pending too. */
  lemma RunsPush<T>(rank: T -> int, s: seq<T>, B: seq<int>, L: seq<int>, lo0: int, lo: int, n: int)
    requires RunsCover(rank, s, B, L, lo0, lo) == true
    requires 0 < n && lo + n <= |s| && Sorted(rank, s[lo..lo + n])
    ensures RunsCover(rank, s, B + [lo], L + [n], lo0, lo + n)
  {
    AscendsSorted(rank, s, lo, lo + n);
  }

  /** Each pending run is a sorted run of the range. */
  lemma RunOf<T>(rank: T -> int, s: seq<T>, B: seq<int>, L: seq<int>, lo0: int, lo: int, i: int)
    requires RunsCover(rank, s, B, L, lo0, lo) == true
    requires 0 <= i < |B|
    ensures RunAt(rank, s, lo0, lo, B[i], L[i])
  {
  }

  /** With one run left, everything from `lo0` up to `lo` is sorted. */
  lemma RunsSorted<T>(rank: T -> int, s: seq<T>, B: seq<int>, L: seq<int>, lo0: int, lo: int)
    requires RunsCover(rank, s, B, L, lo0, lo) == true
    requires |B| <= 1
    ensures Sorted(rank, s[lo0..lo])
  {
    if |B| == 1 {
      assert RunAt(rank, s, lo0, lo, B[0], L[0]);
      AscendsSorted(rank, s, lo0, lo);
    }
  }

  /**
   * `s` is `t` with the part from `lo0` up to `lo` rearranged: every
   * element and the order of ties kept there, nothing changed outside.
   */
  ghost predicate Rearranged<T>(rank: T -> int, s: seq<T>, t: seq<T>, lo0: int, lo: int)
  {
    0 <= lo0 <= lo <= |s| == |t| && s[..lo0] == t[..lo0] && s[lo..] == t[lo..]
    && SameTies(rank, s[lo0..lo], t[lo0..lo])
  }

  /** Keeping everything outside `lo0..lo` and the ties inside it is rearranging `lo0..lo`. */
  lemma RearrangedParts<T>(rank: T -> int, s: seq<T>, t: seq<T>, lo0: int, lo: int, p: seq<T>, q: seq<T>)
    requires 0 <= lo0 <= lo <= |s| == |t| && s[..lo0] == t[..lo0] && s[lo..] == t[lo..]
    requires p == s[lo0..lo] && q == t[lo0..lo] && SameTies(rank, p, q)
    ensures Rearranged(rank, s, t, lo0, lo) == true
  {
  }

  /** A rearrangement of `lo0..mid` is one of any wider part `lo0..hi`. */
  lemma RearrangedWiden<T>(rank: T -> int, s: seq<T>, t: seq<T>, lo0: int, mid: int, hi: int)
    requires Rearranged(rank, s, t, lo0, mid) == true && mid <= hi <= |s|
    ensures Rearranged(rank, s, t, lo0, hi) == true
  {
    SliceAbove(s, t, mid, mid, hi);
    SliceAbove(s, t, mid, hi, |s|);
    assert s[lo0..hi] == s[lo0..mid] + s[mid..hi];
    assert t[lo0..hi] == t[lo0..mid] + t[mid..hi];
    SameTiesRefl(rank, s[mid..hi]);
    SameTiesAppend(rank, s[lo0..mid], s[mid..hi], t[lo0..mid], t[mid..hi]);
  }

  /**
   * Finding the next run at `lo` rearranges only `lo..hi`: the pending runs
   * below `lo` stay pending, and the whole of `lo0..hi` is rearranged.
   */
  lemma NextRunFramed<T>(rank: T -> int, s: seq<T>, s': seq<T>, u: seq<T>, B: seq<int>, L: seq<int>,
                         lo0: int, lo: int, hi: int)
    requires RunsCover(rank, s, B, L, lo0, lo) == true
    requires Rearranged(rank, s, u, lo0, lo) == true && Rearranged(rank, s', s, lo, hi) == true
    ensures RunsCover(rank, s', B, L, lo0, lo) == true
    ensures Rearranged(rank, s', u, lo0, hi) == true
  {
    RearrangedJoin(rank, s', s, u, lo0, lo, hi);
    RunsFramed(rank, s, s', B, L, lo0, lo);
  }

  /** Two rearrangements of the same part in a row are one. */
  lemma RearrangedTrans<T>(rank: T -> int, s: seq<T>, t: seq<T>, u: seq<T>, lo0: int, lo: int)
    requires Rearranged(rank, s, t, lo0, lo) == true && Rearranged(rank, t, u, lo0, lo) == true
    ensures Rearranged(rank, s, u, lo0, lo) == true
  {
  }

  /** Rearranging `t[lo0..mid]` into `u` and then `s[mid..hi]` into `s` rearranges `s[lo0..hi]`. */
  lemma RearrangedJoin<T>(rank: T -> int, s: seq<T>, t: seq<T>, u: seq<T>, lo0: int, mid: int, hi: int)
    requires Rearranged(rank, t, u, lo0, mid) == true && Rearranged(rank, s, t, mid, hi) == true
    ensures Rearranged(rank, s, u, lo0, hi) == true
  {
    SliceBelow(t, s, mid, 0, lo0);
    SliceBelow(t, s, mid, lo0, mid);
    SliceAbove(u, t, mid, hi, |s|);
    SliceAbove(u, t, mid, mid, hi);
    assert s[lo0..hi] == s[lo0..mid] + s[mid..hi];
    assert u[lo0..hi] == u[lo0..mid] + u[mid..hi];
    SameTiesAppend(rank, s[lo0..mid], s[mid..hi], u[lo0..mid], u[mid..hi]);
  }

  /** Nothing moved: `s` is a rearrangement of itself. */
  lemma RearrangedRefl<T>(rank: T -> int, s: seq<T>, lo0: int, lo: int)
    requires 0 <= lo0 <= lo <= |s|
    ensures Rearranged(rank, s, s, lo0, lo) == true
  {
    SameTiesRefl(rank, s[lo0..lo]);
  }

  /** The pending runs lie below `lo`, so changes from `lo` on leave them pending. */
  lemma RunsFramed<T>(rank: T -> int, s: seq<T>, s': seq<T>, B: seq<int>, L: seq<int>, lo0: int, lo: int)
    requires RunsCover(rank, s, B, L, lo0, lo) == true
    requires |s'| == |s| && s'[..lo] == s[..lo]
    ensures RunsCover(rank, s', B, L, lo0, lo) == true
  {
    forall i | 0 <= i < |B|
      ensures RunAt(rank, s', lo0, lo, B[i], L[i])
    {
      assert RunAt(rank, s, lo0, lo, B[i], L[i]);
      RunBelow(rank, s, s', lo0, lo, B[i], L[i], lo);
    }
  }

  /** Every pending run is non-empty, and together they hold the elements from `lo0` up to `lo`. */
  lemma RunsPositive<T>(rank: T -> int, s: seq<T>, B: seq<int>, L: seq<int>, lo0: int, lo: int)
    requires RunsCover(rank, s, B, L, lo0, lo) == true
    ensures Positive(L) && Sum(L) == lo - lo0
  {
    forall i | 0 <= i < |L|
      ensures L[i] > 0
    {
      assert RunAt(rank, s, lo0, lo, B[i], L[i]);
    }
    RunsSum(B, L, lo0, lo);
  }

  /** Runs `i` and `i + 1` are adjacent, non-empty and sorted, and lie within `s[lo0..lo]`. */
  lemma RunsAdjacent<T>(rank: T -> int, s: seq<T>, B: seq<int>, L: seq<int>, lo0: int, lo: int, i: int,
                        base1: int, len1: int, base2: int, len2: int)
    requires RunsCover(rank, s, B, L, lo0, lo) == true
    requires 0 <= i && i + 1 < |B|
    requires base1 == B[i] && len1 == L[i] && base2 == B[i + 1] && len2 == L[i + 1]
    ensures 0 < len1 && 0 < len2 && lo0 <= base1 && base1 + len1 == base2 && base2 + len2 <= lo <= |s|
    ensures Sorted(rank, s[base1..base2]) && Sorted(rank, s[base2..base2 + len2])
  {
    assert RunAt(rank, s, lo0, lo, base1, len1) && RunAt(rank, s, lo0, lo, base2, len2);
    AscendsSorted(rank, s, base1, base2);
    AscendsSorted(rank, s, base2, base2 + len2);
  }

  /** The bounds half of `RunsAdjacent`. */
  lemma RunsAdjacentBounds<T>(rank: T -> int, s: seq<T>, B: seq<int>, L: seq<int>, lo0: int, lo: int, i: int,
                              base1: int, len1: int, base2: int, len2: int)
    requires RunsCover(rank, s, B, L, lo0, lo) == true
    requires 0 <= i && i + 1 < |B|
    requires base1 == B[i] && len1 == L[i] && base2 == B[i + 1] && len2 == L[i + 1]
    ensures 0 < len1 && 0 < len2 && lo0 <= base1 && base1 + len1 == base2 && base2 + len2 <= lo <= |s|
  {
    RunsAdjacent(rank, s, B, L, lo0, lo, i, base1, len1, base2, len2);
  }

  /**
   * Merging runs `i` and `i + 1` in place leaves the other runs where they
   * were and sorted, keeps every element and the order of ties from `lo0`
   * up to `lo`, and changes nothing outside.
   */
  lemma RunsMerge<T>(rank: T -> int, s: seq<T>, B: seq<int>, L: seq<int>, lo0: int, lo: int, i: int,
                     s': seq<T>, b: int, m: int, e: int)
    requires RunsCover(rank, s, B, L, lo0, lo) == true
    requires 0 <= i && i + 1 < |B|
    requires b == B[i] && m == B[i + 1] && e == m + L[i + 1]
    requires s' == MergedAt(rank, s, b, m, e)
    ensures RunsCover(rank, s', MergedBases(B, i), MergeRuns(L, i), lo0, lo) == true
    ensures Rearranged(rank, s', s, lo0, lo) == true
  {
    assert RunAt(rank, s, lo0, lo, B[i], L[i]) && RunAt(rank, s, lo0, lo, B[i + 1], L[i + 1]);
    MergedSlices(s, s[..b], Merge(rank, s[b..m], s[m..e]), s[e..], s', b, e);
    MergedCover(rank, s, B, L, lo0, lo, i, s', b, m, e);
    assert RunAt(rank, s, lo0, lo, b, L[i]) && m == b + L[i];
    RunsTies(rank, s, s', lo0, b, L[i], m, e, lo);
  }

  lemma MergedCover<T>(rank: T -> int, s: seq<T>, B: seq<int>, L: seq<int>, lo0: int, lo: int, i: int,
                       s': seq<T>, b: int, m: int, e: int)
    requires RunsCover(rank, s, B, L, lo0, lo) == true
    requires 0 <= i && i + 1 < |B|
    requires b == B[i] && m == B[i + 1] && e == m + L[i + 1]
    requires |s'| == |s| && s'[..b] == s[..b] && s'[e..] == s[e..] && s'[b..e] == Merge(rank, s[b..m], s[m..e])
    ensures RunsCover(rank, s', MergedBases(B, i), MergeRuns(L, i), lo0, lo)
  {
    MergedChain(B, L, lo0, lo, i);
    forall j | 0 <= j < |B| - 1
      ensures RunAt(rank, s', lo0, lo, MergedBases(B, i)[j], MergeRuns(L, i)[j])
    {
      if j == i {
        MergedMiddle(rank, s, B, L, lo0, lo, i, s', b, m, e);
      } else {
        MergedKept(rank, s, B, L, lo0, lo, i, s', b, e, j);
      }
    }
  }

  /** The run that replaces runs `i` and `i + 1` is sorted and lies where they were. */
  lemma MergedMiddle<T>(rank: T -> int, s: seq<T>, B: seq<int>, L: seq<int>, lo0: int, lo: int, i: int,
                        s': seq<T>, b: int, m: int, e: int)
    requires RunsCover(rank, s, B, L, lo0, lo) == true
    requires 0 <= i && i + 1 < |B|
    requires b == B[i] && m == B[i + 1] && e == m + L[i + 1]
    requires |s'| == |s| && s'[b..e] == Merge(rank, s[b..m], s[m..e])
    ensures RunAt(rank, s', lo0, lo, MergedBases(B, i)[i], MergeRuns(L, i)[i])
  {
    var n1, n2 := L[i], L[i + 1];
    RunOf(rank, s, B, L, lo0, lo, i);
    RunOf(rank, s, B, L, lo0, lo, i + 1);
    MergedRunAt(rank, s, s', lo0, lo, b, n1, n2, m, e);
    assert MergedBases(B, i)[i] == b && MergeRuns(L, i)[i] == n1 + n2;
  }

  /** Every other run after the merge of runs `i` and `i + 1` is one of the runs before it, unchanged. */
  lemma MergedKept<T>(rank: T -> int, s: seq<T>, B: seq<int>, L: seq<int>, lo0: int, lo: int, i: int,
                      s': seq<T>, b: int, e: int, j: int)
    requires RunsCover(rank, s, B, L, lo0, lo) == true
    requires 0 <= i && i + 1 < |B|
    requires b == B[i] && e == B[i + 1] + L[i + 1]
    requires |s'| == |s| && s'[..b] == s[..b] && s'[e..] == s[e..]
    requires 0 <= j < |B| - 1 && j != i
    ensures RunAt(rank, s', lo0, lo, MergedBases(B, i)[j], MergeRuns(L, i)[j])
  {
    var k := if j < i then j else j + 1;
    MergedIndex(B, L, i, j, k);
    KeptRun(rank, s, s', B, L, lo0, lo, i, k, b, e);
  }

  /** Entry `j` of the stack after merging runs `i` and `i + 1` is entry `k` of the stack before. */
  lemma MergedIndex(B: seq<int>, L: seq<int>, i: int, j: int, k: int)
    requires 0 <= i && i + 1 < |B| == |L| && 0 <= j < |B| - 1 && j != i
    requires k == if j < i then j else j + 1
    ensures MergedBases(B, i)[j] == B[k] && MergeRuns(L, i)[j] == L[k]
  {
    var B', L' := MergedBases(B, i), MergeRuns(L, i);
    if j < i {
      assert B'[j] == B'[..i + 1][j] && L'[j] == L'[..i][j];
    } else {
      assert B'[j] == B'[i + 1..][j - i - 1] && L'[j] == L'[i + 1..][j - i - 1];
    }
  }

  /** A run not taking part in the merge of runs `i` and `i + 1` is where it was, and as it was. */
  lemma KeptRun<T>(rank: T -> int, s: seq<T>, s': seq<T>, B: seq<int>, L: seq<int>, lo0: int, lo: int, i: int, k: int,
                   b: int, e: int)
    requires RunsCover(rank, s, B, L, lo0, lo) == true
    requires 0 <= i && i + 1 < |B|
    requires b == B[i] && e == B[i + 1] + L[i + 1]
    requires |s'| == |s| && s'[..b] == s[..b] && s'[e..] == s[e..]
    requires 0 <= k < |B| && k != i && k != i + 1
    ensures RunAt(rank, s', lo0, lo, B[k], L[k])
  {
    assert forall j :: 0 <= j < |L| ==> L[j] > 0 by {
      assert forall j :: 0 <= j < |B| ==> RunAt(rank, s, lo0, lo, B[j], L[j]);
    }
    assert RunAt(rank, s, lo0, lo, B[k], L[k]);
    if k < i {
      RunsOrdered(B, L, lo0, lo, k, i);
      RunBelow(rank, s, s', lo0, lo, B[k], L[k], b);
    } else {
      RunsOrdered(B, L, lo0, lo, i + 1, k);
      RunAbove(rank, s, s', lo0, lo, B[k], L[k], e);
    }
  }

  lemma RunBelow<T>(rank: T -> int, s: seq<T>, s': seq<T>, lo0: int, lo: int, b: int, n: int, c: int)
    requires RunAt(rank, s, lo0, lo, b, n) && b + n <= c <= |s| == |s'| && s'[..c] == s[..c]
    ensures RunAt(rank, s', lo0, lo, b, n)
  {
    SliceBelow(s, s', c, b, b + n);
    AscendsSorted(rank, s, b, b + n);
    AscendsSorted(rank, s', b, b + n);
  }

  lemma RunAbove<T>(rank: T -> int, s: seq<T>, s': seq<T>, lo0: int, lo: int, b: int, n: int, c: int)
    requires RunAt(rank, s, lo0, lo, b, n) && 0 <= c <= b && |s| == |s'| && s'[c..] == s[c..]
    ensures RunAt(rank, s', lo0, lo, b, n)
  {
    SliceAbove(s, s', c, b, b + n);
    AscendsSorted(rank, s, b, b + n);
    AscendsSorted(rank, s', b, b + n);
  }

  lemma MergedChain(B: seq<int>, L: seq<int>, lo0: int, lo: int, i: int)
    requires Chain(B, L, lo0, lo) && 0 <= i && i + 1 < |B|
    ensures Chain(MergedBases(B, i), MergeRuns(L, i), lo0, lo)
  {
  }

  /** The merged run is sorted and lies where the two runs were. */
  lemma MergedRunAt<T>(rank: T -> int, s: seq<T>, s': seq<T>, lo0: int, lo: int, b: int, n1: int, n2: int, m: int, e: int)
    requires RunAt(rank, s, lo0, lo, b, n1) && RunAt(rank, s, lo0, lo, m, n2) && |s'| == |s|
    requires m == b + n1 && e == m + n2 && s'[b..e] == Merge(rank, s[b..m], s[m..e])
    ensures RunAt(rank, s', lo0, lo, b, n1 + n2)
  {
    AscendsSorted(rank, s, b, m);
    AscendsSorted(rank, s, m, e);
    MergeSorted(rank, s[b..m], s[m..e]);
    AscendsSorted(rank, s', b, e);
  }

  lemma SliceBelow<T>(s: seq<T>, s': seq<T>, b: int, p: int, q: int)
    requires 0 <= p <= q <= b <= |s| && b <= |s'| && s'[..b] == s[..b]
    ensures s'[p..q] == s[p..q]
  {
    assert s'[p..q] == s'[..b][p..q];
  }

  lemma SliceAbove<T>(s: seq<T>, s': seq<T>, e: int, p: int, q: int)
    requires 0 <= e <= p <= q <= |s| == |s'| && s'[e..] == s[e..]
    ensures s'[p..q] == s[p..q]
  {
    assert s'[p..q] == s'[e..][p - e..q - e];
  }

  /** Splicing the merge of the runs `s[b..m]` and `s[m..e]` in place keeps the ties of `s[lo0..lo]`. */
  lemma RunsTies<T>(rank: T -> int, s: seq<T>, s': seq<T>, lo0: int, b: int, n1: int, m: int, e: int, lo: int)
    requires 0 <= lo0 <= b <= m <= e <= lo <= |s| == |s'|
    requires s'[..b] == s[..b] && s'[e..] == s[e..] && RunAt(rank, s, lo0, lo, b, n1) && m == b + n1
    requires s'[b..e] == Merge(rank, s[b..m], s[m..e])
    ensures SameTies(rank, s'[lo0..lo], s[lo0..lo])
    ensures s'[..lo0] == s[..lo0] && s'[lo..] == s[lo..]
  {
    var X, Y := s[b..m], s[m..e];
    var P, R := s[lo0..b], s[e..lo];
    AscendsSorted(rank, s, b, m);
    SliceBelow(s, s', b, lo0, b);
    SliceAbove(s, s', e, e, lo);
    SliceBelow(s, s', b, 0, lo0);
    SliceAbove(s, s', e, lo, |s|);
    Concat2(s, b, m, e);
    SplitThree(s', lo0, b, e, lo, P, Merge(rank, X, Y), R);
    SplitThree(s, lo0, b, e, lo, P, X + Y, R);
    SpliceTies(rank, P, X, Y, R);
  }

  /** Merging two runs in the middle of a sequence keeps its ties. */
  lemma SpliceTies<T>(rank: T -> int, P: seq<T>, X: seq<T>, Y: seq<T>, R: seq<T>)
    requires Sorted(rank, X)
    ensures SameTies(rank, P + Merge(rank, X, Y) + R, P + (X + Y) + R)
  {
    MergeTies(rank, X, Y);
    SameTiesRefl(rank, P);
    SameTiesRefl(rank, R);
    SameTiesAppend(rank, P, Merge(rank, X, Y), P, X + Y);
    SameTiesAppend(rank, P + Merge(rank, X, Y), R, P + (X + Y), R);
  }

  lemma SplitThree<T>(s: seq<T>, p: int, q: int, r: int, t: int, P: seq<T>, Q: seq<T>, R: seq<T>)
    requires 0 <= p <= q <= r <= t <= |s|
    requires P == s[p..q] && Q == s[q..r] && R == s[r..t]
    ensures s[p..t] == P + Q + R
  {
    assert s[p..t] == s[p..q] + s[q..r] + s[r..t];
  }

  lemma Concat2<T>(s: seq<T>, p: int, q: int, r: int)
    requires 0 <= p <= q <= r <= |s|
    ensures s[p..r] == s[p..q] + s[q..r]
  {
  }

  /** The three pieces of `s' == P + M + Q`, where `P` and `Q` are the outer slices of `s`. */
  lemma MergedSlices<T>(s: seq<T>, P: seq<T>, M: seq<T>, Q: seq<T>, s': seq<T>, b: int, e: int)
    requires 0 <= b <= e <= |s| && P == s[..b] && Q == s[e..] && |M| == e - b && s' == P + M + Q
    ensures |s'| == |s| && s'[..b] == s[..b] && s'[e..] == s[e..] && s'[b..e] == M
  {
  }
}
