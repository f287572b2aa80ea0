// The states that `mergeLo` and `mergeHi` pass through, stated on the
// contents of the array being sorted (`s`) and of the temporary array
// (`t`), and one lemma per kind of step.  `M` is the stable merge of the two
// runs; `S0` is the array before the merge, which the merge leaves alone
// outside `[base1, end)`.
//
// Contracts write some predicates as `P(...) == true`: the comparison keeps
// the predicate as one fact rather than unfolded into its conjuncts, which
// keeps the proofs that carry it small.
module MergeSteps {
  import opened SortSpec

  /**
   * `mergeLo` part way: `a[base1..dest]` holds the merged output so far,
   * the rest of the first run is `t[c1..c1 + l1]`, the rest of the second
   * run is `s[c2..end]`, and the gap between output and second run is as
   * wide as the first run's rest.  The last element of the first run is
   * ranked above every element left in the second, so the first run never
   * runs out before the second.
   */
  ghost predicate LoMerging<T>(rank: T -> int, s: seq<T>, t: seq<T>, base1: int, dest: int, c1: int, l1: int,
                               c2: int, end: int, M: seq<T>, S0: seq<T>)
  {
    0 <= base1 <= dest && dest + l1 == c2 <= end <= |s| == |S0|
    && 0 <= c1 && 1 <= l1 && c1 + l1 <= |t|
    && s[..base1] == S0[..base1] && s[end..] == S0[end..]
    && Sorted(rank, t[c1..c1 + l1]) && Sorted(rank, s[c2..end])
    && (c2 < end ==> Rank(rank, s[end - 1]) < Rank(rank, t[c1 + l1 - 1]))
    && s[base1..dest] + Merge(rank, t[c1..c1 + l1], s[c2..end]) == M
  }

  lemma LoTakeRight<T>(rank: T -> int, s: seq<T>, t: seq<T>, base1: int, dest: int, c1: int, l1: int,
                       c2: int, end: int, M: seq<T>, S0: seq<T>)
    requires LoMerging(rank, s, t, base1, dest, c1, l1, c2, end, M, S0) == true
    requires c2 < end && Rank(rank, s[c2]) < Rank(rank, t[c1])
    ensures LoMerging(rank, s[dest := s[c2]], t, base1, dest + 1, c1, l1, c2 + 1, end, M, S0) == true
  {
    var s' := s[dest := s[c2]];
    var X, Y := t[c1..c1 + l1], s[c2..end];
    assert Merge(rank, X, Y) == [Y[0]] + Merge(rank, X, Y[1..]);
    assert s'[c2 + 1..end] == Y[1..];
    assert s'[base1..dest + 1] == s[base1..dest] + [Y[0]];
    AppendAssoc(s[base1..dest], [Y[0]], Merge(rank, X, Y[1..]));
    assert s'[..base1] == s[..base1] && s'[end..] == s[end..];
  }

  lemma LoTakeLeft<T>(rank: T -> int, s: seq<T>, t: seq<T>, base1: int, dest: int, c1: int, l1: int,
                      c2: int, end: int, M: seq<T>, S0: seq<T>)
    requires LoMerging(rank, s, t, base1, dest, c1, l1, c2, end, M, S0) == true
    requires l1 >= 2 && c2 < end && Rank(rank, t[c1]) <= Rank(rank, s[c2])
    ensures LoMerging(rank, s[dest := t[c1]], t, base1, dest + 1, c1 + 1, l1 - 1, c2, end, M, S0) == true
  {
    var s' := s[dest := t[c1]];
    var X, Y := t[c1..c1 + l1], s[c2..end];
    assert Merge(rank, X, Y) == [X[0]] + Merge(rank, X[1..], Y);
    assert X[1..] == t[c1 + 1..c1 + l1];
    assert s'[c2..end] == Y;
    assert s'[base1..dest + 1] == s[base1..dest] + [X[0]];
    AppendAssoc(s[base1..dest], [X[0]], Merge(rank, X[1..], Y));
    assert s'[..base1] == s[..base1] && s'[end..] == s[end..];
  }

  /** Gallop mode, first run: its next `count1` elements, ranked no higher than the second run's head, are copied out. */
  lemma LoCopyLeft<T>(rank: T -> int, s: seq<T>, t: seq<T>, base1: int, dest: int, c1: int, l1: int,
                      c2: int, end: int, M: seq<T>, S0: seq<T>, count1: int)
    requires LoMerging(rank, s, t, base1, dest, c1, l1, c2, end, M, S0) == true
    requires c2 < end && 0 <= count1 <= l1
    requires forall i :: c1 <= i < c1 + count1 ==> Rank(rank, t[i]) <= Rank(rank, s[c2])
    ensures count1 < l1
    ensures LoMerging(rank, s[..dest] + t[c1..c1 + count1] + s[dest + count1..], t,
                      base1, dest + count1, c1 + count1, l1 - count1, c2, end, M, S0) == true
  {
    var X, Y := t[c1..c1 + l1], s[c2..end];
    assert Rank(rank, Y[0]) <= Rank(rank, Y[|Y| - 1]);
    var s' := s[..dest] + t[c1..c1 + count1] + s[dest + count1..];
    assert |s'| == |s|;
    assert Merge(rank, X, Y) == X[..count1] + Merge(rank, X[count1..], Y) by {
      MergeTakeLeft(rank, X, Y, count1);
    }
    assert X[..count1] == t[c1..c1 + count1] && X[count1..] == t[c1 + count1..c1 + l1];
    LoCopyLeftSlices(s, t, base1, dest, c1, c2, end, count1, s');
    AppendAssoc(s[base1..dest], X[..count1], Merge(rank, X[count1..], Y));
  }

  lemma LoCopyLeftSlices<T>(s: seq<T>, t: seq<T>, base1: int, dest: int, c1: int, c2: int, end: int, count1: int, s': seq<T>)
    requires 0 <= base1 <= dest && 0 <= count1 && dest + count1 < c2 <= end <= |s| && c1 + count1 <= |t| && 0 <= c1
    requires s' == s[..dest] + t[c1..c1 + count1] + s[dest + count1..]
    ensures s'[..base1] == s[..base1] && s'[end..] == s[end..] && s'[c2..end] == s[c2..end]
    ensures s'[base1..dest + count1] == s[base1..dest] + t[c1..c1 + count1]
  {
  }

  /** Gallop mode, second run: its next `count2` elements, ranked below the first run's head, are moved down. */
  lemma LoCopyRight<T>(rank: T -> int, s: seq<T>, t: seq<T>, base1: int, dest: int, c1: int, l1: int,
                       c2: int, end: int, M: seq<T>, S0: seq<T>, count2: int)
    requires LoMerging(rank, s, t, base1, dest, c1, l1, c2, end, M, S0) == true
    requires 0 <= count2 <= end - c2
    requires forall j :: c2 <= j < c2 + count2 ==> Rank(rank, s[j]) < Rank(rank, t[c1])
    ensures LoMerging(rank, s[..dest] + s[c2..c2 + count2] + s[dest + count2..], t,
                      base1, dest + count2, c1, l1, c2 + count2, end, M, S0) == true
  {
    var X, Y := t[c1..c1 + l1], s[c2..end];
    var s' := s[..dest] + s[c2..c2 + count2] + s[dest + count2..];
    assert Merge(rank, X, Y) == Y[..count2] + Merge(rank, X, Y[count2..]) by {
      MergeTakeRight(rank, X, Y, count2);
    }
    LoCopyRightSlices(s, base1, dest, c2, end, count2, s');
    AppendAssoc(s[base1..dest], Y[..count2], Merge(rank, X, Y[count2..]));
  }

  lemma LoCopyRightSlices<T>(s: seq<T>, base1: int, dest: int, c2: int, end: int, count2: int, s': seq<T>)
    requires 0 <= base1 <= dest < c2 && 0 <= count2 && c2 + count2 <= end <= |s|
    requires s' == s[..dest] + s[c2..c2 + count2] + s[dest + count2..]
    ensures |s'| == |s| && s'[..base1] == s[..base1] && s'[end..] == s[end..]
    ensures s'[c2 + count2..end] == s[c2..end][count2..]
    ensures s'[base1..dest + count2] == s[base1..dest] + s[c2..end][..count2]
  {
  }

  /**
   * The first run is down to its last element, which is ranked above the
   * rest of the second run: the second run's rest is moved down and that
   * element goes last.
   */
  lemma LoFinishOne<T>(rank: T -> int, s: seq<T>, t: seq<T>, base1: int, dest: int, c1: int, l1: int,
                       c2: int, end: int, M: seq<T>, S0: seq<T>)
    requires LoMerging(rank, s, t, base1, dest, c1, l1, c2, end, M, S0) == true && l1 == 1
    ensures var s' := s[..dest] + s[c2..end] + s[dest + end - c2..];
            var s'' := s'[dest + end - c2 := t[c1]];
            |s''| == |S0| && s''[..base1] == S0[..base1] && s''[base1..end] == M && s''[end..] == S0[end..]
  {
    var X, Y := t[c1..c1 + 1], s[c2..end];
    assert forall j :: 0 <= j < |Y| ==> Rank(rank, Y[j]) < Rank(rank, X[0]) by {
      if Y != [] {
        assert forall j :: 0 <= j < |Y| ==> Rank(rank, Y[j]) <= Rank(rank, Y[|Y| - 1]);
      }
    }
    MergeOneAbove(rank, X, Y);
    LoFinishOneSlices(s, t[c1], base1, dest, c2, end);
  }

  lemma MergeOneAbove<T>(rank: T -> int, x: seq<T>, y: seq<T>)
    requires |x| == 1 && forall j :: 0 <= j < |y| ==> Rank(rank, y[j]) < Rank(rank, x[0])
    ensures Merge(rank, x, y) == y + x
  {
    MergeDropLeft(rank, x, y, 1);
    assert x[..0] == [] && x[0..] == x;
  }

  lemma LoFinishOneSlices<T>(s: seq<T>, p: T, base1: int, dest: int, c2: int, end: int)
    requires 0 <= base1 <= dest && dest + 1 == c2 <= end <= |s|
    ensures var s'' := (s[..dest] + s[c2..end] + s[dest + end - c2..])[dest + end - c2 := p];
            |s''| == |s| && s''[..base1] == s[..base1] && s''[end..] == s[end..]
            && s''[base1..end] == s[base1..dest] + s[c2..end] + [p]
  {
  }

  /** The second run is used up: the rest of the first run goes last. */
  lemma LoFinishRest<T>(rank: T -> int, s: seq<T>, t: seq<T>, base1: int, dest: int, c1: int, l1: int,
                        c2: int, end: int, M: seq<T>, S0: seq<T>)
    requires LoMerging(rank, s, t, base1, dest, c1, l1, c2, end, M, S0) == true && c2 == end
    ensures var s' := s[..dest] + t[c1..c1 + l1] + s[dest + l1..];
            |s'| == |S0| && s'[..base1] == S0[..base1] && s'[base1..end] == M && s'[end..] == S0[end..]
  {
    var X := t[c1..c1 + l1];
    assert Merge(rank, X, s[c2..end]) == X;
  }

  /**
   * Starting `mergeLo`: the first run is copied to `t[c1..c1 + l1]` and the
   * head of the second run, ranked below the head of the first, is moved
   * to the front.
   */
  lemma LoStart<T>(rank: T -> int, s: seq<T>, t: seq<T>, base1: int, l1: int, base2: int, l2: int, c1: int)
    requires 0 <= base1 && base1 + l1 == base2 && 0 < l1 && 0 < l2 && base2 + l2 <= |s|
    requires 0 <= c1 && c1 + l1 <= |t| && t[c1..c1 + l1] == s[base1..base2]
    requires Sorted(rank, s[base1..base2]) && Sorted(rank, s[base2..base2 + l2])
    requires Rank(rank, s[base2]) < Rank(rank, s[base1])
    requires Rank(rank, s[base2 + l2 - 1]) < Rank(rank, s[base2 - 1])
    ensures LoMerging(rank, s[base1 := s[base2]], t, base1, base1 + 1, c1, l1, base2 + 1, base2 + l2,
                      Merge(rank, s[base1..base2], s[base2..base2 + l2]), s) == true
  {
    var X, Y := s[base1..base2], s[base2..base2 + l2];
    var s' := s[base1 := s[base2]];
    assert Merge(rank, X, Y) == [Y[0]] + Merge(rank, X, Y[1..]);
    assert t[c1 + l1 - 1] == X[l1 - 1] == s[base2 - 1];
    SortedSlice(rank, Y, 1, l2);
    assert s'[base2 + 1..base2 + l2] == Y[1..];
    assert s'[base1..base1 + 1] == [Y[0]];
    assert s'[..base1] == s[..base1] && s'[base2 + l2..] == s[base2 + l2..];
  }

  /**
   * `mergeHi` part way, working from the top: the rest of the first run is
   * `s[base1..base1 + l1]`, the rest of the second run is `t[tb..tb + l2]`,
   * the merged output so far fills `s[base1 + l1 + l2..end]`, and the gap
   * between first run and output is as wide as the second run's rest.  The
   * first element of the second run is ranked below every element left in
   * the first, so the second run never runs out before the first.
   */
  ghost predicate HiMerging<T>(rank: T -> int, s: seq<T>, t: seq<T>, base1: int, l1: int, tb: int, l2: int,
                               end: int, M: seq<T>, S0: seq<T>)
  {
    0 <= base1 && 0 <= l1 && 1 <= l2 && base1 + l1 + l2 <= end <= |s| == |S0|
    && 0 <= tb && tb + l2 <= |t|
    && s[..base1] == S0[..base1] && s[end..] == S0[end..]
    && Sorted(rank, s[base1..base1 + l1]) && Sorted(rank, t[tb..tb + l2])
    && (0 < l1 ==> Rank(rank, t[tb]) < Rank(rank, s[base1]))
    && Merge(rank, s[base1..base1 + l1], t[tb..tb + l2]) + s[base1 + l1 + l2..end] == M
  }

  /** A slice of a sorted sequence is sorted. */
  lemma SortedSlice<T>(rank: T -> int, s: seq<T>, i: int, j: int)
    requires Sorted(rank, s) && 0 <= i <= j <= |s|
    ensures Sorted(rank, s[i..j])
  {
    assert forall k :: 0 <= k < j - i ==> s[i..j][k] == s[i + k];
  }

  /** `HiMerging` from its parts, with the rest of the first run and the output so far named. */
  lemma HiMergingIntro<T>(rank: T -> int, s: seq<T>, t: seq<T>, base1: int, l1: int, tb: int, l2: int,
                          end: int, M: seq<T>, S0: seq<T>, X: seq<T>, Y: seq<T>, out: seq<T>)
    requires 0 <= base1 && 0 <= l1 && 1 <= l2 && base1 + l1 + l2 <= end <= |s| == |S0|
    requires 0 <= tb && tb + l2 <= |t|
    requires s[..base1] == S0[..base1] && s[end..] == S0[end..]
    requires s[base1..base1 + l1] == X && t[tb..tb + l2] == Y && s[base1 + l1 + l2..end] == out
    requires Sorted(rank, X) && Sorted(rank, Y)
    requires 0 < l1 ==> Rank(rank, t[tb]) < Rank(rank, X[0])
    requires Merge(rank, X, Y) + out == M
    ensures HiMerging(rank, s, t, base1, l1, tb, l2, end, M, S0) == true
  {
  }

  /** Taking the top `n` of the first run, all above all of the second, off a merge. */
  lemma DropLeft<T>(rank: T -> int, X: seq<T>, Y: seq<T>, out: seq<T>, M: seq<T>, n: int)
    requires Sorted(rank, X) && Sorted(rank, Y) && 0 <= n <= |X| && 0 < |Y|
    requires forall i :: |X| - n <= i < |X| ==> Rank(rank, Y[|Y| - 1]) < Rank(rank, X[i])
    requires Merge(rank, X, Y) + out == M
    ensures Sorted(rank, X[..|X| - n]) && Merge(rank, X[..|X| - n], Y) + (X[|X| - n..] + out) == M
  {
    assert Merge(rank, X, Y) == Merge(rank, X[..|X| - n], Y) + X[|X| - n..] by {
      assert forall j :: 0 <= j < |Y| ==> Rank(rank, Y[j]) <= Rank(rank, Y[|Y| - 1]);
      MergeDropLeft(rank, X, Y, n);
    }
    AppendAssoc(Merge(rank, X[..|X| - n], Y), X[|X| - n..], out);
    SortedSlice(rank, X, 0, |X| - n);
  }

  /** Taking the top `n` of the second run, all at least as high as all of the first, off a merge. */
  lemma DropRight<T>(rank: T -> int, X: seq<T>, Y: seq<T>, out: seq<T>, M: seq<T>, n: int)
    requires Sorted(rank, X) && Sorted(rank, Y) && 0 <= n <= |Y| && 0 < |X|
    requires forall j :: |Y| - n <= j < |Y| ==> Rank(rank, X[|X| - 1]) <= Rank(rank, Y[j])
    requires Merge(rank, X, Y) + out == M
    ensures Sorted(rank, Y[..|Y| - n]) && Merge(rank, X, Y[..|Y| - n]) + (Y[|Y| - n..] + out) == M
  {
    assert Merge(rank, X, Y) == Merge(rank, X, Y[..|Y| - n]) + Y[|Y| - n..] by {
      assert forall i :: 0 <= i < |X| ==> Rank(rank, X[i]) <= Rank(rank, X[|X| - 1]);
      MergeDropRight(rank, X, Y, n);
    }
    AppendAssoc(Merge(rank, X, Y[..|Y| - n]), Y[|Y| - n..], out);
    SortedSlice(rank, Y, 0, |Y| - n);
  }

  /** A slice of `A + B + C` that lies inside `A`. */
  lemma SpliceLow<T>(A: seq<T>, B: seq<T>, C: seq<T>, s': seq<T>, i: int, j: int)
    requires s' == A + B + C && 0 <= i <= j <= |A|
    ensures s'[i..j] == A[i..j]
  {
    assert forall k :: 0 <= k < j - i ==> s'[i..j][k] == A[i..j][k];
  }

  /** The slices of `A + B + C` from the start of `B` up to `j`, and from `j` on, for `j` inside `C`. */
  lemma SpliceHigh<T>(A: seq<T>, B: seq<T>, C: seq<T>, s': seq<T>, j: int)
    requires s' == A + B + C && |A| + |B| <= j <= |s'|
    ensures s'[|A|..j] == B + C[..j - |A| - |B|] && s'[j..] == C[j - |A| - |B|..]
  {
  }

  /** Moving the top `n` of the first run `X == s[base1..base1 + l1]` up by `l2` places. */
  lemma MoveUpSlices<T>(s: seq<T>, X: seq<T>, out: seq<T>, base1: int, l1: int, l2: int, end: int, n: int,
                        s': seq<T>, l1': int, from: int, to: int)
    requires 0 <= base1 && 0 <= n <= l1 && 0 <= l2 && base1 + l1 + l2 <= end <= |s|
    requires X == s[base1..base1 + l1] && out == s[base1 + l1 + l2..end]
    requires l1' == l1 - n && from == base1 + l1' && to == from + l2
    requires s' == s[..to] + s[from..from + n] + s[to + n..]
    ensures |s'| == |s| && s'[..base1] == s[..base1] && s'[end..] == s[end..]
    ensures s'[base1..base1 + l1'] == X[..|X| - n]
    ensures s'[base1 + l1' + l2..end] == X[|X| - n..] + out
  {
    var A, B, C := s[..to], s[from..from + n], s[to + n..];
    SpliceLow(A, B, C, s', 0, base1);
    SpliceLow(A, B, C, s', base1, base1 + l1');
    assert |A| + |B| == base1 + l1 + l2;
    SpliceHigh(A, B, C, s', end);
    assert C[..end - |A| - |B|] == out && B == X[|X| - n..];
  }

  /** Copying the top `n` of the second run `Y` into `s` just below `out == s[base1 + l1 + l2..end]`. */
  lemma CopyDownSlices<T>(s: seq<T>, t: seq<T>, X: seq<T>, Y: seq<T>, out: seq<T>, base1: int, l1: int,
                          tb: int, l2: int, end: int, n: int, s': seq<T>, l2': int, from: int, to: int)
    requires 0 <= base1 && 0 <= l1 && 0 <= n <= l2 && base1 + l1 + l2 <= end <= |s|
    requires 0 <= tb && tb + l2 <= |t| && Y == t[tb..tb + l2]
    requires X == s[base1..base1 + l1] && out == s[base1 + l1 + l2..end]
    requires l2' == l2 - n && from == tb + l2' && to == base1 + l1 + l2'
    requires s' == s[..to] + t[from..from + n] + s[to + n..]
    ensures |s'| == |s| && s'[..base1] == s[..base1] && s'[end..] == s[end..]
    ensures s'[base1..base1 + l1] == X
    ensures s'[base1 + l1 + l2'..end] == Y[|Y| - n..] + out
  {
    var A, B, C := s[..to], t[from..from + n], s[to + n..];
    SpliceLow(A, B, C, s', 0, base1);
    SpliceLow(A, B, C, s', base1, base1 + l1);
    SpliceHigh(A, B, C, s', end);
    assert B == Y[|Y| - n..];
  }

  /** Writing `u[j]` at `d` is splicing in the one-element slice of `u`. */
  lemma SpliceOne<T>(s: seq<T>, d: int, e: int, u: seq<T>, j: int, k: int)
    requires 0 <= d < |s| && 0 <= j < |u| && e == d + 1 && k == j + 1
    ensures s[..d] + u[j..k] + s[e..] == s[d := u[j]]
  {
  }

  /** The state after the top `n` of the first run `X` have moved up into the output `out`. */
  lemma HiAfterMoveUp<T>(rank: T -> int, s: seq<T>, t: seq<T>, base1: int, l1: int, tb: int, l2: int,
                         end: int, M: seq<T>, S0: seq<T>, X: seq<T>, Y: seq<T>, out: seq<T>, n: int,
                         s': seq<T>, l1': int, from: int, to: int)
    requires 0 <= base1 && 0 <= n <= l1 && 1 <= l2 && base1 + l1 + l2 <= end <= |s| == |S0|
    requires 0 <= tb && tb + l2 <= |t|
    requires l1' == l1 - n && from == base1 + l1' && to == from + l2
    requires s' == s[..to] + s[from..from + n] + s[to + n..]
    requires X == s[base1..base1 + l1] && Y == t[tb..tb + l2] && out == s[base1 + l1 + l2..end]
    requires s[..base1] == S0[..base1] && s[end..] == S0[end..]
    requires Sorted(rank, X[..|X| - n]) && Sorted(rank, Y)
    requires 0 < l1 - n ==> Rank(rank, t[tb]) < Rank(rank, s[base1])
    requires Merge(rank, X[..|X| - n], Y) + (X[|X| - n..] + out) == M
    ensures HiMerging(rank, s', t, base1, l1', tb, l2, end, M, S0) == true
  {
    MoveUpSlices(s, X, out, base1, l1, l2, end, n, s', l1', from, to);
    assert 0 < l1 - n ==> X[..|X| - n][0] == s[base1];
    HiMergingIntro(rank, s', t, base1, l1 - n, tb, l2, end, M, S0, X[..|X| - n], Y, X[|X| - n..] + out);
  }

  /** The state after the top `n` of the second run `Y` have been copied into the output `out`. */
  lemma HiAfterCopyDown<T>(rank: T -> int, s: seq<T>, t: seq<T>, base1: int, l1: int, tb: int, l2: int,
                           end: int, M: seq<T>, S0: seq<T>, X: seq<T>, Y: seq<T>, out: seq<T>, n: int,
                           s': seq<T>, l2': int, from: int, to: int)
    requires 0 <= base1 && 0 <= l1 && 0 <= n < l2 && base1 + l1 + l2 <= end <= |s| == |S0|
    requires 0 <= tb && tb + l2 <= |t|
    requires l2' == l2 - n && from == tb + l2' && to == base1 + l1 + l2'
    requires s' == s[..to] + t[from..from + n] + s[to + n..]
    requires X == s[base1..base1 + l1] && Y == t[tb..tb + l2] && out == s[base1 + l1 + l2..end]
    requires s[..base1] == S0[..base1] && s[end..] == S0[end..]
    requires Sorted(rank, X) && Sorted(rank, Y[..|Y| - n])
    requires 0 < l1 ==> Rank(rank, t[tb]) < Rank(rank, s[base1])
    requires Merge(rank, X, Y[..|Y| - n]) + (Y[|Y| - n..] + out) == M
    ensures HiMerging(rank, s', t, base1, l1, tb, l2', end, M, S0) == true
  {
    assert Y[..|Y| - n] == t[tb..tb + l2'];
    CopyDownSlices(s, t, X, Y, out, base1, l1, tb, l2, end, n, s', l2', from, to);
    HiMergingIntro(rank, s', t, base1, l1, tb, l2 - n, end, M, S0, X, Y[..|Y| - n], Y[|Y| - n..] + out);
  }

  /** The last element of the first run is ranked above the last of the second, and goes to the top. */
  lemma HiTakeLeft<T>(rank: T -> int, s: seq<T>, t: seq<T>, base1: int, l1: int, tb: int, l2: int,
                      end: int, M: seq<T>, S0: seq<T>, s': seq<T>, l1': int, from: int, to: int)
    requires HiMerging(rank, s, t, base1, l1, tb, l2, end, M, S0) == true
    requires 0 < l1 && Rank(rank, t[tb + l2 - 1]) < Rank(rank, s[base1 + l1 - 1])
    requires l1' == l1 - 1 && from == base1 + l1' && to == from + l2
    requires s' == s[..to] + s[from..from + 1] + s[to + 1..]
    ensures HiMerging(rank, s', t, base1, l1', tb, l2, end, M, S0) == true
  {
    var X, Y, out := s[base1..base1 + l1], t[tb..tb + l2], s[base1 + l1 + l2..end];
    DropLeft(rank, X, Y, out, M, 1);
    HiAfterMoveUp(rank, s, t, base1, l1, tb, l2, end, M, S0, X, Y, out, 1, s', l1', from, to);
  }

  /** The last element of the second run is ranked at least as high as the last of the first, and goes to the top. */
  lemma HiTakeRight<T>(rank: T -> int, s: seq<T>, t: seq<T>, base1: int, l1: int, tb: int, l2: int,
                       end: int, M: seq<T>, S0: seq<T>, s': seq<T>, l2': int, from: int, to: int)
    requires HiMerging(rank, s, t, base1, l1, tb, l2, end, M, S0) == true
    requires 0 < l1 && 2 <= l2 && Rank(rank, s[base1 + l1 - 1]) <= Rank(rank, t[tb + l2 - 1])
    requires l2' == l2 - 1 && from == tb + l2' && to == base1 + l1 + l2'
    requires s' == s[..to] + t[from..from + 1] + s[to + 1..]
    ensures HiMerging(rank, s', t, base1, l1, tb, l2', end, M, S0) == true
  {
    var X, Y, out := s[base1..base1 + l1], t[tb..tb + l2], s[base1 + l1 + l2..end];
    DropRight(rank, X, Y, out, M, 1);
    HiAfterCopyDown(rank, s, t, base1, l1, tb, l2, end, M, S0, X, Y, out, 1, s', l2', from, to);
  }

  /** Gallop mode, first run: its top `count1` elements, ranked above the second run's last, are moved up. */
  lemma HiCopyLeft<T>(rank: T -> int, s: seq<T>, t: seq<T>, base1: int, l1: int, tb: int, l2: int,
                      end: int, M: seq<T>, S0: seq<T>, count1: int, s': seq<T>, l1': int, from: int, to: int)
    requires HiMerging(rank, s, t, base1, l1, tb, l2, end, M, S0) == true
    requires 0 <= count1 <= l1
    requires l1' == l1 - count1 && from == base1 + l1' && to == from + l2
    requires s' == s[..to] + s[from..from + count1] + s[to + count1..]
    requires count1 == 0 || Rank(rank, t[tb + l2 - 1]) < Rank(rank, s[from])
    ensures HiMerging(rank, s', t, base1, l1', tb, l2, end, M, S0) == true
  {
    var X, Y, out := s[base1..base1 + l1], t[tb..tb + l2], s[base1 + l1 + l2..end];
    assert count1 == 0 || X[l1'] == s[base1 + l1'];
    assert forall i :: l1' <= i < l1 ==> Rank(rank, X[l1']) <= Rank(rank, X[i]);
    assert Y[|Y| - 1] == t[tb + l2 - 1];
    DropLeft(rank, X, Y, out, M, count1);
    HiAfterMoveUp(rank, s, t, base1, l1, tb, l2, end, M, S0, X, Y, out, count1, s', l1', from, to);
  }

  /**
   * Gallop mode, second run: its top `count2` elements, ranked at least as
   * high as the first run's last, are copied out; the second run keeps at
   * least its first element.
   */
  lemma HiCopyRight<T>(rank: T -> int, s: seq<T>, t: seq<T>, base1: int, l1: int, tb: int, l2: int,
                       end: int, M: seq<T>, S0: seq<T>, count2: int, s': seq<T>, l2': int, from: int, to: int)
    requires HiMerging(rank, s, t, base1, l1, tb, l2, end, M, S0) == true
    requires 0 < l1 && 0 <= count2 <= l2
    requires l2' == l2 - count2 && from == tb + l2' && to == base1 + l1 + l2'
    requires s' == s[..to] + t[from..from + count2] + s[to + count2..]
    requires count2 == 0 || Rank(rank, s[base1 + l1 - 1]) <= Rank(rank, t[from])
    ensures count2 < l2
    ensures HiMerging(rank, s', t, base1, l1, tb, l2', end, M, S0) == true
  {
    var X, Y, out := s[base1..base1 + l1], t[tb..tb + l2], s[base1 + l1 + l2..end];
    assert Rank(rank, X[0]) <= Rank(rank, X[|X| - 1]);
    assert count2 == 0 || Y[l2'] == t[from];
    assert forall j :: l2' <= j < l2 ==> Rank(rank, Y[l2']) <= Rank(rank, Y[j]);
    DropRight(rank, X, Y, out, M, count2);
    HiAfterCopyDown(rank, s, t, base1, l1, tb, l2, end, M, S0, X, Y, out, count2, s', l2', from, to);
  }

  /**
   * The second run is down to its first element, which is ranked below
   * the rest of the first run: that rest moves up one place and the
   * element goes first.
   */
  lemma HiFinishOne<T>(rank: T -> int, s: seq<T>, t: seq<T>, base1: int, l1: int, tb: int, l2: int,
                       end: int, M: seq<T>, S0: seq<T>)
    requires HiMerging(rank, s, t, base1, l1, tb, l2, end, M, S0) == true && l2 == 1
    ensures var s'' := (s[..base1 + 1] + s[base1..base1 + l1] + s[base1 + l1 + 1..])[base1 := t[tb]];
            |s''| == |S0| && s''[..base1] == S0[..base1] && s''[base1..end] == M && s''[end..] == S0[end..]
  {
    var X, Y := s[base1..base1 + l1], t[tb..tb + 1];
    assert forall i :: 0 <= i < |X| ==> Rank(rank, Y[0]) < Rank(rank, X[i]) by {
      if X != [] {
        assert forall i :: 0 <= i < |X| ==> Rank(rank, X[0]) <= Rank(rank, X[i]);
      }
    }
    MergeOneBelow(rank, X, Y);
    HiFinishOneSlices(s, t[tb], base1, l1, end);
  }

  lemma MergeOneBelow<T>(rank: T -> int, x: seq<T>, y: seq<T>)
    requires |y| == 1 && forall i :: 0 <= i < |x| ==> Rank(rank, y[0]) < Rank(rank, x[i])
    ensures Merge(rank, x, y) == y + x
  {
    if x != [] {
      MergeTakeRight(rank, x, y, 1);
      assert y[..1] == y && y[1..] == [];
    }
  }

  lemma HiFinishOneSlices<T>(s: seq<T>, p: T, base1: int, l1: int, end: int)
    requires 0 <= base1 && 0 <= l1 && base1 + l1 + 1 <= end <= |s|
    ensures var s'' := (s[..base1 + 1] + s[base1..base1 + l1] + s[base1 + l1 + 1..])[base1 := p];
            |s''| == |s| && s''[..base1] == s[..base1] && s''[end..] == s[end..]
            && s''[base1..end] == [p] + s[base1..base1 + l1] + s[base1 + l1 + 1..end]
  {
  }

  /** The first run is used up: the rest of the second run goes first. */
  lemma HiFinishRest<T>(rank: T -> int, s: seq<T>, t: seq<T>, base1: int, l1: int, tb: int, l2: int,
                        end: int, M: seq<T>, S0: seq<T>)
    requires HiMerging(rank, s, t, base1, l1, tb, l2, end, M, S0) == true && l1 == 0
    ensures var s' := s[..base1] + t[tb..tb + l2] + s[base1 + l2..];
            |s'| == |S0| && s'[..base1] == S0[..base1] && s'[base1..end] == M && s'[end..] == S0[end..]
  {
    assert s[base1..base1 + l1] == [];
    assert Merge(rank, [], t[tb..tb + l2]) == t[tb..tb + l2];
    var s' := s[..base1] + t[tb..tb + l2] + s[base1 + l2..];
    assert s'[base1..end] == t[tb..tb + l2] + s[base1 + l2..end];
  }

  /**
   * Starting `mergeHi`: the second run is copied to `t[tb..tb + l2]` and the
   * last element of the first run, ranked above the last of the second, is
   * moved to the top.
   */
  lemma HiStart<T>(rank: T -> int, s: seq<T>, t: seq<T>, base1: int, l1: int, base2: int, l2: int, tb: int,
                   s': seq<T>, l1': int, from: int, to: int)
    requires 0 <= base1 && base1 + l1 == base2 && 0 < l1 && 0 < l2 && base2 + l2 <= |s|
    requires 0 <= tb && tb + l2 <= |t| && t[tb..tb + l2] == s[base2..base2 + l2]
    requires Sorted(rank, s[base1..base2]) && Sorted(rank, s[base2..base2 + l2])
    requires Rank(rank, s[base2]) < Rank(rank, s[base1])
    requires Rank(rank, s[base2 + l2 - 1]) < Rank(rank, s[base2 - 1])
    requires l1' == l1 - 1 && from == base1 + l1' && to == from + l2
    requires s' == s[..to] + s[from..from + 1] + s[to + 1..]
    ensures HiMerging(rank, s', t, base1, l1', tb, l2, base2 + l2, Merge(rank, s[base1..base2], s[base2..base2 + l2]), s) == true
  {
    var X, Y := s[base1..base2], t[tb..tb + l2];
    var end := base2 + l2;
    var M := Merge(rank, X, s[base2..end]);
    assert M == Merge(rank, X, Y);
    assert Y[l2 - 1] == s[base2 + l2 - 1] && X[l1 - 1] == s[base2 - 1];
    DropLeftOne(rank, X, Y, M, s[end..end]);
    assert Y[0] == s[base2];
    HiAfterMoveUp(rank, s, t, base1, l1, tb, l2, end, M, s, X, Y, s[end..end], 1, s', l1', from, to);
  }

  /** The last element of `X`, ranked above all of `Y`, is the last of their merge. */
  lemma DropLeftOne<T>(rank: T -> int, X: seq<T>, Y: seq<T>, M: seq<T>, none: seq<T>)
    requires Sorted(rank, X) && Sorted(rank, Y) && 0 < |X| && 0 < |Y| && none == []
    requires Rank(rank, Y[|Y| - 1]) < Rank(rank, X[|X| - 1]) && M == Merge(rank, X, Y)
    ensures Sorted(rank, X[..|X| - 1]) && Merge(rank, X[..|X| - 1], Y) + (X[|X| - 1..] + none) == M
  {
    assert M + none == M;
    forall i | |X| - 1 <= i < |X|
      ensures Rank(rank, Y[|Y| - 1]) < Rank(rank, X[i])
    {
      assert i == |X| - 1;
    }
    DropLeft(rank, X, Y, none, M, 1);
  }

  /**
   * `mergeAt` leaves in place the head of the first run `s[b..m]` ranked no
   * higher than the second run's head, `s[b..c]`, and the tail of the
   * second run `s[m..e]` ranked at least as high as the first run's last
   * element, `s[f..e]`: merging what is left between them is merging the
   * two runs.  When nothing is left of either, the runs are already merged.
   */
  lemma TrimmedMerge<T>(rank: T -> int, s: seq<T>, b: int, c: int, m: int, f: int, e: int)
    requires 0 <= b <= c <= m <= f <= e <= |s| && m < e
    requires Sorted(rank, s[b..m]) && Sorted(rank, s[m..e])
    requires forall i :: b <= i < c ==> Rank(rank, s[i]) <= Rank(rank, s[m])
    requires c == m ==> f == e
    requires c < m ==> forall j :: f <= j < e ==> Rank(rank, s[m - 1]) <= Rank(rank, s[j])
    ensures s[..b] + Merge(rank, s[b..m], s[m..e]) + s[e..] == s[..c] + Merge(rank, s[c..m], s[m..f]) + s[f..]
    ensures c == m || f == m ==> s[..b] + Merge(rank, s[b..m], s[m..e]) + s[e..] == s
  {
    MergeKeepHead(rank, s, b, c, m, e);
    SortedSlice(rank, s[b..m], c - b, m - b);
    SubSlices(s, b, c, m);
    MergeKeepTailAt(rank, s, c, m, f, e);
    var Q := Merge(rank, s[c..m], s[m..f]);
    Regroup(s, b, c, f, e, Q);
    if c == m || f == m {
      Unmoved(s, c, m, f, Q);
    }
  }

  /** The head `s[b..c]` of the first run, ranked no higher than the second run's head, comes first. */
  lemma MergeKeepHead<T>(rank: T -> int, s: seq<T>, b: int, c: int, m: int, e: int)
    requires 0 <= b <= c <= m < e <= |s|
    requires forall i :: b <= i < c ==> Rank(rank, s[i]) <= Rank(rank, s[m])
    ensures Merge(rank, s[b..m], s[m..e]) == s[b..c] + Merge(rank, s[c..m], s[m..e])
  {
    var X, Y := s[b..m], s[m..e];
    assert forall i :: 0 <= i < c - b ==> X[i] == s[b + i];
    MergeTakeLeft(rank, X, Y, c - b);
    SubSlices(s, b, c, m);
  }

  /** The tail `s[f..e]` of the second run, ranked at least as high as the first run's last, comes last. */
  lemma MergeKeepTailAt<T>(rank: T -> int, s: seq<T>, c: int, m: int, f: int, e: int)
    requires 0 <= c <= m <= f <= e <= |s| && Sorted(rank, s[c..m])
    requires c == m ==> f == e
    requires c < m ==> forall j :: f <= j < e ==> Rank(rank, s[m - 1]) <= Rank(rank, s[j])
    ensures Merge(rank, s[c..m], s[m..e]) == Merge(rank, s[c..m], s[m..f]) + s[f..e]
  {
    var X, Y := s[c..m], s[m..e];
    assert forall j :: f - m <= j < |Y| ==> Y[j] == s[m + j];
    assert X != [] ==> X[|X| - 1] == s[m - 1];
    MergeKeepTail(rank, X, Y, f - m);
    SubSlices(s, m, f, e);
  }

  /** Both pieces of a sorted `s[lo..hi]` cut at `mid` are sorted. */
  lemma SortedPieces<T>(rank: T -> int, s: seq<T>, lo: int, mid: int, hi: int)
    requires 0 <= lo <= mid <= hi <= |s| && Sorted(rank, s[lo..hi])
    ensures Sorted(rank, s[lo..mid]) && Sorted(rank, s[mid..hi])
  {
    assert forall i :: lo <= i < hi ==> s[lo..hi][i - lo] == s[i];
    assert forall i :: lo <= i < mid ==> s[lo..mid][i - lo] == s[i];
    assert forall i :: mid <= i < hi ==> s[mid..hi][i - mid] == s[i];
  }

  /** The two pieces of `s[lo..hi]` cut at `mid`. */
  lemma SubSlices<T>(s: seq<T>, lo: int, mid: int, hi: int)
    requires 0 <= lo <= mid <= hi <= |s|
    ensures s[lo..hi][..mid - lo] == s[lo..mid] && s[lo..hi][mid - lo..] == s[mid..hi]
  {
  }

  lemma Regroup<T>(s: seq<T>, b: int, c: int, f: int, e: int, Q: seq<T>)
    requires 0 <= b <= c <= f <= e <= |s|
    ensures s[..b] + (s[b..c] + (Q + s[f..e])) + s[e..] == s[..c] + Q + s[f..]
  {
    assert s[..b] + s[b..c] == s[..c];
    assert s[f..e] + s[e..] == s[f..];
  }

  /** Merging with an empty run moves nothing. */
  lemma Unmoved<T>(s: seq<T>, c: int, m: int, f: int, Q: seq<T>)
    requires 0 <= c <= m <= f <= |s|
    requires (c == m && Q == s[m..f]) || (f == m && Q == s[c..m])
    ensures s[..c] + Q + s[f..] == s
  {
    if c == m {
      assert s[..m] + s[m..f] + s[f..] == s;
    } else {
      assert s[..c] + s[c..m] + s[m..] == s;
    }
  }

  /** Trailing elements of `y` ranked at least as high as the last of a sorted `x` stay last. */
  lemma MergeKeepTail<T>(rank: T -> int, x: seq<T>, y: seq<T>, n: int)
    requires Sorted(rank, x) && 0 <= n <= |y|
    requires x == [] ==> n == |y|
    requires x != [] ==> forall j :: n <= j < |y| ==> Rank(rank, x[|x| - 1]) <= Rank(rank, y[j])
    ensures Merge(rank, x, y) == Merge(rank, x, y[..n]) + y[n..]
  {
    if x == [] {
      assert y[..n] == y && y[n..] == [];
    } else {
      assert forall i :: 0 <= i < |x| ==> Rank(rank, x[i]) <= Rank(rank, x[|x| - 1]);
      MergeDropRight(rank, x, y, |y| - n);
    }
  }
}
