// The pending-run stack of `java.util.TimSort`, seen as the sequence of its
// run lengths from the bottom up: the balance rule that `mergeCollapse`
// is meant to restore after every push, the choice `mergeCollapse` makes at
// each step, and the bound on the stack depth that the balance rule gives.
module RunStack {
  import opened JavaInts

  /** Run `i` is longer than the two runs above it together. */
  predicate OverTwo(L: seq<int>, i: int)
    requires 0 <= i && i + 2 < |L|
  {
    L[i] > L[i + 1] + L[i + 2]
  }

  /** Run `i` is longer than the run above it. */
  predicate OverOne(L: seq<int>, i: int)
    requires 0 <= i && i + 1 < |L|
  {
    L[i] > L[i + 1]
  }

  /** Every run is longer than the run above it, and longer than the two above it together. */
  predicate Balanced(L: seq<int>)
  {
    (forall i :: 0 <= i && i + 2 < |L| ==> OverTwo(L, i))
    && (forall i :: 0 <= i && i + 1 < |L| ==> OverOne(L, i))
  }

  /** `Balanced`, except for the comparisons that involve one of the top two runs. */
  predicate BalancedBelowTop(L: seq<int>)
  {
    (forall i :: 0 <= i && i + 4 < |L| ==> OverTwo(L, i))
    && (forall i :: 0 <= i && i + 3 < |L| ==> OverOne(L, i))
  }

  /** Every run is at least `m` long. */
  predicate AtLeast(L: seq<int>, m: int)
  {
    forall i :: 0 <= i < |L| ==> L[i] >= m
  }

  predicate Positive(L: seq<int>)
  {
    forall i :: 0 <= i < |L| ==> L[i] > 0
  }

  /** The stack after runs `i` and `i + 1` have been merged into one. */
  function MergeRuns(L: seq<int>, i: int): (r: seq<int>)
    requires 0 <= i && i + 1 < |L|
    ensures |r| == |L| - 1
    ensures r[..i] == L[..i] && r[i] == L[i] + L[i + 1] && r[i + 1..] == L[i + 2..]
  {
    L[..i] + [L[i] + L[i + 1]] + L[i + 2..]
  }

  /** What one round of `mergeCollapse` does: merge run `n` with the run above it, or stop. */
  datatype CollapseStep = MergeAt(n: int) | Stop

  /**
   * The choice as `mergeCollapse` makes it: with `n` the second run from the
   * top, it looks at the top three runs only.
   */
  function ChoiceAsWritten(L: seq<int>): (r: CollapseStep)
    requires |L| > 1
    ensures r.MergeAt? ==> r.n == |L| - 2 || (r.n == |L| - 3 && |L| > 2)
    ensures r == Stop <==> L[|L| - 2] > L[|L| - 1] && (|L| > 2 ==> L[|L| - 3] > L[|L| - 2] + L[|L| - 1])
  {
    var n := |L| - 2;
    if n > 0 && L[n - 1] <= L[n] + L[n + 1] then
      (if L[n - 1] < L[n + 1] then MergeAt(n - 1) else MergeAt(n))
    else if L[n] <= L[n + 1] then
      MergeAt(n)
    else
      Stop
  }

  /**
   * The corrected choice: it also merges when the fourth run from the top
   * is no longer than the two above it together.
   */
  function Choice(L: seq<int>): (r: CollapseStep)
    requires |L| > 1
    ensures r.MergeAt? ==> r.n == |L| - 2 || (r.n == |L| - 3 && |L| > 2)
    ensures r == Stop <==> L[|L| - 2] > L[|L| - 1] && (|L| > 2 ==> L[|L| - 3] > L[|L| - 2] + L[|L| - 1])
                           && (|L| > 3 ==> L[|L| - 4] > L[|L| - 3] + L[|L| - 2])
  {
    var n := |L| - 2;
    if (n > 0 && L[n - 1] <= L[n] + L[n + 1]) || (n > 1 && L[n - 2] <= L[n - 1] + L[n]) then
      (if L[n - 1] < L[n + 1] then MergeAt(n - 1) else MergeAt(n))
    else if L[n] <= L[n + 1] then
      MergeAt(n)
    else
      Stop
  }

  /** The run lengths after `mergeCollapse` as written. */
  function CollapseAsWritten(L: seq<int>): (r: seq<int>)
    ensures |r| <= |L| && (L != [] ==> r != [])
    ensures |r| > 1 ==> ChoiceAsWritten(r) == Stop
    decreases |L|
  {
    if |L| <= 1 then L
    else match ChoiceAsWritten(L)
      case Stop => L
      case MergeAt(n) => CollapseAsWritten(MergeRuns(L, n))
  }

  /** The run lengths after the corrected `mergeCollapse`. */
  function Collapse(L: seq<int>): (r: seq<int>)
    decreases |L|
  {
    if |L| <= 1 then L
    else match Choice(L)
      case Stop => L
      case MergeAt(n) => Collapse(MergeRuns(L, n))
  }

  /** Pushing a run onto a balanced stack leaves it balanced below the top. */
  lemma PushBelowTop(L: seq<int>, x: int)
    requires Balanced(L)
    ensures BalancedBelowTop(L + [x])
  {
    var L' := L + [x];
    forall i | 0 <= i && i + 4 < |L'|
      ensures OverTwo(L', i)
    {
      assert OverTwo(L, i);
    }
    forall i | 0 <= i && i + 3 < |L'|
      ensures OverOne(L', i)
    {
      assert OverOne(L, i);
    }
  }

  /** Merging two of the top three runs keeps the stack balanced below the top. */
  lemma MergeBelowTop(L: seq<int>, n: int)
    requires BalancedBelowTop(L) && 0 <= n && (n == |L| - 2 || n == |L| - 3)
    ensures BalancedBelowTop(MergeRuns(L, n))
  {
    var L' := MergeRuns(L, n);
    forall i | 0 <= i && i + 4 < |L'|
      ensures OverTwo(L', i)
    {
      assert OverTwo(L, i);
    }
    forall i | 0 <= i && i + 3 < |L'|
      ensures OverOne(L', i)
    {
      assert OverOne(L, i);
    }
  }

  /** Where the corrected choice stops, a stack balanced below the top is balanced. */
  lemma StopBalanced(L: seq<int>)
    requires |L| > 1 && BalancedBelowTop(L) && Positive(L) && Choice(L) == Stop
    ensures Balanced(L)
  {
    var m := |L|;
    assert OverOne(L, m - 2);
    assert m > 2 ==> OverTwo(L, m - 3);
    assert m > 3 ==> OverTwo(L, m - 4);
    forall i | 0 <= i && i + 1 < m
      ensures OverOne(L, i)
    {
      if i == m - 3 {
        assert OverTwo(L, i) && L[i + 2] > 0;
      }
    }
  }

  /** A merge keeps every run length positive. */
  lemma MergePositive(L: seq<int>, n: int)
    requires Positive(L) && 0 <= n && n + 1 < |L|
    ensures Positive(MergeRuns(L, n))
  {
    var L' := MergeRuns(L, n);
    assert forall i :: 0 <= i < |L'| ==> L'[i] == (if i < n then L[i] else if i == n then L[n] + L[n + 1] else L[i + 1]);
  }

  /**
   * The corrected `mergeCollapse` restores the balance rule on a stack that
   * was balanced before the last push.
   */
  lemma {:induction false} CollapseBalanced(L: seq<int>)
    requires BalancedBelowTop(L) && Positive(L)
    ensures Balanced(Collapse(L)) && Positive(Collapse(L))
    decreases |L|
  {
    if |L| > 1 {
      match Choice(L)
      case Stop =>
        StopBalanced(L);
      case MergeAt(n) =>
        MergeBelowTop(L, n);
        MergePositive(L, n);
        CollapseBalanced(MergeRuns(L, n));
    }
  }

  /**
   * `mergeCollapse` as written can leave the stack unbalanced: pushing a
   * run of 30 onto the balanced stack 120, 80, 25, 20 ends with 120, 80, 45,
   * 30, where 120 is not longer than 80 + 45.
   */
  lemma CollapseAsWrittenUnbalanced()
    ensures Balanced([120, 80, 25, 20])
    ensures CollapseAsWritten([120, 80, 25, 20, 30]) == [120, 80, 45, 30]
    ensures !Balanced(CollapseAsWritten([120, 80, 25, 20, 30]))
  {
    var L0, L1 := [120, 80, 25, 20, 30], [120, 80, 45, 30];
    assert OverTwo([120, 80, 25, 20], 0) && OverTwo([120, 80, 25, 20], 1);
    assert OverOne([120, 80, 25, 20], 0) && OverOne([120, 80, 25, 20], 1) && OverOne([120, 80, 25, 20], 2);
    assert ChoiceAsWritten(L0) == MergeAt(2) && MergeRuns(L0, 2) == L1;
    assert ChoiceAsWritten(L1) == Stop;
    assert !OverTwo(L1, 0);
  }

  /** On the same stack the corrected choice goes on merging, down to a single run. */
  lemma CollapseCounterexampleMerged()
    ensures Collapse([120, 80, 25, 20, 30]) == [275]
  {
    var L0, L1, L2, L3, L4 := [120, 80, 25, 20, 30], [120, 80, 45, 30], [120, 80, 75], [120, 155], [275];
    assert Choice(L0) == MergeAt(2) && MergeRuns(L0, 2) == L1;
    assert Choice(L1) == MergeAt(2) && MergeRuns(L1, 2) == L2;
    assert Choice(L2) == MergeAt(1) && MergeRuns(L2, 1) == L3;
    assert Choice(L3) == MergeAt(0) && MergeRuns(L3, 0) == L4;
    assert Collapse(L3) == L4;
    assert Collapse(L2) == L4;
    assert Collapse(L1) == L4;
  }

  /** The total length of the runs on the stack. */
  function Sum(L: seq<int>): int
  {
    if L == [] then 0 else L[0] + Sum(L[1..])
  }

  lemma {:induction false} SumConcat(A: seq<int>, B: seq<int>)
    ensures Sum(A + B) == Sum(A) + Sum(B)
    decreases |A|
  {
    if A == [] {
      assert A + B == B;
    } else {
      assert (A + B)[1..] == A[1..] + B;
      SumConcat(A[1..], B);
    }
  }

  /** Merging two runs keeps the total length. */
  lemma MergeSum(L: seq<int>, i: int)
    requires 0 <= i && i + 1 < |L|
    ensures Sum(MergeRuns(L, i)) == Sum(L)
  {
    var P, Q := L[..i], L[i + 2..];
    MergeSplit(L, i, P, Q);
    SumConcat(P, [L[i], L[i + 1]] + Q);
    SumConcat(P, [L[i] + L[i + 1]] + Q);
    SumHeads(L[i], L[i + 1], Q);
  }

  lemma MergeSplit(L: seq<int>, i: int, P: seq<int>, Q: seq<int>)
    requires 0 <= i && i + 1 < |L| && P == L[..i] && Q == L[i + 2..]
    ensures L == P + ([L[i], L[i + 1]] + Q)
    ensures MergeRuns(L, i) == P + ([L[i] + L[i + 1]] + Q)
  {
    assert L == L[..i] + L[i..];
    assert L[i..] == [L[i], L[i + 1]] + Q;
  }

  lemma SumHeads(x: int, y: int, Q: seq<int>)
    ensures Sum([x, y] + Q) == x + y + Sum(Q) == Sum([x + y] + Q)
  {
    assert ([x, y] + Q)[1..] == [y] + Q;
    assert ([y] + Q)[1..] == Q;
    assert ([x + y] + Q)[1..] == Q;
  }

  /** `mergeCollapse` keeps the total length of the pending runs. */
  lemma {:induction false} CollapseSum(L: seq<int>)
    ensures Sum(Collapse(L)) == Sum(L)
    decreases |L|
  {
    if |L| > 1 {
      match Choice(L)
      case Stop =>
      case MergeAt(n) =>
        MergeSum(L, n);
        CollapseSum(MergeRuns(L, n));
    }
  }

  /**
   * Pushing a run onto a balanced stack and collapsing keeps it balanced,
   * and keeps every run at least `m` long when the new run and all the
   * others are.
   */
  lemma PushCollapse(L: seq<int>, n: int, m: int)
    requires Balanced(L) && Positive(L) && 0 < n && 0 <= m && AtLeast(L, m)
    ensures Balanced(Collapse(L + [n])) && Positive(Collapse(L + [n]))
    ensures m <= n ==> AtLeast(Collapse(L + [n]), m)
  {
    PushBelowTop(L, n);
    CollapseBalanced(L + [n]);
    if m <= n {
      CollapseAtLeast(L + [n], m);
    }
  }

  /** `mergeCollapse` keeps every run at least `m` long when every run was. */
  lemma {:induction false} CollapseAtLeast(L: seq<int>, m: int)
    requires m >= 0 && forall i :: 0 <= i < |L| ==> L[i] >= m
    ensures forall i :: 0 <= i < |Collapse(L)| ==> Collapse(L)[i] >= m
    decreases |L|
  {
    if |L| > 1 {
      match Choice(L)
      case Stop =>
      case MergeAt(n) =>
        var L' := MergeRuns(L, n);
        assert forall i :: 0 <= i < |L'| ==> L'[i] == (if i < n then L[i] else if i == n then L[n] + L[n + 1] else L[i + 1]);
        CollapseAtLeast(L', m);
    }
  }

  /**
   * Row `k` of the table of least lengths on a balanced stack whose runs
   * are none shorter than `m`: `least` is the least length of the run `k`
   * places below the top, `next` that of the run below it, and `total` the
   * least total length of `k` runs.
   */
  datatype Row = Row(least: int, next: int, total: int)

  function Least(m: nat, k: nat): (r: Row)
    ensures r.next > r.least >= m && r.total >= 0
  {
    if k == 0 then Row(m, m + 1, 0)
    else
      var p := Least(m, k - 1);
      Row(p.next, p.next + p.least + 1, p.total + p.least)
  }

  /** The run `j` places below the top of a balanced stack is at least `Least(m, j).least` long. */
  lemma {:induction false} TopLeast(L: seq<int>, m: nat, j: nat)
    requires Balanced(L) && (forall i :: 0 <= i < |L| ==> L[i] >= m) && j < |L|
    ensures L[|L| - 1 - j] >= Least(m, j).least
  {
    if j == 1 {
      assert OverOne(L, |L| - 2);
    } else if j >= 2 {
      TopLeast(L, m, j - 1);
      TopLeast(L, m, j - 2);
      assert OverTwo(L, |L| - 1 - j);
    }
  }

  /** A balanced stack of runs none shorter than `m` holds at least `Least(m, |L|).total` elements. */
  lemma {:induction false} SumLeast(L: seq<int>, m: nat)
    requires Balanced(L) && (forall i :: 0 <= i < |L| ==> L[i] >= m)
    ensures Sum(L) >= Least(m, |L|).total
    decreases |L|
  {
    if L != [] {
      TopLeast(L, m, |L| - 1);
      var R := L[1..];
      forall i | 0 <= i && i + 2 < |R|
        ensures OverTwo(R, i)
      {
        assert OverTwo(L, i + 1);
      }
      forall i | 0 <= i && i + 1 < |R|
        ensures OverOne(R, i)
      {
        assert OverOne(L, i + 1);
      }
      SumLeast(R, m);
    }
  }

  /** More runs need more elements. */
  lemma {:induction false} LeastTotalGrows(m: nat, k: nat, k': nat)
    requires k <= k'
    ensures Least(m, k).total <= Least(m, k').total
    decreases k'
  {
    if k < k' {
      LeastTotalGrows(m, k, k' - 1);
    }
  }

  /** Fewer elements than `k` runs need means fewer runs than `k`. */
  lemma LeastTotalBelow(m: nat, k: nat, k': nat)
    ensures Least(m, k').total < Least(m, k).total ==> k' < k
  {
    if k <= k' {
      LeastTotalGrows(m, k, k');
    }
  }

  /** How many runs the constructor makes room for, given the array length. */
  function StackLength(len: int): (r: nat)
    ensures 5 <= r <= 49
    ensures r == 5 <==> len < 120
  {
    if len < 120 then 5 else if len < 1542 then 10 else if len < 119151 then 24 else 49
  }

  /** One row of the table from the row before. */
  lemma LeastNext(m: nat, k: nat, least: int, next: int, total: int)
    requires Least(m, k) == Row(least, next, total)
    ensures Least(m, k + 1) == Row(next, next + least + 1, total + least)
  {
  }

  /**
   * Rows 5, 10, 24, 36 and 49 of the table for runs of at least 16
   * elements, each from the one before, a row at a time.
   */
  lemma LeastRow5(m: nat)
    requires m == 16
    ensures Least(m, 5) == Row(140, 228, 206)
  {
    var k: nat := 0;
    LeastNext(m, k, 16, 17, 0); k := k + 1;
    LeastNext(m, k, 17, 34, 16); k := k + 1;
    LeastNext(m, k, 34, 52, 33); k := k + 1;
    LeastNext(m, k, 52, 87, 67); k := k + 1;
    LeastNext(m, k, 87, 140, 119); k := k + 1;
  }

  lemma LeastRow10(m: nat)
    requires m == 16
    ensures Least(m, 10) == Row(1567, 2536, 2509)
  {
    LeastRow5(m);
    var k: nat := 5;
    LeastNext(m, k, 140, 228, 206); k := k + 1;
    LeastNext(m, k, 228, 369, 346); k := k + 1;
    LeastNext(m, k, 369, 598, 574); k := k + 1;
    LeastNext(m, k, 598, 968, 943); k := k + 1;
    LeastNext(m, k, 968, 1567, 1541); k := k + 1;
  }

  lemma LeastRow24(m: nat)
    requires m == 16
    ensures Least(m, 24) == Row(1321792, 2138705, 2138664)
  {
    LeastRow10(m);
    var k: nat := 10;
    LeastNext(m, k, 1567, 2536, 2509); k := k + 1;
    LeastNext(m, k, 2536, 4104, 4076); k := k + 1;
    LeastNext(m, k, 4104, 6641, 6612); k := k + 1;
    LeastNext(m, k, 6641, 10746, 10716); k := k + 1;
    LeastNext(m, k, 10746, 17388, 17357); k := k + 1;
    LeastNext(m, k, 17388, 28135, 28103); k := k + 1;
    LeastNext(m, k, 28135, 45524, 45491); k := k + 1;
    LeastNext(m, k, 45524, 73660, 73626); k := k + 1;
    LeastNext(m, k, 73660, 119185, 119150); k := k + 1;
    LeastNext(m, k, 119185, 192846, 192810); k := k + 1;
    LeastNext(m, k, 192846, 312032, 311995); k := k + 1;
    LeastNext(m, k, 312032, 504879, 504841); k := k + 1;
    LeastNext(m, k, 504879, 816912, 816873); k := k + 1;
    LeastNext(m, k, 816912, 1321792, 1321752); k := k + 1;
  }

  lemma LeastRow36(m: nat)
    requires m == 16
    ensures Least(m, 36) == Row(425613240, 688656689, 688656636)
  {
    LeastRow24(m);
    var k: nat := 24;
    LeastNext(m, k, 1321792, 2138705, 2138664); k := k + 1;
    LeastNext(m, k, 2138705, 3460498, 3460456); k := k + 1;
    LeastNext(m, k, 3460498, 5599204, 5599161); k := k + 1;
    LeastNext(m, k, 5599204, 9059703, 9059659); k := k + 1;
    LeastNext(m, k, 9059703, 14658908, 14658863); k := k + 1;
    LeastNext(m, k, 14658908, 23718612, 23718566); k := k + 1;
    LeastNext(m, k, 23718612, 38377521, 38377474); k := k + 1;
    LeastNext(m, k, 38377521, 62096134, 62096086); k := k + 1;
    LeastNext(m, k, 62096134, 100473656, 100473607); k := k + 1;
    LeastNext(m, k, 100473656, 162569791, 162569741); k := k + 1;
    LeastNext(m, k, 162569791, 263043448, 263043397); k := k + 1;
    LeastNext(m, k, 263043448, 425613240, 425613188); k := k + 1;
  }

  lemma LeastRow49(m: nat)
    requires m == 16
    ensures Least(m, 49) == Row(221745315473, 358791457282, 358791457216)
  {
    LeastRow36(m);
    var k: nat := 36;
    LeastNext(m, k, 425613240, 688656689, 688656636); k := k + 1;
    LeastNext(m, k, 688656689, 1114269930, 1114269876); k := k + 1;
    LeastNext(m, k, 1114269930, 1802926620, 1802926565); k := k + 1;
    LeastNext(m, k, 1802926620, 2917196551, 2917196495); k := k + 1;
    LeastNext(m, k, 2917196551, 4720123172, 4720123115); k := k + 1;
    LeastNext(m, k, 4720123172, 7637319724, 7637319666); k := k + 1;
    LeastNext(m, k, 7637319724, 12357442897, 12357442838); k := k + 1;
    LeastNext(m, k, 12357442897, 19994762622, 19994762562); k := k + 1;
    LeastNext(m, k, 19994762622, 32352205520, 32352205459); k := k + 1;
    LeastNext(m, k, 32352205520, 52346968143, 52346968081); k := k + 1;
    LeastNext(m, k, 52346968143, 84699173664, 84699173601); k := k + 1;
    LeastNext(m, k, 84699173664, 137046141808, 137046141744); k := k + 1;
    LeastNext(m, k, 137046141808, 221745315473, 221745315408); k := k + 1;
  }
  /** The least total lengths of 5, 10, 24 and 49 balanced runs of at least 16 elements. */
  lemma LeastSums(m: nat)
    requires m == 16
    ensures Least(m, 5).total >= 120 && Least(m, 10).total >= 1542
    ensures Least(m, 24).total >= 119151 && Least(m, 49).total > INT_MAX
  {
    LeastRow5(m);
    LeastRow10(m);
    LeastRow24(m);
    LeastRow49(m);
  }

  /** The constructor's stack holds more balanced runs of at least 16 elements than fit in the array. */
  lemma StackRoom(m: nat, len: int)
    requires m == 16 && len <= INT_MAX
    ensures Least(m, StackLength(len)).total >= len
  {
    LeastSums(m);
    var k := StackLength(len);
    if len < 120 {
      assert k == 5;
    } else if len < 1542 {
      assert k == 10;
    } else if len < 119151 {
      assert k == 24;
    } else {
      assert k == 49;
    }
  }

  /**
   * A balanced stack of runs of at least 16 elements each, holding fewer
   * elements than the array, leaves room for one more run.
   */
  lemma StackFits(L: seq<int>, len: int)
    requires Balanced(L) && (forall i :: 0 <= i < |L| ==> L[i] >= 16)
    requires Sum(L) < len <= INT_MAX
    ensures |L| < StackLength(len)
  {
    var m: nat := 16;
    SumLeast(L, m);
    StackRoom(m, len);
    LeastTotalBelow(m, StackLength(len), |L|);
  }
}
