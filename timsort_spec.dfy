// The order TimSort establishes, stated on sequences.  The comparator is
// modelled by an integer rank: `c.compare(x, y) < 0` exactly when
// `Rank(rank, x) < Rank(rank, y)`, and elements of equal rank are ties.  A stable sort
// of `t` is a sorted `s` in which the elements of every rank come in the
// same order as in `t`; `Merge` is the stable merge that the in-place
// merges are proved against.
module SortSpec {
  /** The rank the comparator gives `x`; every comparison in the model goes through it. */
  function Rank<T>(rank: T -> int, x: T): int
  {
    rank(x)
  }


  /** `s` is in non-decreasing rank order. */
  predicate Sorted<T>(rank: T -> int, s: seq<T>)
  {
    forall i, j :: 0 <= i < j < |s| ==> Rank(rank, s[i]) <= Rank(rank, s[j])
  }

  /** `s` is in strictly decreasing rank order. */
  predicate Descending<T>(rank: T -> int, s: seq<T>)
  {
    forall i, j :: 0 <= i < j < |s| ==> Rank(rank, s[i]) > Rank(rank, s[j])
  }

  /** The elements of `s` whose rank is `k`, in their order in `s`. */
  function Ranked<T>(rank: T -> int, s: seq<T>, k: int): (r: seq<T>)
    ensures |r| <= |s|
  {
    if s == [] then []
    else (if Rank(rank, s[0]) == k then [s[0]] else []) + Ranked(rank, s[1..], k)
  }

  /** `s` holds the elements of `t`, and the ties of every rank in the same order. */
  ghost predicate SameTies<T>(rank: T -> int, s: seq<T>, t: seq<T>)
  {
    forall k :: Ranked(rank, s, k) == Ranked(rank, t, k)
  }

  /**
   * The stable merge of two runs: the smaller head goes first, and of two
   * equal heads the one from the first run.
   */
  function Merge<T>(rank: T -> int, x: seq<T>, y: seq<T>): (r: seq<T>)
    ensures |r| == |x| + |y|
    decreases |x| + |y|
  {
    if x == [] then y
    else if y == [] then x
    else if Rank(rank, y[0]) < Rank(rank, x[0]) then [y[0]] + Merge(rank, x, y[1..])
    else [x[0]] + Merge(rank, x[1..], y)
  }

  /** `s` with its adjacent runs `s[b..m]` and `s[m..e]` replaced by their merge. */
  function MergedAt<T>(rank: T -> int, s: seq<T>, b: int, m: int, e: int): (r: seq<T>)
    requires 0 <= b <= m <= e <= |s|
    ensures |r| == |s|
  {
    s[..b] + Merge(rank, s[b..m], s[m..e]) + s[e..]
  }

  /** `s` read back to front. */
  function Reversed<T>(s: seq<T>): (r: seq<T>)
    ensures |r| == |s|
    ensures forall i :: 0 <= i < |s| ==> r[i] == s[|s| - 1 - i]
  {
    if s == [] then [] else Reversed(s[1..]) + [s[0]]
  }

  /** Concatenation is associative. */
  lemma AppendAssoc<T>(a: seq<T>, b: seq<T>, c: seq<T>)
    ensures a + (b + c) == (a + b) + c
  {
  }

  lemma {:induction false} RankedAppend<T>(rank: T -> int, s: seq<T>, t: seq<T>, k: int)
    ensures Ranked(rank, s + t, k) == Ranked(rank, s, k) + Ranked(rank, t, k)
    decreases |s|
  {
    if s == [] {
      assert s + t == t;
    } else {
      assert (s + t)[0] == s[0] && (s + t)[1..] == s[1..] + t;
      RankedAppend(rank, s[1..], t, k);
      var h := if Rank(rank, s[0]) == k then [s[0]] else [];
      assert Ranked(rank, s + t, k) == h + (Ranked(rank, s[1..], k) + Ranked(rank, t, k));
    }
  }

  /** No element of `s` has rank `k`. */
  lemma {:induction false} RankedNone<T>(rank: T -> int, s: seq<T>, k: int)
    requires forall i :: 0 <= i < |s| ==> Rank(rank, s[i]) != k
    ensures Ranked(rank, s, k) == []
    decreases |s|
  {
    if s != [] {
      RankedNone(rank, s[1..], k);
    }
  }

  lemma SameTiesRefl<T>(rank: T -> int, s: seq<T>)
    ensures SameTies(rank, s, s)
  {
  }

  /** Concatenating runs with the same ties keeps the same ties. */
  lemma SameTiesAppend<T>(rank: T -> int, s1: seq<T>, s2: seq<T>, t1: seq<T>, t2: seq<T>)
    requires SameTies(rank, s1, t1) && SameTies(rank, s2, t2)
    ensures SameTies(rank, s1 + s2, t1 + t2)
  {
    forall k
      ensures Ranked(rank, s1 + s2, k) == Ranked(rank, t1 + t2, k)
    {
      RankedAppend(rank, s1, s2, k);
      RankedAppend(rank, t1, t2, k);
    }
  }

  /** An element occurs in `s` as often as among the elements of its rank. */
  lemma {:induction false} RankedCount<T>(rank: T -> int, s: seq<T>, x: T)
    ensures multiset(s)[x] == multiset(Ranked(rank, s, Rank(rank, x)))[x]
    decreases |s|
  {
    if s != [] {
      RankedCount(rank, s[1..], x);
      assert s == [s[0]] + s[1..];
      assert multiset(s) == multiset([s[0]]) + multiset(s[1..]);
      var h := if Rank(rank, s[0]) == Rank(rank, x) then [s[0]] else [];
      assert Ranked(rank, s, Rank(rank, x)) == h + Ranked(rank, s[1..], Rank(rank, x));
      assert multiset(Ranked(rank, s, Rank(rank, x))) == multiset(h) + multiset(Ranked(rank, s[1..], Rank(rank, x)));
    }
  }

  /** Keeping the ties of every rank in order keeps every element: a stable sort permutes. */
  lemma SameTiesPermutes<T>(rank: T -> int, s: seq<T>, t: seq<T>)
    requires SameTies(rank, s, t)
    ensures multiset(s) == multiset(t)
  {
    forall x
      ensures multiset(s)[x] == multiset(t)[x]
    {
      RankedCount(rank, s, x);
      RankedCount(rank, t, x);
    }
  }

  /** Merging a sorted run with another keeps the ties of both, those of the first run first. */
  lemma {:induction false} MergeRanked<T>(rank: T -> int, x: seq<T>, y: seq<T>, k: int)
    requires Sorted(rank, x)
    ensures Ranked(rank, Merge(rank, x, y), k) == Ranked(rank, x, k) + Ranked(rank, y, k)
    decreases |x| + |y|
  {
    if x != [] && y != [] {
      if Rank(rank, y[0]) < Rank(rank, x[0]) {
        var m := Merge(rank, x, y[1..]);
        var h := Ranked(rank, [y[0]], k);
        assert Merge(rank, x, y) == [y[0]] + m;
        assert Ranked(rank, m, k) == Ranked(rank, x, k) + Ranked(rank, y[1..], k) by {
          MergeRanked(rank, x, y[1..], k);
        }
        assert Ranked(rank, y, k) == h + Ranked(rank, y[1..], k) by {
          assert y == [y[0]] + y[1..];
          RankedAppend(rank, [y[0]], y[1..], k);
        }
        RankedAppend(rank, [y[0]], m, k);
        if Rank(rank, y[0]) == k {
          assert forall i :: 0 <= i < |x| ==> Rank(rank, x[i]) != k by {
            assert forall i :: 0 <= i < |x| ==> Rank(rank, x[0]) <= Rank(rank, x[i]);
          }
          RankedNone(rank, x, k);
        } else {
          assert h == [];
        }
      } else {
        var m := Merge(rank, x[1..], y);
        assert Sorted(rank, x[1..]);
        assert Merge(rank, x, y) == [x[0]] + m;
        assert Ranked(rank, m, k) == Ranked(rank, x[1..], k) + Ranked(rank, y, k) by {
          MergeRanked(rank, x[1..], y, k);
        }
        RankedAppend(rank, [x[0]], m, k);
        assert x == [x[0]] + x[1..];
        RankedAppend(rank, [x[0]], x[1..], k);
        AppendAssoc(Ranked(rank, [x[0]], k), Ranked(rank, x[1..], k), Ranked(rank, y, k));
      }
    }
  }

  /** Merging after a sorted run is stable: the merge has the ties of `x + y`. */
  lemma MergeTies<T>(rank: T -> int, x: seq<T>, y: seq<T>)
    requires Sorted(rank, x)
    ensures SameTies(rank, Merge(rank, x, y), x + y)
  {
    forall k
      ensures Ranked(rank, Merge(rank, x, y), k) == Ranked(rank, x + y, k)
    {
      MergeRanked(rank, x, y, k);
      RankedAppend(rank, x, y, k);
    }
  }

  /** Every element of the merge of runs ranked at least `b` is ranked at least `b`. */
  lemma {:induction false} MergeAbove<T>(rank: T -> int, x: seq<T>, y: seq<T>, b: int)
    requires forall i :: 0 <= i < |x| ==> b <= Rank(rank, x[i])
    requires forall j :: 0 <= j < |y| ==> b <= Rank(rank, y[j])
    ensures forall i :: 0 <= i < |Merge(rank, x, y)| ==> b <= Rank(rank, Merge(rank, x, y)[i])
    decreases |x| + |y|
  {
    if x != [] && y != [] {
      if Rank(rank, y[0]) < Rank(rank, x[0]) {
        MergeAbove(rank, x, y[1..], b);
      } else {
        MergeAbove(rank, x[1..], y, b);
      }
    }
  }

  /** The merge of two sorted runs is sorted. */
  lemma {:induction false} MergeSorted<T>(rank: T -> int, x: seq<T>, y: seq<T>)
    requires Sorted(rank, x) && Sorted(rank, y)
    ensures Sorted(rank, Merge(rank, x, y))
    decreases |x| + |y|
  {
    if x != [] && y != [] {
      var r := Merge(rank, x, y);
      if Rank(rank, y[0]) < Rank(rank, x[0]) {
        var m := Merge(rank, x, y[1..]);
        MergeSorted(rank, x, y[1..]);
        MergeAbove(rank, x, y[1..], Rank(rank, y[0]));
        assert r == [y[0]] + m;
      } else {
        var m := Merge(rank, x[1..], y);
        MergeSorted(rank, x[1..], y);
        MergeAbove(rank, x[1..], y, Rank(rank, x[0]));
        assert r == [x[0]] + m;
      }
    }
  }

  /** A merge permutes its two runs. */
  lemma {:induction false} MergePermutes<T>(rank: T -> int, x: seq<T>, y: seq<T>)
    ensures multiset(Merge(rank, x, y)) == multiset(x) + multiset(y)
    decreases |x| + |y|
  {
    if x != [] && y != [] {
      if Rank(rank, y[0]) < Rank(rank, x[0]) {
        MergePermutes(rank, x, y[1..]);
        assert Merge(rank, x, y) == [y[0]] + Merge(rank, x, y[1..]);
        assert multiset(y) == multiset([y[0]]) + multiset(y[1..]) by {
          assert y == [y[0]] + y[1..];
        }
      } else {
        MergePermutes(rank, x[1..], y);
        assert Merge(rank, x, y) == [x[0]] + Merge(rank, x[1..], y);
        assert multiset(x) == multiset([x[0]]) + multiset(x[1..]) by {
          assert x == [x[0]] + x[1..];
        }
      }
    }
  }

  lemma {:induction false} MergeTakeLeft<T>(rank: T -> int, x: seq<T>, y: seq<T>, n: int)
    requires 0 <= n <= |x|
    requires y != [] ==> forall i :: 0 <= i < n ==> Rank(rank, x[i]) <= Rank(rank, y[0])
    ensures Merge(rank, x, y) == x[..n] + Merge(rank, x[n..], y)
    decreases n
  {
    if n == 0 {
      assert x[n..] == x;
    } else if y == [] {
      assert x[..n] + x[n..] == x;
    } else {
      assert Merge(rank, x, y) == [x[0]] + Merge(rank, x[1..], y);
      MergeTakeLeft(rank, x[1..], y, n - 1);
      assert x[1..][..n - 1] == x[1..n] && x[1..][n - 1..] == x[n..];
      assert x[..n] == [x[0]] + x[1..n];
    }
  }

  /** Leading elements of `y` ranked below the head of `x` come first, in order. */
  lemma {:induction false} MergeTakeRight<T>(rank: T -> int, x: seq<T>, y: seq<T>, n: int)
    requires 0 <= n <= |y| && x != []
    requires forall j :: 0 <= j < n ==> Rank(rank, y[j]) < Rank(rank, x[0])
    ensures Merge(rank, x, y) == y[..n] + Merge(rank, x, y[n..])
    decreases n
  {
    if n == 0 {
      assert y[..n] == [] && y[n..] == y;
    } else {
      var y' := y[1..];
      assert Merge(rank, x, y) == [y[0]] + Merge(rank, x, y') by {
        assert Rank(rank, y[0]) < Rank(rank, x[0]);
      }
      assert forall j :: 0 <= j < n - 1 ==> Rank(rank, y'[j]) < Rank(rank, x[0]) by {
        assert forall j :: 0 <= j < n - 1 ==> y'[j] == y[j + 1];
      }
      MergeTakeRight(rank, x, y', n - 1);
      var m := Merge(rank, x, y[n..]);
      assert Merge(rank, x, y') == y[1..n] + m by {
        assert y'[..n - 1] == y[1..n] && y'[n - 1..] == y[n..];
      }
      AppendAssoc([y[0]], y[1..n], m);
      assert y[..n] == [y[0]] + y[1..n];
    }
  }

  /** Trailing elements of `x` ranked above every element of `y` come last, in order. */
  lemma {:induction false} MergeDropLeft<T>(rank: T -> int, x: seq<T>, y: seq<T>, n: int)
    requires 0 <= n <= |x|
    requires forall i, j :: |x| - n <= i < |x| && 0 <= j < |y| ==> Rank(rank, y[j]) < Rank(rank, x[i])
    ensures Merge(rank, x, y) == Merge(rank, x[..|x| - n], y) + x[|x| - n..]
    decreases |x| + |y|
  {
    var x', tail := x[..|x| - n], x[|x| - n..];
    if x' == [] {
      assert x == tail;
      if x != [] {
        MergeTakeRight(rank, x, y, |y|);
        assert y[|y|..] == [] && y[..|y|] == y;
      }
    } else if y == [] {
      assert x == x' + tail;
    } else if Rank(rank, y[0]) < Rank(rank, x[0]) {
      MergeDropLeft(rank, x, y[1..], n);
      assert x'[0] == x[0];
    } else {
      MergeDropLeft(rank, x[1..], y, n);
      assert x[1..][..|x| - 1 - n] == x'[1..] && x[1..][|x| - 1 - n..] == tail;
      assert x'[0] == x[0];
    }
  }

  /** Trailing elements of `y` ranked at least as high as every element of `x` come last, in order. */
  lemma {:induction false} MergeDropRight<T>(rank: T -> int, x: seq<T>, y: seq<T>, n: int)
    requires 0 <= n <= |y|
    requires forall i, j :: 0 <= i < |x| && |y| - n <= j < |y| ==> Rank(rank, x[i]) <= Rank(rank, y[j])
    ensures Merge(rank, x, y) == Merge(rank, x, y[..|y| - n]) + y[|y| - n..]
    decreases |x| + |y|
  {
    var y', tail := y[..|y| - n], y[|y| - n..];
    if y' == [] {
      assert y == tail;
      if y != [] {
        MergeTakeLeft(rank, x, y, |x|);
        assert x[|x|..] == [] && x[..|x|] == x;
      }
    } else if x == [] {
      assert y == y' + tail;
    } else if Rank(rank, y[0]) < Rank(rank, x[0]) {
      MergeDropRight(rank, x, y[1..], n);
      assert y[1..][..|y| - 1 - n] == y'[1..] && y[1..][|y| - 1 - n..] == tail;
      assert y'[0] == y[0];
      assert Merge(rank, x, y') == [y[0]] + Merge(rank, x, y'[1..]);
      assert Merge(rank, x, y) == [y[0]] + (Merge(rank, x, y'[1..]) + tail);
    } else {
      MergeDropRight(rank, x[1..], y, n);
      assert y'[0] == y[0];
      assert Merge(rank, x, y') == [x[0]] + Merge(rank, x[1..], y');
      assert Merge(rank, x, y) == [x[0]] + (Merge(rank, x[1..], y') + tail);
    }
  }

  /** Inserting `p` after every element ranked no higher and before every element ranked higher keeps `s` sorted. */
  lemma InsertSorted<T>(rank: T -> int, s: seq<T>, p: T, j: int)
    requires Sorted(rank, s) && 0 <= j <= |s|
    requires forall i :: 0 <= i < j ==> Rank(rank, s[i]) <= Rank(rank, p)
    requires forall i :: j <= i < |s| ==> Rank(rank, p) < Rank(rank, s[i])
    ensures Sorted(rank, s[..j] + [p] + s[j..])
  {
    var u := s[..j] + [p] + s[j..];
    assert forall i :: 0 <= i < |u| ==> u[i] == if i < j then s[i] else if i == j then p else s[i - 1];
  }

  /** Inserting `p` before every element ranked higher places it after its ties. */
  lemma InsertRanked<T>(rank: T -> int, s: seq<T>, p: T, j: int, k: int)
    requires 0 <= j <= |s|
    requires forall i :: j <= i < |s| ==> Rank(rank, p) < Rank(rank, s[i])
    ensures Ranked(rank, s[..j] + [p] + s[j..], k) == Ranked(rank, s + [p], k)
  {
    RankedAppend(rank, s[..j] + [p], s[j..], k);
    RankedAppend(rank, s[..j], [p], k);
    RankedAppend(rank, s, [p], k);
    RankedAppend(rank, s[..j], s[j..], k);
    assert s[..j] + s[j..] == s;
    if Rank(rank, p) == k {
      RankedNone(rank, s[j..], k);
    }
  }

  /** The insertion step of binary insertion sort is a stable sort of `s + [p]`. */
  lemma InsertStable<T>(rank: T -> int, s: seq<T>, p: T, j: int)
    requires Sorted(rank, s) && 0 <= j <= |s|
    requires forall i :: 0 <= i < j ==> Rank(rank, s[i]) <= Rank(rank, p)
    requires forall i :: j <= i < |s| ==> Rank(rank, p) < Rank(rank, s[i])
    ensures Sorted(rank, s[..j] + [p] + s[j..])
    ensures SameTies(rank, s[..j] + [p] + s[j..], s + [p])
  {
    InsertSorted(rank, s, p, j);
    forall k
      ensures Ranked(rank, s[..j] + [p] + s[j..], k) == Ranked(rank, s + [p], k)
    {
      InsertRanked(rank, s, p, j, k);
    }
  }

  /** A strictly descending run, reversed, is sorted. */
  lemma ReversedSorted<T>(rank: T -> int, s: seq<T>)
    requires Descending(rank, s)
    ensures Sorted(rank, Reversed(s))
  {
    var r := Reversed(s);
    forall i, j | 0 <= i < j < |r|
      ensures Rank(rank, r[i]) <= Rank(rank, r[j])
    {
      assert r[i] == s[|s| - 1 - i] && r[j] == s[|s| - 1 - j];
    }
  }

  /** A strictly descending run has at most one element of each rank, so reversing it keeps its ties. */
  lemma {:induction false} ReversedRanked<T>(rank: T -> int, s: seq<T>, k: int)
    requires Descending(rank, s)
    ensures Ranked(rank, Reversed(s), k) == Ranked(rank, s, k)
    decreases |s|
  {
    if s != [] {
      assert Descending(rank, s[1..]);
      ReversedRanked(rank, s[1..], k);
      RankedAppend(rank, Reversed(s[1..]), [s[0]], k);
      if Rank(rank, s[0]) == k {
        RankedNone(rank, s[1..], k);
      }
    }
  }

  /** Reversing a strictly descending run is a stable sort of it. */
  lemma ReversedDescending<T>(rank: T -> int, s: seq<T>)
    requires Descending(rank, s)
    ensures Sorted(rank, Reversed(s)) && SameTies(rank, Reversed(s), s)
  {
    ReversedSorted(rank, s);
    forall k
      ensures Ranked(rank, Reversed(s), k) == Ranked(rank, s, k)
    {
      ReversedRanked(rank, s, k);
    }
  }
}
