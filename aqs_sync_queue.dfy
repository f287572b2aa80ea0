// java.util.concurrent.locks.AbstractQueuedSynchronizer: the synchronizer's
// wait queue (a CLH-style queue linked back through `prev`, with `next`
// links for the way forward) and the steps that rewrite it.  Each CAS
// retry loop is one atomic step: with no competing thread the first CAS
// succeeds.  Nodes live in an arena kept one sequence per field: node `n`
// has `waitStatus[n]`, `prev[n]`, `next[n]`, `thread[n]` and
// `nextWaiter[n]`, a reference to a node is its index, and `null` is NIL.
// The subclass hooks (`tryRelease`, `tryReleaseShared`) and the current
// thread are parameters; waking a thread is reported as the node whose
// thread it is.
module QueuedSynchronizers {
  import opened Outcomes

  /** `Node.CANCELLED`: the waiter gave up. */
  const CANCELLED: int := 1
  /** `Node.SIGNAL`: the successor must be woken when this node releases. */
  const SIGNAL: int := -1
  /** `Node.CONDITION`: the node waits on a condition queue. */
  const CONDITION: int := -2
  /** `Node.PROPAGATE`: the next shared acquire should propagate. */
  const PROPAGATE: int := -3

  /** The null reference. */
  const NIL: int := -1
  /** The `Node.SHARED` marker kept in `nextWaiter`; `Node.EXCLUSIVE` is null. */
  const SHARED: int := -2

  ghost predicate Distinct(q: seq<nat>)
  {
    forall i, j :: 0 <= i < j < |q| ==> q[i] != q[j]
  }

  /** Every id in `q` names one of the first `size` nodes. */
  predicate Within(q: seq<nat>, size: int)
  {
    forall i :: 0 <= i < |q| ==> q[i] < size
  }

  /**
   * `q`, head first, is the queue the links spell: each node's `prev` is
   * the node before it and its `next` the node after it, the head has no
   * `prev` and the tail no `next`.
   */
  ghost predicate Linked(head: int, tail: int, prev: seq<int>, next: seq<int>, q: seq<nat>)
  {
    && |prev| == |next|
    && Within(q, |prev|)
    && (q == [] ==> head == NIL && tail == NIL)
    && (q != [] ==> head == q[0] && tail == q[|q| - 1] && prev[q[0]] == NIL && next[q[|q| - 1]] == NIL)
    && Distinct(q)
    && (forall i :: 0 < i < |q| ==> prev[q[i]] == q[i - 1])
    && (forall i :: 0 <= i < |q| - 1 ==> next[q[i]] == q[i + 1])
  }

  /**
   * The statuses fit the queue `q`: the head is never cancelled, no node on
   * it waits on a condition, and a condition node has no sync-queue links.
   */
  ghost predicate StatusesFit(ws: seq<int>, prev: seq<int>, next: seq<int>, q: seq<nat>)
  {
    && |ws| == |prev| == |next|
    && Within(q, |ws|)
    && (q != [] ==> ws[q[0]] <= 0)
    && (forall i :: 0 <= i < |q| ==> ws[q[i]] != CONDITION)
    && (forall n :: 0 <= n < |ws| && ws[n] == CONDITION ==> prev[n] == NIL && next[n] == NIL)
  }

  /**
   * A node off the queue has no `prev`, unless it is one of the cancelled
   * nodes `dropped` that were unlinked around.
   */
  ghost predicate Detached(prev: seq<int>, q: seq<nat>, dropped: set<nat>)
  {
    forall n :: 0 <= n < |prev| && n !in q && n !in dropped ==> prev[n] == NIL
  }

  /**
   * The first node of `q[i..]` that is not cancelled, or NIL when all are:
   * the node `unparkSuccessor` wakes after `q[i - 1]`.
   */
  ghost function FirstLive(ws: seq<int>, q: seq<nat>, i: nat): int
    requires i <= |q| && Within(q, |ws|)
    decreases |q| - i
  {
    if i == |q| then NIL
    else if ws[q[i]] <= 0 then q[i]
    else FirstLive(ws, q, i + 1)
  }

  /**
   * `FirstLive` is NIL exactly when every node of `q[i..]` is cancelled, and
   * otherwise a live node of `q[i..]` with only cancelled nodes before it.
   */
  lemma {:induction false} FirstLiveFirst(ws: seq<int>, q: seq<nat>, i: nat)
    requires i <= |q| && Within(q, |ws|)
    ensures FirstLive(ws, q, i) == NIL <==> forall j :: i <= j < |q| ==> ws[q[j]] > 0
    ensures FirstLive(ws, q, i) != NIL ==>
      exists j :: i <= j < |q| && q[j] == FirstLive(ws, q, i) && ws[q[j]] <= 0 && forall m :: i <= m < j ==> ws[q[m]] > 0
    decreases |q| - i
  {
    if i < |q| && ws[q[i]] > 0 {
      FirstLiveFirst(ws, q, i + 1);
      if FirstLive(ws, q, i) != NIL {
        var j :| i + 1 <= j < |q| && q[j] == FirstLive(ws, q, i) && ws[q[j]] <= 0 && forall m :: i + 1 <= m < j ==> ws[q[m]] > 0;
        assert forall m :: i <= m < j ==> ws[q[m]] > 0;
      }
    } else if i < |q| {
      assert q[i] == FirstLive(ws, q, i);
    }
  }

  /** The index of the live node nearest before `q[i]`, or `i` itself when `q[i]` is live. */
  ghost function LiveBefore(ws: seq<int>, q: seq<nat>, i: nat): (j: nat)
    requires i < |q| && Within(q, |ws|) && ws[q[0]] <= 0
    ensures j <= i && ws[q[j]] <= 0
    ensures forall m :: j < m <= i ==> ws[q[m]] > 0
  {
    if ws[q[i]] <= 0 then i else LiveBefore(ws, q, i - 1)
  }

  /** A node behind the head has a `prev` and does not wait on a condition. */
  lemma Queued(h: int, t: int, ws: seq<int>, prev: seq<int>, next: seq<int>, q: seq<nat>, n: nat)
    requires Linked(h, t, prev, next, q) && StatusesFit(ws, prev, next, q)
    requires n < |ws|
    ensures n in q && n != h ==> prev[n] != NIL && ws[n] != CONDITION
  {
    if n in q && n != h {
      var i :| 0 <= i < |q| && q[i] == n;
      assert i > 0 && prev[n] == q[i - 1];
    }
  }

  /** A new status `v` for node `n` fits, unless it is CONDITION or cancels the head. */
  lemma StatusSet(ws: seq<int>, prev: seq<int>, next: seq<int>, q: seq<nat>, n: nat, v: int)
    requires StatusesFit(ws, prev, next, q) && n < |ws| && v != CONDITION
    requires q != [] && n == q[0] ==> v <= 0
    ensures StatusesFit(ws[n := v], prev, next, q)
  {
  }

  /** Appending `n` after the tail `t` keeps the queue linked and the statuses fitting. */
  lemma Appended(h: int, t: nat, ws: seq<int>, prev: seq<int>, next: seq<int>, q: seq<nat>, d: set<nat>, n: nat)
    requires Linked(h, t, prev, next, q) && StatusesFit(ws, prev, next, q) && Detached(prev, q, d)
    requires q != [] && n < |prev| && n !in q && next[n] == NIL && ws[n] != CONDITION
    ensures Linked(h, n, prev[n := t], next[t := n], q + [n])
    ensures StatusesFit(ws, prev[n := t], next[t := n], q + [n])
    ensures Detached(prev[n := t], q + [n], d)
  {
    assert t == q[|q| - 1] && t != n;
    AppendedDistinct(q, n);
    AppendedPrevLinks(prev, q, n);
    AppendedNextLinks(next, q, n);
  }

  lemma AppendedDistinct(q: seq<nat>, n: nat)
    requires Distinct(q) && n !in q
    ensures Distinct(q + [n])
  {
    var q' := q + [n];
    forall i, j | 0 <= i < j < |q'|
      ensures q'[i] != q'[j]
    {
      if j < |q| {
        assert q'[i] == q[i] && q'[j] == q[j];
      }
    }
  }

  lemma AppendedPrevLinks(prev: seq<int>, q: seq<nat>, n: nat)
    requires Within(q, |prev|) && q != [] && n !in q && n < |prev|
    requires forall i :: 0 < i < |q| ==> prev[q[i]] == q[i - 1]
    ensures forall i :: 0 < i < |q + [n]| ==> prev[n := q[|q| - 1]][(q + [n])[i]] == (q + [n])[i - 1]
  {
    var q' := q + [n];
    forall i | 0 < i < |q'|
      ensures prev[n := q[|q| - 1]][q'[i]] == q'[i - 1]
    {
      if i < |q| {
        assert q'[i] == q[i] && q'[i - 1] == q[i - 1];
      }
    }
  }

  lemma AppendedNextLinks(next: seq<int>, q: seq<nat>, n: nat)
    requires Within(q, |next|) && Distinct(q) && q != [] && n !in q
    requires forall i :: 0 <= i < |q| - 1 ==> next[q[i]] == q[i + 1]
    ensures forall i :: 0 <= i < |q + [n]| - 1 ==> next[q[|q| - 1] := n][(q + [n])[i]] == (q + [n])[i + 1]
  {
    var q', t := q + [n], q[|q| - 1];
    forall i | 0 <= i < |q'| - 1
      ensures next[t := n][q'[i]] == q'[i + 1]
    {
      assert q'[i] == q[i];
      if i < |q| - 1 {
        assert q'[i + 1] == q[i + 1] && q[i] != t;
      }
    }
  }

  /** A new node, with no links and not on the queue, can be added to the arena. */
  lemma Grown(h: int, t: int, ws: seq<int>, prev: seq<int>, next: seq<int>, q: seq<nat>, d: set<nat>, v: int)
    requires Linked(h, t, prev, next, q) && StatusesFit(ws, prev, next, q) && Detached(prev, q, d)
    ensures Linked(h, t, prev + [NIL], next + [NIL], q)
    ensures StatusesFit(ws + [v], prev + [NIL], next + [NIL], q)
    ensures Detached(prev + [NIL], q, d)
  {
    assert forall i :: 0 <= i < |q| ==> (prev + [NIL])[q[i]] == prev[q[i]] && (next + [NIL])[q[i]] == next[q[i]];
    assert forall i :: 0 <= i < |q| ==> (ws + [v])[q[i]] == ws[q[i]];
  }

  /** The second node becoming the head, without `prev`, keeps the queue linked and the statuses fitting. */
  lemma HeadMoved(h: int, t: int, ws: seq<int>, prev: seq<int>, next: seq<int>, q: seq<nat>, d: set<nat>)
    requires Linked(h, t, prev, next, q) && StatusesFit(ws, prev, next, q) && Detached(prev, q, d)
    requires |q| >= 2 && ws[q[1]] <= 0
    ensures Linked(q[1], t, prev[q[1] := NIL], next, q[1..])
    ensures StatusesFit(ws, prev[q[1] := NIL], next, q[1..])
    ensures Detached(prev[q[1] := NIL], q[1..], d)
  {
    var n := q[1];
    var q' := q[1..];
    assert forall i :: 0 <= i < |q'| ==> q'[i] == q[i + 1];
    assert forall i :: 0 < i < |q'| ==> prev[n := NIL][q'[i]] == q'[i - 1] by {
      forall i | 0 < i < |q'|
        ensures prev[n := NIL][q'[i]] == q'[i - 1]
      {
        assert q'[i] == q[i + 1] && q'[i - 1] == q[i] && q[i + 1] != n;
      }
    }
    assert Detached(prev[n := NIL], q', d) by {
      forall m | 0 <= m < |prev| && m !in q' && m !in d
        ensures prev[n := NIL][m] == NIL
      {
        assert m != q[0] ==> m !in q;
      }
    }
  }

  /** `q` with its run `q[j + 1..k]` cut out. */
  function Cut(q: seq<nat>, j: nat, k: nat): (r: seq<nat>)
    requires j + 1 < k < |q|
    ensures |r| == |q| - (k - j - 1)
    ensures forall i :: 0 <= i <= j ==> r[i] == q[i]
    ensures forall i :: j < i < |r| ==> r[i] == q[i + (k - j - 1)]
  {
    q[..j + 1] + q[k..]
  }

  lemma CutDistinct(q: seq<nat>, j: nat, k: nat)
    requires Distinct(q) && j + 1 < k < |q|
    ensures Distinct(Cut(q, j, k))
  {
    var q', gap := Cut(q, j, k), k - j - 1;
    forall a, b | 0 <= a < b < |q'|
      ensures q'[a] != q'[b]
    {
      var a0 := if a <= j then a else a + gap;
      var b0 := if b <= j then b else b + gap;
      assert q'[a] == q[a0] && q'[b] == q[b0] && a0 < b0;
    }
  }

  lemma CutPrevLinks(prev: seq<int>, q: seq<nat>, j: nat, k: nat)
    requires Within(q, |prev|) && Distinct(q) && j + 1 < k < |q|
    requires forall i :: 0 < i < |q| ==> prev[q[i]] == q[i - 1]
    ensures forall i :: 0 < i < |Cut(q, j, k)| ==> prev[q[k] := q[j]][Cut(q, j, k)[i]] == Cut(q, j, k)[i - 1]
  {
    var q', gap, prev' := Cut(q, j, k), k - j - 1, prev[q[k] := q[j]];
    forall i | 0 < i < |q'|
      ensures prev'[q'[i]] == q'[i - 1]
    {
      if i <= j {
        assert q'[i] == q[i] && q'[i - 1] == q[i - 1] && q[i] != q[k];
      } else if i > j + 1 {
        assert q'[i] == q[i + gap] && q'[i - 1] == q[i - 1 + gap] && q[i + gap] != q[k];
      }
    }
  }

  lemma CutNextLinks(next: seq<int>, q: seq<nat>, j: nat, k: nat)
    requires Within(q, |next|) && Distinct(q) && j + 1 < k < |q|
    requires forall i :: 0 <= i < |q| - 1 ==> next[q[i]] == q[i + 1]
    ensures forall i :: 0 <= i < |Cut(q, j, k)| - 1 ==> next[q[j] := q[k]][Cut(q, j, k)[i]] == Cut(q, j, k)[i + 1]
  {
    var q', gap, next' := Cut(q, j, k), k - j - 1, next[q[j] := q[k]];
    forall i | 0 <= i < |q'| - 1
      ensures next'[q'[i]] == q'[i + 1]
    {
      if i < j {
        assert q'[i] == q[i] && q'[i + 1] == q[i + 1] && q[i] != q[j];
      } else if i > j {
        assert q'[i] == q[i + gap] && q'[i + 1] == q[i + 1 + gap] && q[i + gap] != q[j];
      }
    }
  }

  lemma CutStatuses(ws: seq<int>, prev: seq<int>, next: seq<int>, q: seq<nat>, j: nat, k: nat)
    requires StatusesFit(ws, prev, next, q) && j + 1 < k < |q|
    ensures StatusesFit(ws, prev[q[k] := q[j]], next[q[j] := q[k]], Cut(q, j, k))
  {
    var q' := Cut(q, j, k);
    assert q'[0] == q[0];
    assert ws[q[j]] != CONDITION && ws[q[k]] != CONDITION;
  }

  lemma CutDetached(prev: seq<int>, q: seq<nat>, d: set<nat>, j: nat, k: nat)
    requires Detached(prev, q, d) && Within(q, |prev|) && j + 1 < k < |q|
    ensures Detached(prev[q[k] := q[j]], Cut(q, j, k), d + set m | j < m < k :: q[m])
  {
    var q', gap := Cut(q, j, k), k - j - 1;
    var d' := d + set m | j < m < k :: q[m];
    forall n | 0 <= n < |prev| && n !in q' && n !in d'
      ensures prev[q[k] := q[j]][n] == NIL
    {
      assert n !in q;
    }
  }

  /**
   * Unlinking the cancelled run `q[j + 1..k]`, so that `q[k]` follows the
   * live `q[j]`, keeps the queue linked, with the run added to `dropped`.
   */
  lemma RunDropped(h: int, t: int, ws: seq<int>, prev: seq<int>, next: seq<int>, q: seq<nat>, d: set<nat>, j: nat, k: nat)
    requires Linked(h, t, prev, next, q) && StatusesFit(ws, prev, next, q) && Detached(prev, q, d) && j + 1 < k < |q|
    ensures Linked(h, t, prev[q[k] := q[j]], next[q[j] := q[k]], Cut(q, j, k))
    ensures StatusesFit(ws, prev[q[k] := q[j]], next[q[j] := q[k]], Cut(q, j, k))
    ensures Detached(prev[q[k] := q[j]], Cut(q, j, k), d + set m | j < m < k :: q[m])
  {
    CutStatuses(ws, prev, next, q, j, k);
    CutDistinct(q, j, k);
    CutPrevLinks(prev, q, j, k);
    CutNextLinks(next, q, j, k);
    CutDetached(prev, q, d, j, k);
  }

  class Sync {
    var head: int
    var tail: int
    /** The synchronization state; its meaning is the subclass's. */
    var state: int
    /** The node arena, one sequence per field of `Node`. */
    var waitStatus: seq<int>
    var prev: seq<int>
    var next: seq<int>
    var thread: seq<int>
    var nextWaiter: seq<int>
    /** The sync queue, head first. */
    ghost var queue: seq<nat>
    /** Cancelled nodes unlinked from the queue, whose `prev` may still point into it. */
    ghost var dropped: set<nat>

    /** The number of nodes in the arena. */
    function Size(): nat
      reads this
    {
      |waitStatus|
    }

    ghost predicate Valid()
      reads this
    {
      && |waitStatus| == |prev| == |next| == |thread| == |nextWaiter|
      && Linked(head, tail, prev, next, queue)
      && StatusesFit(waitStatus, prev, next, queue)
      && Detached(prev, queue, dropped)
    }

    /** A synchronizer with state 0 and no queue: `head` and `tail` are set up lazily. */
    constructor ()
      ensures Valid() && queue == [] && Size() == 0 && state == 0
    {
      head := NIL;
      tail := NIL;
      state := 0;
      waitStatus, prev, next, thread, nextWaiter := [], [], [], [], [];
      queue := [];
      dropped := {};
    }

    /** `new Node(...)` with status `ws`, thread `t` and `nextWaiter` `w`: a node on no queue. */
    method Allocate(ws: int, t: int, w: int) returns (n: nat)
      requires Valid() && (ws == CONDITION || ws == 0)
      modifies this`waitStatus, this`prev, this`next, this`thread, this`nextWaiter
      ensures Valid() && n == old(Size())
      ensures waitStatus == old(waitStatus) + [ws] && thread == old(thread) + [t] && nextWaiter == old(nextWaiter) + [w]
      ensures prev == old(prev) + [NIL] && next == old(next) + [NIL]
      ensures queue == old(queue) && head == old(head) && tail == old(tail)
    {
      n := |waitStatus|;
      Grown(head, tail, waitStatus, prev, next, queue, dropped, ws);
      waitStatus, prev, next := waitStatus + [ws], prev + [NIL], next + [NIL];
      thread, nextWaiter := thread + [t], nextWaiter + [w];
    }

    /**
     * `compareAndSetWaitStatus(n, _, v)`, succeeding: node `n`'s status
     * becomes `v`, which is not CONDITION and does not cancel the head.
     */
    method SetWaitStatus(n: nat, v: int)
      requires Valid() && n < Size() && v != CONDITION && (queue != [] && n == head ==> v <= 0)
      modifies this`waitStatus
      ensures Valid() && waitStatus == old(waitStatus)[n := v]
    {
      StatusSet(waitStatus, prev, next, queue, n, v);
      waitStatus := waitStatus[n := v];
    }

    /** Node `n`'s `nextWaiter` becomes `w`; nothing else changes. */
    method SetNextWaiter(n: nat, w: int)
      requires n < |nextWaiter|
      modifies this`nextWaiter
      ensures nextWaiter == old(nextWaiter)[n := w]
      ensures old(Valid()) ==> Valid()
    {
      nextWaiter := nextWaiter[n := w];
    }

    /**
     * `enq(node)`: appends `node` at the tail, first installing a dummy head
     * when the queue was never set up; returns the node's predecessor.
     */
    method Enq(node: nat) returns (t: nat)
      requires Valid() && node < Size() && node !in queue
      requires next[node] == NIL && waitStatus[node] != CONDITION
      modifies this`waitStatus, this`prev, this`next, this`thread, this`nextWaiter, this`head, this`tail, this`queue
      ensures Valid() && tail == node
      ensures old(queue) != [] ==>
        && t == old(tail) && queue == old(queue) + [node]
        && waitStatus == old(waitStatus) && thread == old(thread) && nextWaiter == old(nextWaiter)
        && prev == old(prev)[node := t] && next == old(next)[t := node]
      ensures old(queue) == [] ==>
        && t == old(Size()) && queue == [t, node]
        && waitStatus == old(waitStatus) + [0] && thread == old(thread) + [NIL] && nextWaiter == old(nextWaiter) + [NIL]
        && prev == (old(prev) + [NIL])[node := t] && next == old(next) + [node]
    {
      if tail == NIL {
        InitializeHead();
      }
      t := AppendTail(node);
    }

    /** The lazy set-up of `enq`: a dummy node becomes both head and tail. */
    method InitializeHead()
      requires Valid() && queue == []
      modifies this`waitStatus, this`prev, this`next, this`thread, this`nextWaiter, this`head, this`tail, this`queue
      ensures Valid() && queue == [old(Size())] && head == tail == old(Size())
      ensures waitStatus == old(waitStatus) + [0] && thread == old(thread) + [NIL] && nextWaiter == old(nextWaiter) + [NIL]
      ensures prev == old(prev) + [NIL] && next == old(next) + [NIL]
    {
      var h := Allocate(0, NIL, NIL);
      head := h;
      tail := h;
      queue := [h];
    }

    /**
     * One successful round of the append that `enq` and `addWaiter` share:
     * `node.prev` is set to the tail, the tail is moved to `node`, and the
     * old tail's `next` is set to `node`.
     */
    method AppendTail(node: nat) returns (t: nat)
      requires Valid() && queue != [] && node < Size() && node !in queue
      requires next[node] == NIL && waitStatus[node] != CONDITION
      modifies this`prev, this`next, this`tail, this`queue
      ensures Valid() && t == old(tail) && tail == node && queue == old(queue) + [node]
      ensures prev == old(prev)[node := t] && next == old(next)[t := node]
    {
      t := tail;
      Appended(head, t, waitStatus, prev, next, queue, dropped, node);
      prev := prev[node := t];
      tail := node;
      next := next[t := node];
      queue := queue + [node];
    }

    /**
     * `addWaiter(mode)`: a node for the thread `current` in `mode` (SHARED,
     * or EXCLUSIVE, which is NIL), appended to the queue.
     */
    method AddWaiter(mode: int, current: int) returns (node: nat)
      requires Valid() && (mode == SHARED || mode == NIL)
      modifies this`waitStatus, this`prev, this`next, this`thread, this`nextWaiter, this`head, this`tail, this`queue
      ensures Valid() && node == old(Size())
      ensures |queue| >= 2 && queue[|queue| - 1] == node && prev[node] == queue[|queue| - 2]
      ensures waitStatus[node] == 0 && next[node] == NIL && thread[node] == current && nextWaiter[node] == mode
      ensures old(queue) != [] ==> queue == old(queue) + [node]
      ensures old(queue) == [] ==> |queue| == 2
      ensures nextWaiter[..old(Size())] == old(nextWaiter)
    {
      node := Allocate(0, current, mode);
      if tail != NIL {
        // The fast path: one try of the append that `enq` retries.
        var _ := AppendTail(node);
        return;
      }
      var _ := Enq(node);
    }

    /**
     * `setHead(node)`: the node after the head (its predecessor is the
     * head) becomes the head, with its thread and `prev` cleared.
     */
    method SetHead(node: nat)
      requires Valid() && |queue| >= 2 && node == queue[1] && waitStatus[node] <= 0
      modifies this`head, this`thread, this`prev, this`queue
      ensures Valid() && queue == old(queue[1..]) && head == node && tail == old(tail)
      ensures prev == old(prev)[node := NIL] && thread == old(thread)[node := NIL]
      ensures waitStatus == old(waitStatus) && next == old(next) && nextWaiter == old(nextWaiter)
    {
      HeadMoved(head, tail, waitStatus, prev, next, queue, dropped);
      head := node;
      thread := thread[node := NIL];
      prev := prev[node := NIL];
      queue := queue[1..];
    }

    /**
     * `unparkSuccessor(node)` for the queue's `k`th node: a negative status
     * is cleared, and the node woken is `node.next` when that is there and
     * not cancelled, otherwise the live node nearest `node` found scanning
     * back from the tail.  Either way it is the first live node after `node`.
     */
    method UnparkSuccessor(node: nat, ghost k: nat) returns (s: int)
      requires Valid() && k < |queue| && queue[k] == node
      modifies this`waitStatus
      ensures Valid()
      ensures waitStatus == old(waitStatus)[node := if old(waitStatus[node]) < 0 then 0 else old(waitStatus[node])]
      ensures s == FirstLive(waitStatus, queue, k + 1)
    {
      var ws := waitStatus[node];
      if ws < 0 {
        SetWaitStatus(node, 0);
      }
      s := next[node];
      assert k + 1 < |queue| ==> s == queue[k + 1];
      if s != NIL && waitStatus[s] <= 0 {
        assert s == FirstLive(waitStatus, queue, k + 1);
      } else {
        s := ScanFromTail(node, k);
      }
    }

    /**
     * The backward traversal of `unparkSuccessor`: walking `prev` from the
     * tail down to the queue's `k`th node `node`, the last live node seen is
     * the first live node after `node`.
     */
    method ScanFromTail(node: nat, ghost k: nat) returns (s: int)
      requires Valid() && k < |queue| && queue[k] == node
      ensures s == FirstLive(waitStatus, queue, k + 1)
    {
      s := NIL;
      var t := tail;
      ghost var i := |queue| - 1;
      while t != NIL && t != node
        invariant k <= i < |queue| && t == queue[i]
        invariant s == FirstLive(waitStatus, queue, i + 1)
        decreases i
      {
        assert i > k && prev[t] == queue[i - 1];
        if waitStatus[t] <= 0 {
          s := t;
        }
        t := prev[t];
        i := i - 1;
      }
    }

    /**
     * `doReleaseShared`: a head in SIGNAL goes to 0 and its successor is
     * woken; a head in 0 goes to PROPAGATE.  With no thread racing, the head
     * does not move, so the source's retry loop makes one pass.
     */
    method DoReleaseShared() returns (woken: int)
      requires Valid()
      modifies this`waitStatus
      ensures Valid()
      ensures |queue| < 2 ==> waitStatus == old(waitStatus) && woken == NIL
      ensures |queue| >= 2 && old(waitStatus[head]) == SIGNAL ==>
        waitStatus == old(waitStatus)[head := 0] && woken == FirstLive(waitStatus, queue, 1)
      ensures |queue| >= 2 && old(waitStatus[head]) == 0 ==>
        waitStatus == old(waitStatus)[head := PROPAGATE] && woken == NIL
      ensures |queue| >= 2 && old(waitStatus[head]) != 0 && old(waitStatus[head]) != SIGNAL ==>
        waitStatus == old(waitStatus) && woken == NIL
    {
      woken := NIL;
      var h := head;
      if h != NIL && h != tail {
        var ws := waitStatus[h];
        if ws == SIGNAL {
          SetWaitStatus(h, 0);
          woken := UnparkSuccessor(h, 0);
        } else if ws == 0 {
          SetWaitStatus(h, PROPAGATE);
        }
      }
    }

    /**
     * `setHeadAndPropagate(node, propagate)`: `node` becomes the head, and a
     * shared release is passed on when `propagate > 0` or the old or new
     * head's status is negative, and the next node is absent or shared.
     */
    method SetHeadAndPropagate(node: nat, propagate: int) returns (woken: int)
      requires Valid() && |queue| >= 2 && node == queue[1] && waitStatus[node] <= 0
      modifies this`head, this`thread, this`prev, this`queue, this`waitStatus
      ensures Valid() && queue == old(queue[1..]) && head == node && tail == old(tail)
      ensures prev == old(prev)[node := NIL] && thread == old(thread)[node := NIL]
      ensures next == old(next) && nextWaiter == old(nextWaiter)
      ensures waitStatus == old(waitStatus)[node := waitStatus[node]]
      ensures var go := propagate > 0 || old(waitStatus[head]) < 0 || old(waitStatus[node]) < 0;
        var passes := go && (|old(queue)| == 2 || nextWaiter[old(queue)[2]] == SHARED);
        && (!passes ==> woken == NIL && waitStatus == old(waitStatus))
        && (passes && |queue| >= 2 && old(waitStatus[node]) == SIGNAL ==>
              waitStatus[node] == 0 && woken == FirstLive(waitStatus, queue, 1))
        && (passes && |queue| >= 2 && old(waitStatus[node]) == 0 ==>
              waitStatus[node] == PROPAGATE && woken == NIL)
        && (passes && (|queue| < 2 || old(waitStatus[node]) == PROPAGATE) ==>
              waitStatus == old(waitStatus) && woken == NIL)
    {
      var h := head;
      assert old(queue)[2..] == old(queue)[1..][1..];
      SetHead(node);
      woken := NIL;
      if propagate > 0 || h == NIL || waitStatus[h] < 0 || head == NIL || waitStatus[head] < 0 {
        var s := next[node];
        assert s != NIL ==> s == queue[1];
        if s == NIL || nextWaiter[s] == SHARED {
          woken := DoReleaseShared();
        }
      }
    }

    /**
     * The cancelled predecessors of the queue's `k`th node `node` are
     * skipped: `node.prev` is walked back to the nearest live node, which
     * becomes linked to `node`, and the run in between is unlinked.
     */
    method SkipCancelled(node: nat, ghost k: nat)
      requires Valid() && 0 < k < |queue| && queue[k] == node && waitStatus[queue[k - 1]] > 0
      modifies this`prev, this`next, this`queue, this`dropped
      ensures Valid()
      ensures var j := LiveBefore(waitStatus, old(queue), k - 1);
        && queue == Cut(old(queue), j, k)
        && prev == old(prev)[node := old(queue[j])] && next == old(next)[old(queue[j]) := node]
    {
      ghost var q, p0, n0 := queue, prev, next;
      ghost var target := LiveBefore(waitStatus, q, k - 1);
      // The source writes `node.prev` on every step back; nothing reads it
      // in between, so it is written once, when the walk ends.
      var p := prev[prev[node]];
      ghost var j := k - 2;
      while waitStatus[p] > 0
        invariant target <= j < k - 1 && p == q[j]
        decreases j
      {
        p := prev[p];
        j := j - 1;
      }
      assert j == target;
      RunDropped(head, tail, waitStatus, prev, next, q, dropped, j, k);
      prev := prev[node := p];
      next := next[p := node];
      dropped := dropped + set m | j < m < k :: q[m];
      queue := Cut(q, j, k);
      assert prev == p0[node := q[j]] && next == n0[q[j] := node];
    }

    /**
     * `shouldParkAfterFailedAcquire(pred, node)` for the queue's `k`th node:
     * true exactly when `pred` is in SIGNAL.  A cancelled `pred` is skipped,
     * with every cancelled node back to the nearest live one unlinked; any
     * other `pred` is set to SIGNAL.  Both of those return false.
     */
    method ShouldParkAfterFailedAcquire(pred: nat, node: nat, ghost k: nat) returns (park: bool)
      requires Valid() && 0 < k < |queue| && queue[k] == node && pred == prev[node] == queue[k - 1]
      modifies this`waitStatus, this`prev, this`next, this`queue, this`dropped
      ensures Valid()
      ensures park <==> old(waitStatus[pred]) == SIGNAL
      ensures old(waitStatus[pred]) <= 0 ==> prev == old(prev) && next == old(next) && queue == old(queue)
      ensures old(waitStatus[pred]) <= 0 && !park ==> waitStatus == old(waitStatus)[pred := SIGNAL]
      ensures old(waitStatus[pred]) > 0 || park ==> waitStatus == old(waitStatus)
      ensures old(waitStatus[pred]) > 0 ==>
        var j := LiveBefore(waitStatus, old(queue), k - 1);
        && queue == Cut(old(queue), j, k)
        && prev == old(prev)[node := old(queue[j])] && next == old(next)[old(queue[j]) := node]
    {
      var ws := waitStatus[pred];
      if ws == SIGNAL {
        return true;
      }
      if ws > 0 {
        SkipCancelled(node, k);
      } else {
        SetWaitStatus(pred, SIGNAL);
      }
      return false;
    }

    /**
     * `release(arg)` with `tryRelease(arg)`'s answer given: when it
     * succeeds and the head's status is not 0, the head's successor is woken.
     */
    method Release(tryRelease: bool) returns (released: bool, woken: int)
      requires Valid()
      modifies this`waitStatus
      ensures Valid() && released == tryRelease
      ensures !(tryRelease && queue != [] && old(waitStatus[head]) != 0) ==> waitStatus == old(waitStatus) && woken == NIL
      ensures tryRelease && queue != [] && old(waitStatus[head]) != 0 ==>
        waitStatus == old(waitStatus)[head := 0] && woken == FirstLive(waitStatus, queue, 1)
    {
      woken := NIL;
      if tryRelease {
        var h := head;
        if h != NIL && waitStatus[h] != 0 {
          woken := UnparkSuccessor(h, 0);
        }
        return true, woken;
      }
      return false, woken;
    }

    /** `releaseShared(arg)` with `tryReleaseShared(arg)`'s answer given. */
    method ReleaseShared(tryReleaseShared: bool) returns (released: bool, woken: int)
      requires Valid()
      modifies this`waitStatus
      ensures Valid() && released == tryReleaseShared
      ensures !tryReleaseShared || |queue| < 2 ==> waitStatus == old(waitStatus) && woken == NIL
      ensures tryReleaseShared && |queue| >= 2 && old(waitStatus[head]) == SIGNAL ==>
        waitStatus == old(waitStatus)[head := 0] && woken == FirstLive(waitStatus, queue, 1)
      ensures tryReleaseShared && |queue| >= 2 && old(waitStatus[head]) == 0 ==>
        waitStatus == old(waitStatus)[head := PROPAGATE] && woken == NIL
    {
      if tryReleaseShared {
        woken := DoReleaseShared();
        return true, woken;
      }
      return false, NIL;
    }

    /** `hasQueuedThreads`: some node waits behind the head. */
    function HasQueuedThreads(): (r: bool)
      reads this
      requires Valid()
      ensures r <==> |queue| >= 2
    {
      head != tail
    }

    /** `hasContended`: the queue was ever set up. */
    function HasContended(): (r: bool)
      reads this
      requires Valid()
      ensures r <==> queue != []
    {
      head != NIL
    }

    /** `hasQueuedPredecessors()` asked by thread `current`: a thread other than it is first in line. */
    function HasQueuedPredecessors(current: int): (r: bool)
      reads this
      requires Valid()
      ensures r <==> |queue| >= 2 && thread[queue[1]] != current
    {
      head != tail && (next[head] == NIL || thread[next[head]] != current)
    }

    /** `findNodeFromTail(node)`: walks the `prev` links back from the tail. */
    method FindNodeFromTail(node: nat) returns (found: bool)
      requires Valid()
      ensures found <==> node in queue
    {
      var t := tail;
      ghost var i := |queue| - 1;
      while true
        invariant -1 <= i < |queue| && t == (if i < 0 then NIL else queue[i])
        invariant forall m :: i < m < |queue| ==> queue[m] != node
        decreases i + 1
      {
        if t == node {
          return true;
        }
        if t == NIL {
          return false;
        }
        t := prev[t];
        i := i - 1;
      }
    }

    /**
     * `isOnSyncQueue(node)`: for a node that was not unlinked as cancelled,
     * true exactly when it is on the queue behind the head.
     */
    method IsOnSyncQueue(node: nat) returns (r: bool)
      requires Valid() && node < Size()
      ensures node in queue && node != head ==> r
      ensures r ==> node in queue || node in dropped
      ensures node !in dropped ==> (r <==> node in queue && node != head)
    {
      Queued(head, tail, waitStatus, prev, next, queue, node);
      if waitStatus[node] == CONDITION || prev[node] == NIL {
        return false;
      }
      if next[node] != NIL {
        return true;
      }
      r := FindNodeFromTail(node);
      assert node in queue ==> node != queue[0];
    }

    /**
     * `transferForSignal(node)`: false when the node no longer waits on a
     * condition.  Otherwise its status goes to 0, it is appended to the
     * queue, and its predecessor is set to SIGNAL; when the predecessor is
     * cancelled the node's own thread is woken instead.
     */
    method TransferForSignal(node: nat) returns (transferred: bool, woken: int)
      requires Valid() && node < Size()
      modifies this`waitStatus, this`prev, this`next, this`thread, this`nextWaiter, this`head, this`tail, this`queue
      ensures Valid() && old(Size()) <= Size() && nextWaiter[..old(Size())] == old(nextWaiter)
      ensures transferred <==> old(waitStatus[node]) == CONDITION
      ensures !transferred ==>
        && waitStatus == old(waitStatus) && prev == old(prev) && next == old(next)
        && nextWaiter == old(nextWaiter) && thread == old(thread) && queue == old(queue)
        && head == old(head) && tail == old(tail) && woken == NIL
      ensures transferred ==>
        && |queue| >= 2 && queue[|queue| - 1] == node && waitStatus[node] == 0
        && (old(queue) != [] ==> queue == old(queue) + [node])
        && (old(queue) == [] ==> |queue| == 2)
        && (woken != NIL <==> old(queue) != [] && old(waitStatus[tail]) > 0)
        && (woken != NIL ==> woken == node)
        && (woken == NIL ==> waitStatus[queue[|queue| - 2]] == SIGNAL)
      ensures forall n :: 0 <= n < old(Size()) && n != node ==>
        (waitStatus[n] == CONDITION <==> old(waitStatus[n]) == CONDITION)
    {
      if waitStatus[node] != CONDITION {
        return false, NIL;
      }
      SetWaitStatus(node, 0);
      var p := Enq(node);
      var ws := waitStatus[p];
      woken := NIL;
      if ws > 0 {
        woken := node;
      } else {
        SetWaitStatus(p, SIGNAL);
      }
      return true, woken;
    }

    /**
     * `fullyRelease(node)` for a node just added to a condition queue, with
     * `tryRelease(state)`'s answer given: the saved state is returned when
     * the release succeeds; otherwise the node is cancelled and
     * IllegalMonitorStateException is thrown.
     */
    method FullyRelease(node: nat, tryRelease: bool) returns (r: Result<int>, woken: int)
      requires Valid() && node < Size() && waitStatus[node] == CONDITION
      modifies this`waitStatus
      ensures Valid()
      ensures tryRelease ==> r == Ok(old(state)) && waitStatus[node] == CONDITION
      ensures tryRelease && queue != [] && old(waitStatus[head]) != 0 ==>
        waitStatus == old(waitStatus)[head := 0] && woken == FirstLive(waitStatus, queue, 1)
      ensures tryRelease && !(queue != [] && old(waitStatus[head]) != 0) ==> waitStatus == old(waitStatus) && woken == NIL
      ensures !tryRelease ==>
        r == Err(IllegalMonitorState) && woken == NIL && waitStatus == old(waitStatus)[node := CANCELLED]
    {
      var savedState := state;
      var released;
      released, woken := Release(tryRelease);
      if released {
        return Ok(savedState), woken;
      }
      SetWaitStatus(node, CANCELLED);
      return Err(IllegalMonitorState), NIL;
    }
  }
}
