// java.util.concurrent.locks.AbstractQueuedSynchronizer.ConditionObject:
// the condition queue, singly linked through the nodes' `nextWaiter`, kept
// in the same node arena as the synchronizer's wait queue.  It is only
// touched by the thread holding the lock, so each operation is sequential;
// whether the lock is held (`isHeldExclusively`) is a parameter, and so is
// the current thread.
//
// Contracts write some predicates as `P(...) == true`: the comparison keeps
// the predicate as one fact rather than unfolded into its conjuncts, which
// keeps the proofs that carry it small.
module ConditionQueues {
  import opened Outcomes
  import opened QueuedSynchronizers

  /**
   * The nodes of `s` still waiting on the condition, in queue order: the
   * nodes whose status is CONDITION.  The others were cancelled.
   */
  ghost function Waiting(s: seq<nat>, ws: seq<int>): seq<nat>
    requires Within(s, |ws|)
  {
    if s == [] then []
    else (if ws[s[0]] == CONDITION then [s[0]] else []) + Waiting(s[1..], ws)
  }

  /** `Waiting` keeps exactly the nodes of `s` in CONDITION, and only those. */
  lemma {:induction false} WaitingFilters(s: seq<nat>, ws: seq<int>)
    requires Within(s, |ws|)
    ensures forall n :: n in Waiting(s, ws) <==> n in s && ws[n] == CONDITION
    ensures |Waiting(s, ws)| <= |s|
  {
    if s != [] {
      WaitingFilters(s[1..], ws);
      assert s == [s[0]] + s[1..];
    }
  }

  lemma {:induction false} WaitingWithin(s: seq<nat>, ws: seq<int>)
    requires Within(s, |ws|)
    ensures Within(Waiting(s, ws), |ws|)
  {
    if s != [] {
      WaitingWithin(s[1..], ws);
    }
  }

  /** `Waiting` distributes over concatenation. */
  lemma {:induction false} WaitingAppend(a: seq<nat>, b: seq<nat>, ws: seq<int>)
    requires Within(a, |ws|) && Within(b, |ws|)
    ensures Waiting(a + b, ws) == Waiting(a, ws) + Waiting(b, ws)
  {
    if a == [] {
      assert a + b == b;
    } else {
      var ab := a + b;
      assert ab[0] == a[0] && ab[1..] == a[1..] + b;
      assert Within(ab[1..], |ws|);
      WaitingAppend(a[1..], b, ws);
      var h := if ws[a[0]] == CONDITION then [a[0]] else [];
      assert Waiting(ab, ws) == h + Waiting(a[1..] + b, ws);
      assert Waiting(a, ws) == h + Waiting(a[1..], ws);
    }
  }

  /** Purging cancelled nodes twice purges nothing more. */
  lemma {:induction false} WaitingIdempotent(s: seq<nat>, ws: seq<int>)
    requires Within(s, |ws|)
    ensures Within(Waiting(s, ws), |ws|) && Waiting(Waiting(s, ws), ws) == Waiting(s, ws)
  {
    WaitingWithin(s, ws);
    if s != [] {
      var rest := Waiting(s[1..], ws);
      WaitingIdempotent(s[1..], ws);
      if ws[s[0]] == CONDITION {
        assert Waiting(s, ws) == [s[0]] + rest;
        assert ([s[0]] + rest)[1..] == rest;
      } else {
        assert Waiting(s, ws) == rest;
      }
    }
  }

  /** Only whether each node of `s` is in CONDITION matters to `Waiting`. */
  lemma {:induction false} WaitingSame(s: seq<nat>, ws: seq<int>, ws': seq<int>)
    requires Within(s, |ws|) && Within(s, |ws'|)
    requires forall i :: 0 <= i < |s| ==> (ws[s[i]] == CONDITION <==> ws'[s[i]] == CONDITION)
    ensures Waiting(s, ws) == Waiting(s, ws')
  {
    if s != [] {
      WaitingSame(s[1..], ws, ws');
    }
  }

  lemma {:induction false} WaitingDistinct(s: seq<nat>, ws: seq<int>)
    requires Within(s, |ws|) && Distinct(s)
    ensures Distinct(Waiting(s, ws))
  {
    if s != [] {
      WaitingDistinct(s[1..], ws);
      WaitingFilters(s[1..], ws);
      assert s[0] !in s[1..];
    }
  }

  /** The position in `s` of the first node in CONDITION, or `|s|` when there is none. */
  ghost function FirstWaiting(s: seq<nat>, ws: seq<int>): (k: nat)
    requires Within(s, |ws|)
    ensures k <= |s|
    ensures forall m :: 0 <= m < k ==> ws[s[m]] != CONDITION
    ensures k < |s| ==> ws[s[k]] == CONDITION
  {
    if s == [] then 0
    else if ws[s[0]] == CONDITION then 0
    else 1 + FirstWaiting(s[1..], ws)
  }

  /** The nodes before the first one in CONDITION contribute nothing to `Waiting`. */
  lemma {:induction false} FirstWaitingSkips(s: seq<nat>, ws: seq<int>)
    requires Within(s, |ws|)
    ensures Waiting(s, ws) == Waiting(s[FirstWaiting(s, ws)..], ws)
  {
    if s != [] && ws[s[0]] != CONDITION {
      var k := FirstWaiting(s, ws);
      FirstWaitingSkips(s[1..], ws);
      assert k == 1 + FirstWaiting(s[1..], ws);
      assert s[1..][k - 1..] == s[k..];
    }
  }

  /**
   * The node `doSignal` moves is the longest-waiting one: the first node of
   * `Waiting`, and the nodes still waiting after it are the rest of `Waiting`.
   */
  lemma FirstWaitingOldest(s: seq<nat>, ws: seq<int>)
    requires Within(s, |ws|)
    ensures var k := FirstWaiting(s, ws);
      && (k == |s| <==> Waiting(s, ws) == [])
      && (k < |s| ==> Waiting(s, ws) == [s[k]] + Waiting(s[k + 1..], ws))
  {
    var k := FirstWaiting(s, ws);
    FirstWaitingSkips(s, ws);
    if k < |s| {
      assert s[k..][0] == s[k] && s[k..][1..] == s[k + 1..];
    } else {
      assert s[k..] == [];
    }
  }

  /** The chain `w`, linked through `nw`, whose last node's `nextWaiter` is `after`. */
  ghost predicate Links(nw: seq<int>, w: seq<nat>, after: int)
  {
    && Within(w, |nw|)
    && (forall i :: 0 <= i < |w| - 1 ==> nw[w[i]] == w[i + 1])
    && (w != [] ==> nw[w[|w| - 1]] == after)
  }

  /**
   * The condition queue `w` is the chain `first`, `nextWaiter[first]`, ...,
   * `last`, without repeats, ending in NIL.
   */
  ghost predicate Chained(nw: seq<int>, w: seq<nat>, first: int, last: int)
  {
    && Links(nw, w, NIL)
    && Distinct(w)
    && (w == [] ==> first == NIL && last == NIL)
    && (w != [] ==> first == w[0] && last == w[|w| - 1])
  }

  /** Writing the `nextWaiter` of nodes off the chain leaves the chain as it is. */
  lemma LinksKept(nw: seq<int>, nw': seq<int>, w: seq<nat>, after: int)
    requires Links(nw, w, after) && |nw| <= |nw'|
    requires forall i :: 0 <= i < |w| ==> nw'[w[i]] == nw[w[i]]
    ensures Links(nw', w, after)
  {
    if w != [] {
      assert nw'[w[|w| - 1]] == nw[w[|w| - 1]];
    }
  }

  /** New nodes added to the arena leave the chain as it is. */
  lemma ChainGrown(nw: seq<int>, nw': seq<int>, w: seq<nat>, first: int, last: int)
    requires Chained(nw, w, first, last) && |nw| <= |nw'| && nw'[..|nw|] == nw
    ensures Chained(nw', w, first, last)
  {
    forall i | 0 <= i < |w|
      ensures nw'[w[i]] == nw[w[i]]
    {
      assert nw'[..|nw|][w[i]] == nw'[w[i]];
    }
    LinksKept(nw, nw', w, NIL);
  }

  /** Linking a new node `n` after the last waiter extends the chain by `n`. */
  lemma ChainAppended(nw: seq<int>, w: seq<nat>, first: int, last: int, n: nat)
    requires Chained(nw, w, first, last) && n < |nw| && n !in w && nw[n] == NIL
    ensures var nw' := if w == [] then nw else nw[last := n];
      Chained(nw', w + [n], if w == [] then n else first, n)
  {
    var w' := w + [n];
    var nw' := if w == [] then nw else nw[last := n];
    assert forall i :: 0 <= i < |w| ==> w'[i] == w[i];
    assert Distinct(w') by {
      forall i, j | 0 <= i < j < |w'|
        ensures w'[i] != w'[j]
      {
        if j < |w| {
          assert w'[i] == w[i] && w'[j] == w[j];
        }
      }
    }
    assert forall i :: 0 <= i < |w'| - 1 ==> nw'[w'[i]] == w'[i + 1] by {
      forall i | 0 <= i < |w'| - 1
        ensures nw'[w'[i]] == w'[i + 1]
      {
        assert w'[i] == w[i];
        if i < |w| - 1 {
          assert w[i] != last;
        }
      }
    }
  }

  /** Dropping the first waiter, whose `nextWaiter` is cleared, keeps the rest chained. */
  lemma ChainDequeued(nw: seq<int>, w: seq<nat>, first: int, last: int)
    requires Chained(nw, w, first, last) && w != []
    ensures Chained(nw[first := NIL], w[1..], nw[first], if nw[first] == NIL then NIL else last)
  {
    var w' := w[1..];
    assert forall i :: 0 <= i < |w'| ==> w'[i] == w[i + 1] && w[i + 1] != first;
  }

  /**
   * What `doSignal` leaves, from the condition queue `W`, statuses `ws0`
   * and wait queue `q0` before it: every node up to the first one in
   * CONDITION is dequeued, and that one alone is moved to the wait queue
   * with status 0; when no node is in CONDITION, all are dequeued and
   * nothing else changes.
   */
  ghost predicate Signalled(W: seq<nat>, ws0: seq<int>, q0: seq<nat>, w: seq<nat>, q: seq<nat>, ws: seq<int>)
    requires Within(W, |ws0|)
  {
    var k := FirstWaiting(W, ws0);
    if k == |W| then w == [] && q == q0 && ws == ws0
    else
      && w == W[k + 1..] && |q| >= 2 && q[|q| - 1] == W[k] && (q0 != [] ==> q == q0 + [W[k]])
      && W[k] < |ws| && ws[W[k]] == 0
      && (forall m :: k < m < |W| ==> W[m] < |ws| && (ws[W[m]] == CONDITION <==> ws0[W[m]] == CONDITION))
  }

  /**
   * `signal` moves the longest-waiting thread: the node moved is the first
   * of `Waiting` before, and the nodes waiting after are the rest of it.
   */
  lemma SignalMovesOldest(W: seq<nat>, ws0: seq<int>, q0: seq<nat>, w: seq<nat>, q: seq<nat>, ws: seq<int>)
    requires Within(W, |ws0|) && Signalled(W, ws0, q0, w, q, ws)
    ensures Waiting(W, ws0) == [] ==> w == [] && q == q0
    ensures Waiting(W, ws0) != [] ==>
      && q != [] && q[|q| - 1] == Waiting(W, ws0)[0] && (q0 != [] ==> q == q0 + [Waiting(W, ws0)[0]])
      && Within(w, |ws|) && Waiting(w, ws) == Waiting(W, ws0)[1..]
  {
    FirstWaitingOldest(W, ws0);
    var k := FirstWaiting(W, ws0);
    if k < |W| {
      assert forall i :: 0 <= i < |w| ==> w[i] == W[k + 1 + i];
      WaitingSame(w, ws, ws0);
    }
  }

  /**
   * What `doSignalAll` leaves: the condition queue's nodes in CONDITION,
   * in order, are appended to the wait queue `q0` (after a dummy head when
   * it was never set up), and none of its nodes is in CONDITION any more.
   */
  ghost predicate SignalledAll(W: seq<nat>, ws0: seq<int>, q0: seq<nat>, q: seq<nat>, ws: seq<int>)
    requires Within(W, |ws0|)
  {
    var moved := Waiting(W, ws0);
    && (q0 != [] ==> q == q0 + moved)
    && (q0 == [] && moved == [] ==> q == [])
    && (q0 == [] && moved != [] ==> |q| >= 1 && q[1..] == moved)
    && (forall n :: n in W ==> n < |ws| && ws[n] != CONDITION)
  }

  class ConditionObject {
    /** The synchronizer this condition belongs to (the enclosing instance). */
    const sync: Sync
    var firstWaiter: int
    var lastWaiter: int
    /** The condition queue, first waiter first. */
    ghost var waiters: seq<nat>

    ghost predicate Valid()
      reads this, sync
    {
      sync.Valid() && Chained(sync.nextWaiter, waiters, firstWaiter, lastWaiter)
    }

    /** A condition of `s` with no waiters. */
    constructor (s: Sync)
      requires s.Valid()
      ensures Valid() && sync == s && waiters == []
    {
      sync := s;
      firstWaiter := NIL;
      lastWaiter := NIL;
      waiters := [];
    }

    /**
     * `unlinkCancelledWaiters`: one pass from `firstWaiter` that unlinks
     * every node not in CONDITION, clearing its `nextWaiter`, and keeps
     * `lastWaiter` on the last node kept.
     */
    method UnlinkCancelledWaiters()
      requires Valid()
      modifies this, sync`nextWaiter
      ensures Valid() && sync.waitStatus == old(sync.waitStatus)
      ensures waiters == Waiting(old(waiters), sync.waitStatus)
      ensures forall m :: 0 <= m < |old(waiters)| && sync.waitStatus[old(waiters)[m]] != CONDITION ==> sync.nextWaiter[old(waiters)[m]] == NIL
      ensures forall n :: 0 <= n < |sync.nextWaiter| && n !in old(waiters) ==> sync.nextWaiter[n] == old(sync.nextWaiter[n])
    {
      ghost var W, nw0, ws := waiters, sync.nextWaiter, sync.waitStatus;
      Purge(W, nw0, ws);
      waiters := Waiting(W, ws);
    }

    /** The loop of `unlinkCancelledWaiters`, from `firstWaiter` to the end of the condition queue `W`. */
    method Purge(ghost W: seq<nat>, ghost nw0: seq<int>, ghost ws: seq<int>)
      requires sync.Valid() && sync.waitStatus == ws && sync.nextWaiter == nw0 && Chained(nw0, W, firstWaiter, lastWaiter)
      modifies this`firstWaiter, this`lastWaiter, sync`nextWaiter
      ensures sync.Valid()
      ensures |sync.nextWaiter| == |nw0| && forall n :: 0 <= n < |nw0| && n !in W ==> sync.nextWaiter[n] == nw0[n]
      ensures Chained(sync.nextWaiter, Waiting(W, ws), firstWaiter, lastWaiter)
      ensures forall m :: 0 <= m < |W| && ws[W[m]] != CONDITION ==> sync.nextWaiter[W[m]] == NIL
    {
      ScanStarts(nw0, W, ws, firstWaiter, lastWaiter);
      var t := firstWaiter;
      var trail := NIL;
      ghost var i := 0;
      while t != NIL
        invariant sync.Valid() && sync.waitStatus == ws
      
        invariant Scan(sync.nextWaiter, nw0, W, ws, i, t, trail, firstWaiter, lastWaiter) == true
        decreases |W| - i
      {
        t, trail := Visit(t, trail, W, nw0, ws, i);
        i := i + 1;
      }
      ScanDone(sync.nextWaiter, nw0, W, ws, i, trail, firstWaiter, lastWaiter);
    }

    /**
     * One turn of `unlinkCancelledWaiters`' loop, at the node `t`: a
     * cancelled `t` is unlinked and its `nextWaiter` cleared, a waiting one
     * becomes the new `trail`; returns the node to visit next.
     */
    method Visit(t: int, trail: int, ghost W: seq<nat>, ghost nw0: seq<int>, ghost ws: seq<int>, ghost i: int)
      returns (next: int, trail': int)
      requires t != NIL && sync.waitStatus == ws && Scan(sync.nextWaiter, nw0, W, ws, i, t, trail, firstWaiter, lastWaiter)
      requires sync.Valid()
      modifies this`firstWaiter, this`lastWaiter, sync`nextWaiter
      ensures sync.Valid()
    
      ensures Scan(sync.nextWaiter, nw0, W, ws, i + 1, next, trail', firstWaiter, lastWaiter) == true
    {
      ScanAt(sync.nextWaiter, nw0, W, ws, i, t, trail, firstWaiter, lastWaiter);
      ghost var nw, first0, last0 := sync.nextWaiter, firstWaiter, lastWaiter;
      next := sync.nextWaiter[t];
      trail' := trail;
      if sync.waitStatus[t] != CONDITION {
        sync.SetNextWaiter(t, NIL);
        if trail == NIL {
          firstWaiter := next;
        } else {
          sync.SetNextWaiter(trail, next);
        }
        if next == NIL {
          lastWaiter := trail;
        }
        ScanDropped(nw, nw0, W, ws, i, t, trail, first0, last0, next, sync.nextWaiter, firstWaiter, lastWaiter);
      } else {
        trail' := t;
        ScanKept(nw, nw0, W, ws, i, t, trail, first0, last0, next);
      }
    }

    /**
     * `addConditionWaiter()` for the thread `current`: cancelled nodes are
     * purged first when the last waiter is not in CONDITION, then a new
     * CONDITION node for `current` is linked at the end.
     */
    method AddConditionWaiter(current: int) returns (node: nat)
      requires Valid()
      modifies this, sync`waitStatus, sync`prev, sync`next, sync`thread, sync`nextWaiter
      ensures Valid() && node == old(sync.Size())
      ensures var purged := old(waiters) != [] && old(sync.waitStatus[lastWaiter]) != CONDITION;
        waiters == (if purged then Waiting(old(waiters), old(sync.waitStatus)) else old(waiters)) + [node]
      ensures sync.waitStatus == old(sync.waitStatus) + [CONDITION] && sync.thread == old(sync.thread) + [current]
      ensures sync.prev == old(sync.prev) + [NIL] && sync.next == old(sync.next) + [NIL]
    {
      var t := lastWaiter;
      if t != NIL && sync.waitStatus[t] != CONDITION {
        UnlinkCancelledWaiters();
      }
      node := Link(current);
    }

    /** A new CONDITION node for `current` is allocated and linked after `lastWaiter`. */
    method Link(current: int) returns (node: nat)
      requires Valid()
      modifies this, sync`waitStatus, sync`prev, sync`next, sync`thread, sync`nextWaiter
      ensures Valid() && node == old(sync.Size()) && waiters == old(waiters) + [node]
      ensures sync.waitStatus == old(sync.waitStatus) + [CONDITION] && sync.thread == old(sync.thread) + [current]
      ensures sync.prev == old(sync.prev) + [NIL] && sync.next == old(sync.next) + [NIL]
    {
      var t := lastWaiter;
      ghost var nw := sync.nextWaiter;
      node := sync.Allocate(CONDITION, current, NIL);
      ChainGrown(nw, sync.nextWaiter, waiters, firstWaiter, lastWaiter);
      ChainAppended(sync.nextWaiter, waiters, firstWaiter, lastWaiter, node);
      if t == NIL {
        firstWaiter := node;
      } else {
        sync.SetNextWaiter(t, node);
      }
      lastWaiter := node;
      waiters := waiters + [node];
    }

    /**
     * The first step of `doSignal`'s loop: `firstWaiter` moves to the first
     * waiter's `nextWaiter` (and `lastWaiter` to null when that is null),
     * and the first waiter's `nextWaiter` is cleared.
     */
    method Dequeue() returns (first: nat)
      requires Valid() && waiters != []
      modifies this, sync`nextWaiter
      ensures Valid() && first == old(waiters[0]) && waiters == old(waiters[1..])
      ensures sync.nextWaiter == old(sync.nextWaiter)[first := NIL]
    {
      first := firstWaiter;
      ChainDequeued(sync.nextWaiter, waiters, firstWaiter, lastWaiter);
      firstWaiter := sync.nextWaiter[first];
      if firstWaiter == NIL {
        lastWaiter := NIL;
      }
      sync.SetNextWaiter(first, NIL);
      waiters := waiters[1..];
    }

    /**
     * One turn of `doSignal`'s loop: the first waiter is dequeued, its
     * `nextWaiter` cleared, and it is handed to `transferForSignal`.
     */
    method TransferFirst() returns (f: nat, transferred: bool, woken: int)
      requires Valid() && waiters != []
      modifies this, sync`waitStatus, sync`prev, sync`next, sync`thread, sync`nextWaiter, sync`head, sync`tail, sync`queue
      ensures Valid() && f == old(waiters[0]) && waiters == old(waiters[1..]) && f < old(sync.Size())
      ensures transferred <==> old(sync.waitStatus)[f] == CONDITION
      ensures !transferred ==> sync.waitStatus == old(sync.waitStatus) && sync.queue == old(sync.queue)
      ensures !transferred ==> sync.tail == old(sync.tail) && woken == NIL
      ensures transferred ==>
        (woken != NIL <==> old(sync.queue) != [] && old(sync.waitStatus[sync.tail]) > 0) && (woken != NIL ==> woken == f)
      ensures transferred ==>
        && |sync.queue| >= 2 && sync.queue[|sync.queue| - 1] == f && f < sync.Size() && sync.waitStatus[f] == 0
        && (old(sync.queue) != [] ==> sync.queue == old(sync.queue) + [f])
      ensures old(sync.Size()) <= sync.Size()
      ensures forall n :: 0 <= n < old(sync.Size()) && n != f ==>
        (sync.waitStatus[n] == CONDITION <==> old(sync.waitStatus)[n] == CONDITION)
    {
      f := Dequeue();
      ghost var nw := sync.nextWaiter;
      transferred, woken := sync.TransferForSignal(f);
      ChainGrown(nw, sync.nextWaiter, waiters, firstWaiter, lastWaiter);
    }

    /**
     * `doSignal(first)`: waiters are dequeued and handed to
     * `transferForSignal` until one transfers or none is left.
     */
    method DoSignal(first: nat) returns (woken: int)
      requires Valid() && waiters != [] && first == firstWaiter
      modifies this, sync`waitStatus, sync`prev, sync`next, sync`thread, sync`nextWaiter, sync`head, sync`tail, sync`queue
      ensures Valid()
      ensures Signalled(old(waiters), old(sync.waitStatus), old(sync.queue), waiters, sync.queue, sync.waitStatus)
      ensures woken != NIL <==>
        FirstWaiting(old(waiters), old(sync.waitStatus)) < |old(waiters)| && old(sync.queue) != [] && old(sync.waitStatus[sync.tail]) > 0
      ensures woken != NIL ==> woken == old(waiters)[FirstWaiting(old(waiters), old(sync.waitStatus))]
    {
      ghost var W, ws0, q0, t0 := waiters, sync.waitStatus, sync.queue, sync.tail;
      ghost var k := FirstWaiting(W, ws0);
      ghost var i := 0;
      while true
        invariant Valid() == true
        invariant i <= k && i < |W| && waiters == W[i..]
        invariant sync.waitStatus == ws0 && sync.queue == q0 && sync.tail == t0
        decreases |W| - i
      {
        var f, transferred;
        f, transferred, woken := TransferFirst();
        FirstWaitingAt(W, ws0, i);
        if transferred {
          SignalledMoved(W, ws0, q0, k, waiters, sync.queue, sync.waitStatus);
          return;
        }
        if firstWaiter == NIL {
          assert |W| == i + 1;
          return;
        }
        i := i + 1;
      }
    }

    /**
     * One turn of `doSignalAll`'s loop, at `f = W[i]`: its `nextWaiter` is
     * read and cleared, and it is handed to `transferForSignal`; returns
     * the node after it and the node whose thread was woken, if any.
     */
    method TransferNext(f: nat, ghost W: seq<nat>, ghost ws0: seq<int>, ghost q0: seq<nat>, ghost i: nat)
      returns (next: int, w: int)
      requires sync.Valid() && Draining(sync.nextWaiter, sync.waitStatus, sync.queue, W, ws0, q0, i) && i < |W| && f == W[i]
      modifies sync`waitStatus, sync`prev, sync`next, sync`thread, sync`nextWaiter, sync`head, sync`tail, sync`queue
      ensures sync.Valid() && Draining(sync.nextWaiter, sync.waitStatus, sync.queue, W, ws0, q0, i + 1)
      ensures next == if i + 1 < |W| then W[i + 1] else NIL
      ensures w != NIL ==> w == f && ws0[f] == CONDITION
    {
      DrainingAt(sync.nextWaiter, sync.waitStatus, sync.queue, W, ws0, q0, i);
      ghost var nw, ws, q := sync.nextWaiter, sync.waitStatus, sync.queue;
      next := sync.nextWaiter[f];
      sync.SetNextWaiter(f, NIL);
      ghost var nw1 := sync.nextWaiter;
      var _, woken := sync.TransferForSignal(f);
      w := woken;
      DrainStep(W, ws0, q0, i, nw, ws, q, sync.nextWaiter, sync.waitStatus, sync.queue);
    }

    /**
     * `doSignalAll(first)`: the condition queue is emptied and every one of
     * its nodes is handed to `transferForSignal`; the nodes whose threads
     * were woken are returned.
     */
    method DoSignalAll(first: nat) returns (woken: seq<nat>)
      requires Valid() && waiters != [] && first == firstWaiter
      modifies this, sync`waitStatus, sync`prev, sync`next, sync`thread, sync`nextWaiter, sync`head, sync`tail, sync`queue
      ensures Valid() && waiters == []
      ensures SignalledAll(old(waiters), old(sync.waitStatus), old(sync.queue), sync.queue, sync.waitStatus)
      ensures forall n :: n in woken ==> n in Waiting(old(waiters), old(sync.waitStatus))
    {
      ghost var W, ws0, q0 := waiters, sync.waitStatus, sync.queue;
      DrainingStarts(sync.nextWaiter, W, ws0, q0, firstWaiter, lastWaiter);
      lastWaiter := NIL;
      firstWaiter := NIL;
      waiters := [];
      woken := Drain(first, W, ws0, q0);
      WaitingFilters(W, ws0);
    }

    /** The loop of `doSignalAll`, handing every node of `W` over in turn, from `first = W[0]`. */
    method Drain(first: nat, ghost W: seq<nat>, ghost ws0: seq<int>, ghost q0: seq<nat>) returns (woken: seq<nat>)
      requires sync.Valid() && Draining(sync.nextWaiter, sync.waitStatus, sync.queue, W, ws0, q0, 0) && W != [] && first == W[0]
      modifies sync`waitStatus, sync`prev, sync`next, sync`thread, sync`nextWaiter, sync`head, sync`tail, sync`queue
      ensures sync.Valid() && SignalledAll(W, ws0, q0, sync.queue, sync.waitStatus)
      ensures forall n :: n in woken ==> n in W && ws0[n] == CONDITION
    {
      var f: int := first;
      woken := [];
      ghost var i := 0;
      while f != NIL
        invariant sync.Valid()
        invariant Draining(sync.nextWaiter, sync.waitStatus, sync.queue, W, ws0, q0, i) == true
        invariant f == if i < |W| then W[i] else NIL
        invariant forall n :: n in woken ==> n in W && ws0[n] == CONDITION
        decreases |W| - i
      {
        var next, w := TransferNext(f, W, ws0, q0, i);
        if w != NIL {
          woken := woken + [w];
        }
        f := next;
        i := i + 1;
      }
      DrainingDone(sync.nextWaiter, sync.waitStatus, sync.queue, W, ws0, q0);
    }

    /** `signal()`: IllegalMonitorStateException unless the lock is held; otherwise `doSignal` when there is a waiter. */
    method Signal(held: bool) returns (r: Status, woken: int)
      requires Valid()
      modifies this, sync`waitStatus, sync`prev, sync`next, sync`thread, sync`nextWaiter, sync`head, sync`tail, sync`queue
      ensures Valid()
      ensures !held ==> r == Thrown(IllegalMonitorState) && waiters == old(waiters) && sync.queue == old(sync.queue)
      ensures held ==> r == Done && Signalled(old(waiters), old(sync.waitStatus), old(sync.queue), waiters, sync.queue, sync.waitStatus)
      ensures !held ==> woken == NIL
      ensures held ==> (woken != NIL <==>
        FirstWaiting(old(waiters), old(sync.waitStatus)) < |old(waiters)| && old(sync.queue) != [] && old(sync.waitStatus[sync.tail]) > 0)
      ensures woken != NIL ==> woken == old(waiters)[FirstWaiting(old(waiters), old(sync.waitStatus))]
    {
      woken := NIL;
      if !held {
        return Thrown(IllegalMonitorState), woken;
      }
      var first := firstWaiter;
      if first != NIL {
        woken := DoSignal(first);
      }
      return Done, woken;
    }

    /** `signalAll()`: IllegalMonitorStateException unless the lock is held; otherwise `doSignalAll` when there is a waiter. */
    method SignalAll(held: bool) returns (r: Status, woken: seq<nat>)
      requires Valid()
      modifies this, sync`waitStatus, sync`prev, sync`next, sync`thread, sync`nextWaiter, sync`head, sync`tail, sync`queue
      ensures Valid()
      ensures !held ==> r == Thrown(IllegalMonitorState) && waiters == old(waiters) && sync.queue == old(sync.queue)
      ensures held ==> r == Done && waiters == []
      ensures held ==> SignalledAll(old(waiters), old(sync.waitStatus), old(sync.queue), sync.queue, sync.waitStatus)
    {
      woken := [];
      if !held {
        return Thrown(IllegalMonitorState), woken;
      }
      var first := firstWaiter;
      if first != NIL {
        woken := DoSignalAll(first);
      }
      return Done, woken;
    }

    /** `hasWaiters()`: IllegalMonitorStateException unless the lock is held; otherwise whether any node waits. */
    method HasWaiters(held: bool) returns (r: Result<bool>)
      requires Valid()
      ensures !held ==> r == Err(IllegalMonitorState)
      ensures held ==> r == Ok(Waiting(waiters, sync.waitStatus) != [])
    {
      if !held {
        return Err(IllegalMonitorState);
      }
      var w := firstWaiter;
      ghost var i := 0;
      while w != NIL
        invariant 0 <= i <= |waiters| && w == (if i < |waiters| then waiters[i] else NIL)
        invariant Waiting(waiters[..i], sync.waitStatus) == []
        decreases |waiters| - i
      {
        if sync.waitStatus[w] == CONDITION {
          WaitingFilters(waiters, sync.waitStatus);
          return Ok(true);
        }
        PrefixWaiting(waiters, sync.waitStatus, i);
        i := i + 1;
        w := sync.nextWaiter[w];
      }
      assert waiters[..i] == waiters;
      return Ok(false);
    }

    /** `getWaitQueueLength()`: IllegalMonitorStateException unless the lock is held; otherwise the number of waiting nodes. */
    method GetWaitQueueLength(held: bool) returns (r: Result<int>)
      requires Valid()
      ensures !held ==> r == Err(IllegalMonitorState)
      ensures held ==> r == Ok(|Waiting(waiters, sync.waitStatus)|)
    {
      if !held {
        return Err(IllegalMonitorState);
      }
      var n := 0;
      var w := firstWaiter;
      ghost var i := 0;
      while w != NIL
        invariant 0 <= i <= |waiters| && w == (if i < |waiters| then waiters[i] else NIL)
        invariant n == |Waiting(waiters[..i], sync.waitStatus)|
        decreases |waiters| - i
      {
        PrefixWaiting(waiters, sync.waitStatus, i);
        if sync.waitStatus[w] == CONDITION {
          n := n + 1;
        }
        i := i + 1;
        w := sync.nextWaiter[w];
      }
      assert waiters[..i] == waiters;
      return Ok(n);
    }
  }

  /** The nodes waiting among `W[..i + 1]` are those among `W[..i]`, then `W[i]` when it waits. */
  lemma PrefixWaiting(W: seq<nat>, ws: seq<int>, i: nat)
    requires Within(W, |ws|) && i < |W|
    ensures Waiting(W[..i + 1], ws) == Waiting(W[..i], ws) + (if ws[W[i]] == CONDITION then [W[i]] else [])
  {
    assert W[..i + 1] == W[..i] + [W[i]];
    WaitingAppend(W[..i], [W[i]], ws);
    assert [W[i]][1..] == [];
  }

  /** The nodes kept from `W[..i]` wait, and none of them is among `W[i..]`. */
  lemma KeptBefore(W: seq<nat>, ws: seq<int>, i: nat)
    requires Within(W, |ws|) && i <= |W| && Distinct(W)
    ensures var kept := Waiting(W[..i], ws);
      && Within(kept, |ws|)
      && (forall j :: 0 <= j < |kept| ==> ws[kept[j]] == CONDITION && kept[j] in W)
      && (forall j, m :: 0 <= j < |kept| && i <= m < |W| ==> kept[j] != W[m])
  {
    var kept := Waiting(W[..i], ws);
    WaitingFilters(W[..i], ws);
    WaitingWithin(W[..i], ws);
    forall j, m | 0 <= j < |kept| && i <= m < |W|
      ensures kept[j] != W[m]
    {
      assert kept[j] in kept;
      var a :| 0 <= a < i && W[..i][a] == kept[j];
      assert W[a] == kept[j];
    }
  }

  /**
   * A step of `unlinkCancelledWaiters` over a node in CONDITION, the first
   * of those not yet seen, `rest`: it joins the kept chain, and its own
   * `nextWaiter` leads on to the node after it.
   */
  lemma KeepStep(nw: seq<int>, kept: seq<nat>, rest: seq<nat>)
    requires rest != [] && Links(nw, kept, rest[0]) && Links(nw, rest, NIL)
    ensures nw[rest[0]] == (if |rest| > 1 then rest[1] else NIL)
    ensures Links(nw, kept + [rest[0]], nw[rest[0]]) && Links(nw, rest[1..], NIL)
  {
    var kept' := kept + [rest[0]];
    assert forall j :: 0 <= j < |kept| ==> kept'[j] == kept[j];
    assert forall m :: 0 <= m < |rest| - 1 ==> rest[1..][m] == rest[m + 1];
  }

  /**
   * A step of `unlinkCancelledWaiters` over a cancelled node, the first of
   * `rest`: its `nextWaiter` is cleared and the last kept node (or
   * `firstWaiter`, when none is kept) now leads to the node after it.
   */
  lemma DropStep(nw: seq<int>, kept: seq<nat>, rest: seq<nat>)
    requires rest != [] && Links(nw, kept, rest[0]) && Links(nw, rest, NIL)
    requires Distinct(kept) && Distinct(rest)
    requires forall j, m :: 0 <= j < |kept| && 0 <= m < |rest| ==> kept[j] != rest[m]
    ensures var next := nw[rest[0]];
      var nw' := if kept == [] then nw[rest[0] := NIL] else nw[rest[0] := NIL][kept[|kept| - 1] := next];
      && next == (if |rest| > 1 then rest[1] else NIL)
      && Links(nw', kept, next) && Links(nw', rest[1..], NIL)
      && nw'[rest[0]] == NIL
  {
    var next := nw[rest[0]];
    var nw' := if kept == [] then nw[rest[0] := NIL] else nw[rest[0] := NIL][kept[|kept| - 1] := next];
    assert forall j :: 0 <= j < |kept| - 1 ==> nw'[kept[j]] == nw[kept[j]] by {
      forall j | 0 <= j < |kept| - 1
        ensures nw'[kept[j]] == nw[kept[j]]
      {
        assert kept[j] != kept[|kept| - 1] && kept[j] != rest[0];
      }
    }
    assert forall m :: 0 < m < |rest| ==> nw'[rest[m]] == nw[rest[m]] by {
      forall m | 0 < m < |rest|
        ensures nw'[rest[m]] == nw[rest[m]]
      {
        assert rest[m] != rest[0];
        assert kept != [] ==> kept[|kept| - 1] != rest[m];
      }
    }
    assert forall m :: 0 <= m < |rest| - 1 ==> rest[1..][m] == rest[m + 1];
  }

  /**
   * Where `unlinkCancelledWaiters` stands after the nodes `W[..i]` of the
   * condition queue `W`: `t` is the next node to visit, the nodes kept so
   * far are chained from `first` to `trail` and lead on to `t`, the rest of
   * `W` is still chained as before, `last` moves only once the end is
   * reached, and only `nextWaiter`s of nodes of `W` have been written, those
   * of the cancelled nodes seen to NIL.
   */
  ghost predicate Scan(nw: seq<int>, nw0: seq<int>, W: seq<nat>, ws: seq<int>, i: int, t: int, trail: int, first: int, last: int)
  {
    && |nw| == |nw0| && Within(W, |ws|) && Within(W, |nw0|) && Distinct(W)
    && 0 <= i <= |W| && t == (if i < |W| then W[i] else NIL)
    && Kept(nw, W, ws, i, t, trail, first)
    && Links(nw, W[i..], NIL)
    && last == (if i < |W| then W[|W| - 1] else trail)
    && (forall n :: 0 <= n < |nw0| && n !in W ==> nw[n] == nw0[n])
    && (forall m :: 0 <= m < i && ws[W[m]] != CONDITION ==> nw[W[m]] == NIL)
  }

  /**
   * The nodes of `W[..i]` kept so far are chained from `first` to `trail`
   * and lead on to `t`; with none kept, `first` is `t` itself.
   */
  ghost predicate Kept(nw: seq<int>, W: seq<nat>, ws: seq<int>, i: int, t: int, trail: int, first: int)
    requires Within(W, |ws|) && 0 <= i <= |W|
  {
    var kept := Waiting(W[..i], ws);
    && Links(nw, kept, t)
    && (kept == [] ==> first == t && trail == NIL)
    && (kept != [] ==> first == kept[0] && trail == kept[|kept| - 1])
  }

  /** The node `t` that `unlinkCancelledWaiters` visits is the next of `W`, and `trail` a node of the arena. */
  lemma ScanAt(nw: seq<int>, nw0: seq<int>, W: seq<nat>, ws: seq<int>, i: int, t: int, trail: int, first: int, last: int)
    requires Scan(nw, nw0, W, ws, i, t, trail, first, last) && t != NIL
    ensures i < |W| && t == W[i] && t < |nw| && t < |ws| && (trail != NIL ==> 0 <= trail < |nw|)
  {
    KeptBefore(W, ws, i);
  }

  /** Visiting a node `t` in CONDITION keeps `Scan`, with `trail` moved to `t`. */
  lemma ScanKept(nw: seq<int>, nw0: seq<int>, W: seq<nat>, ws: seq<int>, i: int, t: int, trail: int, first: int, last: int, next: int)
    requires Scan(nw, nw0, W, ws, i, t, trail, first, last) && t != NIL && 0 <= t < |ws| && ws[t] == CONDITION
    requires 0 <= t < |nw| && next == nw[t]
    ensures Scan(nw, nw0, W, ws, i + 1, next, t, first, last)
  {
    var kept := Waiting(W[..i], ws);
    KeptBefore(W, ws, i);
    PrefixWaiting(W, ws, i);
    assert W[i..][0] == t && W[i + 1..] == W[i..][1..];
    KeepStep(nw, kept, W[i..]);
  }

  /**
   * Visiting a cancelled node `t` keeps `Scan` once `t.nextWaiter` is
   * cleared and the last kept node, or `firstWaiter`, is moved past `t`.
   */
  lemma ScanDropped(nw: seq<int>, nw0: seq<int>, W: seq<nat>, ws: seq<int>, i: int, t: int, trail: int, first: int, last: int,
                     next: int, nw': seq<int>, first': int, last': int)
    requires Scan(nw, nw0, W, ws, i, t, trail, first, last) && t != NIL && 0 <= t < |ws| && ws[t] != CONDITION
    requires 0 <= t < |nw| && (trail != NIL ==> 0 <= trail < |nw|) && next == nw[t]
    requires nw' == if trail == NIL then nw[t := NIL] else nw[t := NIL][trail := next]
    requires first' == (if trail == NIL then next else first) && last' == (if next == NIL then trail else last)
    ensures Scan(nw', nw0, W, ws, i + 1, next, trail, first', last')
  {
    DroppedKept(nw, W, ws, i, t, trail, first, next, nw', first');
    DropWrites(nw, nw0, nw', W, ws, i, t, trail, next);
  }

  /** The chain part of `ScanDropped`: the kept nodes now lead past the cancelled `t`. */
  lemma DroppedKept(nw: seq<int>, W: seq<nat>, ws: seq<int>, i: int, t: int, trail: int, first: int,
                    next: int, nw': seq<int>, first': int)
    requires Within(W, |ws|) && Within(W, |nw|) && Distinct(W) && 0 <= i < |W| && t == W[i] && ws[t] != CONDITION
    requires Kept(nw, W, ws, i, t, trail, first) && Links(nw, W[i..], NIL)
    requires (trail != NIL ==> 0 <= trail < |nw|) && next == nw[t]
    requires nw' == if trail == NIL then nw[t := NIL] else nw[t := NIL][trail := next]
    requires first' == (if trail == NIL then next else first)
    ensures i < |W| && next == (if i + 1 < |W| then W[i + 1] else NIL)
    ensures Kept(nw', W, ws, i + 1, next, trail, first') && Links(nw', W[i + 1..], NIL)
    ensures trail == NIL || (trail in W && trail < |ws| && ws[trail] == CONDITION)
  {
    var kept := Waiting(W[..i], ws);
    DroppedLinks(nw, W, ws, kept, i, t, trail, next, nw');
    KeptTrail(W, ws, i, kept, trail);
    SkipsCancelled(W, ws, i);
    assert (kept == [] ==> first' == next && trail == NIL) && (kept != [] ==> first' == kept[0] && trail == kept[|kept| - 1]);
    KeptFrom(nw', W, ws, i + 1, next, trail, first', kept);
  }

  /** The links part of `DroppedKept`. */
  lemma DroppedLinks(nw: seq<int>, W: seq<nat>, ws: seq<int>, kept: seq<nat>, i: int, t: int, trail: int, next: int, nw': seq<int>)
    requires Within(W, |ws|) && Within(W, |nw|) && Distinct(W) && 0 <= i < |W| && t == W[i]
    requires kept == Waiting(W[..i], ws) && Links(nw, kept, t) && Links(nw, W[i..], NIL)
    requires trail == (if kept == [] then NIL else kept[|kept| - 1])
    requires next == nw[t] && nw' == (if trail == NIL then nw[t := NIL] else nw[t := NIL][trail := next])
    ensures next == (if i + 1 < |W| then W[i + 1] else NIL) && Links(nw', kept, next) && Links(nw', W[i + 1..], NIL)
  {
    KeptBefore(W, ws, i);
    assert Distinct(kept) by {
      assert Distinct(W[..i]);
      WaitingDistinct(W[..i], ws);
    }
    DropChain(nw, W, kept, i, t, trail, next, nw');
  }

  /** The last node kept so far is a waiting node of `W`. */
  lemma KeptTrail(W: seq<nat>, ws: seq<int>, i: int, kept: seq<nat>, trail: int)
    requires Within(W, |ws|) && Distinct(W) && 0 <= i <= |W| && kept == Waiting(W[..i], ws)
    requires trail == (if kept == [] then NIL else kept[|kept| - 1])
    ensures trail == NIL || (trail in W && trail < |ws| && ws[trail] == CONDITION)
  {
    KeptBefore(W, ws, i);
  }

  /** A cancelled node adds nothing to the waiting nodes of a prefix. */
  lemma SkipsCancelled(W: seq<nat>, ws: seq<int>, i: int)
    requires Within(W, |ws|) && 0 <= i < |W| && ws[W[i]] != CONDITION
    ensures Waiting(W[..i + 1], ws) == Waiting(W[..i], ws)
  {
    PrefixWaiting(W, ws, i);
  }

  /** `Kept` spelled out for a known list `kept` of the nodes kept so far. */
  lemma KeptFrom(nw: seq<int>, W: seq<nat>, ws: seq<int>, i: int, t: int, trail: int, first: int, kept: seq<nat>)
    requires Within(W, |ws|) && 0 <= i <= |W| && kept == Waiting(W[..i], ws) && Links(nw, kept, t)
    requires (kept == [] ==> first == t && trail == NIL) && (kept != [] ==> first == kept[0] && trail == kept[|kept| - 1])
    ensures Kept(nw, W, ws, i, t, trail, first)
  {
  }

  /**
   * A step of `unlinkCancelledWaiters` over a cancelled `t = W[i]`, with
   * `kept` the nodes kept so far: the kept chain now leads past `t`, and
   * the rest of `W` is chained as before.
   */
  lemma DropChain(nw: seq<int>, W: seq<nat>, kept: seq<nat>, i: int, t: int, trail: int, next: int, nw': seq<int>)
    requires 0 <= i < |W| && t == W[i] && Within(W, |nw|)
    requires Links(nw, kept, t) && Links(nw, W[i..], NIL) && Distinct(kept) && Distinct(W)
    requires forall j, m :: 0 <= j < |kept| && i <= m < |W| ==> kept[j] != W[m]
    requires trail == (if kept == [] then NIL else kept[|kept| - 1])
    requires next == nw[t] && nw' == (if trail == NIL then nw[t := NIL] else nw[t := NIL][trail := next])
    ensures next == (if i + 1 < |W| then W[i + 1] else NIL)
    ensures Links(nw', kept, next) && Links(nw', W[i + 1..], NIL)
  {
    assert W[i..][0] == t && W[i + 1..] == W[i..][1..];
    assert Distinct(W[i..]);
    assert forall j, m :: 0 <= j < |kept| && 0 <= m < |W[i..]| ==> kept[j] != W[i..][m] by {
      assert forall m :: 0 <= m < |W[i..]| ==> W[i..][m] == W[i + m];
    }
    DropStep(nw, kept, W[i..]);
  }

  /**
   * The writes of a step of `unlinkCancelledWaiters` over a cancelled `t`
   * touch only nodes of `W`, and leave every cancelled node seen with a
   * cleared `nextWaiter`.
   */
  lemma DropWrites(nw: seq<int>, nw0: seq<int>, nw': seq<int>, W: seq<nat>, ws: seq<int>, i: int, t: int, trail: int, next: int)
    requires 0 <= i < |W| && t == W[i] && Within(W, |ws|) && Within(W, |nw|) && |nw| == |nw0|
    requires trail == NIL || (trail in W && 0 <= trail < |nw| && trail < |ws| && ws[trail] == CONDITION)
    requires nw' == if trail == NIL then nw[t := NIL] else nw[t := NIL][trail := next]
    requires forall n :: 0 <= n < |nw0| && n !in W ==> nw[n] == nw0[n]
    requires forall m :: 0 <= m < i && ws[W[m]] != CONDITION ==> nw[W[m]] == NIL
    ensures forall n :: 0 <= n < |nw0| && n !in W ==> nw'[n] == nw0[n]
    ensures forall m :: 0 <= m < i + 1 && ws[W[m]] != CONDITION ==> nw'[W[m]] == NIL
  {
  }

  /** When `unlinkCancelledWaiters` has visited every node, the kept ones form the condition queue. */
  lemma ScanDone(nw: seq<int>, nw0: seq<int>, W: seq<nat>, ws: seq<int>, i: int, trail: int, first: int, last: int)
    requires Scan(nw, nw0, W, ws, i, NIL, trail, first, last)
    ensures Chained(nw, Waiting(W, ws), first, last)
    ensures forall m :: 0 <= m < |W| && ws[W[m]] != CONDITION ==> nw[W[m]] == NIL
    ensures |nw| == |nw0| && forall n :: 0 <= n < |nw0| && n !in W ==> nw[n] == nw0[n]
  {
    assert W[..i] == W;
    WaitingDistinct(W, ws);
  }

  /** `unlinkCancelledWaiters` starts at `firstWaiter` with nothing kept and nothing written. */
  lemma ScanStarts(nw: seq<int>, W: seq<nat>, ws: seq<int>, first: int, last: int)
    requires Chained(nw, W, first, last) && |ws| == |nw|
    ensures Scan(nw, nw, W, ws, 0, first, NIL, first, last)
  {
    assert W[..0] == [] && W[0..] == W;
  }

  /** Scanning `W` from the front, `W[i]` is the first node in CONDITION exactly when it is in CONDITION. */
  lemma FirstWaitingAt(W: seq<nat>, ws0: seq<int>, i: nat)
    requires Within(W, |ws0|) && i < |W| && i <= FirstWaiting(W, ws0)
    ensures ws0[W[i]] == CONDITION ==> i == FirstWaiting(W, ws0)
    ensures ws0[W[i]] != CONDITION ==> i < FirstWaiting(W, ws0)
  {
  }

  /** When `doSignal` moves the node `W[k]`, the first in CONDITION, `Signalled` holds. */
  lemma SignalledMoved(W: seq<nat>, ws0: seq<int>, q0: seq<nat>, k: nat, w: seq<nat>, q: seq<nat>, ws: seq<int>)
    requires Within(W, |ws0|) && Distinct(W) && k == FirstWaiting(W, ws0) && k < |W| && w == W[k + 1..]
    requires |ws0| <= |ws| && |q| >= 2 && q[|q| - 1] == W[k] && ws[W[k]] == 0
    requires q0 != [] ==> q == q0 + [W[k]]
    requires forall n :: 0 <= n < |ws0| && n != W[k] ==> (ws[n] == CONDITION <==> ws0[n] == CONDITION)
    ensures Signalled(W, ws0, q0, w, q, ws)
  {
    assert forall m :: k < m < |W| ==> W[m] != W[k];
  }

  /**
   * Where `doSignalAll` stands before handing `W[i]` over: the nodes not
   * yet seen are still chained and keep their CONDITION status, and those
   * seen have been moved as `SignalledAll` says.
   */
  ghost predicate Draining(nw: seq<int>, ws: seq<int>, q: seq<nat>, W: seq<nat>, ws0: seq<int>, q0: seq<nat>, i: int)
  {
    && Within(W, |ws0|) && Distinct(W) && 0 <= i <= |W| && |ws0| <= |ws| && |ws| == |nw|
    && Links(nw, W[i..], NIL)
    && (forall m :: i <= m < |W| ==> (ws[W[m]] == CONDITION <==> ws0[W[m]] == CONDITION))
    && SignalledAll(W[..i], ws0, q0, q, ws)
  }

  /** `doSignalAll` starts with the whole condition queue `W` to hand over. */
  lemma DrainingStarts(nw: seq<int>, W: seq<nat>, ws0: seq<int>, q0: seq<nat>, first: int, last: int)
    requires Chained(nw, W, first, last) && Within(W, |ws0|) && |ws0| == |nw|
    ensures Draining(nw, ws0, q0, W, ws0, q0, 0)
  {
    assert W[..0] == [] && W[0..] == W;
  }

  /** The node `doSignalAll` hands over is in the arena, and so is the one after it. */
  lemma DrainingAt(nw: seq<int>, ws: seq<int>, q: seq<nat>, W: seq<nat>, ws0: seq<int>, q0: seq<nat>, i: int)
    requires Draining(nw, ws, q, W, ws0, q0, i) && i < |W|
    ensures W[i] < |nw| && nw[W[i]] == (if i + 1 < |W| then W[i + 1] else NIL)
  {
    assert W[i..][0] == W[i];
    if i + 1 < |W| {
      assert W[i..][1] == W[i + 1];
    }
  }

  /** Once every node has been handed over, `SignalledAll` holds of the whole queue. */
  lemma DrainingDone(nw: seq<int>, ws: seq<int>, q: seq<nat>, W: seq<nat>, ws0: seq<int>, q0: seq<nat>)
    requires Draining(nw, ws, q, W, ws0, q0, |W|)
    ensures SignalledAll(W, ws0, q0, q, ws)
  {
    assert W[..|W|] == W;
  }

  /**
   * One step of `doSignalAll`: clearing `W[i]`'s `nextWaiter` and handing
   * it to `transferForSignal` (from `ws`, `q` to `ws'`, `q'`) moves on to
   * `W[i + 1]`.
   */
  lemma DrainStep(W: seq<nat>, ws0: seq<int>, q0: seq<nat>, i: nat, nw: seq<int>, ws: seq<int>, q: seq<nat>,
                  nw': seq<int>, ws': seq<int>, q': seq<nat>)
    requires Draining(nw, ws, q, W, ws0, q0, i) && i < |W|
    requires |nw| <= |nw'| && W[i] < |nw| && nw'[..|nw|] == nw[W[i] := NIL]
    requires |ws| <= |ws'| && |ws'| == |nw'|
    requires ws[W[i]] != CONDITION ==> q' == q && ws' == ws
    requires ws[W[i]] == CONDITION ==> |q'| >= 2 && q'[|q'| - 1] == W[i] && ws'[W[i]] == 0
    requires ws[W[i]] == CONDITION && q != [] ==> q' == q + [W[i]]
    requires ws[W[i]] == CONDITION && q == [] ==> |q'| == 2
    requires forall n :: 0 <= n < |ws| && n != W[i] ==> (ws'[n] == CONDITION <==> ws[n] == CONDITION)
    ensures Draining(nw', ws', q', W, ws0, q0, i + 1)
  {
    assert forall m :: i < m < |W| ==> W[m] != W[i];
    DrainLinks(W, i, nw, nw');
    SignalAllStep(W, ws0, q0, i, q, ws, q', ws');
  }

  /** Clearing `W[i]`'s `nextWaiter`, and growing the arena, leaves `W[i + 1..]` chained. */
  lemma DrainLinks(W: seq<nat>, i: nat, nw: seq<int>, nw': seq<int>)
    requires Distinct(W) && i < |W| && Links(nw, W[i..], NIL)
    requires |nw| <= |nw'| && W[i] < |nw| && nw'[..|nw|] == nw[W[i] := NIL]
    ensures Links(nw', W[i + 1..], NIL)
  {
    var rest := W[i + 1..];
    assert forall m :: 0 <= m < |rest| ==> rest[m] == W[i + 1 + m] == W[i..][m + 1];
    assert Links(nw, rest, NIL);
    forall m | 0 <= m < |rest|
      ensures nw'[rest[m]] == nw[rest[m]]
    {
      assert rest[m] != W[i];
      assert nw'[..|nw|][rest[m]] == nw'[rest[m]];
    }
    LinksKept(nw, nw', rest, NIL);
  }

  /**
   * The sync queue after one more node is moved: `q` held `q0` and then
   * `moved` (after a fresh dummy head when `q0` was empty), and `q'`
   * appends `a` when it was `waiting`.
   */
  lemma MovedStep(q0: seq<nat>, moved: seq<nat>, q: seq<nat>, q': seq<nat>, a: nat, waiting: bool)
    requires (q0 != [] ==> q == q0 + moved) && (q0 == [] && moved == [] ==> q == [])
    requires q0 == [] && moved != [] ==> |q| >= 1 && q[1..] == moved
    requires waiting ==> |q'| >= 2 && q'[|q'| - 1] == a
    requires waiting && q != [] ==> q' == q + [a]
    requires waiting && q == [] ==> |q'| == 2
    requires !waiting ==> q' == q
    ensures var moved' := moved + (if waiting then [a] else []);
      && (q0 != [] ==> q' == q0 + moved')
      && (q0 == [] && moved' == [] ==> q' == [])
      && (q0 == [] && moved' != [] ==> |q'| >= 1 && q'[1..] == moved')
  {
    if waiting && q != [] {
      if q0 != [] {
        assert q' == q0 + (moved + [a]);
      } else {
        assert q'[1..] == q[1..] + [a];
      }
    } else if waiting {
      assert q'[1..] == [a];
    }
  }

  /** One step of `doSignalAll`: handing `W[i]` to `transferForSignal` extends what was moved by it when it waits. */
  lemma SignalAllStep(W: seq<nat>, ws0: seq<int>, q0: seq<nat>, i: nat, q: seq<nat>, ws: seq<int>, q': seq<nat>, ws': seq<int>)
    requires Within(W, |ws0|) && i < |W| && Within(W, |ws|) && |ws| <= |ws'|
    requires SignalledAll(W[..i], ws0, q0, q, ws)
    requires ws[W[i]] == CONDITION <==> ws0[W[i]] == CONDITION
    requires ws[W[i]] == CONDITION ==> |q'| >= 2 && q'[|q'| - 1] == W[i] && ws'[W[i]] == 0
    requires ws[W[i]] == CONDITION && q != [] ==> q' == q + [W[i]]
    requires ws[W[i]] == CONDITION && q == [] ==> |q'| == 2
    requires ws[W[i]] != CONDITION ==> q' == q && ws' == ws
    requires forall m :: 0 <= m < i ==> W[m] != W[i]
    requires forall n :: 0 <= n < |ws| && n != W[i] ==> (ws'[n] == CONDITION <==> ws[n] == CONDITION)
    ensures SignalledAll(W[..i + 1], ws0, q0, q', ws')
  {
    PrefixWaiting(W, ws0, i);
    MovedStep(q0, Waiting(W[..i], ws0), q, q', W[i], ws0[W[i]] == CONDITION);
    forall n | n in W[..i + 1]
      ensures n < |ws'| && ws'[n] != CONDITION
    {
      if n != W[i] {
        assert n in W[..i];
      }
    }
  }
}
