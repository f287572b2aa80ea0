// java.util.concurrent.FutureTask: the run-state machine, the outcome it
// reports, and the Treiber stack of waiting threads.  Each CAS is one atomic
// step; parking, unparking and interrupts are recorded, not performed.
//
// Contracts write some predicates as `P(...) == true`: the comparison keeps
// the predicate as one fact rather than unfolded into its conjuncts, which
// keeps the proofs that carry it small.
module FutureTaskModel {
  import opened Outcomes

  const NEW: int := 0
  const COMPLETING: int := 1
  const NORMAL: int := 2
  const EXCEPTIONAL: int := 3
  const CANCELLED: int := 4
  const INTERRUPTING: int := 5
  const INTERRUPTED: int := 6

  predicate IsRunState(s: int)
  {
    NEW <= s <= INTERRUPTED
  }

  /** The states a task never leaves. */
  predicate IsTerminal(s: int)
  {
    s == NORMAL || s == EXCEPTIONAL || s == CANCELLED || s == INTERRUPTED
  }

  /** One documented transition, or none. */
  predicate Step(a: int, b: int)
  {
    || a == b
    || (a == NEW && (b == COMPLETING || b == CANCELLED || b == INTERRUPTING))
    || (a == COMPLETING && (b == NORMAL || b == EXCEPTIONAL))
    || (a == INTERRUPTING && b == INTERRUPTED)
  }

  /** Zero or more documented transitions. */
  predicate Reaches(a: int, b: int)
  {
    || Step(a, b)
    || (a == NEW && (b == NORMAL || b == EXCEPTIONAL || b == INTERRUPTED))
  }

  type ThreadId = nat

  datatype Throwable = Throwable(message: string)

  /** The `outcome` field: nothing yet, the callable's value, or what it threw. */
  datatype Outcome<V> = Unset | Value(value: V) | Failure(cause: Throwable)

  /** What a call to the callable does. */
  datatype CallResult<V> = Returns(value: V) | Throws(cause: Throwable)

  /** What `get()` ends with once the future is done. */
  datatype Got<V> =
    | Returned(value: V)
    | CancellationThrown
    | ExecutionThrown(cause: Throwable)

  /**
   * `report(s)`: the value of a normal completion, a `CancellationException`
   * for any cancelled state, and an `ExecutionException` wrapping the cause
   * of an exceptional one.
   */
  function Report<V>(s: int, x: Outcome<V>): (r: Got<V>)
    requires COMPLETING < s <= INTERRUPTED
    requires s == NORMAL ==> x.Value?
    requires s == EXCEPTIONAL ==> x.Failure?
    ensures r.Returned? <==> s == NORMAL
    ensures r.Returned? ==> x == Value(r.value)
    ensures r.CancellationThrown? <==> s == CANCELLED || s == INTERRUPTING || s == INTERRUPTED
    ensures r.ExecutionThrown? <==> s == EXCEPTIONAL
    ensures r.ExecutionThrown? ==> x == Failure(r.cause)
  {
    if s == NORMAL then Returned(x.value)
    else if s >= CANCELLED then CancellationThrown
    else ExecutionThrown(x.cause)
  }

  /** Keeps the nodes whose flag is set, in order. */
  function Kept<T>(nodes: seq<T>, live: seq<bool>): (r: seq<T>)
    requires |nodes| == |live|
    ensures |r| <= |nodes|
  {
    if nodes == [] then []
    else (if live[0] then [nodes[0]] else []) + Kept(nodes[1..], live[1..])
  }

  lemma {:induction false} KeptSnoc<T>(nodes: seq<T>, live: seq<bool>, n: T, l: bool)
    requires |nodes| == |live|
    ensures Kept(nodes + [n], live + [l]) == Kept(nodes, live) + (if l then [n] else [])
  {
    if nodes == [] {
      assert nodes + [n] == [n] && live + [l] == [l];
    } else {
      assert (nodes + [n])[1..] == nodes[1..] + [n];
      assert (live + [l])[1..] == live[1..] + [l];
      KeptSnoc(nodes[1..], live[1..], n, l);
    }
  }

  /** For each node, whether it still holds a thread. */
  ghost function LiveFlags(nodes: seq<WaitNode>): (r: seq<bool>)
    reads nodes
    ensures |r| == |nodes|
    ensures forall j :: 0 <= j < |nodes| ==> r[j] == nodes[j].thread.Some?
  {
    seq(|nodes|, j requires 0 <= j < |nodes| reads nodes => nodes[j].thread.Some?)
  }

  /** The flags of `nodes` are determined by the nodes' threads alone. */
  lemma LiveFlagsOf(nodes: seq<WaitNode>, live: seq<bool>)
    requires LiveMatches(nodes, live)
    ensures LiveFlags(nodes) == live
  {
    var r := LiveFlags(nodes);
    assert |r| == |live|;
    assert forall j :: 0 <= j < |r| ==> r[j] == live[j];
  }

  /** The threads of `ts` that are present, in order. */
  function Present(ts: seq<Option<ThreadId>>): (r: seq<ThreadId>)
    ensures |r| <= |ts|
    ensures forall t :: t in r <==> Some(t) in ts
  {
    if ts == [] then []
    else
      var init, last := ts[..|ts| - 1], ts[|ts| - 1];
      assert ts == init + [last];
      Present(init) + (if last.Some? then [last.value] else [])
  }

  /** `Present` over one more entry. */
  lemma PresentSnoc(ts: seq<Option<ThreadId>>, i: int)
    requires 0 <= i < |ts|
    ensures Present(ts[..i + 1]) == Present(ts[..i]) + (if ts[i].Some? then [ts[i].value] else [])
  {
    assert ts[..i + 1][..i] == ts[..i];
  }

  /** The `thread` field of each node, in order. */
  ghost function Threads(nodes: seq<WaitNode>): (r: seq<Option<ThreadId>>)
    reads nodes
    ensures |r| == |nodes|
    ensures forall j :: 0 <= j < |nodes| ==> r[j] == nodes[j].thread
  {
    seq(|nodes|, j requires 0 <= j < |nodes| reads nodes => nodes[j].thread)
  }

  /** No node occurs twice in `s`. */
  predicate Distinct<T(==)>(s: seq<T>)
  {
    forall j, k :: 0 <= j < k < |s| ==> s[j] != s[k]
  }

  /** Every node of `kept` is one of `nodes`. */
  predicate Among<T(==)>(kept: seq<T>, nodes: seq<T>)
  {
    forall j :: 0 <= j < |kept| ==> kept[j] in nodes
  }

  /** No node of `kept` is among the nodes of `nodes` from `i` on. */
  predicate Apart<T(==)>(kept: seq<T>, nodes: seq<T>, i: int)
  {
    forall j, k :: 0 <= j < |kept| && 0 <= i <= k < |nodes| ==> kept[j] != nodes[k]
  }

  /** A node of the stack of threads waiting in `get()`. */
  class WaitNode {
    var thread: Option<ThreadId>
    var next: WaitNode?

    constructor (t: ThreadId)
      ensures thread == Some(t) && next == null
    {
      thread := Some(t);
      next := null;
    }
  }

  /** `live` records which nodes of `nodes` still hold a thread. */
  ghost predicate LiveMatches(nodes: seq<WaitNode>, live: seq<bool>)
    reads nodes`thread
  {
    |live| == |nodes| && forall j :: 0 <= j < |nodes| ==> live[j] == nodes[j].thread.Some?
  }

  /** Every node of `s` still holds a thread. */
  ghost predicate AllLive(s: seq<WaitNode>)
    reads s`thread
  {
    forall j :: 0 <= j < |s| ==> s[j].thread.Some?
  }

  /** From index `i` on, each node of `s` links to the next, and the last one to `last`. */
  ghost predicate ChainedFrom(s: seq<WaitNode>, i: int, last: WaitNode?)
    reads s`next
  {
    && (forall j :: 0 <= i <= j < |s| - 1 ==> s[j].next == s[j + 1])
    && (0 <= i < |s| ==> s[|s| - 1].next == last)
  }

  /** The links of `nodes`, in order, from `top` to a null `next`. */
  ghost predicate Linked(top: WaitNode?, nodes: seq<WaitNode>)
    reads nodes`next
  {
    && (top == if nodes == [] then null else nodes[0])
    && (forall i :: 0 <= i < |nodes| - 1 ==> nodes[i].next == nodes[i + 1])
    && (nodes != [] ==> nodes[|nodes| - 1].next == null)
    && (forall i, j :: 0 <= i < j < |nodes| ==> nodes[i] != nodes[j])
  }

  class FutureTask<V> {
    var state: int
    var outcome: Outcome<V>
    /** `callable != null`; cleared when the future completes. */
    var hasCallable: bool
    /** `runner != null`: some thread is inside `run` or `runAndReset`. */
    var running: bool
    /** Top of the Treiber stack of waiters. */
    var waiters: WaitNode?
    /** Threads handed to `LockSupport.unpark`, in order. */
    var unparked: seq<ThreadId>
    /** Whether `cancel(true)` interrupted a runner. */
    var runnerInterrupted: bool
    ghost var waitList: seq<WaitNode>

    ghost predicate Valid()
      reads this, waitList
    {
      && IsRunState(state)
      && (state == NORMAL ==> outcome.Value?)
      && (state == EXCEPTIONAL ==> outcome.Failure?)
      && Linked(waiters, waitList)
    }

    constructor Init(hasCallable: bool)
      ensures Valid() && state == NEW && outcome == Unset
      ensures this.hasCallable == hasCallable && !running
      ensures waiters == null && waitList == [] && unparked == []
    {
      state := NEW;
      outcome := Unset;
      this.hasCallable := hasCallable;
      running := false;
      waiters := null;
      unparked := [];
      runnerInterrupted := false;
      waitList := [];
    }

    /** `new FutureTask(callable)`: a null callable is refused. */
    static method Create(callableIsNull: bool) returns (r: Result<FutureTask<V>>)
      ensures r.Err? <==> callableIsNull
      ensures r.Err? ==> r.error == NullPointer
      ensures r.Ok? ==> fresh(r.value) && r.value.Valid() && r.value.state == NEW && r.value.hasCallable
    {
      if callableIsNull {
        return Err(NullPointer);
      }
      var t := new FutureTask<V>.Init(true);
      return Ok(t);
    }

    /** `isCancelled()`. */
    predicate IsCancelled()
      reads this
      requires IsRunState(state)
      ensures IsCancelled() <==> state == CANCELLED || state == INTERRUPTING || state == INTERRUPTED
    {
      state >= CANCELLED
    }

    /** `isDone()`: any state reached by a transition out of `NEW`. */
    predicate IsDone()
      reads this
      requires IsRunState(state)
      ensures IsDone() <==> Reaches(NEW, state) && state != NEW
    {
      state != NEW
    }

    /**
     * `finishCompletion()`: detaches the waiter stack, clears and unparks
     * every waiting thread from the top down, and drops the callable.
     */
    method FinishCompletion()
      requires Valid()
      modifies this, waitList
      ensures Valid()
      ensures waiters == null && waitList == [] && !hasCallable
      ensures state == old(state) && outcome == old(outcome) && running == old(running)
      ensures runnerInterrupted == old(runnerInterrupted)
      ensures forall n :: n in old(waitList) ==> n.thread.None?
      ensures unparked == old(unparked) + Present(old(Threads(waitList)))
    {
      var q := waiters;
      ghost var nodes := waitList;
      ghost var ts := Threads(nodes);
      ghost var u0 := unparked;
      waiters := null;
      waitList := [];
      ghost var i := 0;
      assert ts[..0] == [];
      while q != null
        invariant Clearing(nodes, ts, u0, i, q) == true
        invariant waiters == null && waitList == []
        invariant state == old(state) && outcome == old(outcome) && running == old(running)
        invariant runnerInterrupted == old(runnerInterrupted) && hasCallable == old(hasCallable)
        decreases |nodes| - i
      {
        q := WakeNext(nodes, ts, u0, i, q);
        i := i + 1;
      }
      assert ts[..i] == ts;
      hasCallable := false;
    }

    /**
     * The state of the `finishCompletion` loop after `i` of the detached
     * nodes: those are cleared and their threads, `ts[..i]`, unparked; the
     * rest still hold their threads and `q` is the next of them.
     */
    ghost predicate Clearing(nodes: seq<WaitNode>, ts: seq<Option<ThreadId>>, u0: seq<ThreadId>,
                             i: int, q: WaitNode?)
      reads this, nodes
    {
      && |ts| == |nodes| && 0 <= i <= |nodes|
      && (q == if i < |nodes| then nodes[i] else null)
      && Distinct(nodes) && ChainedFrom(nodes, 0, null)
      && (forall j :: 0 <= j < i ==> nodes[j].thread.None?)
      && (forall j :: i <= j < |nodes| ==> nodes[j].thread == ts[j])
      && unparked == u0 + Present(ts[..i])
    }

    /** One iteration of `finishCompletion`: clear and unpark `q`'s thread, if any. */
    method WakeNext(ghost nodes: seq<WaitNode>, ghost ts: seq<Option<ThreadId>>, ghost u0: seq<ThreadId>,
                    ghost i: int, q: WaitNode) returns (next: WaitNode?)
      requires Clearing(nodes, ts, u0, i, q) == true
      modifies this`unparked, q`thread
      ensures Clearing(nodes, ts, u0, i + 1, next) == true
    {
      var t := q.thread;
      PresentSnoc(ts, i);
      if t.Some? {
        q.thread := None;
        unparked := unparked + [t.value];
      }
      next := q.next;
    }

    /** `set(v)`: from `NEW` only, through `COMPLETING` to `NORMAL`. */
    method Set(v: V)
      requires Valid()
      modifies this, waitList
      ensures Valid() && Reaches(old(state), state)
      ensures old(state) == NEW ==> state == NORMAL && outcome == Value(v) && waitList == []
      ensures old(state) == NEW ==> unparked == old(unparked) + Present(old(Threads(waitList)))
      ensures old(state) != NEW ==> unchanged(this) && unchanged(waitList)
    {
      if state == NEW {
        state := COMPLETING;
        outcome := Value(v);
        state := NORMAL;
        FinishCompletion();
      }
    }

    /** `setException(t)`: from `NEW` only, through `COMPLETING` to `EXCEPTIONAL`. */
    method SetException(t: Throwable)
      requires Valid()
      modifies this, waitList
      ensures Valid() && Reaches(old(state), state)
      ensures old(state) == NEW ==> state == EXCEPTIONAL && outcome == Failure(t) && waitList == []
      ensures old(state) == NEW ==> unparked == old(unparked) + Present(old(Threads(waitList)))
      ensures old(state) != NEW ==> unchanged(this) && unchanged(waitList)
    {
      if state == NEW {
        state := COMPLETING;
        outcome := Failure(t);
        state := EXCEPTIONAL;
        FinishCompletion();
      }
    }

    /**
     * `cancel(mayInterruptIfRunning)`: fails unless the future is `NEW`;
     * otherwise ends in `CANCELLED`, or passes through `INTERRUPTING` to
     * `INTERRUPTED` after interrupting a runner.
     */
    method Cancel(mayInterruptIfRunning: bool) returns (ok: bool)
      requires Valid()
      modifies this, waitList
      ensures Valid() && Reaches(old(state), state)
      ensures ok <==> old(state) == NEW
      ensures ok && mayInterruptIfRunning ==> state == INTERRUPTED && runnerInterrupted == (old(runnerInterrupted) || old(running))
      ensures ok && !mayInterruptIfRunning ==> state == CANCELLED
      ensures ok ==> outcome == old(outcome) && waitList == []
      ensures ok ==> unparked == old(unparked) + Present(old(Threads(waitList)))
      ensures !ok ==> unchanged(this) && unchanged(waitList)
    {
      if state != NEW {
        return false;
      }
      state := if mayInterruptIfRunning then INTERRUPTING else CANCELLED;
      if mayInterruptIfRunning {
        if running {
          runnerInterrupted := true;
        }
        state := INTERRUPTED;
      }
      FinishCompletion();
      return true;
    }

    /**
     * `run()`: a task that is `NEW` and not already running calls its
     * callable once and records the value or the exception.  A
     * `cancel(interrupt)` by another thread while the callable runs is
     * given as `cancelDuring`.
     */
    method Run(call: CallResult<V>, cancelDuring: Option<bool>)
      requires Valid() && !running
      modifies this, waitList
      ensures Valid() && Reaches(old(state), state) && !running
      ensures old(state) != NEW ==> unchanged(this) && unchanged(waitList)
      ensures old(state) == NEW && old(hasCallable) && cancelDuring.None? ==>
                (call.Returns? ==> state == NORMAL && outcome == Value(call.value))
                && (call.Throws? ==> state == EXCEPTIONAL && outcome == Failure(call.cause))
      ensures old(state) == NEW && cancelDuring.Some? ==> IsTerminal(state) && state >= CANCELLED
    {
      if state != NEW {
        return;
      }
      running := true;
      if hasCallable && state == NEW {
        if cancelDuring.Some? {
          var _ := Cancel(cancelDuring.value);
        }
        match call
        case Returns(v) => Set(v);
        case Throws(t) => SetException(t);
      } else if cancelDuring.Some? {
        var _ := Cancel(cancelDuring.value);
      }
      running := false;
    }

    /**
     * `runAndReset()`: runs the callable without recording its value, and
     * reports whether it ran cleanly with the future still `NEW`.
     */
    method RunAndReset(call: CallResult<V>, cancelDuring: Option<bool>) returns (ok: bool)
      requires Valid() && !running
      modifies this, waitList
      ensures Valid() && Reaches(old(state), state) && !running
      ensures ok <==> old(state) == NEW && old(hasCallable) && call.Returns? && cancelDuring.None?
      ensures old(state) != NEW ==> unchanged(this) && unchanged(waitList)
      ensures ok ==> state == NEW
      ensures old(state) == NEW && old(hasCallable) && call.Throws? && cancelDuring.None? ==>
                state == EXCEPTIONAL && outcome == Failure(call.cause)
    {
      if state != NEW {
        return false;
      }
      running := true;
      var ran := false;
      var s := state;
      if hasCallable && s == NEW {
        if cancelDuring.Some? {
          var _ := Cancel(cancelDuring.value);
        }
        match call
        case Returns(_) => ran := true;
        case Throws(t) => SetException(t);
      } else if cancelDuring.Some? {
        var _ := Cancel(cancelDuring.value);
      }
      running := false;
      s := state;
      ok := ran && s == NEW;
    }

    /** The step of `awaitDone` that pushes a new waiter for `t` onto the stack. */
    method PushWaiter(t: ThreadId) returns (q: WaitNode)
      requires Valid()
      modifies this
      ensures Valid() && fresh(q) && q.thread == Some(t)
      ensures waitList == [q] + old(waitList)
      ensures state == old(state) && outcome == old(outcome) && unparked == old(unparked)
    {
      q := new WaitNode(t);
      q.next := waiters;
      waiters := q;
      waitList := [q] + waitList;
    }

    /**
     * `removeWaiter(node)`: clears the node's thread, then unlinks every
     * node whose thread is null, keeping the others in order.
     */
    method RemoveWaiter(node: WaitNode?)
      requires Valid()
      modifies this`waiters, this`waitList, waitList, node
      ensures Valid()
      ensures node != null ==> node.thread.None?
      ensures node != null ==> waitList == Kept(old(waitList), LiveFlags(old(waitList)))
      ensures node == null ==> waitList == old(waitList)
      ensures node != null ==> forall n :: n in waitList ==> n.thread.Some?
      ensures node != null ==> forall n :: n in old(waitList) && n != node ==> n.thread == old(n.thread)
    {
      if node == null {
        return;
      }
      node.thread := None;
      UnlinkDeadWaiters();
    }

    /**
     * The state of the `removeWaiter` traversal after `i` nodes of `nodes`:
     * the surviving nodes seen so far are `kept`, chained from `waiters` and
     * ending at the cursor `q`; `pred` is the last survivor.
     */
    ghost predicate Unlinking(nodes: seq<WaitNode>, live: seq<bool>, i: int,
                              kept: seq<WaitNode>, pred: WaitNode?, q: WaitNode?)
      reads this, nodes, kept
    {
      && |live| == |nodes|
      && 0 <= i <= |nodes|
      && (q == if i < |nodes| then nodes[i] else null)
      && Distinct(nodes) && Distinct(kept) && Among(kept, nodes) && Apart(kept, nodes, i)
      && LiveMatches(nodes, live) && AllLive(kept)
      && ChainedFrom(nodes, i, null)
      && kept == Kept(nodes[..i], live[..i])
      && (pred == if kept == [] then null else kept[|kept| - 1])
      && (waiters == if kept == [] then q else kept[0])
      && ChainedFrom(kept, 0, q)
    }

    /** One iteration of the `removeWaiter` traversal, at node `q`. */
    method UnlinkStep(ghost nodes: seq<WaitNode>, ghost live: seq<bool>, ghost i: int,
                      ghost kept: seq<WaitNode>, pred: WaitNode?, q: WaitNode)
      returns (pred': WaitNode?, s: WaitNode?, ghost kept': seq<WaitNode>)
      requires Unlinking(nodes, live, i, kept, pred, q) == true
      modifies this`waiters, nodes`next
      ensures Unlinking(nodes, live, i + 1, kept', pred', s) == true
    {
      s := q.next;
      if q.thread.Some? {
        pred', kept' := q, kept + [q];
        KeepLive(nodes, live, i, kept, pred, q);
      } else if pred != null {
        pred', kept' := pred, kept;
        SpliceDead(nodes, live, i, kept, pred, q);
      } else {
        pred', kept' := pred, kept;
        PopDead(nodes, live, i, q);
      }
    }

    /** Kept nodes through index `i` are those before it, plus `nodes[i]` if it is live. */
    static lemma KeptThrough(nodes: seq<WaitNode>, live: seq<bool>, i: int)
      requires |live| == |nodes| && 0 <= i < |nodes|
      ensures Kept(nodes[..i + 1], live[..i + 1])
              == Kept(nodes[..i], live[..i]) + (if live[i] then [nodes[i]] else [])
    {
      KeptSnoc(nodes[..i], live[..i], nodes[i], live[i]);
      assert nodes[..i + 1] == nodes[..i] + [nodes[i]];
      assert live[..i + 1] == live[..i] + [live[i]];
    }

    /** A live node stays in the list and becomes the last survivor. */
    lemma KeepLive(nodes: seq<WaitNode>, live: seq<bool>, i: int,
                   kept: seq<WaitNode>, pred: WaitNode?, q: WaitNode)
      requires Unlinking(nodes, live, i, kept, pred, q) == true
      requires q.thread.Some?
      ensures Unlinking(nodes, live, i + 1, kept + [q], q, q.next) == true
    {
      KeptThrough(nodes, live, i);
      var k := kept + [q];
      assert q == nodes[i] && live[i];
      assert Distinct(k) by {
        forall j | 0 <= j < |kept| ensures kept[j] != q { }
      }
      assert Among(k, nodes);
      assert Apart(k, nodes, i + 1);
      assert AllLive(k);
      assert ChainedFrom(k, 0, q.next);
    }

    /** A dead node after a survivor `pred` is spliced out by relinking `pred`. */
    method SpliceDead(ghost nodes: seq<WaitNode>, ghost live: seq<bool>, ghost i: int,
                      ghost kept: seq<WaitNode>, pred: WaitNode, q: WaitNode)
      requires Unlinking(nodes, live, i, kept, pred, q) == true
      requires q.thread.None?
      modifies pred`next
      ensures Unlinking(nodes, live, i + 1, kept, pred, q.next) == true
    {
      KeptThrough(nodes, live, i);
      assert q == nodes[i] && !live[i] && kept != [];
      var s := q.next;
      ghost var last := |kept| - 1;
      assert forall k :: i <= k < |nodes| ==> nodes[k] != pred;
      pred.next := s;
      assert ChainedFrom(nodes, i + 1, null);
      assert forall j :: 0 <= j < last ==> kept[j] != pred;
      assert ChainedFrom(kept, 0, s);
    }

    /** A dead node at the top of the stack is popped by moving `waiters`. */
    method PopDead(ghost nodes: seq<WaitNode>, ghost live: seq<bool>, ghost i: int, q: WaitNode)
      requires Unlinking(nodes, live, i, [], null, q) == true
      requires q.thread.None?
      modifies this`waiters
      ensures Unlinking(nodes, live, i + 1, [], null, q.next) == true
    {
      KeptThrough(nodes, live, i);
      assert q == nodes[i] && !live[i];
      waiters := q.next;
    }

    /** The traversal of `removeWaiter`: splices out every node whose thread is null. */
    method UnlinkDeadWaiters()
      requires Valid()
      modifies this`waiters, this`waitList, waitList`next
      ensures Valid()
      ensures waitList == Kept(old(waitList), LiveFlags(old(waitList)))
      ensures forall n :: n in waitList ==> n.thread.Some?
    {
      ghost var nodes := waitList;
      ghost var live := LiveFlags(nodes);
      ghost var kept := SpliceOutDead(nodes, live);
      waitList := kept;
      LiveFlagsOf(nodes, live);
    }

    /** The loop of the traversal, over the nodes `nodes` linked from `waiters`. */
    method SpliceOutDead(ghost nodes: seq<WaitNode>, ghost live: seq<bool>) returns (ghost kept: seq<WaitNode>)
      requires Linked(waiters, nodes) && live == LiveFlags(nodes)
      modifies this`waiters, nodes`next
      ensures kept == Kept(nodes, live) && Linked(waiters, kept)
      ensures forall n :: n in kept ==> n.thread.Some?
    {
      kept := [];
      var pred: WaitNode? := null;
      var q := waiters;
      ghost var i := 0;
      UnlinkBegin(nodes);
      while q != null
        invariant Unlinking(nodes, live, i, kept, pred, q) == true
        decreases |nodes| - i
      {
        pred, q, kept := UnlinkStep(nodes, live, i, kept, pred, q);
        i := i + 1;
      }
      UnlinkedAll(nodes, live, i, kept, pred);
    }

    /** Before the first node, nothing is kept and the cursor is the top of the stack. */
    lemma UnlinkBegin(nodes: seq<WaitNode>)
      requires Linked(waiters, nodes)
      ensures Unlinking(nodes, LiveFlags(nodes), 0, [], null, waiters) == true
    {
      assert nodes[..0] == [];
    }

    /** At the end of the list, the kept nodes are the live ones, linked from `waiters`. */
    lemma UnlinkedAll(nodes: seq<WaitNode>, live: seq<bool>, i: int, kept: seq<WaitNode>, pred: WaitNode?)
      requires Unlinking(nodes, live, i, kept, pred, null) == true
      ensures kept == Kept(nodes, live) && Linked(waiters, kept)
      ensures forall n :: n in kept ==> n.thread.Some?
    {
      assert i == |nodes|;
      assert nodes[..i] == nodes && live[..i] == live;
    }
  }

  /** A terminal state admits no documented transition other than staying put. */
  lemma TerminalNeverLeft(a: int, b: int)
    requires IsTerminal(a) && Reaches(a, b)
    ensures b == a
  {
  }

  /** `Reaches` composes: a run of documented steps stays within the documented graph. */
  lemma ReachesTransitive(a: int, b: int, c: int)
    requires Reaches(a, b) && Reaches(b, c)
    ensures Reaches(a, c)
  {
  }

  /** `set(v)` followed by `get()`: the value comes back. */
  method SetThenGet<V>(v: V) returns (r: Got<V>)
    ensures r == Returned(v)
  {
    var t := new FutureTask<V>.Init(true);
    t.Set(v);
    r := Report(t.state, t.outcome);
  }

  /** A cancelled task ignores a later `set`, and `get()` throws `CancellationException`. */
  method CancelThenSet<V>(v: V, mayInterrupt: bool) returns (cancelled: bool, r: Got<V>)
    ensures cancelled && r == CancellationThrown
  {
    var t := new FutureTask<V>.Init(true);
    cancelled := t.Cancel(mayInterrupt);
    t.Set(v);
    r := Report(t.state, t.outcome);
  }

  /** Completing a future with two waiters unparks both, the later waiter first. */
  method SetWakesWaiters<V>(v: V) returns (woken: seq<ThreadId>)
    ensures woken == [2, 1]
  {
    var t := new FutureTask<V>.Init(true);
    var _ := t.PushWaiter(1);
    var _ := t.PushWaiter(2);
    ghost var ts := Threads(t.waitList);
    assert ts == [Some(2), Some(1)];
    assert ts[..1] == [Some(2)];
    t.Set(v);
    woken := t.unparked;
  }

  /** A completed task refuses `cancel`, and `get()` still returns the value. */
  method SetThenCancel<V>(v: V, mayInterrupt: bool) returns (cancelled: bool, r: Got<V>)
    ensures !cancelled && r == Returned(v)
  {
    var t := new FutureTask<V>.Init(true);
    t.Set(v);
    cancelled := t.Cancel(mayInterrupt);
    r := Report(t.state, t.outcome);
  }

  /** `setException(e)` followed by `get()`: an `ExecutionException` with cause `e`. */
  method FailThenGet<V>(e: Throwable) returns (r: Got<V>)
    ensures r == ExecutionThrown(e)
  {
    var t := new FutureTask<V>.Init(true);
    t.SetException(e);
    r := Report(t.state, t.outcome);
  }

  /** Unlinking the one dead node among three keeps the other two, in stack order. */
  lemma KeptDropsMiddle<T>(a: T, b: T, c: T)
    ensures Kept([a, b, c], [true, false, true]) == [a, c]
  {
    assert [a, b, c][1..] == [b, c] && [b, c][1..] == [c];
    assert [true, false, true][1..] == [false, true] && [false, true][1..] == [true];
    assert [c][1..] == [] && [true][1..] == [];
    assert Kept([c], [true]) == [c];
    assert Kept([b, c], [false, true]) == [c];
  }
}
