// java.util.concurrent.Semaphore: the permit count kept in the synchronizer's
// `int` state, and the public argument checks around it.  Each CAS retry loop
// is one atomic step here: with no competing thread the first CAS succeeds.
module SemaphoreModel {
  import opened Outcomes
  import opened JavaInts

  /** What a blocking acquire does on its first attempt. */
  datatype AcquireOutcome =
    | Acquired
    /** The permits are not there: the caller is queued and parks (not modelled). */
    | MustWait

  class Semaphore {
    /** The synchronizer state: the number of available permits (may be negative). */
    var permits: int
    /** Whether a `FairSync` was chosen at construction. */
    const fair: bool

    ghost predicate Valid()
      reads this
    {
      IsInt(permits)
    }

    /** `new Semaphore(permits, fair)`; `new Semaphore(permits)` is the `fair == false` case. */
    constructor (initial: int, fair: bool)
      requires IsInt(initial)
      ensures Valid() && permits == initial && this.fair == fair
    {
      permits := initial;
      this.fair := fair;
    }

    /**
     * `Sync.nonfairTryAcquireShared` exactly as written: the difference is
     * taken in 32-bit arithmetic, and a non-negative difference is stored.
     */
    method NonfairTryAcquireSharedAsWritten(acquires: int) returns (remaining: int)
      requires Valid() && 0 <= acquires <= INT_MAX
      modifies this
      ensures Valid()
      ensures remaining == Sub(old(permits), acquires)
      ensures remaining >= 0 ==> permits == remaining
      ensures remaining < 0 ==> permits == old(permits)
    {
      var available := permits;
      remaining := Sub(available, acquires);
      if remaining >= 0 {
        permits := remaining;
      }
    }

    /**
     * `Sync.nonfairTryAcquireShared` with the difference saturated instead of
     * wrapped: the acquire succeeds exactly when enough permits are there.
     */
    method NonfairTryAcquireShared(acquires: int) returns (remaining: int)
      requires Valid() && 0 <= acquires <= INT_MAX
      modifies this
      ensures Valid() && IsInt(remaining)
      ensures remaining >= 0 <==> old(permits) >= acquires
      ensures remaining >= 0 ==> remaining == old(permits) - acquires && permits == remaining
      ensures remaining < 0 ==> permits == old(permits)
    {
      var available := permits;
      remaining := if available - acquires < INT_MIN then INT_MIN else available - acquires;
      if remaining >= 0 {
        permits := remaining;
      }
    }

    /** `FairSync.tryAcquireShared`: gives way to queued threads, otherwise acquires like the nonfair one. */
    method FairTryAcquireShared(acquires: int, hasQueuedPredecessors: bool) returns (remaining: int)
      requires Valid() && 0 <= acquires <= INT_MAX
      modifies this
      ensures Valid()
      ensures hasQueuedPredecessors ==> remaining == -1 && permits == old(permits)
      ensures !hasQueuedPredecessors ==> (remaining >= 0 <==> old(permits) >= acquires)
      ensures !hasQueuedPredecessors && remaining >= 0 ==> permits == old(permits) - acquires
      ensures remaining < 0 ==> permits == old(permits)
    {
      if hasQueuedPredecessors {
        return -1;
      }
      remaining := NonfairTryAcquireShared(acquires);
    }

    /** `tryAcquireShared` of whichever synchronizer was chosen at construction. */
    method TryAcquireShared(acquires: int, hasQueuedPredecessors: bool) returns (remaining: int)
      requires Valid() && 0 <= acquires <= INT_MAX
      modifies this
      ensures Valid()
      ensures fair && hasQueuedPredecessors ==> remaining < 0
      ensures remaining >= 0 ==> old(permits) >= acquires && permits == old(permits) - acquires
      ensures remaining < 0 ==> permits == old(permits)
      ensures !(fair && hasQueuedPredecessors) && old(permits) >= acquires ==> remaining >= 0
    {
      if fair {
        remaining := FairTryAcquireShared(acquires, hasQueuedPredecessors);
      } else {
        remaining := NonfairTryAcquireShared(acquires);
      }
    }

    /**
     * `Sync.tryReleaseShared`: adds the permits, throwing `Error` when the
     * 32-bit sum wraps below the current count.
     */
    method TryReleaseShared(releases: int) returns (r: Result<bool>)
      requires Valid() && 0 <= releases <= INT_MAX
      modifies this
      ensures Valid()
      ensures r.Err? <==> old(permits) + releases > INT_MAX
      ensures r.Err? ==> r.error == CountExceeded && permits == old(permits)
      ensures r.Ok? ==> r.value && permits == old(permits) + releases
    {
      var current := permits;
      var next := Add(current, releases);
      if next < current {
        return Err(CountExceeded);
      }
      permits := next;
      return Ok(true);
    }

    /** `Sync.reducePermits`: subtracts, throwing `Error` when the 32-bit difference wraps above. */
    method SyncReducePermits(reductions: int) returns (st: Status)
      requires Valid() && 0 <= reductions <= INT_MAX
      modifies this
      ensures Valid()
      ensures st.Thrown? <==> old(permits) - reductions < INT_MIN
      ensures st.Thrown? ==> st.error == CountExceeded && permits == old(permits)
      ensures st.Done? ==> permits == old(permits) - reductions
    {
      var current := permits;
      var next := Sub(current, reductions);
      if next > current {
        return Thrown(CountExceeded);
      }
      permits := next;
      return Done;
    }

    /** `drainPermits`: takes every available permit. */
    method DrainPermits() returns (drained: int)
      requires Valid()
      modifies this
      ensures Valid()
      ensures drained == old(permits) && permits == 0
    {
      drained := permits;
      if drained != 0 {
        permits := 0;
      }
    }

    /** `availablePermits`. */
    function AvailablePermits(): (n: int)
      reads this
      requires Valid()
      ensures IsInt(n) && n == permits
    {
      permits
    }

    /** `tryAcquire()`: one permit, barging even on a fair semaphore. */
    method TryAcquire() returns (ok: bool)
      requires Valid()
      modifies this
      ensures Valid()
      ensures ok <==> old(permits) >= 1
      ensures ok ==> permits == old(permits) - 1
      ensures !ok ==> permits == old(permits)
    {
      var remaining := NonfairTryAcquireShared(1);
      ok := remaining >= 0;
    }

    /** `tryAcquire(int)`: rejects a negative count, then barges like `tryAcquire()`. */
    method TryAcquireN(n: int) returns (r: Result<bool>)
      requires Valid() && IsInt(n)
      modifies this
      ensures Valid()
      ensures r.Err? <==> n < 0
      ensures r.Err? ==> r.error == IllegalArgument && permits == old(permits)
      ensures r.Ok? ==> (r.value <==> old(permits) >= n)
      ensures r.Ok? && r.value ==> permits == old(permits) - n
      ensures r.Ok? && !r.value ==> permits == old(permits)
    {
      if n < 0 {
        return Err(IllegalArgument);
      }
      var remaining := NonfairTryAcquireShared(n);
      return Ok(remaining >= 0);
    }

    /**
     * `acquire(int)` up to its first attempt: rejects a negative count, then
     * either takes the permits or would queue and park.
     */
    method Acquire(n: int, hasQueuedPredecessors: bool) returns (r: Result<AcquireOutcome>)
      requires Valid() && IsInt(n)
      modifies this
      ensures Valid()
      ensures r.Err? <==> n < 0
      ensures r.Err? ==> r.error == IllegalArgument
      ensures r == Ok(Acquired) ==> permits == old(permits) - n
      ensures r != Ok(Acquired) ==> permits == old(permits)
      ensures r.Ok? && !(fair && hasQueuedPredecessors) ==> (r.value == Acquired <==> old(permits) >= n)
      ensures r.Ok? && fair && hasQueuedPredecessors ==> r.value == MustWait
    {
      if n < 0 {
        return Err(IllegalArgument);
      }
      var remaining := TryAcquireShared(n, hasQueuedPredecessors);
      return Ok(if remaining >= 0 then Acquired else MustWait);
    }

    /** `acquireUninterruptibly(int)`: the same checks and first attempt as `acquire(int)`. */
    method AcquireUninterruptibly(n: int, hasQueuedPredecessors: bool) returns (r: Result<AcquireOutcome>)
      requires Valid() && IsInt(n)
      modifies this
      ensures Valid()
      ensures r.Err? <==> n < 0
      ensures r.Err? ==> r.error == IllegalArgument
      ensures r == Ok(Acquired) ==> permits == old(permits) - n
      ensures r != Ok(Acquired) ==> permits == old(permits)
      ensures r.Ok? && !(fair && hasQueuedPredecessors) ==> (r.value == Acquired <==> old(permits) >= n)
    {
      r := Acquire(n, hasQueuedPredecessors);
    }

    /** `tryAcquire(int, long, TimeUnit)` up to its first attempt; the timed wait is not modelled. */
    method TryAcquireTimed(n: int, hasQueuedPredecessors: bool) returns (r: Result<bool>)
      requires Valid() && IsInt(n)
      modifies this
      ensures Valid()
      ensures r.Err? <==> n < 0
      ensures r.Err? ==> r.error == IllegalArgument
      ensures r.Ok? && r.value ==> permits == old(permits) - n
      ensures !(r.Ok? && r.value) ==> permits == old(permits)
      ensures r.Ok? && !(fair && hasQueuedPredecessors) ==> (r.value <==> old(permits) >= n)
    {
      if n < 0 {
        return Err(IllegalArgument);
      }
      var remaining := TryAcquireShared(n, hasQueuedPredecessors);
      return Ok(remaining >= 0);
    }

    /** `release(int)`: rejects a negative count, then returns the permits. */
    method Release(n: int) returns (st: Status)
      requires Valid() && IsInt(n)
      modifies this
      ensures Valid()
      ensures st.Thrown? <==> n < 0 || old(permits) + n > INT_MAX
      ensures n < 0 ==> st == Thrown(IllegalArgument)
      ensures n >= 0 && st.Thrown? ==> st.error == CountExceeded
      ensures st.Thrown? ==> permits == old(permits)
      ensures st.Done? ==> permits == old(permits) + n
    {
      if n < 0 {
        return Thrown(IllegalArgument);
      }
      var r := TryReleaseShared(n);
      return if r.Ok? then Done else Thrown(r.error);
    }

    /** `reducePermits(int)`: rejects a negative reduction, then shrinks the count. */
    method ReducePermits(reduction: int) returns (st: Status)
      requires Valid() && IsInt(reduction)
      modifies this
      ensures Valid()
      ensures st.Thrown? <==> reduction < 0 || old(permits) - reduction < INT_MIN
      ensures reduction < 0 ==> st == Thrown(IllegalArgument)
      ensures st.Thrown? ==> permits == old(permits)
      ensures st.Done? ==> permits == old(permits) - reduction
    {
      if reduction < 0 {
        return Thrown(IllegalArgument);
      }
      st := SyncReducePermits(reduction);
    }
  }

  /** With two permits, three `tryAcquire()` calls succeed, succeed, fail, and none are left. */
  method TwoPermitsThreeTries() returns (first: bool, second: bool, third: bool, left: int)
    ensures first && second && !third && left == 0
  {
    var s := new Semaphore(2, false);
    first := s.TryAcquire();
    second := s.TryAcquire();
    third := s.TryAcquire();
    left := s.AvailablePermits();
  }

  /** Acquiring `n` permits and releasing them again restores the count. */
  method AcquireThenRelease(initial: int, n: int) returns (acquired: bool, before: int, after: int)
    requires IsInt(initial) && IsInt(n)
    ensures before == initial
    ensures acquired <==> 0 <= n <= initial
    ensures after == before
  {
    var s := new Semaphore(initial, false);
    before := s.AvailablePermits();
    var r := s.TryAcquireN(n);
    acquired := r.Ok? && r.value;
    if acquired {
      var st := s.Release(n);
      assert st.Done?;
    }
    after := s.AvailablePermits();
  }

  /**
   * The wrap in `nonfairTryAcquireShared`: a semaphore created with
   * `Integer.MIN_VALUE` permits grants one permit and is left with
   * `Integer.MAX_VALUE`.
   */
  method MinPermitsAcquireAsWritten() returns (remaining: int, left: int)
    ensures remaining == INT_MAX && left == INT_MAX
  {
    var s := new Semaphore(INT_MIN, false);
    remaining := s.NonfairTryAcquireSharedAsWritten(1);
    left := s.AvailablePermits();
  }

  /** The corrected acquire refuses the same request and keeps the count. */
  method MinPermitsAcquire() returns (remaining: int, left: int)
    ensures remaining < 0 && left == INT_MIN
  {
    var s := new Semaphore(INT_MIN, false);
    remaining := s.NonfairTryAcquireShared(1);
    left := s.AvailablePermits();
  }
}
