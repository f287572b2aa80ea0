// java.util.concurrent.locks.StampedLock: the 64-bit state word and the
// stamps derived from it.  The low seven bits count readers (saturating at
// RFULL, with the excess in `readerOverflow`), bit 7 is the write bit, and the
// bits from 7 up form the version that optimistic stamps are checked against.
// A `long` is modelled as an integer in [0, 2^64) with additions taken modulo
// 2^64, and each mask as the arithmetic it computes on such a value.
// Each CAS retry loop is one atomic step; queueing and parking are not modelled.
module StampedLockModel {
  import opened Outcomes

  const TWO_64: int := 0x1_0000_0000_0000_0000

  const LG_READERS: int := 7
  const RUNIT: int := 1
  /** `1L << LG_READERS` */
  const WBIT: int := 128
  /** `WBIT - 1L` */
  const RBITS: int := 127
  /** `RBITS - 1L` */
  const RFULL: int := 126
  /** `RBITS | WBIT` */
  const ABITS: int := 255
  /** `~RBITS`, read as an unsigned 64-bit value. */
  const SBITS: int := TWO_64 - 128
  /** `WBIT << 1` */
  const ORIGIN: int := 256

  /** A `long` read as an unsigned 64-bit value. */
  predicate IsWord(x: int)
  {
    0 <= x < TWO_64
  }

  /** 64-bit addition. */
  function Add(a: int, b: int): (r: int)
    requires IsWord(a) && 0 <= b < TWO_64
    ensures IsWord(r)
    ensures a + b < TWO_64 ==> r == a + b
    ensures a + b >= TWO_64 ==> r == a + b - TWO_64
  {
    (a + b) % TWO_64
  }

  /** `s & ABITS`: 0 when free, WBIT when written, else the reader bits. */
  function Mode(s: int): int
    requires IsWord(s)
  {
    s % 256
  }

  /** `s & RBITS`: the reader bits. */
  function Readers(s: int): int
    requires IsWord(s)
  {
    s % 128
  }

  /** `(s & WBIT) != 0`. */
  predicate WriteBit(s: int)
    requires IsWord(s)
  {
    s % 256 >= 128
  }

  /** `s & SBITS`: the version bits that optimistic stamps are compared on. */
  function Version(s: int): (v: int)
    requires IsWord(s)
    ensures IsWord(v) && v % 128 == 0
  {
    s - s % 128
  }

  /** Division by 128 with remainder, given the quotient and remainder. */
  lemma DivMod128(s: int, k: int, t: int)
    requires s == 128 * k + t && 0 <= t < 128
    ensures s / 128 == k && s % 128 == t
  {
  }

  /** Division by 256 with remainder, given the quotient and remainder. */
  lemma DivMod256(s: int, k: int, t: int)
    requires s == 256 * k + t && 0 <= t < 256
    ensures s / 256 == k && s % 256 == t
  {
  }

  /** The low seven bits of a mode: the mode less its write bit. */
  lemma LowSeven(m: int)
    requires 0 <= m < 256
    ensures m % 128 == m - (if m >= 128 then 128 else 0)
  {
    DivMod128(m, if m >= 128 then 1 else 0, m - (if m >= 128 then 128 else 0));
  }

  /** A word is its version plus its reader bits, and the reader bits are the mode's low seven bits. */
  lemma ModeParts(s: int)
    requires IsWord(s)
    ensures s == Version(s) + Readers(s)
    ensures Readers(s) == Mode(s) % 128
    ensures 0 <= Readers(s) < 128 && 0 <= Mode(s) < 256
  {
    var q, m := s / 256, s % 256;
    assert s == 256 * q + m && 0 <= m < 256;
    LowSeven(m);
    var h := if m >= 128 then 1 else 0;
    DivMod128(s, 2 * q + h, m % 128);
  }

  /** The version of a word keeps its write bit and clears its reader bits. */
  lemma VersionParts(s: int)
    requires IsWord(s)
    ensures Mode(Version(s)) == Mode(s) - Readers(s)
    ensures Version(Version(s)) == Version(s)
  {
    ModeParts(s);
    var q, m := s / 256, Mode(s);
    assert s == 256 * q + m;
    LowSeven(m);
    DivMod256(Version(s), q, m - Readers(s));
    DivMod128(Version(s), 2 * q + (if m >= 128 then 1 else 0), 0);
  }

  /**
   * Adding `d` to a word whose mode stays within [0, 256) changes only the
   * mode: the version is kept, and the reader bits follow the mode.
   */
  lemma ModeShift(s: int, d: int)
    requires IsWord(s) && 0 <= Mode(s) + d < 256
    ensures IsWord(s + d)
    ensures Mode(s + d) == Mode(s) + d
    ensures Readers(s + d) == (Mode(s) + d) % 128
    ensures WriteBit(s + d) <==> Mode(s) + d >= 128
    ensures Version(s + d) == Version(s) + (if Mode(s) + d >= 128 then 128 else 0) - (if Mode(s) >= 128 then 128 else 0)
  {
    var q, m := s / 256, Mode(s);
    assert s == 256 * q + m;
    assert q < 0x100_0000_0000_0000;
    DivMod256(s + d, q, m + d);
    ModeParts(s);
    ModeParts(s + d);
    LowSeven(m);
    LowSeven(m + d);
  }

  /**
   * The shapes the state word takes between atomic steps: never the transient
   * spin value RBITS, no readers while written, and a non-zero version.
   */
  predicate WellFormed(s: int)
  {
    && IsWord(s)
    && Mode(s) != RBITS
    && (WriteBit(s) ==> Readers(s) == 0)
    && Version(s) != 0
  }

  /** In a well-formed word the mode is the write bit alone, or a reader count below RBITS. */
  lemma WellFormedModes(s: int)
    requires WellFormed(s)
    ensures Mode(s) == WBIT || (0 <= Mode(s) < RBITS && Readers(s) == Mode(s))
  {
    ModeParts(s);
    LowSeven(Mode(s));
  }

  /** Releasing one of fewer than RFULL read holds keeps the word well formed and its version. */
  lemma ReleaseOneReader(s: int)
    requires WellFormed(s) && 0 < Mode(s) < RFULL
    ensures WellFormed(s - RUNIT) && Version(s - RUNIT) == Version(s)
    ensures Readers(s) == Mode(s) && Mode(s - RUNIT) == Readers(s - RUNIT) == Mode(s) - 1
  {
    WellFormedModes(s);
    ModeShift(s, -RUNIT);
    LowSeven(Mode(s) - 1);
  }

  /** A written word plus WBIT carries into the version: the mode becomes 0 and the version changes. */
  lemma WriteReleaseParts(s: int)
    requires IsWord(s) && Mode(s) == WBIT
    ensures Version(s) == s && Mode(Add(s, WBIT)) == 0 && Version(Add(s, WBIT)) == Add(s, WBIT)
    ensures WellFormed(ORIGIN) && Mode(ORIGIN) == 0 && Version(ORIGIN) == ORIGIN
  {
    var q := s / 256;
    assert s == 256 * q + 128;
    DivMod128(s, 2 * q + 1, 0);
    if s + WBIT < TWO_64 {
      DivMod256(s + WBIT, q + 1, 0);
      DivMod128(s + WBIT, 2 * q + 2, 0);
    }
    DivMod256(ORIGIN, 1, 0);
    DivMod128(ORIGIN, 2, 0);
  }

  /**
   * The state after a write lock is released: the write bit carries into the
   * version, and a version that would wrap to zero restarts at ORIGIN.
   */
  function ReleaseWrite(s: int): (r: int)
    requires IsWord(s) && Mode(s) == WBIT
    ensures WellFormed(r) && Mode(r) == 0
    ensures Version(r) != Version(s)
    ensures r == Add(s, WBIT) || (Add(s, WBIT) == 0 && r == ORIGIN)
  {
    WriteReleaseParts(s);
    if Add(s, WBIT) == 0 then ORIGIN else Add(s, WBIT)
  }

  /** `getReadLockCount(s)`: the reader bits, or RFULL plus the overflow count once saturated. */
  function ReadLockCount(s: int, readerOverflow: int): (n: int)
    requires WellFormed(s) && readerOverflow >= 0
    ensures Mode(s) == 0 || Mode(s) == WBIT ==> n == 0
    ensures 0 < Mode(s) < RFULL ==> n == Mode(s)
    ensures Mode(s) == RFULL ==> n == RFULL + readerOverflow
    ensures n >= 0
  {
    WellFormedModes(s);
    var readers := Readers(s);
    if readers >= RFULL then RFULL + readerOverflow else readers
  }

  /** `tryOptimisticRead()` as a function of the state word. */
  function OptimisticStamp(s: int): (stamp: int)
    requires WellFormed(s)
    ensures stamp == 0 <==> WriteBit(s)
    ensures !WriteBit(s) ==> stamp == Version(s) && Mode(stamp) == 0
  {
    WellFormedModes(s);
    VersionParts(s);
    if !WriteBit(s) then Version(s) else 0
  }

  /** `validate(stamp)` as a function of the state word. */
  predicate Validates(stamp: int, s: int)
    requires IsWord(stamp) && IsWord(s)
  {
    Version(stamp) == Version(s)
  }

  /** The zero stamp that signals failure never validates while the version is non-zero. */
  lemma ZeroStampNeverValidates(s: int)
    requires WellFormed(s)
    ensures !Validates(0, s)
  {
  }

  /**
   * A write lock taken and released after an optimistic read invalidates the
   * optimistic stamp, even across the 64-bit wrap.
   */
  lemma WriteCycleInvalidates(s: int)
    requires WellFormed(s) && Mode(s) == 0
    ensures OptimisticStamp(s) != 0
    ensures Mode(Add(s, WBIT)) == WBIT && WellFormed(Add(s, WBIT))
    ensures !Validates(OptimisticStamp(s), ReleaseWrite(Add(s, WBIT)))
  {
  }

  /** A stamp taken while no writer holds the lock validates exactly while the version is unchanged. */
  lemma OptimisticStampValidates(s: int, t: int)
    requires WellFormed(s) && !WriteBit(s) && IsWord(t)
    ensures Validates(OptimisticStamp(s), t) <==> Version(t) == Version(s)
  {
  }

  class StampedLock {
    var state: int
    /** Readers beyond RFULL. */
    var readerOverflow: int

    ghost predicate Valid()
      reads this
    {
      && WellFormed(state)
      && readerOverflow >= 0
      && (readerOverflow > 0 ==> Mode(state) == RFULL)
    }

    /** The number of read holds: `getReadLockCount(state)`. */
    function ReadHolds(): (n: int)
      reads this
      requires Valid()
      ensures n == ReadLockCount(state, readerOverflow)
    {
      ReadLockCount(state, readerOverflow)
    }

    constructor ()
      ensures Valid() && state == ORIGIN && readerOverflow == 0
    {
      state := ORIGIN;
      readerOverflow := 0;
    }

    /** `isWriteLocked()`. */
    predicate IsWriteLocked()
      reads this
      requires Valid()
      ensures IsWriteLocked() <==> Mode(state) == WBIT
    {
      WriteBit(state)
    }

    /** `isReadLocked()`. */
    predicate IsReadLocked()
      reads this
      requires Valid()
      ensures IsReadLocked() <==> ReadHolds() > 0
    {
      Readers(state) != 0
    }

    /** `tryOptimisticRead()`. */
    function TryOptimisticRead(): (stamp: int)
      reads this
      requires Valid()
      ensures IsWord(stamp)
      ensures stamp == 0 <==> IsWriteLocked()
      ensures stamp != 0 ==> Validates(stamp, state) && Mode(stamp) == 0
    {
      OptimisticStamp(state)
    }

    /** `validate(stamp)`. */
    predicate Validate(stamp: int)
      reads this
      requires Valid() && IsWord(stamp)
      ensures stamp == 0 ==> !Validate(stamp)
      ensures Validate(stamp) <==> Version(stamp) == Version(state)
    {
      ZeroStampNeverValidates(state);
      Validates(stamp, state)
    }

    /**
     * `tryIncReaderOverflow(s)`: at RFULL readers, briefly holds the spin value
     * RBITS, counts one more reader in `readerOverflow`, and restores `s`.
     */
    method TryIncReaderOverflow(s: int) returns (next: int)
      requires Valid() && s == state
      modifies this
      ensures Valid()
      ensures Mode(s) == RFULL ==> next == s && state == s && readerOverflow == old(readerOverflow) + 1
      ensures Mode(s) == RFULL ==> ReadHolds() == old(ReadHolds()) + 1
      ensures Mode(s) != RFULL ==> next == 0 && state == s && readerOverflow == old(readerOverflow)
    {
      if Mode(s) == RFULL {
        state := s + 1;  // s | RBITS
        readerOverflow := readerOverflow + 1;
        state := s;
        return s;
      }
      return 0;
    }

    /**
     * `tryDecReaderOverflow(s)`: at RFULL readers, drops one reader from
     * `readerOverflow`, or from the reader bits once the overflow is zero.
     */
    method TryDecReaderOverflow(s: int) returns (next: int)
      requires Valid() && s == state
      modifies this
      ensures Valid()
      ensures Mode(s) == RFULL ==> next == state && next != 0 && ReadHolds() == old(ReadHolds()) - 1
      ensures Mode(s) == RFULL && old(readerOverflow) > 0 ==> state == s && readerOverflow == old(readerOverflow) - 1
      ensures Mode(s) == RFULL && old(readerOverflow) == 0 ==> state == s - RUNIT && readerOverflow == 0
      ensures Mode(s) != RFULL ==> next == 0 && state == s && readerOverflow == old(readerOverflow)
      ensures Version(state) == Version(s)
    {
      if Mode(s) == RFULL {
        state := s + 1;  // s | RBITS
        var r := readerOverflow;
        ModeShift(s, -RUNIT);
        if r > 0 {
          readerOverflow := r - 1;
          next := s;
        } else {
          next := s - RUNIT;
        }
        state := next;
        return next;
      }
      return 0;
    }

    /** `tryWriteLock()`: succeeds only on a free lock. */
    method TryWriteLock() returns (stamp: int)
      requires Valid()
      modifies this
      ensures Valid() && readerOverflow == old(readerOverflow)
      ensures Mode(old(state)) == 0 ==> stamp == old(state) + WBIT && state == stamp && stamp != 0 && IsWriteLocked()
      ensures Mode(old(state)) == 0 ==> Version(stamp) == Version(old(state)) + WBIT
      ensures Mode(old(state)) != 0 ==> stamp == 0 && state == old(state)
    {
      var s := state;
      if Mode(s) == 0 {
        ModeShift(s, WBIT);
        state := s + WBIT;
        return state;
      }
      return 0;
    }

    /** `tryReadLock()`: fails only when write-locked, otherwise adds one reader. */
    method TryReadLock() returns (stamp: int)
      requires Valid()
      modifies this
      ensures Valid()
      ensures stamp == 0 <==> old(IsWriteLocked())
      ensures stamp == 0 ==> state == old(state) && readerOverflow == old(readerOverflow)
      ensures stamp != 0 ==> stamp == state && ReadHolds() == old(ReadHolds()) + 1
      ensures stamp != 0 ==> Version(state) == Version(old(state)) && !IsWriteLocked()
    {
      var s := state;
      var m := Mode(s);
      if m == WBIT {
        return 0;
      } else if m < RFULL {
        ModeShift(s, RUNIT);
        state := s + RUNIT;
        return state;
      } else {
        stamp := TryIncReaderOverflow(s);
      }
    }

    /**
     * `unlockWrite(stamp)`: the stamp must be the current, write-locked state;
     * the release advances the version.
     */
    method UnlockWrite(stamp: int) returns (st: Status)
      requires Valid() && IsWord(stamp)
      modifies this
      ensures Valid() && readerOverflow == old(readerOverflow)
      ensures st.Thrown? <==> old(state) != stamp || !WriteBit(stamp)
      ensures st.Thrown? ==> st.error == IllegalMonitorState && state == old(state)
      ensures st.Done? ==> state == ReleaseWrite(stamp) && Mode(state) == 0
      ensures st.Done? ==> Version(state) != Version(old(state))
    {
      if state != stamp || !WriteBit(stamp) {
        return Thrown(IllegalMonitorState);
      }
      state := ReleaseWrite(stamp);
      return Done;
    }

    /**
     * `unlockRead(stamp)`: the stamp must carry the current version and a
     * read mode, and the lock must be read-held; one reader is removed.
     */
    method UnlockRead(stamp: int) returns (st: Status)
      requires Valid() && IsWord(stamp)
      modifies this
      ensures Valid()
      ensures st.Thrown? <==> Version(old(state)) != Version(stamp) || Mode(stamp) == 0
                               || Mode(old(state)) == 0 || Mode(old(state)) == WBIT
      ensures st.Thrown? ==> st.error == IllegalMonitorState
      ensures st.Thrown? ==> state == old(state) && readerOverflow == old(readerOverflow)
      ensures st.Done? ==> ReadHolds() == old(ReadHolds()) - 1 && Version(state) == Version(old(state))
    {
      var s := state;
      var m := Mode(s);
      if Version(s) != Version(stamp) || Mode(stamp) == 0 || m == 0 || m == WBIT {
        return Thrown(IllegalMonitorState);
      }
      ReleaseRead(s);
      return Done;
    }

    /** The release step of `unlockRead`, once the stamp and state have been checked. */
    method ReleaseRead(s: int)
      requires Valid() && s == state && Mode(s) != 0 && Mode(s) != WBIT
      modifies this
      ensures Valid()
      ensures ReadHolds() == old(ReadHolds()) - 1 && Version(state) == Version(s)
    {
      if Mode(s) < RFULL {
        ReleaseOneReader(s);
        assert ReadLockCount(s - RUNIT, readerOverflow) == ReadLockCount(s, readerOverflow) - 1;
        state := s - RUNIT;
      } else {
        var _ := TryDecReaderOverflow(s);
      }
    }

    /** `unlock(stamp)`: releases whichever mode the stamp holds. */
    method Unlock(stamp: int) returns (st: Status)
      requires Valid() && IsWord(stamp)
      modifies this
      ensures Valid()
      ensures st.Thrown? <==>
                || Version(old(state)) != Version(stamp)
                || Mode(old(state)) == 0
                || (Mode(old(state)) == WBIT && Mode(stamp) != WBIT)
                || (Mode(old(state)) != WBIT && (Mode(stamp) == 0 || Mode(stamp) >= WBIT))
      ensures st.Thrown? ==> st.error == IllegalMonitorState
      ensures st.Thrown? ==> state == old(state) && readerOverflow == old(readerOverflow)
      ensures st.Done? && Mode(old(state)) == WBIT ==> state == ReleaseWrite(old(state))
      ensures st.Done? && Mode(old(state)) != WBIT ==> ReadHolds() == old(ReadHolds()) - 1
    {
      var a := Mode(stamp);
      var s := state;
      ModeParts(s);
      ModeParts(stamp);
      if Version(s) != Version(stamp) {
        return Thrown(IllegalMonitorState);
      }
      var m := Mode(s);
      if m == 0 {
        return Thrown(IllegalMonitorState);
      } else if m == WBIT {
        if a != m {
          return Thrown(IllegalMonitorState);
        }
        state := ReleaseWrite(s);
        return Done;
      } else if a == 0 || a >= WBIT {
        return Thrown(IllegalMonitorState);
      } else if m < RFULL {
        ModeShift(s, -RUNIT);
        state := s - RUNIT;
        return Done;
      } else {
        var _ := TryDecReaderOverflow(s);
        return Done;
      }
    }

    /**
     * `tryConvertToWriteLock(stamp)`: a write stamp is returned as is, a
     * sole reader is upgraded, an optimistic stamp on a free lock takes the
     * write lock; anything else yields 0.
     */
    method TryConvertToWriteLock(stamp: int) returns (next: int)
      requires Valid() && IsWord(stamp)
      modifies this
      ensures Valid() && readerOverflow == old(readerOverflow)
      ensures Version(old(state)) != Version(stamp) ==> next == 0
      ensures next == 0 ==> state == old(state)
      ensures next != 0 ==> state == next && IsWriteLocked()
      ensures Version(old(state)) == Version(stamp) ==>
                && (Mode(old(state)) == 0 ==> next == (if Mode(stamp) == 0 then old(state) + WBIT else 0))
                && (Mode(old(state)) == WBIT ==> next == (if Mode(stamp) == WBIT then stamp else 0))
                && (Mode(old(state)) == RUNIT ==> next == (if Mode(stamp) != 0 then old(state) - RUNIT + WBIT else 0))
                && (RUNIT < Mode(old(state)) < WBIT ==> next == 0)
    {
      var a := Mode(stamp);
      var s := state;
      ModeParts(s);
      ModeParts(stamp);
      if Version(s) != Version(stamp) {
        return 0;
      }
      var m := Mode(s);
      if m == 0 {
        if a != 0 {
          return 0;
        }
        ModeShift(s, WBIT);
        state := s + WBIT;
        return state;
      } else if m == WBIT {
        if a != m {
          return 0;
        }
        assert stamp == s;
        return stamp;
      } else if m == RUNIT && a != 0 {
        ModeShift(s, WBIT - RUNIT);
        state := s - RUNIT + WBIT;
        return state;
      } else {
        return 0;
      }
    }

    /**
     * `tryConvertToReadLock(stamp)` as written: a write stamp is downgraded
     * by adding `WBIT + RUNIT` to the state, with no guard against the
     * version wrapping to zero.  The `tryIncReaderOverflow` branch of the
     * free-lock case cannot be taken (the mode there is 0) and is omitted.
     * The result need not be well formed, so only the write case is stated.
     */
    method TryConvertToReadLockAsWritten(stamp: int) returns (next: int)
      requires Valid() && IsWord(stamp)
      modifies this
      ensures readerOverflow == old(readerOverflow) && IsWord(state)
      ensures next == 0 ==> state == old(state)
      ensures Version(old(state)) == Version(stamp) && Mode(old(state)) == WBIT && Mode(stamp) == WBIT ==>
                next == Add(old(state), WBIT + RUNIT) && state == next
    {
      var a := Mode(stamp);
      var s := state;
      ModeParts(s);
      ModeParts(stamp);
      if Version(s) != Version(stamp) {
        return 0;
      }
      var m := Mode(s);
      if m == 0 {
        if a != 0 {
          return 0;
        }
        ModeShift(s, RUNIT);
        state := s + RUNIT;
        return state;
      } else if m == WBIT {
        if a != m {
          return 0;
        }
        state := Add(s, WBIT + RUNIT);
        return state;
      } else if a != 0 && a < WBIT {
        return stamp;
      } else {
        return 0;
      }
    }

    /**
     * `tryConvertToReadLock(stamp)` with the downgrade releasing the write
     * lock as `unlockWrite` does (restarting a wrapped version at ORIGIN)
     * before adding the reader.
     */
    method TryConvertToReadLock(stamp: int) returns (next: int)
      requires Valid() && IsWord(stamp)
      modifies this
      ensures Valid() && readerOverflow == old(readerOverflow)
      ensures Version(old(state)) != Version(stamp) ==> next == 0
      ensures next == 0 ==> state == old(state)
      ensures next != 0 ==> IsWord(next) && Validates(next, state) && ReadHolds() >= 1 && !IsWriteLocked()
      ensures Version(old(state)) == Version(stamp) ==>
                && (Mode(old(state)) == 0 ==> next == (if Mode(stamp) == 0 then old(state) + RUNIT else 0))
                && (Mode(old(state)) == WBIT ==> next == (if Mode(stamp) == WBIT then ReleaseWrite(old(state)) + RUNIT else 0))
                && (0 < Mode(old(state)) < WBIT ==> next == (if 0 < Mode(stamp) < WBIT then stamp else 0))
      ensures next != 0 && (Mode(old(state)) == 0 || Mode(old(state)) == WBIT) ==> state == next
      ensures next != 0 && 0 < Mode(old(state)) < WBIT ==> state == old(state)
    {
      var a := Mode(stamp);
      var s := state;
      ModeParts(s);
      ModeParts(stamp);
      if Version(s) != Version(stamp) {
        return 0;
      }
      var m := Mode(s);
      if m == 0 {
        if a != 0 {
          return 0;
        }
        next := AddFirstReader(s);
      } else if m == WBIT {
        if a != m {
          return 0;
        }
        next := AddFirstReader(ReleaseWrite(s));
      } else if a != 0 && a < WBIT {
        return stamp;
      } else {
        return 0;
      }
    }

    /**
     * `tryConvertToOptimisticRead(stamp)`: releases whatever the stamp holds
     * and returns a version-only stamp; 0 when the stamp does not match.
     */
    method TryConvertToOptimisticRead(stamp: int) returns (next: int)
      requires Valid() && IsWord(stamp)
      modifies this
      ensures Valid() && IsWord(next)
      ensures Version(old(state)) != Version(stamp) ==> next == 0
      ensures next == 0 ==> state == old(state) && readerOverflow == old(readerOverflow)
      ensures next != 0 ==> Mode(next) == 0 && Validates(next, state) && !IsWriteLocked()
      ensures Version(old(state)) == Version(stamp) && Mode(old(state)) == 0 ==>
                next == (if Mode(stamp) == 0 then old(state) else 0)
      ensures Version(old(state)) == Version(stamp) && Mode(old(state)) == WBIT ==>
                next == (if Mode(stamp) == WBIT then ReleaseWrite(old(state)) else 0)
      ensures Version(old(state)) == Version(stamp) && 0 < Mode(old(state)) < WBIT ==>
                (next != 0 <==> 0 < Mode(stamp) < WBIT)
      ensures next != 0 && 0 < Mode(old(state)) < WBIT ==> ReadHolds() == old(ReadHolds()) - 1
      ensures next != 0 && Mode(old(state)) == 0 ==> state == old(state) && readerOverflow == old(readerOverflow)
      ensures next != 0 && Mode(old(state)) == WBIT ==> state == ReleaseWrite(old(state)) && readerOverflow == old(readerOverflow)
      ensures next != 0 && 0 < Mode(old(state)) < RFULL ==> state == old(state) - RUNIT && readerOverflow == old(readerOverflow)
    {
      var a := Mode(stamp);
      var s := state;
      ModeParts(s);
      ModeParts(stamp);
      if Version(s) != Version(stamp) {
        return 0;
      }
      var m := Mode(s);
      if m == 0 {
        if a != 0 {
          return 0;
        }
        return s;
      } else if m == WBIT {
        if a != m {
          return 0;
        }
        next := ReleaseWriteToOptimistic(s);
      } else if a == 0 || a >= WBIT {
        return 0;
      } else {
        next := ReleaseReadToOptimistic(s);
      }
    }

    /** Sets the state to `base` with one reader added, as a read stamp. */
    method AddFirstReader(base: int) returns (next: int)
      requires Valid() && readerOverflow == 0 && WellFormed(base) && Mode(base) == 0
      modifies this
      ensures state == base + RUNIT && readerOverflow == 0 && next == state
      ensures Valid() && next != 0 && IsWord(next) && Validates(next, state)
      ensures ReadHolds() == 1 && !IsWriteLocked()
    {
      ModeShift(base, RUNIT);
      state := base + RUNIT;
      return state;
    }

    /** Releases the write lock and returns the new state as a version-only stamp. */
    method ReleaseWriteToOptimistic(s: int) returns (next: int)
      requires Valid() && s == state && Mode(s) == WBIT
      modifies this
      ensures state == ReleaseWrite(s) && readerOverflow == old(readerOverflow) && next == state
      ensures Valid() && next != 0 && IsWord(next) && Mode(next) == 0
      ensures Validates(next, state) && !IsWriteLocked()
    {
      state := ReleaseWrite(s);
      assert Valid();
      return state;
    }

    /** Drops one read hold and returns the version of the new state as a stamp. */
    method ReleaseReadToOptimistic(s: int) returns (next: int)
      requires Valid() && s == state && 0 < Mode(s) < WBIT
      modifies this
      ensures Valid() && next != 0 && IsWord(next) && Mode(next) == 0
      ensures Validates(next, state) && !IsWriteLocked()
      ensures ReadHolds() == old(ReadHolds()) - 1
      ensures Mode(s) < RFULL ==> state == s - RUNIT && readerOverflow == old(readerOverflow)
    {
      if Mode(s) < RFULL {
        ModeShift(s, -RUNIT);
        state := s - RUNIT;
        assert Valid();
        VersionParts(state);
        return Version(state);
      } else {
        next := TryDecReaderOverflow(s);
        VersionParts(next);
        return Version(next);
      }
    }

    /** `tryUnlockWrite()`: releases a held write lock without a stamp. */
    method TryUnlockWrite() returns (released: bool)
      requires Valid()
      modifies this
      ensures Valid() && readerOverflow == old(readerOverflow)
      ensures released <==> old(IsWriteLocked())
      ensures released ==> state == ReleaseWrite(old(state))
      ensures !released ==> state == old(state)
    {
      var s := state;
      if WriteBit(s) {
        state := ReleaseWrite(s);
        return true;
      }
      return false;
    }

    /** `tryUnlockRead()`: releases one read hold without a stamp. */
    method TryUnlockRead() returns (released: bool)
      requires Valid()
      modifies this
      ensures Valid()
      ensures released <==> old(IsReadLocked())
      ensures released ==> ReadHolds() == old(ReadHolds()) - 1 && Version(state) == Version(old(state))
      ensures !released ==> state == old(state) && readerOverflow == old(readerOverflow)
    {
      var s := state;
      var m := Mode(s);
      if m != 0 && m < WBIT {
        if m < RFULL {
          ModeShift(s, -RUNIT);
          state := s - RUNIT;
        } else {
          var _ := TryDecReaderOverflow(s);
        }
        return true;
      }
      return false;
    }
  }

  /** A fresh lock: an optimistic stamp validates until a write lock comes and goes. */
  method OptimisticReadThenWrite() returns (stamp: int, before: bool, after: bool)
    ensures stamp != 0 && before && !after
  {
    var l := new StampedLock();
    stamp := l.TryOptimisticRead();
    before := l.Validate(stamp);
    var w := l.TryWriteLock();
    var _ := l.UnlockWrite(w);
    after := l.Validate(stamp);
  }

  /** The last write-locked state before the version wraps: all version bits set. */
  const LAST_WRITE_STATE: int := TWO_64 - WBIT

  /**
   * The missing wrap guard in `tryConvertToReadLock`: from the last version
   * before the wrap, a downgrade leaves version 0; once the reader leaves
   * (the checks of `unlockRead` pass and one reader is subtracted), the state
   * is 0, `tryOptimisticRead()` hands out the failure stamp 0, and
   * `validate(0)` holds.
   */
  method DowngradeAtWrapAsWritten() returns (opt: int, zeroValidates: bool)
    ensures opt == 0 && zeroValidates
  {
    var l := new StampedLock();
    // The state reached after 2^56 - 2 write lock/unlock cycles from ORIGIN, write-locked once more.
    l.state := LAST_WRITE_STATE;
    var r := l.TryConvertToReadLockAsWritten(LAST_WRITE_STATE);
    assert r == 1 && l.state == 1;
    var s := l.state;
    assert Version(s) == Version(r) && Mode(r) != 0 && Mode(s) == RUNIT;
    l.state := s - RUNIT;
    opt := if !WriteBit(l.state) then Version(l.state) else 0;
    zeroValidates := Validates(0, l.state);
  }

  /** The corrected downgrade at the same point keeps a non-zero version. */
  method DowngradeAtWrap() returns (r: int, version: int, zeroValidates: bool)
    ensures r == ORIGIN + RUNIT && version == ORIGIN && !zeroValidates
  {
    var l := new StampedLock();
    l.state := LAST_WRITE_STATE;
    r := l.TryConvertToReadLock(LAST_WRITE_STATE);
    version := Version(l.state);
    zeroValidates := l.Validate(0);
  }
}
