# A verified model of ten JDK 8 classes

This project models, in Dafny, the sequential core of ten classes of the JDK 8
library and proves what their documentation and assertions promise.

- `java.util.TimSort` is modelled in `timsort_spec.dfy` (`SortSpec`), `timsort_runs.dfy` (`TimSortRuns`), `merge_steps.dfy` (`MergeSteps`), `pending_runs.dfy` (`PendingRuns`), `run_stack.dfy` (`RunStack`) and `timsort.dfy` (`TimSorting`).
  - The array is sorted in place by binary insertion, run detection, galloping and `mergeLo`/`mergeHi`.
  - `sort` leaves the range sorted and a permutation of what it was.
  - It is stable: the elements of each rank keep their order.
  - It leaves everything outside the range alone.
  - The comparator is an integer rank: `c.compare(x, y) < 0` exactly when `rank(x) < rank(y)`.
- `java.util.LinkedList` and its `ListItr` (`linked_list.dfy`, `LinkedLists`): a class of nodes with `prev`/`next`/`item` fields, tied to a ghost sequence of nodes and a ghost sequence of items.
- `java.util.concurrent.locks.StampedLock` (`stamped_lock.dfy`, `StampedLockModel`): the state word is a 64-bit value, held as an integer modulo 2^64. The masks `WBIT`, `RBITS`, `RFULL`, `ABITS`, `SBITS` and `ORIGIN` are written out as arithmetic on it.
- `java.util.concurrent.locks.AbstractQueuedSynchronizer`:
  - the sync queue (`aqs_sync_queue.dfy`, `QueuedSynchronizers`) is an arena of nodes, one sequence per node field, with a ghost sequence for the queue order;
  - the `ConditionObject` queue (`aqs_condition.dfy`, `ConditionQueues`) is a singly linked list of waiter nodes.
- `java.util.concurrent.Semaphore` (`semaphore.dfy`, `SemaphoreModel`): the permit count is a Java `int`, with the 32-bit wrap-around of `JavaInts` (`java_ints.dfy`) written out.
- `java.util.concurrent.FutureTask` (`future_task.dfy`, `FutureTaskModel`): the run-state machine, `report`, and the Treiber stack of waiters with `removeWaiter`'s unlinking loop.
- `java.io.PipedInputStream` (`piped_input_stream.dfy`, `PipedInput`): the `in`/`out` ring buffer.
- `java.io.BufferedOutputStream` (`buffered_output_stream.dfy`, `BufferedOutput`): the staging buffer. The underlying stream is the sequence of bytes sent to it.
- `java.nio.HeapByteBuffer` (`heap_byte_buffer.dfy`, `HeapBytes`): the position, limit and offset arithmetic over a shared backing array.
- `java.util.stream.DistinctOps` (`distinct_ops.dfy`, `DistinctOps`): the sorted and hash-set sinks of `opWrapSink`.

`Outcomes` (`outcomes.dfy`) names the Java exceptions an operation can end in. Each such operation returns a `Result` and states its error cases. `ArrayCopy` (`array_copy.dfy`) is `System.arraycopy`, including a copy between overlapping ranges of one array.

The concurrent classes are modelled one step at a time, in a single thread:
- each CAS retry loop is one atomic conditional update;
- blocking becomes an outcome that says the caller must wait.

The hooks a subclass supplies, such as `tryRelease` or `hasQueuedPredecessors`, are parameters.

## Model

| member | source | states |
|---|---|---|
| BufferedOutput.LowByte | java/io/BufferedOutputStream.java:114 | the `(byte) b` cast keeps `b` modulo 256 |
| BufferedOutput.BufferedOutputStream.Sized | java/io/BufferedOutputStream.java:78-82 | the successful path of the two-argument constructor: an empty buffer of exactly `size` bytes and nothing written or sent downstream |
| BufferedOutput.BufferedOutputStream.Open | java/io/BufferedOutputStream.java:77-83 | a size that is not positive throws IllegalArgumentException; otherwise a fresh stream with an empty buffer of that size |
| BufferedOutput.BufferedOutputStream.OpenDefault | java/io/BufferedOutputStream.java:64-66 | the one-argument constructor uses a buffer of 8192 bytes |
| BufferedOutput.BufferedOutputStream.FlushBuffer | java/io/BufferedOutputStream.java:90-97 | the held bytes go downstream in order and the buffer empties; an empty buffer sends nothing; afterwards everything written has gone downstream |
| BufferedOutput.BufferedOutputStream.WriteByte | java/io/BufferedOutputStream.java:107-115 | the low byte of `b` is appended to the stream's contents; a full buffer is flushed first, otherwise nothing goes downstream |
| BufferedOutput.BufferedOutputStream.WriteBytes | java/io/BufferedOutputStream.java:135-149 | a null array throws NullPointerException and bad bounds throw IndexOutOfBounds, and either adds nothing; a request at least as long as the buffer flushes and goes straight downstream; a shorter one flushes only when it does not fit and is then buffered |
| BufferedOutput.BufferedOutputStream.CopyIn | java/io/BufferedOutputStream.java:147-148 | the arraycopy into the buffer appends exactly `src` to what is held, and nothing goes downstream |
| BufferedOutput.BufferedOutputStream.Flush | java/io/BufferedOutputStream.java:160-163 | everything written has gone downstream, the buffer is empty, and one flush is forwarded |
| DistinctOps.WrappedSinkForwardsUnique | java/util/stream/DistinctOps.java:138-208 | a non-null sink is always wrapped, and whichever of the three sinks `opWrapSink` picks, it forwards exactly the first occurrence of each element in order, given that a known DISTINCT or SORTED flag is true of the stream |
| DistinctOps.WrapSink | java/util/stream/DistinctOps.java:138-208 | a null sink is refused with NullPointerException; a known-DISTINCT stream gets the next sink itself, and the hash filter is used exactly when neither DISTINCT nor SORTED is known |
| DistinctOps.UniqueOfDistinct | java/util/stream/DistinctOps.java:141-142 | a stream already free of repeats loses nothing by being passed through unwrapped |
| DistinctOps.UniqueElements | java/util/stream/DistinctOps.java:197-205 | what the hash sink forwards has no repeats and holds every element of the input and nothing else |
| DistinctOps.SortedRunIsUnique | java/util/stream/DistinctOps.java:145-173 | on a stream whose equal elements are adjacent the SORTED sink forwards exactly the first occurrences; `seenNull` says whether null has gone by and `lastSeen` is the last element accepted |
| DistinctOps.SortedDistinctSink.Begin | java/util/stream/DistinctOps.java:150-154 | the state is cleared and the next sink begins with size -1 |
| DistinctOps.SortedDistinctSink.Accept | java/util/stream/DistinctOps.java:164-173 | null goes through only the first time; another element goes through unless it equals the last one; the sink's state and the next sink's calls stay those of the sorted filter run over everything accepted since `begin` |
| DistinctOps.SortedDistinctSink.End | java/util/stream/DistinctOps.java:157-161 | the state is cleared and the next sink is ended |
| DistinctOps.HashDistinctSink.Begin | java/util/stream/DistinctOps.java:184-188 | a fresh empty set, and the next sink begins with size -1 |
| DistinctOps.HashDistinctSink.Accept | java/util/stream/DistinctOps.java:197-205 | an element already accepted since `begin` is dropped and a new one is forwarded; the set holds exactly the elements accepted, and the next sink has received the first occurrences of the input in order |
| DistinctOps.HashDistinctSink.End | java/util/stream/DistinctOps.java:191-194 | the set is dropped and the next sink is ended |
| DistinctOps.HashSinkDropsRepeats | java/util/stream/DistinctOps.java:177-206 | the hash sink given `1, 2, 1` forwards `1, 2` between begin(-1) and end |
| DistinctOps.SortedSinkOnUngroupedInput | java/util/stream/DistinctOps.java:145-174 | the SORTED sink given `1, null, 1` forwards `1` twice: it relies on the SORTED flag |
| HeapBytes.HeapByteBuffer.View | java/nio/HeapByteBuffer.java:68-78 | a buffer over `buf` with the given mark, position, limit, capacity and offset |
| HeapBytes.HeapByteBuffer.Allocate | java/nio/HeapByteBuffer.java:50-57 | a fresh zeroed array of `cap` bytes, position 0, no mark |
| HeapBytes.HeapByteBuffer.Wrap | java/nio/HeapByteBuffer.java:59-66 | the whole array is the buffer, positioned at `off` with limit `off + len` |
| HeapBytes.HeapByteBuffer.RemainingBytes | java/nio/HeapByteBuffer.java:126-128 | the bytes between position and limit are those of the window at `offset` (the `ix` mapping) |
| HeapBytes.HeapByteBuffer.Slice | java/nio/HeapByteBuffer.java:86-93 | a new buffer sharing the array whose contents are exactly this buffer's remaining bytes, positioned at 0 with no mark |
| HeapBytes.HeapByteBuffer.Duplicate | java/nio/HeapByteBuffer.java:101-108 | a new buffer sharing the array with the same window, mark, position and limit, hence the same contents |
| HeapBytes.HeapByteBuffer.Get | java/nio/HeapByteBuffer.java:130-132 | at the limit it throws BufferUnderflow and nothing moves; otherwise it returns the first remaining byte and the remaining bytes lose their head |
| HeapBytes.HeapByteBuffer.GetAt | java/nio/HeapByteBuffer.java:134-136 | an index outside `[0, limit)` throws IndexOutOfBounds; otherwise the byte at that index of the buffer |
| HeapBytes.HeapByteBuffer.GetBytes | java/nio/HeapByteBuffer.java:157-165 | bad bounds throw IndexOutOfBounds, too few remaining bytes throw BufferUnderflow, and neither changes anything; otherwise the next `length` bytes land in `dst[off..]`, the rest of `dst` is kept, and position advances by `length` |
| HeapBytes.HeapByteBuffer.Put | java/nio/HeapByteBuffer.java:194-197 | at the limit it throws BufferOverflow and nothing changes; otherwise the byte at position becomes `x` (and nothing else in the array) and position advances |
| HeapBytes.HeapByteBuffer.PutAt | java/nio/HeapByteBuffer.java:207-210 | an index outside `[0, limit)` throws IndexOutOfBounds; otherwise exactly the byte at that index becomes `x` |
| HeapBytes.HeapByteBuffer.PutBytes | java/nio/HeapByteBuffer.java:230-239 | bad bounds throw IndexOutOfBounds, too little room throws BufferOverflow, and neither changes anything; otherwise `src[off..off + length]` replaces the bytes at position and position advances by `length` |
| HeapBytes.HeapByteBuffer.PutBuffer | java/nio/HeapByteBuffer.java:251-267 | putting a buffer into itself throws IllegalArgument and too little room throws BufferOverflow, changing nothing; otherwise all of the source's remaining bytes are copied at position, both positions advance, and the source is left with nothing remaining |
| HeapBytes.HeapByteBuffer.Compact | java/nio/HeapByteBuffer.java:289-295 | the remaining bytes move to index 0 followed by the old contents beyond them, position is the old remaining count, limit is the capacity, the mark is dropped, and the array outside the window is untouched |
| HeapBytes.CompactedWindow | java/nio/HeapByteBuffer.java:290 | the arraycopy of `compact` puts the remaining bytes first in the window and leaves everything outside it alone |
| HeapBytes.HeapByteBuffer.IsDirect | java/nio/HeapByteBuffer.java:173-175 | a heap buffer is never direct |
| HeapBytes.HeapByteBuffer.IsReadOnly | java/nio/HeapByteBuffer.java:183-185 | a heap buffer is writable |
| HeapBytes.PutThenGet | java/nio/HeapByteBuffer.java:134-136 | bytes put at indices 0 and 1 are read back there, and reading at the limit throws IndexOutOfBounds |
| HeapBytes.SliceSharesBytes | java/nio/HeapByteBuffer.java:86-93 | a write through a slice at its index 0 shows in the parent at the parent's position |
| PipedInput.Ring | java/io/PipedInputStream.java:489-498 | the bytes held: none when `in < 0`, the whole array when `in == out` |
| PipedInput.AvailableIn | java/io/PipedInputStream.java:489-498 | the count `available()` computes from the indices is the length of the held bytes, for every buffer content |
| PipedInput.RingFill | java/io/PipedInputStream.java:285-309 | filling the free run from `in` (restarting both indices at 0 when empty) and wrapping `in` appends exactly the new bytes to those held |
| PipedInput.RingDrain | java/io/PipedInputStream.java:446-472 | taking bytes from `out` up to `in` or the end of the array yields the oldest held bytes and leaves the rest; meeting `in` marks the buffer empty |
| PipedInput.PipedInputStream.Sized | java/io/PipedInputStream.java:201-206 | an unconnected stream with an empty buffer of the given size |
| PipedInput.PipedInputStream.Open | java/io/PipedInputStream.java:197-206 | a size that is not positive throws IllegalArgumentException; otherwise an empty, unconnected stream with a buffer of that size |
| PipedInput.PipedInputStream.OpenDefault | java/io/PipedInputStream.java:143-145 | the no-argument constructor uses a buffer of 1024 bytes |
| PipedInput.PipedInputStream.Connect | java/io/PipedInputStream.java:208-235 | an already connected stream throws IOException and keeps its state and bytes; otherwise connecting empties the buffer and marks the pipe connected |
| PipedInput.PipedInputStream.ReceiveCheck | java/io/PipedInputStream.java:312-320 | the writer is stopped with an IOException exactly when the pipe is unconnected, closed at either end, or the reader thread is dead |
| PipedInput.PipedInputStream.Receive | java/io/PipedInputStream.java:248-266 | a failed state check throws IOException; a full buffer makes the writer wait; otherwise `b & 0xFF` is appended to the held bytes; nothing else changes |
| PipedInput.PipedInputStream.ReceiveBytes | java/io/PipedInputStream.java:280-310 | a failed state check throws and stores nothing; otherwise a prefix of `b[off..off+len)` is appended in order, all of it unless the buffer fills, in which case the writer waits |
| PipedInput.PipedInputStream.CopyRuns | java/io/PipedInputStream.java:285-309 | the copy loop appends `b[off..off + transferred)` to the held bytes and stops short only when the buffer is full |
| PipedInput.PipedInputStream.PutRun | java/io/PipedInputStream.java:288-308 | one pass fills the free run, cut to what is left to copy, and appends those bytes |
| PipedInput.PipedInputStream.ReceivedLast | java/io/PipedInputStream.java:340-343 | the writer is recorded as closed and nothing else changes |
| PipedInput.PipedInputStream.Read | java/io/PipedInputStream.java:361-402 | throws IOException when unconnected, closed by the reader, or the writer is dead with nothing held and no close; with nothing held it returns -1 once the writer has closed and waits otherwise; else it returns the oldest byte as 0..255 and drops it |
| PipedInput.PipedInputStream.TakeByte | java/io/PipedInputStream.java:392-401 | the byte at `out` is the oldest held byte, and afterwards it is no longer held |
| PipedInput.PipedInputStream.ReadBytes | java/io/PipedInputStream.java:430-474 | a null array throws NullPointerException and bad bounds IndexOutOfBounds; with good bounds, `len == 0` returns 0; otherwise it throws IOException and waits exactly when `read()` does, and after a first byte as `read()` returns it, `min(len, held)` of the oldest bytes land in `b[off..]`, the rest of `b` is kept and those bytes are no longer held; -1 only at end of stream; on 0, -1, a throw or a wait neither `b` nor the held bytes change |
| PipedInput.PipedInputStream.ReadAtMost | java/io/PipedInputStream.java:439-473 | the part after the argument checks: IOException and waiting exactly on `read()`'s conditions, with `b` and the held bytes unchanged; -1 at end of stream; otherwise the count is `min(len, held)` and exactly those oldest bytes are moved to `b[off..]` |
| PipedInput.PipedInputStream.Deliver | java/io/PipedInputStream.java:444-473 | the byte `read()` returned goes to `b[off]` and up to `len - 1` more follow it, in order |
| PipedInput.PipedInputStream.ReadRun | java/io/PipedInputStream.java:446-472 | the copy loop moves `min(max, held)` of the oldest bytes to `b[pos..]` and leaves the rest held |
| PipedInput.PipedInputStream.TakeRun | java/io/PipedInputStream.java:448-471 | one pass copies the held run up to `in` or the array's end, cut to `max`, and drops those bytes |
| PipedInput.PipedInputStream.Available | java/io/PipedInputStream.java:489-498 | the number of bytes held, at most the buffer length |
| PipedInput.PipedInputStream.Close | java/io/PipedInputStream.java:506-511 | the reader is marked closed and the held bytes are dropped |
| PipedInput.FullPipeWaits | java/io/PipedInputStream.java:253-255 | in a two-byte pipe a third byte makes the writer wait while two bytes are available |
| SemaphoreModel.Semaphore.constructor | java/util/concurrent/Semaphore.java:391-393 | the state starts at the given permit count, fair or not as chosen |
| SemaphoreModel.Semaphore.NonfairTryAcquireSharedAsWritten | java/util/concurrent/Semaphore.java:237-255 | the result is the 32-bit wrapped difference, stored when it is not negative |
| SemaphoreModel.Semaphore.NonfairTryAcquireShared | java/util/concurrent/Semaphore.java:237-255 | the acquire succeeds exactly when at least `acquires` permits are available, and then takes exactly that many; a failure changes nothing |
| SemaphoreModel.Semaphore.FairTryAcquireShared | java/util/concurrent/Semaphore.java:347-361 | a queued predecessor makes it return -1 with nothing taken; otherwise it acquires as the nonfair one does |
| SemaphoreModel.Semaphore.TryAcquireShared | java/util/concurrent/Semaphore.java:319-322 | the synchronizer chosen at construction decides: a fair one gives way to queued threads; with enough permits and no such rule in the way it succeeds, and success takes exactly the permits asked for |
| SemaphoreModel.Semaphore.TryReleaseShared | java/util/concurrent/Semaphore.java:262-275 | the permits are added, unless the 32-bit sum would overflow, which throws Error and changes nothing |
| SemaphoreModel.Semaphore.SyncReducePermits | java/util/concurrent/Semaphore.java:282-291 | the permits are subtracted, unless the 32-bit difference would underflow, which throws Error and changes nothing |
| SemaphoreModel.Semaphore.DrainPermits | java/util/concurrent/Semaphore.java:297-303 | returns every available permit and leaves none |
| SemaphoreModel.Semaphore.AvailablePermits | java/util/concurrent/Semaphore.java:757-759 | the state, a Java int |
| SemaphoreModel.Semaphore.TryAcquire | java/util/concurrent/Semaphore.java:482-484 | succeeds exactly when a permit is available, even on a fair semaphore, and takes one |
| SemaphoreModel.Semaphore.TryAcquireN | java/util/concurrent/Semaphore.java:656-659 | a negative count throws IllegalArgumentException; otherwise it succeeds exactly when that many permits are available, even on a fair semaphore, and takes them |
| SemaphoreModel.Semaphore.Acquire | java/util/concurrent/Semaphore.java:592-595 | a negative count throws IllegalArgumentException; otherwise the permits are taken or the caller must wait, and a fair semaphore with queued threads always makes it wait |
| SemaphoreModel.Semaphore.AcquireUninterruptibly | java/util/concurrent/Semaphore.java:622-625 | the same argument check and first attempt as `acquire(int)` |
| SemaphoreModel.Semaphore.TryAcquireTimed | java/util/concurrent/Semaphore.java:713-717 | a negative count throws IllegalArgumentException; the first attempt succeeds exactly when the permits are there and the fairness rule allows it |
| SemaphoreModel.Semaphore.Release | java/util/concurrent/Semaphore.java:743-746 | a negative count throws IllegalArgumentException and an overflowing count throws Error, changing nothing; otherwise the permits are added |
| SemaphoreModel.Semaphore.ReducePermits | java/util/concurrent/Semaphore.java:780-783 | a negative reduction throws IllegalArgumentException and an underflow throws Error, changing nothing; otherwise the permits shrink by the reduction |
| SemaphoreModel.TwoPermitsThreeTries | java/util/concurrent/Semaphore.java:482-484 | with two permits three `tryAcquire()` calls succeed, succeed and fail, leaving none |
| SemaphoreModel.AcquireThenRelease | java/util/concurrent/Semaphore.java:656-659 | acquiring `n` permits succeeds exactly when `0 <= n` and they are there, and releasing them restores the count |
| SemaphoreModel.MinPermitsAcquireAsWritten | java/util/concurrent/Semaphore.java:244 | a semaphore created with `Integer.MIN_VALUE` permits grants `tryAcquire()` and is left with `Integer.MAX_VALUE` permits |
| SemaphoreModel.MinPermitsAcquire | java/util/concurrent/Semaphore.java:237-255 | the corrected acquire refuses that request and keeps the count |
| StampedLockModel.Add | java/util/concurrent/locks/StampedLock.java:779 | `long` addition wraps modulo 2^64 |
| StampedLockModel.ModeParts | java/util/concurrent/locks/StampedLock.java:387-398 | a state word is its version (`s & SBITS`) plus its reader bits (`s & RBITS`), and the reader bits are the low seven bits of `s & ABITS` |
| StampedLockModel.VersionParts | java/util/concurrent/locks/StampedLock.java:398 | the version keeps the write bit, clears the reader bits, and is its own version |
| StampedLockModel.ModeShift | java/util/concurrent/locks/StampedLock.java:663 | adding to a word within its low eight bits changes only those bits: the version moves only with the write bit, and the reader bits follow |
| StampedLockModel.WellFormedModes | java/util/concurrent/locks/StampedLock.java:371-404 | between steps the lock is free, write-locked with no readers, or read-locked by fewer than RBITS readers |
| StampedLockModel.ReleaseOneReader | java/util/concurrent/locks/StampedLock.java:802-804 | releasing one of fewer than RFULL readers keeps the version and the word's shape, and removes exactly one reader |
| StampedLockModel.WriteReleaseParts | java/util/concurrent/locks/StampedLock.java:779 | adding WBIT to a write-locked word carries into the version and clears the mode; ORIGIN is a free word with a non-zero version |
| StampedLockModel.ReleaseWrite | java/util/concurrent/locks/StampedLock.java:779 | releasing the write lock leaves the lock free with a different, non-zero version, restarting at ORIGIN when the addition wraps to 0 |
| StampedLockModel.ReadLockCount | java/util/concurrent/locks/StampedLock.java:1021-1026 | no readers when free or write-locked, the reader bits below RFULL, and RFULL plus the overflow count when saturated |
| StampedLockModel.OptimisticStamp | java/util/concurrent/locks/StampedLock.java:735-738 | the stamp is 0 exactly when write-locked, and otherwise the version, with no mode bits |
| StampedLockModel.ZeroStampNeverValidates | java/util/concurrent/locks/StampedLock.java:753-760 | the failure stamp 0 never validates while the version is non-zero |
| StampedLockModel.WriteCycleInvalidates | java/util/concurrent/locks/StampedLock.java:570-575 | a write lock taken and released after an optimistic read invalidates its stamp, across the 64-bit wrap too |
| StampedLockModel.OptimisticStampValidates | java/util/concurrent/locks/StampedLock.java:753-760 | a stamp taken while no writer holds the lock validates exactly while the version is unchanged |
| StampedLockModel.StampedLock.ReadHolds | java/util/concurrent/locks/StampedLock.java:1052-1054 | the read hold count of the current state |
| StampedLockModel.StampedLock.constructor | java/util/concurrent/locks/StampedLock.java:531-533 | a new lock starts at ORIGIN with no overflow readers |
| StampedLockModel.StampedLock.IsWriteLocked | java/util/concurrent/locks/StampedLock.java:1033-1035 | write-locked exactly when the mode is WBIT |
| StampedLockModel.StampedLock.IsReadLocked | java/util/concurrent/locks/StampedLock.java:1042-1044 | read-locked exactly when there is at least one read hold |
| StampedLockModel.StampedLock.TryOptimisticRead | java/util/concurrent/locks/StampedLock.java:735-738 | 0 exactly when write-locked; otherwise a stamp with no mode bits that validates against the current state |
| StampedLockModel.StampedLock.Validate | java/util/concurrent/locks/StampedLock.java:753-760 | a stamp validates exactly when its version is the state's; 0 never does |
| StampedLockModel.StampedLock.TryIncReaderOverflow | java/util/concurrent/locks/StampedLock.java:1207-1220 | at RFULL readers one more reader is counted in the overflow and the state word is restored; otherwise 0 and nothing changes |
| StampedLockModel.StampedLock.TryDecReaderOverflow | java/util/concurrent/locks/StampedLock.java:1228-1247 | at RFULL readers one reader is dropped, from the overflow while there is one and from the reader bits otherwise; otherwise 0 and nothing changes; the version is kept |
| StampedLockModel.StampedLock.TryWriteLock | java/util/concurrent/locks/StampedLock.java:570-575 | on a free lock the write bit is set and the new state is the stamp; otherwise 0 and nothing changes |
| StampedLockModel.StampedLock.TryReadLock | java/util/concurrent/locks/StampedLock.java:657-669 | fails with 0 exactly when write-locked, changing nothing; otherwise adds one read hold, keeps the version, and returns the new state |
| StampedLockModel.StampedLock.UnlockWrite | java/util/concurrent/locks/StampedLock.java:773-783 | a stamp that is not the current write-locked state throws IllegalMonitorStateException and changes nothing; otherwise the write lock is released and the version changes |
| StampedLockModel.StampedLock.UnlockRead | java/util/concurrent/locks/StampedLock.java:795-815 | a stamp of another version or without a mode, or a lock that is free or write-locked, throws IllegalMonitorStateException and changes nothing; otherwise one read hold goes and the version is kept |
| StampedLockModel.StampedLock.ReleaseRead | java/util/concurrent/locks/StampedLock.java:802-813 | the release step removes exactly one read hold and keeps the version |
| StampedLockModel.StampedLock.Unlock | java/util/concurrent/locks/StampedLock.java:825-851 | throws IllegalMonitorStateException, changing nothing, exactly when the version differs, the lock is free, or the stamp's mode does not match the lock's; otherwise a write lock is released as by `unlockWrite` or one read hold goes |
| StampedLockModel.StampedLock.TryConvertToWriteLock | java/util/concurrent/locks/StampedLock.java:865-888 | a stamp of another version gives 0; an optimistic stamp on a free lock takes the write lock, a write stamp is returned as is, a sole reader is upgraded, anything else gives 0; 0 changes nothing and a non-zero result is the new write-locked state |
| StampedLockModel.StampedLock.TryConvertToReadLockAsWritten | java/util/concurrent/locks/StampedLock.java:901-928 | a write stamp is downgraded by adding `WBIT + RUNIT` modulo 2^64, with no guard against the version wrapping to 0 |
| StampedLockModel.StampedLock.TryConvertToReadLock | java/util/concurrent/locks/StampedLock.java:901-928 | a stamp of another version gives 0; an optimistic stamp on a free lock adds a reader, a write stamp is downgraded to one reader, a read stamp is returned as is, anything else gives 0; a non-zero result validates, holds a read lock, and the lock is not write-locked; after the free-lock and write-stamp conversions the state is the returned stamp, and after a read stamp the state is unchanged |
| StampedLockModel.StampedLock.TryConvertToOptimisticRead | java/util/concurrent/locks/StampedLock.java:940-972 | a stamp of another version or mismatched mode gives 0 and changes nothing; otherwise whatever the stamp holds is released and the result is a version-only stamp that validates: a free lock is left as it is, a write lock is released as `unlockWrite` does, and one reader is subtracted below RFULL |
| StampedLockModel.StampedLock.TryUnlockWrite | java/util/concurrent/locks/StampedLock.java:981-990 | releases the write lock exactly when it is held |
| StampedLockModel.StampedLock.TryUnlockRead | java/util/concurrent/locks/StampedLock.java:999-1013 | releases one read hold exactly when the lock is read-held, keeping the version |
| StampedLockModel.OptimisticReadThenWrite | java/util/concurrent/locks/StampedLock.java:735-760 | on a fresh lock an optimistic stamp is non-zero and validates, and no longer does after a write lock is taken and released |
| StampedLockModel.DowngradeAtWrapAsWritten | java/util/concurrent/locks/StampedLock.java:917 | downgrading the last write-locked state before the wrap and then releasing the reader leaves state 0, where `tryOptimisticRead()` returns 0 and `validate(0)` holds |
| StampedLockModel.DowngradeAtWrap | java/util/concurrent/locks/StampedLock.java:779 | the corrected downgrade at the same point restarts the version at ORIGIN, so `validate(0)` fails |
| FutureTaskModel.Report | java/util/concurrent/FutureTask.java:193-204 | `get()` returns the value exactly in state NORMAL, throws CancellationException exactly in the cancelled states, and throws ExecutionException carrying the recorded cause exactly in state EXCEPTIONAL |
| FutureTaskModel.Kept | java/util/concurrent/FutureTask.java:641-654 | the waiters that survive an unlink pass are some of those there before it |
| FutureTaskModel.KeptSnoc | java/util/concurrent/FutureTask.java:641-654 | extending the list by one node extends the survivors by that node exactly when it is live |
| FutureTaskModel.LiveFlags | java/util/concurrent/FutureTask.java:644 | a node counts as live exactly when its thread is not null |
| FutureTaskModel.LiveFlagsOf | java/util/concurrent/FutureTask.java:644 | the liveness flags are determined by the nodes' threads alone |
| FutureTaskModel.WaitNode.constructor | java/util/concurrent/FutureTask.java:523 | a new node holds the calling thread and no successor |
| FutureTaskModel.FutureTask.Init | java/util/concurrent/FutureTask.java:213-218 | a new task is NEW, with no outcome, no runner and no waiters |
| FutureTaskModel.FutureTask.Create | java/util/concurrent/FutureTask.java:213-218 | a null callable throws NullPointerException, and only a null one; otherwise the future is fresh, NEW and holds its callable |
| FutureTaskModel.FutureTask.IsCancelled | java/util/concurrent/FutureTask.java:238-240 | true exactly in CANCELLED, INTERRUPTING and INTERRUPTED |
| FutureTaskModel.FutureTask.IsDone | java/util/concurrent/FutureTask.java:242-244 | true exactly when the state has left NEW along a documented transition |
| FutureTaskModel.FutureTask.FinishCompletion | java/util/concurrent/FutureTask.java:532-559 | every waiter's thread is cleared; the unparked list grows by exactly the threads the detached nodes held, from the top of the stack down; the stack is empty, the callable is dropped and the state and outcome are unchanged |
| FutureTaskModel.FutureTask.WakeNext | java/util/concurrent/FutureTask.java:538-548 | one pass of the loop: a node still holding a thread has it cleared and its thread unparked after those unparked before; a node without one is passed over |
| FutureTaskModel.Present | java/util/concurrent/FutureTask.java:538-543 | the threads unparked by the loop are exactly the non-null threads of the nodes, in node order, and there are no more of them than nodes |
| FutureTaskModel.FutureTask.Set | java/util/concurrent/FutureTask.java:338-348 | from NEW only, the future passes through COMPLETING to NORMAL with the value recorded and exactly the waiting threads unparked in stack order; in any other state no field of the future and no waiter changes |
| FutureTaskModel.FutureTask.SetException | java/util/concurrent/FutureTask.java:362-372 | from NEW only, the future passes through COMPLETING to EXCEPTIONAL with the cause recorded and exactly the waiting threads unparked in stack order; in any other state no field of the future and no waiter changes |
| FutureTaskModel.FutureTask.Cancel | java/util/concurrent/FutureTask.java:255-275 | succeeds exactly when the future is NEW; then it ends in CANCELLED, or in INTERRUPTED with a running runner interrupted, and exactly the waiting threads are unparked in stack order; a failed cancel changes no field of the future and no waiter |
| FutureTaskModel.FutureTask.Run | java/util/concurrent/FutureTask.java:377-442 | a task not NEW is left alone, with no field of the future and no waiter changed; a NEW task with its callable and no concurrent cancel ends NORMAL with the value returned or EXCEPTIONAL with the exception thrown; a concurrent cancel leaves it cancelled; every state change is a documented transition |
| FutureTaskModel.FutureTask.RunAndReset | java/util/concurrent/FutureTask.java:453-481 | reports success exactly when a NEW task ran its callable without an exception or a cancel, and then the future is still NEW; a thrown exception is recorded as EXCEPTIONAL |
| FutureTaskModel.FutureTask.PushWaiter | java/util/concurrent/FutureTask.java:600-608 | a fresh node for the thread goes on top of the waiter stack, and nothing else changes |
| FutureTaskModel.FutureTask.RemoveWaiter | java/util/concurrent/FutureTask.java:636-657 | a null node changes nothing; otherwise its thread is cleared, the waiters left are exactly the live ones in their order, all of them live, and no other node's thread changes |
| FutureTaskModel.FutureTask.UnlinkStep | java/util/concurrent/FutureTask.java:642-653 | one step of the traversal keeps a live node as the new predecessor, splices a dead one out after the predecessor, or pops a dead top node |
| FutureTaskModel.FutureTask.KeptThrough | java/util/concurrent/FutureTask.java:641-654 | the survivors through one more node are those before it plus that node if it is live |
| FutureTaskModel.FutureTask.KeepLive | java/util/concurrent/FutureTask.java:644-645 | a live node stays linked and becomes the last survivor |
| FutureTaskModel.FutureTask.SpliceDead | java/util/concurrent/FutureTask.java:646-647 | `pred.next = s` removes a dead node after a survivor and keeps the chain intact |
| FutureTaskModel.FutureTask.PopDead | java/util/concurrent/FutureTask.java:650-652 | moving `waiters` past a dead top node removes it and keeps the chain intact |
| FutureTaskModel.FutureTask.UnlinkDeadWaiters | java/util/concurrent/FutureTask.java:639-655 | the traversal leaves exactly the live waiters, in order, linked from `waiters` |
| FutureTaskModel.FutureTask.SpliceOutDead | java/util/concurrent/FutureTask.java:641-654 | the loop over the chain ends with the survivors being the live nodes, linked from `waiters` |
| FutureTaskModel.FutureTask.UnlinkBegin | java/util/concurrent/FutureTask.java:641 | the traversal starts with no survivor, no predecessor and the cursor at the top |
| FutureTaskModel.FutureTask.UnlinkedAll | java/util/concurrent/FutureTask.java:641-654 | at the end of the chain the survivors are the live nodes and they are linked from `waiters` |
| FutureTaskModel.TerminalNeverLeft | java/util/concurrent/FutureTask.java:104-108 | NORMAL, EXCEPTIONAL, CANCELLED and INTERRUPTED have no transition out |
| FutureTaskModel.ReachesTransitive | java/util/concurrent/FutureTask.java:104-108 | a sequence of documented transitions is itself a documented path |
| FutureTaskModel.SetThenGet | java/util/concurrent/FutureTask.java:338-348 | `set(v)` and then `get()` returns `v` |
| FutureTaskModel.CancelThenSet | java/util/concurrent/FutureTask.java:255-275 | a cancelled task ignores a later `set`, and `get()` throws CancellationException |
| FutureTaskModel.SetThenCancel | java/util/concurrent/FutureTask.java:255-259 | after `set(v)`, `cancel` returns false and `get()` still returns `v` |
| FutureTaskModel.SetWakesWaiters | java/util/concurrent/FutureTask.java:532-559 | completing a future with two waiting threads unparks both, the more recent waiter first |
| FutureTaskModel.FailThenGet | java/util/concurrent/FutureTask.java:362-372 | `setException(e)` and then `get()` throws an ExecutionException with cause `e` |
| FutureTaskModel.KeptDropsMiddle | java/util/concurrent/FutureTask.java:641-654 | unlinking the one dead node among three keeps the other two in stack order |
| ConditionQueues.WaitingFilters | java/util/concurrent/locks/AbstractQueuedSynchronizer.java:2857-2876 | the nodes `unlinkCancelledWaiters` keeps are exactly the nodes of the queue in CONDITION, and there are no more of them than before |
| ConditionQueues.WaitingAppend | java/util/concurrent/locks/AbstractQueuedSynchronizer.java:2857-2876 | purging a queue made of two parts purges each part in turn |
| ConditionQueues.WaitingIdempotent | java/util/concurrent/locks/AbstractQueuedSynchronizer.java:2857-2876 | purging an already purged queue removes nothing more |
| ConditionQueues.WaitingSame | java/util/concurrent/locks/AbstractQueuedSynchronizer.java:2864 | only whether each node is in CONDITION decides whether it is purged |
| ConditionQueues.WaitingDistinct | java/util/concurrent/locks/AbstractQueuedSynchronizer.java:2857-2876 | purging a queue without repeated nodes leaves one without repeated nodes |
| ConditionQueues.FirstWaiting | java/util/concurrent/locks/AbstractQueuedSynchronizer.java:2814-2825 | the node `doSignal` stops at is the first in CONDITION; every node before it is not in CONDITION |
| ConditionQueues.FirstWaitingSkips | java/util/concurrent/locks/AbstractQueuedSynchronizer.java:2814-2825 | the nodes `doSignal` dequeues before the one it transfers were not waiting |
| ConditionQueues.FirstWaitingOldest | java/util/concurrent/locks/AbstractQueuedSynchronizer.java:2814-2825 | there is a node to transfer exactly when some node waits, and then it is the longest-waiting one |
| ConditionQueues.LinksKept | java/util/concurrent/locks/AbstractQueuedSynchronizer.java:2857-2876 | writing `nextWaiter` of nodes off the queue leaves the queue's links unchanged |
| ConditionQueues.ChainGrown | java/util/concurrent/locks/AbstractQueuedSynchronizer.java:2797 | allocating a new node leaves the condition queue's links unchanged |
| ConditionQueues.ChainAppended | java/util/concurrent/locks/AbstractQueuedSynchronizer.java:2797-2802 | linking a new node after `lastWaiter`, or making it `firstWaiter` of an empty queue, extends the queue by exactly that node |
| ConditionQueues.ChainDequeued | java/util/concurrent/locks/AbstractQueuedSynchronizer.java:2820-2822 | moving `firstWaiter` on and clearing the old first node's `nextWaiter` leaves the rest of the queue linked, and empties `lastWaiter` with it |
| ConditionQueues.SignalMovesOldest | java/util/concurrent/locks/AbstractQueuedSynchronizer.java:2814-2825 | `signal` with no waiting node moves nothing; otherwise it moves the longest-waiting node to the tail of the wait queue and the nodes still waiting are the others, in order |
| ConditionQueues.ConditionObject.constructor | java/util/concurrent/locks/AbstractQueuedSynchronizer.java:2778 | a new condition has no waiters |
| ConditionQueues.ConditionObject.UnlinkCancelledWaiters | java/util/concurrent/locks/AbstractQueuedSynchronizer.java:2857-2876 | the queue afterwards is exactly the nodes in CONDITION, in order; each purged node's `nextWaiter` is cleared and no node off the queue is touched |
| ConditionQueues.ConditionObject.Purge | java/util/concurrent/locks/AbstractQueuedSynchronizer.java:2858-2875 | the loop leaves the CONDITION nodes linked from `firstWaiter` to `lastWaiter` and the purged ones unlinked |
| ConditionQueues.ConditionObject.Visit | java/util/concurrent/locks/AbstractQueuedSynchronizer.java:2860-2874 | one visit keeps a CONDITION node as the new trail, or splices a cancelled node out after the trail |
| ConditionQueues.ConditionObject.AddConditionWaiter | java/util/concurrent/locks/AbstractQueuedSynchronizer.java:2788-2804 | a cancelled last waiter first purges the queue; then a new CONDITION node for the current thread is the new last waiter |
| ConditionQueues.ConditionObject.Link | java/util/concurrent/locks/AbstractQueuedSynchronizer.java:2797-2803 | a new CONDITION node for the current thread is appended to the queue and nothing else of the arena changes |
| ConditionQueues.ConditionObject.Dequeue | java/util/concurrent/locks/AbstractQueuedSynchronizer.java:2820-2822 | the first waiter leaves the queue with its `nextWaiter` cleared |
| ConditionQueues.ConditionObject.TransferFirst | java/util/concurrent/locks/AbstractQueuedSynchronizer.java:2820-2823 | the first waiter is dequeued and moved to the wait queue with status 0 exactly when it was in CONDITION; no other node's CONDITION status changes; its thread is woken exactly when it was moved behind a cancelled tail |
| ConditionQueues.ConditionObject.DoSignal | java/util/concurrent/locks/AbstractQueuedSynchronizer.java:2814-2825 | every node up to the first in CONDITION is dequeued, that node alone is moved to the wait queue, and with no node in CONDITION the whole queue is dequeued; the node woken, if any, is that first CONDITION node, woken exactly when the old tail of the wait queue was cancelled |
| ConditionQueues.ConditionObject.TransferNext | java/util/concurrent/locks/AbstractQueuedSynchronizer.java:2835-2838 | one step of `doSignalAll` unlinks the node, hands it to `transferForSignal` and moves on to its old `nextWaiter` |
| ConditionQueues.ConditionObject.DoSignalAll | java/util/concurrent/locks/AbstractQueuedSynchronizer.java:2832-2840 | the condition queue is emptied, every waiting node is moved to the wait queue in order, no node is left in CONDITION, and only waiting nodes are woken |
| ConditionQueues.ConditionObject.Drain | java/util/concurrent/locks/AbstractQueuedSynchronizer.java:2834-2839 | the loop hands every node over in turn and only nodes in CONDITION are woken |
| ConditionQueues.ConditionObject.Signal | java/util/concurrent/locks/AbstractQueuedSynchronizer.java:2890-2897 | without the lock it throws IllegalMonitorStateException and changes nothing; with it, it signals as `doSignal` does, waking the moved node exactly when the old tail of the wait queue was cancelled |
| ConditionQueues.ConditionObject.SignalAll | java/util/concurrent/locks/AbstractQueuedSynchronizer.java:2906-2912 | without the lock it throws IllegalMonitorStateException and changes nothing; with it, the queue is emptied and every waiting node moved |
| ConditionQueues.ConditionObject.HasWaiters | java/util/concurrent/locks/AbstractQueuedSynchronizer.java:3177-3185 | without the lock it throws IllegalMonitorStateException; otherwise it answers whether some node of the queue is in CONDITION |
| ConditionQueues.ConditionObject.GetWaitQueueLength | java/util/concurrent/locks/AbstractQueuedSynchronizer.java:3196-3205 | without the lock it throws IllegalMonitorStateException; otherwise it counts the nodes of the queue in CONDITION |
| ConditionQueues.PrefixWaiting | java/util/concurrent/locks/AbstractQueuedSynchronizer.java:3180-3183 | the waiting nodes of one more node are those before, plus that node when it waits |
| ConditionQueues.KeepStep | java/util/concurrent/locks/AbstractQueuedSynchronizer.java:2872-2873 | a CONDITION node joins the kept chain and leads on to the node after it |
| ConditionQueues.DropStep | java/util/concurrent/locks/AbstractQueuedSynchronizer.java:2863-2870 | a cancelled node has its `nextWaiter` cleared and the trail, or `firstWaiter`, now leads past it |
| ConditionQueues.ScanKept | java/util/concurrent/locks/AbstractQueuedSynchronizer.java:2872-2874 | visiting a CONDITION node keeps the loop invariant with the trail moved to it |
| ConditionQueues.ScanDropped | java/util/concurrent/locks/AbstractQueuedSynchronizer.java:2863-2874 | visiting a cancelled node keeps the loop invariant once it is spliced out, `lastWaiter` moving back to the trail when it was last |
| ConditionQueues.ScanDone | java/util/concurrent/locks/AbstractQueuedSynchronizer.java:2859 | when the loop ends, the kept nodes form the queue and every purged node is unlinked |
| ConditionQueues.ScanStarts | java/util/concurrent/locks/AbstractQueuedSynchronizer.java:2858-2859 | the loop starts at `firstWaiter` with nothing kept and no trail |
| ConditionQueues.SignalledMoved | java/util/concurrent/locks/AbstractQueuedSynchronizer.java:2823-2824 | the loop of `doSignal` ends as described once it transfers the first CONDITION node |
| ConditionQueues.DrainingStarts | java/util/concurrent/locks/AbstractQueuedSynchronizer.java:2832-2834 | `doSignalAll` starts with the whole queue to hand over |
| ConditionQueues.DrainingDone | java/util/concurrent/locks/AbstractQueuedSynchronizer.java:2839 | once every node is handed over, all the waiting ones are on the wait queue in order |
| ConditionQueues.DrainStep | java/util/concurrent/locks/AbstractQueuedSynchronizer.java:2835-2838 | handing one more node over keeps the loop invariant of `doSignalAll` |
| ConditionQueues.SignalAllStep | java/util/concurrent/locks/AbstractQueuedSynchronizer.java:2837 | handing a node to `transferForSignal` extends what was moved by it exactly when it waits |
| QueuedSynchronizers.FirstLiveFirst | java/util/concurrent/locks/AbstractQueuedSynchronizer.java:1264-1270 | the successor chosen is NIL exactly when every node after the released one is cancelled, and otherwise it is the nearest node after it that is not cancelled |
| QueuedSynchronizers.LiveBefore | java/util/concurrent/locks/AbstractQueuedSynchronizer.java:1508-1510 | walking `prev` back from a cancelled predecessor stops at the nearest node that is not cancelled |
| QueuedSynchronizers.Queued | java/util/concurrent/locks/AbstractQueuedSynchronizer.java:2528-2532 | a queued node other than the head has a `prev` and is not in CONDITION |
| QueuedSynchronizers.StatusSet | java/util/concurrent/locks/AbstractQueuedSynchronizer.java:1253 | writing a status other than CONDITION, and not cancelling the head, keeps the queue well formed |
| QueuedSynchronizers.Appended | java/util/concurrent/locks/AbstractQueuedSynchronizer.java:1140-1143 | `node.prev = t`, `tail = node`, `t.next = node` extends the queue by exactly the node and keeps it well formed |
| QueuedSynchronizers.Grown | java/util/concurrent/locks/AbstractQueuedSynchronizer.java:1011-1022 | a new node, linked to nothing, leaves the queue as it is |
| QueuedSynchronizers.HeadMoved | java/util/concurrent/locks/AbstractQueuedSynchronizer.java:1232-1236 | the second node becoming the head, with `prev` cleared, drops the old head and keeps the queue well formed |
| QueuedSynchronizers.Cut | java/util/concurrent/locks/AbstractQueuedSynchronizer.java:1508-1511 | the queue with a run of cancelled nodes removed keeps the nodes before and after the run in order |
| QueuedSynchronizers.RunDropped | java/util/concurrent/locks/AbstractQueuedSynchronizer.java:1508-1511 | relinking `node.prev` and `pred.next` across a run of cancelled nodes removes exactly that run and keeps the queue well formed |
| QueuedSynchronizers.Sync.constructor | java/util/concurrent/locks/AbstractQueuedSynchronizer.java:426 | a new synchronizer has state 0 and no queue |
| QueuedSynchronizers.Sync.Allocate | java/util/concurrent/locks/AbstractQueuedSynchronizer.java:1011-1022 | a new node with the given status, thread and `nextWaiter`, on no queue; nothing else changes |
| QueuedSynchronizers.Sync.SetWaitStatus | java/util/concurrent/locks/AbstractQueuedSynchronizer.java:3280-3285 | one node's status changes and the queue stays well formed |
| QueuedSynchronizers.Sync.Enq | java/util/concurrent/locks/AbstractQueuedSynchronizer.java:1108-1147 | on an empty queue a dummy head is installed first; then the node is appended after the old tail, which is returned, and nothing else changes |
| QueuedSynchronizers.Sync.InitializeHead | java/util/concurrent/locks/AbstractQueuedSynchronizer.java:1121-1133 | a fresh dummy node is both head and tail |
| QueuedSynchronizers.Sync.AppendTail | java/util/concurrent/locks/AbstractQueuedSynchronizer.java:1140-1143 | the node is appended after the tail, which is returned, and only `prev`, `next`, `tail` and the queue change |
| QueuedSynchronizers.Sync.AddWaiter | java/util/concurrent/locks/AbstractQueuedSynchronizer.java:1191-1223 | a new node for the current thread in the given mode is the new tail, linked after the old one, and is returned |
| QueuedSynchronizers.Sync.SetHead | java/util/concurrent/locks/AbstractQueuedSynchronizer.java:1232-1236 | the node becomes the head with its thread and `prev` cleared; nothing else changes |
| QueuedSynchronizers.Sync.UnparkSuccessor | java/util/concurrent/locks/AbstractQueuedSynchronizer.java:1244-1274 | a negative status on the node is reset to 0, and the thread woken is that of the nearest node after it that is not cancelled, whether `next` or the scan from the tail finds it |
| QueuedSynchronizers.Sync.ScanFromTail | java/util/concurrent/locks/AbstractQueuedSynchronizer.java:1266-1269 | walking back from the tail to the node, the last node that is not cancelled is the nearest one after the node |
| QueuedSynchronizers.Sync.DoReleaseShared | java/util/concurrent/locks/AbstractQueuedSynchronizer.java:1297-1332 | with a successor behind the head, SIGNAL goes to 0 and wakes the successor, 0 goes to PROPAGATE, and any other status is left; with none, nothing changes |
| QueuedSynchronizers.Sync.SetHeadAndPropagate | java/util/concurrent/locks/AbstractQueuedSynchronizer.java:1354-1392 | the node becomes the head, and a release is propagated exactly when `propagate > 0` or the old or new head's status is negative and the next node is absent or shared |
| QueuedSynchronizers.Sync.SkipCancelled | java/util/concurrent/locks/AbstractQueuedSynchronizer.java:1503-1511 | the run of cancelled predecessors is cut out and the node is linked to the nearest live one |
| QueuedSynchronizers.Sync.ShouldParkAfterFailedAcquire | java/util/concurrent/locks/AbstractQueuedSynchronizer.java:1483-1527 | true exactly when the predecessor is in SIGNAL; a cancelled predecessor is skipped over with the queue relinked; otherwise the predecessor is set to SIGNAL |
| QueuedSynchronizers.Sync.Release | java/util/concurrent/locks/AbstractQueuedSynchronizer.java:2100-2112 | returns `tryRelease`'s answer, and wakes the successor exactly when it released and the head exists with a non-zero status |
| QueuedSynchronizers.Sync.ReleaseShared | java/util/concurrent/locks/AbstractQueuedSynchronizer.java:2224-2237 | returns `tryReleaseShared`'s answer, and then runs `doReleaseShared` |
| QueuedSynchronizers.Sync.HasQueuedThreads | java/util/concurrent/locks/AbstractQueuedSynchronizer.java:2252-2254 | true exactly when some node waits behind the head (`head != tail`) |
| QueuedSynchronizers.Sync.HasContended | java/util/concurrent/locks/AbstractQueuedSynchronizer.java:2265-2267 | true exactly when the queue has been set up (`head != null`) |
| QueuedSynchronizers.Sync.HasQueuedPredecessors | java/util/concurrent/locks/AbstractQueuedSynchronizer.java:2404-2413 | true exactly when a node waits and the first one in line holds another thread |
| QueuedSynchronizers.Sync.FindNodeFromTail | java/util/concurrent/locks/AbstractQueuedSynchronizer.java:2564-2573 | the walk back from the tail finds the node exactly when it is on the queue |
| QueuedSynchronizers.Sync.IsOnSyncQueue | java/util/concurrent/locks/AbstractQueuedSynchronizer.java:2528-2557 | a queued node other than the head is reported on the queue, a node reported is queued or a dropped cancelled one, and for every other node the answer is exact |
| QueuedSynchronizers.Sync.TransferForSignal | java/util/concurrent/locks/AbstractQueuedSynchronizer.java:2585-2616 | fails and changes nothing exactly when the node is not in CONDITION; otherwise the node gets status 0 and is appended to the sync queue, its thread is woken exactly when its predecessor is cancelled, and otherwise the predecessor is left in SIGNAL |
| QueuedSynchronizers.Sync.FullyRelease | java/util/concurrent/locks/AbstractQueuedSynchronizer.java:2649-2663 | a release returns the saved state and wakes the successor as `release` does, and with no successor to wake it changes no status and wakes no one; a refused release throws IllegalMonitorStateException and cancels the node |
| LinkedLists.IndexIn | java/util/LinkedList.java:779-797 | -1 exactly when the item is absent; otherwise an index holding it with no earlier occurrence |
| LinkedLists.LastIndexIn | java/util/LinkedList.java:812-828 | -1 exactly when the item is absent; otherwise an index holding it with no later occurrence |
| LinkedLists.RemoveFirstOccurrence | java/util/LinkedList.java:484-504 | removing the first occurrence takes exactly one copy of the item out of the list's multiset |
| LinkedLists.WithoutMultiset | java/util/LinkedList.java:697-702 | removing the item at an index takes exactly that item out of the multiset |
| LinkedLists.Node.constructor | java/util/LinkedList.java:1183-1187 | a node holds the given item and links |
| LinkedLists.ChainInsert | java/util/LinkedList.java:210-229 | a new node linked both ways in front of the node at `k` gives the list with the item inserted at `k` |
| LinkedLists.ChainRemove | java/util/LinkedList.java:297-340 | bypassing the node at `k` from both sides gives the list without it, still well formed |
| LinkedLists.RunJoin | java/util/LinkedList.java:581-589 | joining the new run to the rest of the list gives a well-formed list |
| LinkedLists.LinkedList.constructor | java/util/LinkedList.java:141-142 | a new list is empty, with `modCount` 0 |
| LinkedLists.LinkedList.LinkFirst | java/util/LinkedList.java:162-180 | the item is at the front of a fresh first node, the old items follow in their order, and `size` and `modCount` grow by one |
| LinkedLists.LinkedList.LinkLast | java/util/LinkedList.java:186-204 | the item is at the back of a fresh last node, the old items precede it in their order, and `size` and `modCount` grow by one |
| LinkedLists.LinkedList.LinkBefore | java/util/LinkedList.java:210-229 | the item is inserted just before the node `succ`, every other node keeps its place, and `modCount` grows by one |
| LinkedLists.LinkedList.UnlinkFirst | java/util/LinkedList.java:235-260 | returns the first item and removes it, keeping the order of the rest |
| LinkedLists.LinkedList.UnlinkLast | java/util/LinkedList.java:266-291 | returns the last item and removes it, keeping the order of the rest |
| LinkedLists.LinkedList.Unlink | java/util/LinkedList.java:297-340 | returns the node's item and removes exactly that node, keeping the order of the rest |
| LinkedLists.LinkedList.NodeAt | java/util/LinkedList.java:744-763 | the walk from `first` (index below `size / 2`) and the walk back from `last` both reach the node at the index |
| LinkedLists.LinkedList.GetFirst | java/util/LinkedList.java:349-357 | the first item, or NoSuchElementException on an empty list |
| LinkedLists.LinkedList.GetLast | java/util/LinkedList.java:366-374 | the last item, or NoSuchElementException on an empty list |
| LinkedLists.LinkedList.RemoveFirst | java/util/LinkedList.java:383-390 | an empty list throws NoSuchElementException and is unchanged; otherwise the first item is removed and returned |
| LinkedLists.LinkedList.RemoveLast | java/util/LinkedList.java:399-406 | an empty list throws NoSuchElementException and is unchanged; otherwise the last item is removed and returned |
| LinkedLists.LinkedList.Add | java/util/LinkedList.java:464-467 | the item is appended and the call reports a change |
| LinkedLists.LinkedList.IndexOf | java/util/LinkedList.java:779-797 | the lowest index holding the item, or -1 |
| LinkedLists.LinkedList.LastIndexOf | java/util/LinkedList.java:812-828 | the highest index holding the item, or -1 |
| LinkedLists.LinkedList.Contains | java/util/LinkedList.java:440-443 | true exactly when the list holds the item |
| LinkedLists.LinkedList.Remove | java/util/LinkedList.java:484-504 | removes exactly the first occurrence and reports it; an absent item leaves the list and `modCount` unchanged |
| LinkedLists.LinkedList.Get | java/util/LinkedList.java:635-640 | the item at an element index; any other index throws IndexOutOfBoundsException |
| LinkedLists.LinkedList.Set | java/util/LinkedList.java:652-663 | replaces the item at an element index and returns the old one, with no structural change; any other index throws and changes nothing |
| LinkedLists.LinkedList.AddAt | java/util/LinkedList.java:675-685 | inserts at a position index, `size` included; any other index throws and changes nothing |
| LinkedLists.LinkedList.RemoveAt | java/util/LinkedList.java:697-702 | removes and returns the item at an element index; any other index throws and changes nothing |
| LinkedLists.LinkedList.Clear | java/util/LinkedList.java:603-622 | every old node is detached from its neighbours, the list is empty, and `modCount` grows by one |
| LinkedLists.LinkedList.LinkAfter | java/util/LinkedList.java:569-578 | one step of `addAll`: a fresh node linked after `pred`, or made `first` when there is none |
| LinkedLists.LinkedList.LinkRun | java/util/LinkedList.java:566-579 | the loop of `addAll` links fresh nodes holding the new items, in order, after the kept prefix |
| LinkedLists.LinkedList.CloseRun | java/util/LinkedList.java:581-595 | the last new node becomes `last` or is linked to `succ`, and `size` and `modCount` are updated |
| LinkedLists.LinkedList.Splice | java/util/LinkedList.java:549-595 | the items are inserted at the index, with the nodes before and after it kept in place |
| LinkedLists.LinkedList.AddAll | java/util/LinkedList.java:539-596 | a bad position index throws and changes nothing; an empty collection returns false and changes nothing; otherwise its items are inserted at the index, in order, `size` grows by their number and `modCount` by one |
| LinkedLists.LinkedList.ListIterator | java/util/LinkedList.java:1074-1077 | a cursor at a position index, in step with the list; any other index throws IndexOutOfBoundsException |
| LinkedLists.ListItr.constructor | java/util/LinkedList.java:1085-1089 | `next` is the node at the index, or null at the end, and nothing has been returned |
| LinkedLists.ListItr.HasNext | java/util/LinkedList.java:1091-1093 | true exactly when the cursor is before the end |
| LinkedLists.ListItr.HasPrevious | java/util/LinkedList.java:1106-1108 | true exactly when the cursor is after the start |
| LinkedLists.ListItr.Next | java/util/LinkedList.java:1095-1104 | a concurrent modification throws; at the end NoSuchElementException; otherwise returns the item after the cursor and steps over it |
| LinkedLists.ListItr.Previous | java/util/LinkedList.java:1110-1118 | a concurrent modification throws; at the start NoSuchElementException; otherwise steps back and returns the item stepped over |
| LinkedLists.ListItr.Remove | java/util/LinkedList.java:1128-1141 | a concurrent modification throws; with nothing returned IllegalStateException; otherwise the last item returned is removed and the cursor stays in step with the list |
| LinkedLists.ListItr.Set | java/util/LinkedList.java:1143-1148 | with nothing returned IllegalStateException; a concurrent modification throws; otherwise the last item returned is replaced |
| LinkedLists.ListItr.Add | java/util/LinkedList.java:1150-1159 | a concurrent modification throws; otherwise the item is inserted before the cursor, which steps past it and stays in step with the list |
| LinkedLists.FailFastAfterOutsideAdd | java/util/LinkedList.java:1172-1175 | an add through the list behind an iterator's back makes its next `next()` throw ConcurrentModificationException |
| LinkedLists.RemoveWhileIterating | java/util/LinkedList.java:1128-1141 | removing through the iterator keeps it usable: walking [1, 2] and removing 1 leaves [2], and `next()` then yields 2 |
| SortSpec.Ranked | java/util/TimSort.java:30-36 | the ties of one rank, in order, are a subsequence of the array |
| SortSpec.Merge | java/util/TimSort.java:549-615 | the merge of two runs holds exactly their elements (its length is the sum) |
| SortSpec.MergedAt | java/util/TimSort.java:549-615 | merging two adjacent runs in place leaves an array of the same length |
| SortSpec.Reversed | java/util/TimSort.java:438-445 | element `i` of the reversal is element `|s| - 1 - i` of the original |
| SortSpec.RankedAppend | java/util/TimSort.java:30-36 | the ties of a concatenation are the ties of the first part followed by those of the second |
| SortSpec.SameTiesAppend | java/util/TimSort.java:30-36 | stable rearrangements of two parts give a stable rearrangement of their concatenation |
| SortSpec.SameTiesPermutes | java/util/TimSort.java:30-36 | keeping the ties of every rank in order keeps every element: a stable sort is a permutation |
| SortSpec.MergeRanked | java/util/TimSort.java:549-615 | merging a sorted run with another keeps the ties of each rank, those of the first run first |
| SortSpec.MergeTies | java/util/TimSort.java:549-615 | the merge is a stable rearrangement of the two runs side by side |
| SortSpec.MergeSorted | java/util/TimSort.java:549-615 | the merge of two sorted runs is sorted |
| SortSpec.MergePermutes | java/util/TimSort.java:549-615 | the merge is a permutation of the two runs |
| SortSpec.MergeTakeLeft | java/util/TimSort.java:589-594 | the leading elements of the first run that `gallopRight` skips are already in place at the front of the merge |
| SortSpec.MergeTakeRight | java/util/TimSort.java:811-914 | leading elements of the second run ranked below the head of the first come first in the merge, in order |
| SortSpec.MergeDropLeft | java/util/TimSort.java:927-1036 | trailing elements of the first run ranked above all of the second come last in the merge, in order |
| SortSpec.MergeDropRight | java/util/TimSort.java:604-607 | the trailing elements of the second run that `gallopLeft` skips are already in place at the end of the merge |
| SortSpec.InsertSorted | java/util/TimSort.java:336-370 | placing the pivot after every element ranked no higher and before every element ranked higher keeps the prefix sorted |
| SortSpec.InsertRanked | java/util/TimSort.java:336-370 | placing the pivot before every element ranked higher puts it after its ties |
| SortSpec.InsertStable | java/util/TimSort.java:321-371 | one round of binary insertion sort is a stable sort of the prefix and the pivot |
| SortSpec.ReversedSorted | java/util/TimSort.java:411-416 | a strictly descending run, reversed, is sorted |
| SortSpec.ReversedRanked | java/util/TimSort.java:411-416 | a strictly descending run has at most one element of each rank, so its reversal keeps its ties |
| SortSpec.ReversedDescending | java/util/TimSort.java:411-416 | reversing a strictly descending run is a stable sort of it |
| TimSortRuns.MinRunBounds | java/util/TimSort.java:448-476 | the minimum run length is `n` itself below 32, otherwise between 16 and 32, and exactly 16 for a power of two |
| TimSortRuns.MinRunRatio | java/util/TimSort.java:451-466 | for `n` of at least 32, `n / minRun` is at most the power of two `2^k` that brings `n` below 32, strictly below it exactly when a 1 bit was shifted off, and above fifteen sixteenths of it |
| TimSortRuns.ShiftedRange | java/util/TimSort.java:471-474 | halving until below 32 leaves a value in [16, 32) |
| TimSortRuns.ShiftedPowerOfTwo | java/util/TimSort.java:471-474 | a power of two is halved exactly down to 16, with no bit shifted off |
| TimSortRuns.HalveStep | java/util/TimSort.java:471-474 | one round of the loop halves `n / 2^k` once more and records whether a one bit was shifted off |
| TimSortRuns.MinRunLength | java/util/TimSort.java:468-476 | returns `n` rounded up after division by the power of two that brings it below 32: `n` below 32, within [16, 32] otherwise, 16 for a power of two |
| TimSortRuns.ReverseRange | java/util/TimSort.java:438-445 | `a[lo..hi]` is reversed in place and nothing else changes |
| TimSortRuns.ReversedInPlace | java/util/TimSort.java:440-444 | an array that mirrors the range and agrees elsewhere is the range reversed |
| TimSortRuns.DescendingRunEnd | java/util/TimSort.java:411-414 | the run found is strictly descending and stops at the first element not below its predecessor |
| TimSortRuns.AscendingRunEnd | java/util/TimSort.java:419-422 | the run found is non-decreasing and stops at the first element below its predecessor |
| TimSortRuns.CountRunAndMakeAscending | java/util/TimSort.java:400-428 | returns a run length in [1, hi - lo]; an ascending run is left as it is and is maximal; a strictly descending run is maximal and reversed in place; either way the run is a stable sort of itself and nothing outside it moves |
| TimSortRuns.ReverseDescendingRun | java/util/TimSort.java:411-416 | the maximal strictly descending run at `lo` is reversed in place, at least two long, and nothing outside it moves |
| TimSortRuns.PivotSlot | java/util/TimSort.java:327-346 | the binary search stops after every element ranked no higher than the pivot and before every element ranked higher |
| TimSortRuns.SlideAndPlace | java/util/TimSort.java:359-370 | the elements from the slot to the pivot shift up one place and the pivot goes into the slot |
| TimSortRuns.InsertStep | java/util/TimSort.java:321-371 | one round inserts `a[start]` so that `a[lo..start + 1]` is a stable sort of the original range and nothing else has moved |
| TimSortRuns.BinarySort | java/util/TimSort.java:315-372 | given a sorted `a[lo..start]`, leaves `a[lo..hi]` a stable sort of its old contents, with equal pivots after their ties and nothing outside the range moved |
| TimSortRuns.CountBelowCut | java/util/TimSort.java:693 | where the range splits into elements ranked below the key and the rest, the split is at the count of the former |
| TimSortRuns.CountAtMostCut | java/util/TimSort.java:786 | where the range splits into elements ranked no higher than the key and the rest, the split is at the count of the former |
| TimSortRuns.LeftCutCount | java/util/TimSort.java:693 | the left cut is unique: it is the number of elements ranked below the key |
| TimSortRuns.RightCutCount | java/util/TimSort.java:786 | the right cut is unique: it is the number of elements ranked no higher than the key |
| TimSortRuns.GallopLeftUp | java/util/TimSort.java:644-659 | galloping right from the hint brackets the left cut between `lastOfs` and `ofs` |
| TimSortRuns.GallopLeftDown | java/util/TimSort.java:660-676 | galloping left from the hint brackets the left cut between `lastOfs` and `ofs` |
| TimSortRuns.NarrowLeft | java/util/TimSort.java:684-694 | the binary search inside the bracket finds `k` with `a[base + k - 1] < key <= a[base + k]` |
| TimSortRuns.GallopLeft | java/util/TimSort.java:637-695 | returns `k` in [0, len] with `a[base + k - 1] < key <= a[base + k]`, the number of elements ranked below the key |
| TimSortRuns.GallopRightDown | java/util/TimSort.java:719-741 | galloping left from the hint brackets the right cut between `lastOfs` and `ofs` |
| TimSortRuns.GallopRightUp | java/util/TimSort.java:743-765 | galloping right from the hint brackets the right cut between `lastOfs` and `ofs` |
| TimSortRuns.NarrowRight | java/util/TimSort.java:777-787 | the binary search inside the bracket finds `k` with `a[base + k - 1] <= key < a[base + k]` |
| TimSortRuns.GallopRight | java/util/TimSort.java:712-788 | returns `k` in [0, len] with `a[base + k - 1] <= key < a[base + k]`, the number of elements ranked no higher than the key |
| MergeSteps.LoStart | java/util/TimSort.java:815-823 | after the first run is copied to the temporary array and the second run's head is moved to the front, the mergeLo state holds: what is written plus the stable merge of what remains is the stable merge of the two runs |
| MergeSteps.LoTakeRight | java/util/TimSort.java:847-852 | moving the second run's head, ranked strictly below the first run's head, keeps the mergeLo state |
| MergeSteps.LoTakeLeft | java/util/TimSort.java:853-858 | moving the first run's head, ranked no higher than the second's (ties go to the first run), keeps the mergeLo state |
| MergeSteps.LoCopyLeft | java/util/TimSort.java:869-877 | copying out the first run's next `count1` elements, all ranked no higher than the second run's head, keeps the mergeLo state, and the first run is never used up by it |
| MergeSteps.LoCopyRight | java/util/TimSort.java:882-890 | moving down the second run's next `count2` elements, all ranked below the first run's head, keeps the mergeLo state |
| MergeSteps.LoFinishOne | java/util/TimSort.java:828-831 | with one element left in the first run, moving the rest of the second run down and that element last leaves exactly the stable merge in `[base1, end)` and everything else as it was |
| MergeSteps.LoFinishRest | java/util/TimSort.java:909-913 | with the second run used up, copying the rest of the first run leaves exactly the stable merge in `[base1, end)` and everything else as it was |
| MergeSteps.MergeOneAbove | java/util/TimSort.java:828-831 | a single element ranked above every element of the other run goes after all of it |
| MergeSteps.HiStart | java/util/TimSort.java:932-941 | after the second run is copied to the temporary array and the first run's last element is moved to the top, the mergeHi state holds |
| MergeSteps.HiTakeLeft | java/util/TimSort.java:967-972 | moving up the first run's last element, ranked above the second run's last, keeps the mergeHi state |
| MergeSteps.HiTakeRight | java/util/TimSort.java:973-978 | moving up the second run's last element, ranked at least as high as the first run's last (ties go to the second run, on top), keeps the mergeHi state |
| MergeSteps.HiCopyLeft | java/util/TimSort.java:989-997 | moving up the first run's top `count1` elements, all ranked above the second run's last, keeps the mergeHi state |
| MergeSteps.HiCopyRight | java/util/TimSort.java:1002-1010 | copying out the second run's top `count2` elements, all ranked at least as high as the first run's last, keeps the mergeHi state, and the second run keeps its first element |
| MergeSteps.HiFinishOne | java/util/TimSort.java:1022-1027 | with one element left in the second run, moving the rest of the first run up and that element first leaves exactly the stable merge in `[base1, end)` |
| MergeSteps.HiFinishRest | java/util/TimSort.java:1031-1035 | with the first run used up, copying the rest of the second run leaves exactly the stable merge in `[base1, end)` |
| MergeSteps.MergeOneBelow | java/util/TimSort.java:946-951 | a single element ranked below every element of the other run goes before all of it |
| MergeSteps.DropLeft | java/util/TimSort.java:989-997 | the top `n` elements of the first run, ranked above all of the second, are the last `n` of the merge |
| MergeSteps.DropRight | java/util/TimSort.java:1002-1010 | the top `n` elements of the second run, ranked at least as high as all of the first, are the last `n` of the merge |
| MergeSteps.TrimmedMerge | java/util/TimSort.java:589-607 | merging only what is left after the first run's leading elements (ranked no higher than the second run's head) and the second run's trailing elements (ranked at least as high as the first run's last) gives the same array as merging the whole runs; when either trimmed run is empty the array is already merged |
| MergeSteps.MergeKeepHead | java/util/TimSort.java:589-597 | the first run's leading elements ranked no higher than the second run's head are the head of the merge |
| MergeSteps.MergeKeepTail | java/util/TimSort.java:604-607 | the second run's trailing elements ranked at least as high as the first run's last are the tail of the merge |
| PendingRuns.AscendsSorted | java/util/TimSort.java:400-428 | a range in which every element is ranked no lower than the one before it is exactly a sorted range, both directions |
| PendingRuns.MergedBases | java/util/TimSort.java:573-580 | after runs `i` and `i + 1` are merged the start indices below and including `i` stay and the one of run `i + 1` is gone |
| PendingRuns.RunsOrdered | java/util/TimSort.java:484-488 | a pending run ends no later than any run pushed after it starts |
| PendingRuns.RunsSum | java/util/TimSort.java:274-283 | the pending run lengths add up to the number of elements consumed so far |
| PendingRuns.RunsPush | java/util/TimSort.java:274 | a sorted run pushed right after the pending runs keeps every pending run sorted and side by side |
| PendingRuns.RunsSorted | java/util/TimSort.java:287-291 | with a single pending run left, the whole range consumed is sorted |
| PendingRuns.RearrangedTrans | java/util/TimSort.java:255-284 | two rearrangements that keep the ties of the same range compose into one |
| PendingRuns.RearrangedJoin | java/util/TimSort.java:255-284 | rearranging the range consumed so far and then the next run rearranges the two together |
| PendingRuns.RunsFramed | java/util/TimSort.java:259-270 | changes at or above the end of the pending runs leave them pending |
| PendingRuns.RunsAdjacent | java/util/TimSort.java:549-563 | runs `i` and `i + 1` are non-empty, adjacent, sorted and inside the range consumed |
| PendingRuns.RunsMerge | java/util/TimSort.java:549-615 | merging runs `i` and `i + 1` in place leaves a stack of pending runs one shorter that covers the same range and keeps its ties |
| PendingRuns.RunsTies | java/util/TimSort.java:549-615 | splicing the stable merge of two adjacent runs into the array keeps the ties of the consumed range and leaves everything outside it alone |
| PendingRuns.SpliceTies | java/util/TimSort.java:549-615 | merging two runs in the middle of a sequence keeps the order of equal-ranked elements |
| RunStack.MergeRuns | java/util/TimSort.java:573-580 | the run-length stack after merging runs `i` and `i + 1`: one shorter, entry `i` is their sum, the others unchanged |
| RunStack.ChoiceAsWritten | java/util/TimSort.java:506-526 | the merge `mergeCollapse` chooses as written: run `n = size - 2` or the one below it, and it stops exactly when the top run is shorter than the second and the third is longer than the top two together |
| RunStack.CollapseAsWritten | java/util/TimSort.java:506-526 | the loop as written never adds runs, leaves a non-empty stack non-empty, and stops only where its own top-three test says stop |
| RunStack.Choice | java/util/TimSort.java:506-526 | the corrected choice, which also looks at the fourth run from the top; it merges one of the same two places and stops under the same condition |
| RunStack.PushBelowTop | java/util/TimSort.java:484-488 | pushing a run onto a balanced stack leaves the balance rule holding for every comparison not involving the top two runs |
| RunStack.MergeBelowTop | java/util/TimSort.java:511-521 | the merge the corrected choice makes keeps the stack balanced below the top |
| RunStack.StopBalanced | java/util/TimSort.java:522-524 | where the corrected choice stops, the whole stack is balanced |
| RunStack.CollapseBalanced | java/util/TimSort.java:506-526 | the corrected `mergeCollapse` leaves a stack that was balanced before the last push balanced, with every run non-empty |
| RunStack.CollapseAsWrittenUnbalanced | java/util/TimSort.java:506-526 | on the stack `[120, 80, 25, 20]` followed by a push of 30, `mergeCollapse` as written stops at `[120, 80, 45, 30]`, which is not balanced |
| RunStack.CollapseCounterexampleMerged | java/util/TimSort.java:506-526 | on the same stack the corrected choice merges down to a single run of 275 |
| RunStack.SumConcat | java/util/TimSort.java:274-283 | the total run length of two stacks put together is the sum of their totals |
| RunStack.MergeSum | java/util/TimSort.java:573-580 | merging two runs keeps the total length of the pending runs |
| RunStack.CollapseSum | java/util/TimSort.java:506-526 | `mergeCollapse` keeps the total length of the pending runs |
| RunStack.PushCollapse | java/util/TimSort.java:274-276 | a push followed by `mergeCollapse` keeps the stack balanced and non-empty, and keeps every run at least `minRun` long when the pushed one is |
| RunStack.CollapseAtLeast | java/util/TimSort.java:506-526 | `mergeCollapse` keeps every run at least `m` long when every run was |
| RunStack.Least | java/util/TimSort.java:182-198 | the least lengths of the runs of a balanced stack grow faster than the run above: each row's next length exceeds its least |
| RunStack.TopLeast | java/util/TimSort.java:182-198 | the run `j` places below the top of a balanced stack of runs none shorter than `m` is at least `Least(m, j).least` long |
| RunStack.SumLeast | java/util/TimSort.java:182-198 | such a stack holds at least `Least(m, |L|).total` elements |
| RunStack.LeastTotalGrows | java/util/TimSort.java:182-198 | more balanced runs need at least as many elements |
| RunStack.LeastTotalBelow | java/util/TimSort.java:182-198 | fewer elements than `k` runs need means fewer than `k` runs |
| RunStack.LeastNext | java/util/TimSort.java:182-198 | each row of the table of least lengths follows from the row before |
| RunStack.LeastSums | java/util/TimSort.java:196-198 | 5, 10, 24 and 49 balanced runs of at least 16 elements need at least 120, 1542, 119151 and more than `Integer.MAX_VALUE` elements, the thresholds of the constructor |
| RunStack.StackRoom | java/util/TimSort.java:196-198 | the stack the constructor allocates for an array of length `len` has room for more balanced runs of at least 16 elements than `len` elements can fill |
| RunStack.StackLength | java/util/TimSort.java:196-198 | the constructor allocates 5 stack entries exactly for arrays shorter than 120 elements, and never more than 49 |
| RunStack.StackFits | java/util/TimSort.java:196-200 | a balanced stack of runs none shorter than 16 that covers fewer elements than the array leaves room in the stack the constructor allocates for one more run, so `pushRun` never overflows it |
| TimSorting.FillBits | java/util/TimSort.java:1049-1054 | the shift-and-or steps never make the number smaller |
| TimSorting.FillBitsPower | java/util/TimSort.java:1049-1055 | one more than the filled number is the least power of two above `minCapacity`, at most twice it |
| TimSorting.FillBitsBelow | java/util/TimSort.java:1057-1058 | filling the bits of a number below `2^k` stays below `2^k`, so for an `int` the increment does not overflow and the negative branch is never taken |
| TimSorting.NewCapacity | java/util/TimSort.java:1049-1060 | the new temporary length is half the array, `minCapacity` itself, or a power of two above `minCapacity` and at most twice it; when `minCapacity` fits in half the array it lies between the two |
| TimSorting.LoMergeRuns | java/util/TimSort.java:811-914 | the body of `mergeLo` leaves exactly the stable merge of the two runs in place and the rest of the array unchanged |
| TimSorting.LoMergeLoop | java/util/TimSort.java:836-913 | the `outer` loop of `mergeLo` and its ending leave exactly the stable merge in `[base1, end)` and the array outside it as it was |
| TimSorting.LoPairwise | java/util/TimSort.java:845-860 | the one-at-a-time phase of `mergeLo` keeps the merge state and shrinks the runs, ending with the first run down to one element, the second used up, or both non-empty |
| TimSorting.LoGallop | java/util/TimSort.java:867-898 | the galloping phase of `mergeLo` keeps the merge state, shrinks the runs, and leaves `minGallop` at least 2 when it returns to the pairwise phase |
| TimSorting.LoCopyFirst | java/util/TimSort.java:869-877 | `gallopRight` finds the `count1` first-run elements ranked no higher than the second run's head, which are copied out, and the first run is not used up |
| TimSorting.LoCopySecond | java/util/TimSort.java:882-890 | `gallopLeft` finds the `count2` second-run elements ranked below the first run's head, which are moved down |
| TimSorting.LoFinishOneMove | java/util/TimSort.java:902-905 | with one element left in the first run, the array holds exactly the merge in `[base1, end)` and is unchanged outside it |
| TimSorting.LoFinishRestMove | java/util/TimSort.java:909-913 | with the second run used up, the array holds exactly the merge in `[base1, end)` and is unchanged outside it |
| TimSorting.HiMergeRuns | java/util/TimSort.java:927-1036 | the body of `mergeHi` leaves exactly the stable merge of the two runs in place and the rest of the array unchanged |
| TimSorting.HiMergeLoop | java/util/TimSort.java:956-1035 | the `outer` loop of `mergeHi` and its ending leave exactly the stable merge in `[base1, end)` and the array outside it as it was |
| TimSorting.HiPairwise | java/util/TimSort.java:965-980 | the one-at-a-time phase of `mergeHi` keeps the merge state and shrinks the runs, ending with the first run used up, the second down to one element, or both long enough to go on |
| TimSorting.HiGallop | java/util/TimSort.java:987-1018 | the galloping phase of `mergeHi` keeps the merge state, shrinks the runs, and leaves `minGallop` at least 2 when it returns to the pairwise phase |
| TimSorting.HiCopyFirst | java/util/TimSort.java:989-997 | `gallopRight` finds the `count1` top first-run elements ranked above the second run's top, which are moved up |
| TimSorting.HiShiftFirst | java/util/TimSort.java:990-994 | moving the first run's top `count1` elements, all ranked above the second run's top, up in one arraycopy keeps the mergeHi state and leaves the array below them untouched |
| TimSorting.HiCopySecond | java/util/TimSort.java:1002-1010 | `gallopLeft` finds the `count2` top second-run elements ranked at least as high as the first run's top, which are copied back, and the second run keeps at least one element |
| TimSorting.HiFinishOneMove | java/util/TimSort.java:1022-1027 | with one element left in the second run, the array holds exactly the merge in `[base1, end)` |
| TimSorting.HiFinishRestMove | java/util/TimSort.java:1031-1035 | with the first run used up, the array holds exactly the merge in `[base1, end)` |
| TimSorting.HeadTrimmed | java/util/TimSort.java:589-594 | after `gallopRight` skips the first run's head already in place, merging the rest gives the same array as merging the whole run; if nothing is left the array is already merged |
| TimSorting.TailTrimmed | java/util/TimSort.java:604-607 | after `gallopLeft` skips the second run's tail already in place, merging the rest gives the same array; if nothing is left the array is already merged |
| TimSorting.TimSort.constructor | java/util/TimSort.java:160-201 | the sorter starts with an empty run stack and `minGallop` at 7; it uses the caller's work array when it has room for `tlen` elements, and a fresh one of `tlen` (half the array, at most 256) otherwise |
| TimSorting.TimSort.PushRun | java/util/TimSort.java:484-488 | the run's start and length go on top of the stack; nothing else changes |
| TimSorting.TimSort.EnsureCapacity | java/util/TimSort.java:1046-1070 | the temporary array it returns holds at least `minCapacity` elements; it is the old one when that was big enough and a fresh one of `NewCapacity` elements otherwise |
| TimSorting.TimSort.MergeLo | java/util/TimSort.java:811-914 | merges two adjacent runs into exactly their stable merge, leaving the rest of the array and the run stack alone |
| TimSorting.TimSort.MergeHi | java/util/TimSort.java:927-1036 | as `MergeLo`, filling from the top with the second run in temporary storage |
| TimSorting.TimSort.MergeAdjacent | java/util/TimSort.java:589-614 | the trimming and merging half of `mergeAt` leaves the stable merge of the two runs in place |
| TimSorting.TimSort.MergeTail | java/util/TimSort.java:600-614 | after the head is trimmed, the tail trim and the choice of `mergeLo` or `mergeHi` leave the stable merge in place |
| TimSorting.TimSort.MergeStackAt | java/util/TimSort.java:573-580 | the stack update of `mergeAt`: run `i` takes the combined length, run `i + 1` goes and the run above it, if any, moves down; the array is untouched |
| TimSorting.TimSort.MergePending | java/util/TimSort.java:582-614 | merging pending runs `i` and `i + 1` in place leaves a stack of sorted runs covering the same range and keeps its ties |
| TimSorting.TimSort.MergeAt | java/util/TimSort.java:549-615 | merges pending runs `i` and `i + 1`: the stack loses one entry as `MergeRuns` says, the array holds the stable merge, the runs still cover the range and equal-ranked elements keep their order |
| TimSorting.TimSort.CollapseChoice | java/util/TimSort.java:507-524 | the test at the head of `mergeCollapse`'s loop picks the merge the corrected rule picks |
| TimSorting.TimSort.MergeCollapse | java/util/TimSort.java:506-526 | the run lengths after it are `Collapse` of those before it, the runs cover the same range and ties keep their order |
| TimSorting.TimSort.MergeForceCollapse | java/util/TimSort.java:532-539 | merges until one run is left, covering the whole range, with ties kept in order |
| TimSorting.TimSort.AddRun | java/util/TimSort.java:274-276 | pushing a run and collapsing keeps the stack balanced, every run at least `minRun` long when the pushed one is, and the range covered by sorted runs |
| TimSorting.TimSort.NextPendingRun | java/util/TimSort.java:259-283 | one round of the main loop consumes between 1 and the remaining elements, leaves the stack balanced, and leaves every run at least `minRun` long unless the range is used up |
| TimSorting.TimSort.PushRuns | java/util/TimSort.java:255-284 | the main loop leaves a non-empty stack of sorted runs covering `[lo, hi)` and a rearrangement that keeps ties in order |
| TimSorting.NextRun | java/util/TimSort.java:259-270 | the next run is non-empty, sorted, at least `minRun` long unless the range ends first, and a tie-preserving rearrangement |
| TimSorting.AscendingRun | java/util/TimSort.java:259 | `countRunAndMakeAscending` leaves a non-empty sorted run, rearranged with ties kept in order |
| TimSorting.ExtendRun | java/util/TimSort.java:264-269 | `binarySort` extends a sorted prefix to a sorted range, keeping ties in order |
| TimSorting.Sort | java/util/TimSort.java:225-292 | `a[lo..hi]` ends up sorted, a permutation of what it was, with equal-ranked elements in their original order and the rest of the array unchanged |
| TimSorting.MiniSort | java/util/TimSort.java:237-244 | fewer than 32 elements are sorted by their first run and binary insertion, stably |
| TimSorting.SortRuns | java/util/TimSort.java:252-291 | the run-merging branch of `sort` sorts `a[lo..hi]` stably |
| JavaInts.Wrap | java/util/concurrent/Semaphore.java:244 | the Java `int` a mathematical value wraps to: in range, congruent to it modulo 2^32, and the value itself when it fits |
| JavaInts.Add | java/util/concurrent/Semaphore.java:268 | `int` addition: the true sum when it fits, and 2^32 less or more when it overflows upwards or downwards |
| JavaInts.Sub | java/util/concurrent/Semaphore.java:285 | `int` subtraction: the true difference when it fits, and 2^32 less or more when it overflows upwards or downwards |
| TimSorting.LoStartMove | java/util/TimSort.java:823 | moving the second run's head to the front establishes the mergeLo state |
| TimSorting.LoMoveRight | java/util/TimSort.java:848 | `a[dest++] = a[cursor2++]`, taken when the second run's head is ranked lower, keeps the mergeLo state |
| TimSorting.LoMoveLeft | java/util/TimSort.java:854 | `a[dest++] = tmp[cursor1++]`, taken on ties too, keeps the mergeLo state |
| TimSorting.LoPairStep | java/util/TimSort.java:847-859 | one pairwise comparison of `mergeLo` takes exactly one element from one run and keeps the mergeLo state |
| TimSorting.LoGallopFirst | java/util/TimSort.java:869-880 | the first half of a galloping round of `mergeLo` keeps the merge state and shrinks the runs |
| TimSorting.LoGallopSecond | java/util/TimSort.java:882-893 | the second half of a galloping round of `mergeLo` keeps the merge state and shrinks the runs |
| TimSorting.HiStartMove | java/util/TimSort.java:941 | moving the first run's last element to the top establishes the mergeHi state |
| TimSorting.HiMoveLeft | java/util/TimSort.java:968 | `a[dest--] = a[cursor1--]`, taken when the second run's top is ranked lower, keeps the mergeHi state |
| TimSorting.HiMoveRight | java/util/TimSort.java:974 | `a[dest--] = tmp[cursor2--]`, taken on ties too, keeps the mergeHi state |
| TimSorting.HiPairStep | java/util/TimSort.java:967-979 | one pairwise comparison of `mergeHi` takes exactly one element from one run and keeps the mergeHi state |
| TimSorting.HiGallopFirst | java/util/TimSort.java:989-1000 | the first half of a galloping round of `mergeHi` keeps the merge state and shrinks the runs |
| TimSorting.HiGallopSecond | java/util/TimSort.java:1002-1013 | the second half of a galloping round of `mergeHi` keeps the merge state and shrinks the runs |
| TimSorting.TimSort.MergeCore | java/util/TimSort.java:611-614 | `mergeLo` when the first run is no longer than the second, `mergeHi` otherwise; either way the two runs become exactly their stable merge |

## Left out

Contracts that deliberately depart from the source, each headed by the member concerned:

- SemaphoreModel.Semaphore.NonfairTryAcquireShared: computes `available - acquires` as a true difference, where the source's `int` subtraction wraps (Semaphore.java:244). The as-written member is `NonfairTryAcquireSharedAsWritten`; see Findings.
- SemaphoreModel.Semaphore.FairTryAcquireShared: built on the corrected difference, where Semaphore.java:356 wraps as :244 does.
- SemaphoreModel.Semaphore.TryAcquireShared: built on the corrected difference, so a semaphore holding `Integer.MIN_VALUE` permits refuses the acquire instead of wrapping to `Integer.MAX_VALUE`.
- SemaphoreModel.Semaphore.TryAcquire: as `TryAcquireShared`; `tryAcquire()` on `Integer.MIN_VALUE` permits returns false here, true in the source.
- SemaphoreModel.Semaphore.TryAcquireN: as `TryAcquire`, for any count whose subtraction overflows.
- SemaphoreModel.Semaphore.Acquire: as `TryAcquireShared`, for the first attempt of `acquire(int)`.
- SemaphoreModel.Semaphore.AcquireUninterruptibly: as `Acquire`.
- SemaphoreModel.Semaphore.TryAcquireTimed: as `Acquire`. Also, only the first attempt is modelled; the timed wait is left out (see below).
- StampedLockModel.StampedLock.TryConvertToReadLock: downgrading a write stamp goes through the `ORIGIN` wrap guard of `unlockWrite`. The source (StampedLock.java:917) adds `WBIT + RUNIT` with no guard, so the version can wrap to 0. The as-written member is `TryConvertToReadLockAsWritten`; see Findings.
- TimSorting.TimSort.MergeCollapse: runs the corrected merge choice `RunStack.Choice`, which also merges when the fourth run from the top is no longer than the two above it. TimSort.java:511 tests only the top three runs (`RunStack.ChoiceAsWritten`); see Findings.
- TimSorting.TimSort.CollapseChoice: the test at the head of the corrected loop, with the extra disjunct `n > 1 && runLen[n - 2] <= runLen[n - 1] + runLen[n]` that TimSort.java:511 lacks.
- TimSorting.TimSort.AddRun: its `Balanced` result, and the `Balanced` invariant of `NextPendingRun`, `PushRuns`, `SortRuns` and `Sort` that carries the bound `RunStack.StackFits`, hold for the corrected collapse only. The sorted, stable result does not depend on the choice.
- TimSorting.TimSort.MergeLo: the comparator is an integer rank, so every comparator is a consistent total preorder. The `IllegalArgumentException("Comparison method violates its general contract!")` branch (TimSort.java:906-908) cannot be reached and is proved dead in `LoMergeLoop`.
- TimSorting.TimSort.MergeHi: as `MergeLo`, for the branch at TimSort.java:1028-1030, proved dead in `HiMergeLoop`.
- TimSorting.Sort: a comparator that is not a total preorder, or that throws, is not modelled, for the same reason. The work array must be distinct from the array being sorted. The JDK callers pass null or a separate array.
- StampedLockModel.StampedLock.TryIncReaderOverflow: `readerOverflow` is an unbounded integer. The source's field is a 32-bit `int` (StampedLock.java:524) incremented at :1211, and would wrap after 2^31 overflowing readers.
- StampedLockModel.ReadLockCount: the `(int)` cast of `getReadLockCount` (StampedLock.java:1025) is the identity here, as `readerOverflow` does not wrap.
- FutureTaskModel.FutureTask.FinishCompletion: the waiter stack is detached and every waiter's thread cleared and reported as unparked, from the top of the stack down. The per-node `q.next = null` (FutureTask.java:548), which only helps the garbage collector, is not modelled. The `done()` hook (:556, empty at :325) is an overridable callback with no behaviour here.

Concurrency, blocking and time:

- Each CAS retry loop (`for (;;)` around `compareAndSet*`) is one atomic step. With a single thread the first CAS succeeds. This applies to `StampedLockModel.StampedLock.TryReadLock`, `UnlockRead`, `Unlock` and the `TryConvertTo*` methods; to `SemaphoreModel.Semaphore.NonfairTryAcquireShared`, `TryReleaseShared`, `SyncReducePermits` and `DrainPermits`; and to `QueuedSynchronizers.Sync.Enq`, `AddWaiter`, `DoReleaseShared` and `ShouldParkAfterFailedAcquire`. Interleavings, memory fences (`loadFence`) and `Unsafe` offsets are not modelled.
- Parking, unparking, interrupts and timeouts are outcomes, not waits. `Acquire`, `AcquireUninterruptibly` and `TryAcquireTimed` report that the caller must wait. `PipedInputStream.Receive` and `Read` report a wait where the source loops on `wait(1000)`. An unparked thread is reported as the node or thread it belongs to.
- AbstractQueuedSynchronizer's acquire loops (`acquireQueued`, `doAcquire*`, `acquire*`, `tryAcquireNanos`), `cancelAcquire`, `parkAndCheckInterrupt`, `selfInterrupt` and the `ConditionObject` `await*` methods are about waiting threads and are not modelled. Their queue steps are: `addWaiter`, `shouldParkAfterFailedAcquire`, `setHead`, `setHeadAndPropagate`, `fullyRelease` and `isOnSyncQueue`.
- AbstractQueuedSynchronizer's monitoring methods that return threads or counts over threads (`getQueueLength`, `getQueuedThreads`, `getExclusiveQueuedThreads`, `getSharedQueuedThreads`, `getWaitingThreads`, `getFirstQueuedThread`, `isQueued`, `owns`, `toString`) are thin wrappers and are not modelled.
- StampedLock's blocking acquisitions (`writeLock`, `readLock`, the timed and interruptible variants), its wait queue of `WNode`s (`acquireWrite`, `acquireRead`, `release`, `cancelWaiter`, the randomized spinning), `unstampedUnlock*` and the `Lock` views (`asReadLock`, `asWriteLock`, `asReadWriteLock`) are not modelled. `TryConvertToReadLock` and `UnlockWrite` do not wake a queued thread.
- Semaphore's no-count methods (`acquire()`, `acquireUninterruptibly()`, `release()`, `tryAcquire(long, TimeUnit)`) are the count-1 cases of the modelled ones. `isFair`, `hasQueuedThreads`, `getQueueLength`, `getQueuedThreads` and `toString` are wrappers over the synchronizer and are not modelled.
- FutureTask's `get`, `get(timeout)` and `awaitDone` block. Only `awaitDone`'s push of a new waiter (`PushWaiter`) and `report` are modelled. `handlePossibleCancellationInterrupt` only yields the thread and is not modelled. The callable of `run`/`runAndReset` is a parameter giving its outcome.
- PipedInput.PipedInputStream.Connect: PipedOutputStream is not part of this model, so its null-argument check and its own `sink != null` test are left out; only this end's `connected` test is modelled.
- PipedInputStream: the liveness of the reader and writer threads is a parameter of `ReceiveCheck` and `Read`. The `awaitSpace` loop, the `trials` counter of `read()` and `notifyAll` are not modelled, and `synchronized` is not modelled.

Operations not modelled:

- LinkedLists.LinkedList.Clear: the `x.item = null` of LinkedList.java:611 is not modelled. Items are of a generic type with no null. The detached nodes are unreachable from the list, so their items can no longer be read through it.
- LinkedList: the `Deque` and `Queue` wrappers (`peek`, `element`, `poll`, `offer`, `push`, `pop` and their first/last forms, LinkedList.java:840-1007) are thin calls to the modelled `getFirst`, `unlinkFirst`, `linkLast` and friends. `addFirst` and `addLast` are `LinkFirst` and `LinkLast`. Also left out are `removeFirstOccurrence`/`removeLastOccurrence` (LinkedList.java:1017-1051), `clone`, `toArray`, serialization, the spliterator, `descendingIterator`, `ListItr.forEachRemaining`, `ListItr.nextIndex` and `previousIndex`. Java `equals` and the `null` branches of `indexOf`/`remove(Object)` are one equality test.
- HeapByteBuffer: `asReadOnlyBuffer` builds a `HeapByteBufferR`, which is not part of this model. The typed accessors and views (`getChar` to `putDouble`, `as*Buffer`) go through `Bits` and view classes that are not part of this model, and involve floating point. In `put(ByteBuffer)` only the heap-buffer branch (HeapByteBuffer.java:253-267) is modelled. The direct-buffer and generic branches (:269-279) are not. The `Buffer` base class is modelled as the fields `mark <= position <= limit <= capacity`.
- DistinctOps: the parallel paths (`reduce`, `evaluateParallel`, `evaluateParallelLazy`, the `ConcurrentHashMap` set) and the stream-pipeline plumbing are not modelled. The downstream sink records what it receives.
- TimSorting.FillBits: defined on integers as `n` with every bit below its highest 1 bit set. That it equals the five `newSize |= newSize >> k` steps of TimSort.java:1049-1053 on a positive `int` is taken from the bit arithmetic and not proved. The model has no 32-bit bit-vector counterpart of those steps.
- TimSort: `>>>` on a non-negative `int` is division by 2. `Array.newInstance` is a fresh array.
- `System.arraycopy` is not part of the modelled source. `ArrayCopy.Copy` states its documented behaviour.

## Findings

| source | as written | input that shows it | evidently intended | confidence | as-written member | corrected member |
|---|---|---|---|---|---|---|
| java/util/concurrent/Semaphore.java:244 | `int remaining = available - acquires;` wraps, and the sign of the wrapped value decides | `new Semaphore(Integer.MIN_VALUE)` then `tryAcquire()`: `MIN_VALUE - 1` wraps to `MAX_VALUE`, the acquire succeeds and leaves `Integer.MAX_VALUE` permits | an acquire succeeds only when at least `acquires` permits are available, and then takes exactly that many | not executed | SemaphoreModel.Semaphore.NonfairTryAcquireSharedAsWritten, SemaphoreModel.MinPermitsAcquireAsWritten | SemaphoreModel.Semaphore.NonfairTryAcquireShared, SemaphoreModel.MinPermitsAcquire |
| java/util/concurrent/locks/StampedLock.java:917 | `state = next = s + (WBIT + RUNIT)` has no `ORIGIN` guard, unlike `unlockWrite` at :779 | the write stamp at state `2^64 - 128` (the last version before the wrap): the downgrade returns 1, with version 0 and one reader; after `unlockRead` the state is 0, `tryOptimisticRead()` returns 0, and `validate(0)` holds | the version wraps to `ORIGIN`, never to 0, so a zero stamp never validates | not executed | StampedLockModel.StampedLock.TryConvertToReadLockAsWritten, StampedLockModel.DowngradeAtWrapAsWritten | StampedLockModel.StampedLock.TryConvertToReadLock, StampedLockModel.DowngradeAtWrap |
| java/util/TimSort.java:506-526 | `mergeCollapse` checks only the top three runs (`runLen[n-1] <= runLen[n] + runLen[n+1]` and `runLen[n] <= runLen[n+1]`) | the run lengths `[120, 80, 25, 20]` with a run of 30 pushed: it merges 25 and 20 and stops at `[120, 80, 45, 30]`, where `120 > 80 + 45` fails | the invariants of the doc comment at :490-499 hold for the whole stack after every call | not executed | RunStack.ChoiceAsWritten, RunStack.CollapseAsWrittenUnbalanced | RunStack.Choice, RunStack.CollapseBalanced |
