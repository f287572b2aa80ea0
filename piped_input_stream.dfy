// java.io.PipedInputStream: the circular buffer between a piped output stream
// (the writer, which calls `receive`) and this stream (the reader).
// `in < 0` means the buffer is empty and `in == out` that it is full; the
// bytes held run from `out` up to `in`, wrapping at the end of the array.
// Waiting for room or for data is an explicit `Blocked` outcome, and
// whether the peer thread is still alive is a parameter.
//
// Contracts write some predicates as `P(...) == true`: the comparison keeps
// the predicate as one fact rather than unfolded into its conjuncts, which
// keeps the proofs that carry it small.
module PipedInput {
  import opened Outcomes
  import ArrayCopy

  /** `DEFAULT_PIPE_SIZE`, the buffer size of the no-size constructors. */
  const DEFAULT_PIPE_SIZE: int := 1024

  /** What a pipe operation does: completes with a value, throws, or waits. */
  datatype PipeOutcome<T> = Completed(value: T) | Failed(error: JavaException) | Blocked

  /** The shape of the `in`/`out` indices over a buffer of `length` bytes. */
  predicate RingIndices(length: int, inPos: int, outPos: int)
  {
    0 < length && -1 <= inPos < length && 0 <= outPos < length
  }

  /** The bytes held by the ring, oldest first. */
  function Ring(buf: seq<bv8>, inPos: int, outPos: int): (r: seq<bv8>)
    requires RingIndices(|buf|, inPos, outPos)
    ensures |r| <= |buf|
    ensures |r| == 0 <==> inPos < 0
    ensures inPos == outPos ==> |r| == |buf|
  {
    if inPos < 0 then []
    else if inPos > outPos then buf[outPos..inPos]
    else buf[outPos..] + buf[..inPos]
  }

  /** `available()` over the indices. */
  function AvailableIn(length: int, inPos: int, outPos: int): (n: int)
    requires RingIndices(length, inPos, outPos)
    ensures forall buf: seq<bv8> {:trigger Ring(buf, inPos, outPos)} :: |buf| == length ==> n == |Ring(buf, inPos, outPos)|
  {
    if inPos < 0 then 0
    else if inPos == outPos then length
    else if inPos > outPos then inPos - outPos
    else inPos + length - outPos
  }

  /**
   * The free run that `receive(byte[], int, int)` fills next: up to the end
   * of the array past the data, up to `out` when the free space is between
   * them, the whole array when empty, nothing when full.
   */
  function FreeRun(length: int, inPos: int, outPos: int): int
    requires RingIndices(length, inPos, outPos)
  {
    if outPos < inPos then length - inPos
    else if inPos < outPos then (if inPos == -1 then length else outPos - inPos)
    else 0
  }

  /** The held run that `read(byte[], int, int)` copies next: up to `in` or up to the end of the array. */
  function HeldRun(length: int, inPos: int, outPos: int): int
    requires RingIndices(length, inPos, outPos) && 0 <= inPos
  {
    if inPos > outPos then inPos - outPos else length - outPos
  }

  /** Where the next byte is written: an empty ring restarts both indices at 0. */
  function WriteStart(inPos: int): int
  {
    if inPos < 0 then 0 else inPos
  }

  function ReadStart(inPos: int, outPos: int): int
  {
    if inPos < 0 then 0 else outPos
  }

  /** Advancing an index that has reached the end of the array wraps it to 0. */
  function WrapIndex(i: int, length: int): int
  {
    if i >= length then 0 else i
  }

  /**
   * Filling the free run from its start appends the new bytes to the ring,
   * for any number of bytes that fits the run.
   */
  lemma RingFill(buf: seq<bv8>, inPos: int, outPos: int, src: seq<bv8>)
    requires RingIndices(|buf|, inPos, outPos) && inPos != outPos
    requires 0 < |src| <= FreeRun(|buf|, inPos, outPos)
    ensures WriteStart(inPos) + |src| <= |buf|
    ensures RingIndices(|buf|, WrapIndex(WriteStart(inPos) + |src|, |buf|), ReadStart(inPos, outPos))
    ensures Ring(buf[..WriteStart(inPos)] + src + buf[WriteStart(inPos) + |src|..],
                 WrapIndex(WriteStart(inPos) + |src|, |buf|), ReadStart(inPos, outPos))
            == Ring(buf, inPos, outPos) + src
  {
    var start, end := WriteStart(inPos), WriteStart(inPos) + |src|;
    var buf' := buf[..start] + src + buf[end..];
    var in', out' := WrapIndex(end, |buf|), ReadStart(inPos, outPos);
    assert |buf'| == |buf|;
    assert buf'[start..end] == src;
    if inPos < 0 {
      if end < |buf| {
        assert Ring(buf', in', out') == buf'[0..end];
      } else {
        assert buf'[out'..] == src;
      }
    } else if outPos < inPos {
      assert buf'[outPos..inPos] == buf[outPos..inPos];
      if end < |buf| {
        assert buf'[outPos..end] == buf'[outPos..inPos] + buf'[inPos..end];
      } else {
        assert buf'[outPos..] == buf'[outPos..inPos] + buf'[inPos..end];
        assert Ring(buf', in', out') == buf'[outPos..] + buf'[..0];
      }
    } else {
      assert buf'[outPos..] == buf[outPos..];
      assert buf'[..end] == buf[..inPos] + src;
    }
  }

  /**
   * Taking `n` bytes from the start of the held run yields the ring's first
   * `n` bytes and leaves the rest, marking the ring empty when `out` meets `in`.
   */
  lemma RingDrain(buf: seq<bv8>, inPos: int, outPos: int, n: int)
    requires RingIndices(|buf|, inPos, outPos) && 0 <= inPos
    requires 0 < n <= HeldRun(|buf|, inPos, outPos)
    ensures outPos + n <= |buf| && n <= |Ring(buf, inPos, outPos)|
    ensures buf[outPos..outPos + n] == Ring(buf, inPos, outPos)[..n]
    ensures var out' := WrapIndex(outPos + n, |buf|);
            var in' := if inPos == out' then -1 else inPos;
            RingIndices(|buf|, in', out') && Ring(buf, in', out') == Ring(buf, inPos, outPos)[n..]
  {
    var r := Ring(buf, inPos, outPos);
    if inPos > outPos {
      assert buf[outPos..outPos + n] == r[..n];
      if outPos + n < inPos {
        assert buf[outPos + n..inPos] == r[n..];
      }
    } else {
      assert r == buf[outPos..] + buf[..inPos];
      assert buf[outPos..outPos + n] == r[..n];
      if outPos + n < |buf| {
        assert buf[outPos + n..] + buf[..inPos] == r[n..];
      } else {
        assert r[n..] == buf[..inPos];
        if inPos > 0 {
          assert Ring(buf, inPos, 0) == buf[0..inPos];
        }
      }
    }
  }

  /** Appending the next `n` held bytes behind the `rlen` already copied to `b[off..]`. */
  lemma Extend(outside: seq<bv8>, held: seq<bv8>, off: int, rlen: int, n: int, before: seq<bv8>, after: seq<bv8>)
    requires 0 <= off && 0 <= rlen && 0 <= n && rlen + n <= |held| && off + rlen + n <= |outside|
    requires before == outside[..off] + held[..rlen] + outside[off + rlen..]
    requires after == before[..off + rlen] + held[rlen..][..n] + before[off + rlen + n..]
    ensures after == outside[..off] + held[..rlen + n] + outside[off + rlen + n..]
  {
    assert before[..off + rlen] == outside[..off] + held[..rlen];
    assert before[off + rlen + n..] == outside[off + rlen + n..];
    assert held[..rlen + n] == held[..rlen] + held[rlen..][..n];
  }

  class PipedInputStream {
    var buffer: array<bv8>
    /** `in`: where the next received byte goes, or -1 when empty. */
    var inPos: int
    /** `out`: where the next byte is read from. */
    var outPos: int
    var connected: bool
    var closedByWriter: bool
    var closedByReader: bool

    ghost predicate Valid()
      reads this
    {
      RingIndices(buffer.Length, inPos, outPos)
    }

    /** The bytes received and not yet read, oldest first. */
    function Buffered(): (r: seq<bv8>)
      reads this, buffer
      requires Valid()
      ensures |r| <= buffer.Length
    {
      Ring(buffer[..], inPos, outPos)
    }

    /** `initPipe(pipeSize)` on a positive size; the stream starts unconnected and empty. */
    constructor Sized(pipeSize: int)
      requires pipeSize > 0
      ensures Valid() && fresh(buffer) && buffer.Length == pipeSize
      ensures Buffered() == [] && !connected && !closedByWriter && !closedByReader
    {
      buffer := new bv8[pipeSize];
      inPos := -1;
      outPos := 0;
      connected := false;
      closedByWriter := false;
      closedByReader := false;
    }

    /** `new PipedInputStream(pipeSize)`: `initPipe` rejects a size that is not positive. */
    static method Open(pipeSize: int) returns (r: Result<PipedInputStream>)
      ensures r.Err? <==> pipeSize <= 0
      ensures r.Err? ==> r.error == IllegalArgument
      ensures r.Ok? ==> fresh(r.value) && fresh(r.value.buffer) && r.value.Valid()
      ensures r.Ok? ==> r.value.buffer.Length == pipeSize && r.value.Buffered() == [] && !r.value.connected
    {
      if pipeSize <= 0 {
        return Err(IllegalArgument);
      }
      var p := new PipedInputStream.Sized(pipeSize);
      return Ok(p);
    }

    /** `new PipedInputStream()`. */
    static method OpenDefault() returns (p: PipedInputStream)
      ensures fresh(p) && fresh(p.buffer) && p.Valid()
      ensures p.buffer.Length == DEFAULT_PIPE_SIZE && p.Buffered() == [] && !p.connected
    {
      p := new PipedInputStream.Sized(DEFAULT_PIPE_SIZE);
    }

    /**
     * What `PipedOutputStream.connect(snk)` does to this end: a stream that
     * is already connected is refused with an `IOException` and keeps its
     * bytes; otherwise the buffer is emptied and the pipe marked connected.
     */
    method Connect() returns (st: Status)
      requires Valid()
      modifies this
      ensures Valid()
      ensures st.Thrown? <==> old(connected)
      ensures st.Thrown? ==> st.error == IOError && unchanged(this)
      ensures st.Done? ==> connected && Buffered() == []
      ensures buffer == old(buffer) && closedByWriter == old(closedByWriter) && closedByReader == old(closedByReader)
    {
      if connected {
        return Thrown(IOError);
      }
      inPos := -1;
      outPos := 0;
      connected := true;
      return Done;
    }

    /** `checkStateForReceive()`: the error, if any, that stops the writer. */
    function ReceiveCheck(readerGone: bool): (e: Option<JavaException>)
      reads this
      ensures e.Some? <==> !connected || closedByWriter || closedByReader || readerGone
      ensures e.Some? ==> e.value == IOError
    {
      if !connected then Some(IOError)
      else if closedByWriter || closedByReader then Some(IOError)
      else if readerGone then Some(IOError)
      else None
    }

    /**
     * `receive(int b)`: stores the low byte of `b` behind the held bytes;
     * a full buffer makes the writer wait.
     */
    method Receive(b: int, readerGone: bool) returns (r: PipeOutcome<()>)
      requires Valid()
      modifies this, buffer
      ensures Valid() && buffer == old(buffer)
      ensures r.Failed? <==> ReceiveCheck(readerGone).Some?
      ensures r.Failed? ==> r.error == IOError
      ensures r.Blocked? <==> ReceiveCheck(readerGone).None? && |old(Buffered())| == buffer.Length
      ensures r.Completed? ==> Buffered() == old(Buffered()) + [(b % 256) as bv8]
      ensures !r.Completed? ==> Buffered() == old(Buffered())
      ensures connected == old(connected) && closedByReader == old(closedByReader) && closedByWriter == old(closedByWriter)
    {
      var check := ReceiveCheck(readerGone);
      if check.Some? {
        return Failed(check.value);
      }
      if inPos == outPos {
        // awaitSpace(): wait until the reader makes room.
        return Blocked;
      }
      ghost var held := Buffered();
      ghost var before := buffer[..];
      RingFill(before, inPos, outPos, [(b % 256) as bv8]);
      if inPos < 0 {
        inPos := 0;
        outPos := 0;
      }
      buffer[inPos] := (b % 256) as bv8;
      assert buffer[..] == before[..inPos] + [(b % 256) as bv8] + before[inPos + 1..];
      inPos := inPos + 1;
      if inPos >= buffer.Length {
        inPos := 0;
      }
      return Completed(());
    }

    /**
     * `receive(byte[] b, int off, int len)`: copies `b[off, off+len)` in
     * runs of free space.  When the buffer fills before everything is copied
     * the writer waits; `transferred` says how many bytes went in first.
     */
    method ReceiveBytes(b: array<bv8>, off: int, len: int, readerGone: bool) returns (transferred: int, r: PipeOutcome<()>)
      requires Valid() && b != buffer
      requires 0 <= off && 0 <= len && off + len <= b.Length
      modifies this, buffer
      ensures Valid() && buffer == old(buffer)
      ensures 0 <= transferred <= len
      ensures Buffered() == old(Buffered()) + b[off..off + transferred]
      ensures r.Failed? <==> ReceiveCheck(readerGone).Some?
      ensures r.Failed? ==> r.error == IOError && transferred == 0
      ensures r.Completed? ==> transferred == len
      ensures r.Blocked? ==> transferred < len && |Buffered()| == buffer.Length
      ensures connected == old(connected) && closedByReader == old(closedByReader) && closedByWriter == old(closedByWriter)
    {
      var check := ReceiveCheck(readerGone);
      if check.Some? {
        return 0, Failed(check.value);
      }
      transferred := CopyRuns(b, off, len);
      if transferred < len {
        // awaitSpace(): wait until the reader makes room.
        return transferred, Blocked;
      }
      return len, Completed(());
    }

    /**
     * The copy loop of `receive(byte[], int, int)`: fills free runs from
     * `b[off..off + len]` until everything is in or the buffer is full.
     */
    method CopyRuns(b: array<bv8>, off: int, len: int) returns (transferred: int)
      requires Valid() && b != buffer
      requires 0 <= off && 0 <= len && off + len <= b.Length
      modifies this`inPos, this`outPos, buffer
      ensures Valid() && 0 <= transferred <= len
      ensures Buffered() == old(Buffered()) + b[off..off + transferred]
      ensures transferred < len ==> |Buffered()| == buffer.Length
    {
      ghost var held := Buffered();
      var bytesToTransfer := len;
      var pos := off;
      // The writer stops when the buffer is full (`in == out`), where `awaitSpace()` waits.
      while bytesToTransfer > 0 && inPos != outPos
        invariant Filling(b, held, off, pos) == true
        invariant pos == off + len - bytesToTransfer && 0 <= bytesToTransfer
        decreases bytesToTransfer
      {
        var n := FillStep(b, held, off, pos, bytesToTransfer);
        bytesToTransfer := bytesToTransfer - n;
        pos := pos + n;
      }
      transferred := pos - off;
      assert Buffered() == held + b[off..off + transferred];
    }

    /** The loop state of `ReceiveBytes`: `b[off..pos]` has been appended to the bytes held before. */
    ghost predicate Filling(b: array<bv8>, held: seq<bv8>, off: int, pos: int)
      reads this, buffer, b
    {
      && Valid() && b != buffer
      && 0 <= off <= pos <= b.Length
      && Buffered() == held + b[off..pos]
    }

    method FillStep(b: array<bv8>, ghost held: seq<bv8>, off: int, pos: int, max: int) returns (n: int)
      requires Filling(b, held, off, pos) == true
      requires inPos != outPos && 0 < max && pos + max <= b.Length
      modifies this`inPos, this`outPos, buffer
      ensures 0 < n <= max && Filling(b, held, off, pos + n) == true
    {
      n := PutRun(b, pos, max);
      assert b[off..pos + n] == b[off..pos] + b[pos..pos + n];
    }

    /**
     * One pass of the copy loop in `receive(byte[], int, int)`: fills the
     * free run, cut to `max` bytes, from `b[pos..]` and advances `in` past it.
     */
    method PutRun(b: array<bv8>, pos: int, max: int) returns (n: int)
      requires Valid() && b != buffer && inPos != outPos
      requires 0 < max && 0 <= pos && pos + max <= b.Length
      modifies this`inPos, this`outPos, buffer
      ensures Valid()
      ensures 0 < n <= max
      ensures Buffered() == old(Buffered()) + b[pos..pos + n]
    {
      n := FreeRun(buffer.Length, inPos, outPos);
      if n > max {
        n := max;
      }
      RingFill(buffer[..], inPos, outPos, b[pos..pos + n]);
      var start := WriteStart(inPos);
      ArrayCopy.Copy(b, pos, buffer, start, n);
      inPos, outPos := WrapIndex(start + n, buffer.Length), ReadStart(inPos, outPos);
    }

    /** `receivedLast()`: the writer has closed its end. */
    method ReceivedLast()
      modifies this
      ensures closedByWriter
      ensures buffer == old(buffer) && inPos == old(inPos) && outPos == old(outPos)
      ensures connected == old(connected) && closedByReader == old(closedByReader)
    {
      closedByWriter := true;
    }

    /**
     * `read()`: the oldest byte as a value in 0..255, or -1 once the writer
     * has closed and the buffer is empty; an empty buffer with a live writer
     * makes the reader wait.
     */
    method Read(writerGone: bool) returns (r: PipeOutcome<int>)
      requires Valid()
      modifies this
      ensures Valid() && buffer == old(buffer)
      ensures r.Failed? <==> !connected || closedByReader || (writerGone && !closedByWriter && old(inPos) < 0)
      ensures r.Failed? ==> r.error == IOError
      ensures r.Blocked? <==> !r.Failed? && old(inPos) < 0 && !closedByWriter
      ensures r.Completed? && old(Buffered()) == [] ==> r.value == -1
      ensures r.Completed? && old(Buffered()) != [] ==> r.value == old(Buffered())[0] as int && Buffered() == old(Buffered())[1..]
      ensures !r.Completed? || old(Buffered()) == [] ==> Buffered() == old(Buffered())
      ensures r.Completed? ==> -1 <= r.value <= 255
      ensures connected == old(connected) && closedByReader == old(closedByReader) && closedByWriter == old(closedByWriter)
    {
      if !connected {
        return Failed(IOError);
      } else if closedByReader {
        return Failed(IOError);
      } else if writerGone && !closedByWriter && inPos < 0 {
        return Failed(IOError);
      }
      if inPos < 0 {
        if closedByWriter {
          return Completed(-1);
        }
        // wait(1000) until the writer delivers; a dead writer was reported above.
        return Blocked;
      }
      var ret := TakeByte();
      return Completed(ret);
    }

    /** The end of `read()` on a non-empty buffer: the byte at `out`, which then advances. */
    method TakeByte() returns (v: int)
      requires Valid() && 0 <= inPos
      modifies this`inPos, this`outPos
      ensures Valid() && old(Buffered()) != []
      ensures v == old(Buffered())[0] as int && Buffered() == old(Buffered())[1..]
    {
      RingDrain(buffer[..], inPos, outPos, 1);
      v := buffer[outPos] as int;
      outPos := outPos + 1;
      if outPos >= buffer.Length {
        outPos := 0;
      }
      if inPos == outPos {
        inPos := -1;
      }
    }

    /**
     * `read(byte[] b, int off, int len)`: after the bounds checks, reads
     * one byte as `read()` does and then copies whole runs, stopping when
     * `len` bytes are read or the buffer is empty.
     */
    method ReadBytes(b: array?<bv8>, off: int, len: int, writerGone: bool) returns (r: PipeOutcome<int>)
      requires Valid() && b != buffer
      modifies this, b
      ensures Valid() && buffer == old(buffer)
      ensures b == null ==> r == Failed(NullPointer)
      ensures b != null && (off < 0 || len < 0 || len > b.Length - off) ==> r == Failed(IndexOutOfBounds)
      ensures r.Failed? ==> r.error in {NullPointer, IndexOutOfBounds, IOError}
      ensures !r.Completed? ==> Buffered() == old(Buffered())
      ensures b != null && r.Completed? && r.value == 0 ==> len == 0
      ensures r.Completed? && r.value > 0 ==>
                && b != null && 0 <= off && off + r.value <= b.Length
                && r.value == (if len < |old(Buffered())| then len else |old(Buffered())|)
                && b[..] == old(b[..off]) + old(Buffered())[..r.value] + old(b[off + r.value..])
                && Buffered() == old(Buffered())[r.value..]
      ensures r.Completed? && r.value == -1 ==> old(Buffered()) == [] && closedByWriter
      ensures r.Completed? ==> r.value >= -1
      ensures b != null && 0 <= off && 0 <= len <= b.Length - off && len == 0 ==> r == Completed(0)
      ensures b != null && 0 <= off && 0 <= len <= b.Length - off && r.Failed? ==> r.error == IOError
      ensures b != null && 0 <= off && 0 <= len <= b.Length - off && len > 0 ==>
                (r.Failed? <==> !connected || closedByReader || (writerGone && !closedByWriter && old(inPos) < 0))
                && (r.Blocked? <==> !r.Failed? && old(inPos) < 0 && !closedByWriter)
      ensures b != null && (!r.Completed? || r.value <= 0) ==> b[..] == old(b[..]) && Buffered() == old(Buffered())
      ensures connected == old(connected) && closedByReader == old(closedByReader) && closedByWriter == old(closedByWriter)
    {
      if b == null {
        return Failed(NullPointer);
      } else if off < 0 || len < 0 || len > b.Length - off {
        return Failed(IndexOutOfBounds);
      } else if len == 0 {
        return Completed(0);
      }
      r := ReadAtMost(b, off, len, writerGone);
    }

    /** The part of `read(byte[], int, int)` after its argument checks, for `len > 0`. */
    method ReadAtMost(b: array<bv8>, off: int, len: int, writerGone: bool) returns (r: PipeOutcome<int>)
      requires Valid() && b != buffer
      requires 0 <= off && 0 < len && off + len <= b.Length
      modifies this, b
      ensures Valid() && buffer == old(buffer)
      ensures r.Failed? ==> r.error == IOError
      ensures !r.Completed? ==> Buffered() == old(Buffered())
      ensures r.Completed? ==> r.value == -1 || r.value > 0
      ensures r.Completed? && r.value > 0 ==>
                && off + r.value <= b.Length
                && r.value == (if len < |old(Buffered())| then len else |old(Buffered())|)
                && b[..] == old(b[..off]) + old(Buffered())[..r.value] + old(b[off + r.value..])
                && Buffered() == old(Buffered())[r.value..]
      ensures r.Completed? && r.value == -1 ==> old(Buffered()) == [] && closedByWriter
      ensures r.Failed? <==> !connected || closedByReader || (writerGone && !closedByWriter && old(inPos) < 0)
      ensures r.Blocked? <==> !r.Failed? && old(inPos) < 0 && !closedByWriter
      ensures !r.Completed? || r.value == -1 ==> b[..] == old(b[..]) && Buffered() == old(Buffered())
      ensures connected == old(connected) && closedByReader == old(closedByReader) && closedByWriter == old(closedByWriter)
    {
      ghost var held := Buffered();
      ghost var outside := b[..];
      var c := Read(writerGone);
      if !c.Completed? {
        return if c.Failed? then Failed(c.error) else Blocked;
      }
      if c.value < 0 {
        return Completed(-1);
      }
      var count := Deliver(b, off, len, c.value, held);
      return Completed(count);
    }

    /** Stores the byte `c` that `read()` took from `held`, then copies up to `len - 1` more. */
    method Deliver(b: array<bv8>, off: int, len: int, c: int, ghost held: seq<bv8>) returns (count: int)
      requires Valid() && b != buffer
      requires 0 <= off && 0 < len && off + len <= b.Length
      requires held != [] && c == held[0] as int && Buffered() == held[1..]
      modifies this`inPos, this`outPos, b
      ensures Valid()
      ensures count == (if len < |held| then len else |held|)
      ensures b[..] == old(b[..off]) + held[..count] + old(b[off + count..])
      ensures Buffered() == held[count..]
    {
      ghost var outside := b[..];
      b[off] := c as bv8;
      ghost var first := b[..];
      assert first == outside[..off] + held[..1] + outside[off + 1..];
      var more := ReadRun(b, off + 1, len - 1);
      Extend(outside, held, off, 1, more, first, b[..]);
      return 1 + more;
    }

    /**
     * The copy loop of `read(byte[], int, int)`: moves held bytes to
     * `b[pos..]`, whole runs at a time, until `max` bytes are moved or the
     * buffer is empty.
     */
    method ReadRun(b: array<bv8>, pos: int, max: int) returns (k: int)
      requires Valid() && b != buffer
      requires 0 <= pos && 0 <= max && pos + max <= b.Length
      modifies this`inPos, this`outPos, b
      ensures Valid()
      ensures k == (if max < |old(Buffered())| then max else |old(Buffered())|)
      ensures Buffered() == old(Buffered())[k..]
      ensures b[..] == old(b[..pos]) + old(Buffered())[..k] + old(b[pos + k..])
    {
      ghost var held := Buffered();
      ghost var outside := b[..];
      k := 0;
      while inPos >= 0 && k < max
        invariant Draining(b, outside, held, pos, max, k)
        decreases max - k
      {
        k := DrainStep(b, outside, held, pos, max, k);
      }
    }

    /** The loop state of `ReadRun`: `k` held bytes moved to `b[pos..]`, the rest still held. */
    ghost predicate Draining(b: array<bv8>, outside: seq<bv8>, held: seq<bv8>, pos: int, max: int, k: int)
      reads this, buffer, b
    {
      && Valid() && b != buffer
      && 0 <= pos && 0 <= k <= max && pos + max <= b.Length == |outside|
      && k <= |held|
      && Buffered() == held[k..]
      && b[..] == outside[..pos] + held[..k] + outside[pos + k..]
    }

    method DrainStep(b: array<bv8>, ghost outside: seq<bv8>, ghost held: seq<bv8>, pos: int, max: int, k: int) returns (k': int)
      requires Draining(b, outside, held, pos, max, k) == true
      requires 0 <= inPos && k < max
      modifies this`inPos, this`outPos, b
      ensures Draining(b, outside, held, pos, max, k') == true
      ensures k < k'
    {
      ghost var before, rest := b[..], Buffered();
      var at, room := pos + k, max - k;
      var n := TakeRun(b, at, room);
      assert b[..] == before[..at] + rest[..n] + before[at + n..];
      Extend(outside, held, pos, k, n, before, b[..]);
      k' := k + n;
    }

    /**
     * One pass of the copy loop in `read(byte[], int, int)`: copies the held
     * run, cut to `max` bytes, to `b[pos..]` and advances `out` past it.
     */
    method TakeRun(b: array<bv8>, pos: int, max: int) returns (n: int)
      requires Valid() && b != buffer && 0 <= inPos
      requires 0 < max && 0 <= pos && pos + max <= b.Length
      modifies this`inPos, this`outPos, b
      ensures Valid()
      ensures 0 < n <= max && n <= |old(Buffered())|
      ensures Buffered() == old(Buffered())[n..]
      ensures b[..] == old(b[..pos]) + old(Buffered())[..n] + old(b[pos + n..])
    {
      n := HeldRun(buffer.Length, inPos, outPos);
      if n > max {
        n := max;
      }
      RingDrain(buffer[..], inPos, outPos, n);
      ArrayCopy.Copy(buffer, outPos, b, pos, n);
      var out' := WrapIndex(outPos + n, buffer.Length);
      var in' := if inPos == out' then -1 else inPos;
      inPos, outPos := in', out';
    }

    /** `available()`: the number of bytes held. */
    function Available(): (n: int)
      reads this, buffer
      requires Valid()
      ensures n == |Buffered()|
      ensures 0 <= n <= buffer.Length
    {
      AvailableIn(buffer.Length, inPos, outPos)
    }

    /** `close()`: marks the reader closed and drops the held bytes. */
    method Close()
      requires Valid()
      modifies this
      ensures Valid() && closedByReader && Buffered() == []
      ensures buffer == old(buffer) && connected == old(connected) && closedByWriter == old(closedByWriter)
    {
      closedByReader := true;
      inPos := -1;
    }
  }

  /** A full two-byte pipe makes the writer wait and reports both bytes available. */
  method FullPipeWaits() returns (blocked: bool, avail: int)
    ensures blocked && avail == 2
  {
    var p := new PipedInputStream.Sized(2);
    var _ := p.Connect();
    var _ := p.Receive(10, false);
    var _ := p.Receive(20, false);
    var w := p.Receive(30, false);
    blocked := w.Blocked?;
    avail := p.Available();
  }
}
