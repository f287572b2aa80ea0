// java.io.BufferedOutputStream: a fixed-size staging buffer in front of an
// underlying output stream.  The underlying stream is modelled by the
// sequence of bytes it has received so far.
module BufferedOutput {
  import opened Outcomes

  /** Buffer size used by the one-argument constructor. */
  const DEFAULT_SIZE: int := 8192

  /** A Java `byte`: a signed eight-bit value. */
  newtype byte = x: int | -0x80 <= x < 0x80

  /** Java's `(byte) b` cast: the byte congruent to `b` modulo 256. */
  function LowByte(b: int): (r: byte)
    ensures (r as int - b) % 256 == 0
  {
    ((b + 0x80) % 0x100 - 0x80) as byte
  }

  /** Bounds rule of `OutputStream.write(byte[], int, int)` and `System.arraycopy`. */
  predicate InBounds(length: int, off: int, len: int)
  {
    0 <= off && 0 <= len && off + len <= length
  }

  class BufferedOutputStream {
    var buf: array<byte>
    var count: nat
    /** Every byte handed to the underlying stream, in order. */
    var downstream: seq<byte>
    /** Number of `flush()` calls forwarded to the underlying stream. */
    var downstreamFlushes: nat
    /** Every byte accepted by this stream, in order. */
    ghost var written: seq<byte>

    ghost predicate Valid()
      reads this, buf
    {
      && 0 < buf.Length
      && count <= buf.Length
      && downstream + buf[..count] == written
    }

    /** The bytes still held in the buffer. */
    ghost function Pending(): seq<byte>
      reads this, buf
      requires count <= buf.Length
    {
      buf[..count]
    }

    constructor Sized(size: int)
      requires size > 0
      ensures Valid() && fresh(buf)
      ensures buf.Length == size && count == 0
      ensures downstream == [] && written == [] && downstreamFlushes == 0
    {
      buf := new byte[size];
      count := 0;
      downstream := [];
      downstreamFlushes := 0;
      written := [];
    }

    /** `new BufferedOutputStream(out, size)`, which rejects a size that is not positive. */
    static method Open(size: int) returns (r: Result<BufferedOutputStream>)
      ensures r.Err? <==> size <= 0
      ensures r.Err? ==> r.error == IllegalArgument
      ensures r.Ok? ==> fresh(r.value) && fresh(r.value.buf) && r.value.Valid()
      ensures r.Ok? ==> r.value.buf.Length == size && r.value.count == 0
      ensures r.Ok? ==> r.value.written == [] && r.value.downstream == []
    {
      if size <= 0 {
        return Err(IllegalArgument);
      }
      var s := new BufferedOutputStream.Sized(size);
      return Ok(s);
    }

    /** `new BufferedOutputStream(out)`. */
    static method OpenDefault() returns (s: BufferedOutputStream)
      ensures fresh(s) && fresh(s.buf) && s.Valid()
      ensures s.buf.Length == DEFAULT_SIZE && s.count == 0 && s.written == []
    {
      s := new BufferedOutputStream.Sized(DEFAULT_SIZE);
    }

    /** Hands the buffered bytes to the underlying stream and empties the buffer. */
    method FlushBuffer()
      requires Valid()
      modifies this
      ensures Valid() && buf == old(buf) && written == old(written)
      ensures count == 0
      ensures downstream == old(downstream) + old(Pending())
      ensures old(count) == 0 ==> downstream == old(downstream)
      ensures downstream == written
      ensures downstreamFlushes == old(downstreamFlushes)
    {
      if count > 0 {
        downstream := downstream + buf[..count];
        count := 0;
      }
    }

    /** `write(int)`: flushes when full, then stores the low byte of `b`. */
    method WriteByte(b: int)
      requires Valid()
      modifies this, buf
      ensures Valid() && buf == old(buf)
      ensures written == old(written) + [LowByte(b)]
      ensures old(count) < buf.Length ==> downstream == old(downstream) && count == old(count) + 1
      ensures old(count) == buf.Length ==> downstream == old(written) && count == 1
      ensures downstreamFlushes == old(downstreamFlushes)
    {
      if count >= buf.Length {
        FlushBuffer();
      }
      buf[count] := LowByte(b);
      count := count + 1;
      written := written + [LowByte(b)];
    }

    /**
     * `write(b, off, len)`: a request at least as long as the buffer flushes
     * and goes straight downstream; a shorter one flushes only when it does
     * not fit, then is copied into the buffer.  A null array (`None`) or bad
     * bounds throw when the copy (or the underlying write) is attempted.
     */
    method WriteBytes(b: Option<seq<byte>>, off: int, len: int) returns (st: Status)
      requires Valid()
      modifies this, buf
      ensures Valid() && buf == old(buf)
      ensures downstreamFlushes == old(downstreamFlushes)
      ensures st.Thrown? <==> b.None? || !InBounds(|b.value|, off, len)
      ensures b.None? ==> st == Thrown(NullPointer)
      ensures b.Some? && !InBounds(|b.value|, off, len) ==> st == Thrown(IndexOutOfBounds)
      ensures st.Thrown? ==> written == old(written)
      ensures st.Done? ==> written == old(written) + b.value[off..off + len]
      ensures st.Done? && len >= buf.Length ==> downstream == written && count == 0
      ensures st.Done? && len < buf.Length && len <= buf.Length - old(count) ==>
                downstream == old(downstream) && count == old(count) + len
      ensures st.Done? && len < buf.Length && len > buf.Length - old(count) ==>
                downstream == old(written) && count == len
    {
      if len >= buf.Length {
        FlushBuffer();
        if b.None? {
          return Thrown(NullPointer);
        } else if !InBounds(|b.value|, off, len) {
          return Thrown(IndexOutOfBounds);
        }
        downstream := downstream + b.value[off..off + len];
        written := written + b.value[off..off + len];
        return Done;
      }
      if len > buf.Length - count {
        FlushBuffer();
      }
      if b.None? {
        return Thrown(NullPointer);
      } else if !InBounds(|b.value|, off, len) {
        return Thrown(IndexOutOfBounds);
      }
      CopyIn(b.value[off..off + len]);
      return Done;
    }

    /** The `System.arraycopy` into `buf[count..count + |src|)` followed by `count += len`. */
    method CopyIn(src: seq<byte>)
      requires Valid() && count + |src| <= buf.Length
      modifies this, buf
      ensures Valid() && buf == old(buf)
      ensures count == old(count) + |src|
      ensures written == old(written) + src
      ensures downstream == old(downstream) && downstreamFlushes == old(downstreamFlushes)
    {
      var i := 0;
      while i < |src|
        invariant 0 <= i <= |src|
        invariant buf == old(buf) && count == old(count)
        invariant buf[..count] == old(buf[..count])
        invariant buf[count..count + i] == src[..i]
        invariant downstream == old(downstream) && written == old(written)
        invariant downstreamFlushes == old(downstreamFlushes)
      {
        buf[count + i] := src[i];
        i := i + 1;
        assert buf[count..count + i] == buf[count..count + i - 1] + [src[i - 1]];
        assert src[..i] == src[..i - 1] + [src[i - 1]];
      }
      assert buf[..count + |src|] == buf[..count] + buf[count..count + |src|];
      count := count + |src|;
      written := written + src;
    }

    /** `flush()`: empties the buffer and flushes the underlying stream. */
    method Flush()
      requires Valid()
      modifies this
      ensures Valid() && buf == old(buf) && written == old(written)
      ensures count == 0 && downstream == written
      ensures downstreamFlushes == old(downstreamFlushes) + 1
    {
      FlushBuffer();
      downstreamFlushes := downstreamFlushes + 1;
    }
  }
}
