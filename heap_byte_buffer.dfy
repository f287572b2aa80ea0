// java.nio.HeapByteBuffer: a byte buffer over a window of a Java byte array.
// Buffer index i lives at `hb[i + offset]`; the `mark`, `position`, `limit`
// and `capacity` bookkeeping of java.nio.Buffer (which is not part of this
// model) is kept as fields with -1 <= mark <= position <= limit <= capacity.
// Slices and duplicates share `hb` with the buffer they come from.
module HeapBytes {
  import opened Outcomes
  import ArrayCopy

  /** `Buffer.checkBounds(off, len, size)`: the range [off, off+len) lies within [0, size). */
  predicate InBounds(off: int, len: int, size: int)
  {
    0 <= off && 0 <= len && off + len <= size
  }

  /**
   * Moving the bytes from `pos` up to `lim` of a window of `cap` bytes at
   * `off` to the start of the window puts them first, keeps the rest of the
   * window after them, and leaves everything outside the window alone.
   */
  lemma CompactedWindow(s: seq<bv8>, s': seq<bv8>, off: int, cap: int, pos: int, lim: int, from: int, n: int,
                        r: seq<bv8>, c: seq<bv8>)
    requires 0 <= off && 0 <= pos <= lim <= cap && off + cap <= |s|
    requires from == pos + off && n == lim - pos
    requires r == s[off + pos..off + lim] && c == s[off..off + cap]
    requires s' == s[..off] + s[from..from + n] + s[off + n..]
    ensures s'[off..off + cap] == r + c[n..]
    ensures s'[..off] == s[..off] && s'[off + cap..] == s[off + cap..]
  {
    assert c[n..] == s[off + n..off + cap];
  }

  class HeapByteBuffer {
    const hb: array<bv8>
    const offset: int
    const capacity: int
    /** -1 when no mark is set. */
    var mark: int
    var position: int
    var limit: int

    ghost predicate Valid()
      reads this
    {
      && -1 <= mark <= position && 0 <= position <= limit <= capacity
      && 0 <= offset && offset + capacity <= hb.Length
    }

    /** The buffer's bytes, index 0 to capacity. */
    function Contents(): (c: seq<bv8>)
      reads this, hb
      requires Valid()
      ensures |c| == capacity
    {
      hb[offset..offset + capacity]
    }

    /** `remaining()`. */
    function Remaining(): (n: int)
      reads this
      requires Valid()
      ensures 0 <= n <= capacity
    {
      limit - position
    }

    /** The bytes between position and limit. */
    function RemainingBytes(): (r: seq<bv8>)
      reads this, hb
      requires Valid()
      ensures |r| == Remaining()
      ensures r == Contents()[position..limit]
    {
      var c, r := hb[offset..offset + capacity], hb[offset + position..offset + limit];
      assert forall k :: 0 <= k < |r| ==> r[k] == c[position + k];
      assert r == c[position..limit];
      r
    }

    /** `HeapByteBuffer(byte[] buf, int mark, int pos, int lim, int cap, int off)`. */
    constructor View(buf: array<bv8>, mark: int, pos: int, lim: int, cap: int, off: int)
      requires -1 <= mark <= pos && 0 <= pos <= lim <= cap && 0 <= off && off + cap <= buf.Length
      ensures Valid()
      ensures hb == buf && this.mark == mark && position == pos && limit == lim
      ensures capacity == cap && offset == off
    {
      hb := buf;
      this.mark := mark;
      position := pos;
      limit := lim;
      capacity := cap;
      offset := off;
    }

    /** `HeapByteBuffer(int cap, int lim)`: a zeroed array of its own. */
    constructor Allocate(cap: int, lim: int)
      requires 0 <= lim <= cap
      ensures Valid() && fresh(hb)
      ensures mark == -1 && position == 0 && limit == lim && capacity == cap && offset == 0
      ensures Contents() == seq(cap, _ => 0)
    {
      hb := new bv8[cap](_ => 0);
      mark := -1;
      position := 0;
      limit := lim;
      capacity := cap;
      offset := 0;
    }

    /** `HeapByteBuffer(byte[] buf, int off, int len)`: wraps the whole array, positioned at `off`. */
    constructor Wrap(buf: array<bv8>, off: int, len: int)
      requires InBounds(off, len, buf.Length)
      ensures Valid() && hb == buf
      ensures mark == -1 && position == off && limit == off + len && capacity == buf.Length && offset == 0
      ensures Contents() == buf[..]
    {
      hb := buf;
      mark := -1;
      position := off;
      limit := off + len;
      capacity := buf.Length;
      offset := 0;
    }

    /**
     * `slice()`: a new buffer over the remaining bytes of this one, sharing
     * the array; its index 0 is this buffer's position.
     */
    method Slice() returns (s: HeapByteBuffer)
      requires Valid()
      ensures fresh(s) && s.Valid() && s.hb == hb
      ensures s.mark == -1 && s.position == 0 && s.limit == Remaining() && s.capacity == Remaining()
      ensures s.offset == position + offset
      ensures s.Contents() == RemainingBytes()
    {
      s := new HeapByteBuffer.View(hb, -1, 0, Remaining(), Remaining(), position + offset);
    }

    /** `duplicate()`: a new buffer with the same array, window and indices. */
    method Duplicate() returns (d: HeapByteBuffer)
      requires Valid()
      ensures fresh(d) && d.Valid() && d.hb == hb
      ensures d.mark == mark && d.position == position && d.limit == limit
      ensures d.capacity == capacity && d.offset == offset
      ensures d.Contents() == Contents() && d.RemainingBytes() == RemainingBytes()
    {
      d := new HeapByteBuffer.View(hb, mark, position, limit, capacity, offset);
    }

    /** `get()`: the byte at position, which then advances; underflow at the limit. */
    method Get() returns (r: Result<bv8>)
      requires Valid()
      modifies this`position
      ensures Valid()
      ensures r.Err? <==> old(position) >= limit
      ensures r.Err? ==> r.error == BufferUnderflow && position == old(position)
      ensures r.Ok? ==> r.value == old(RemainingBytes())[0] && position == old(position) + 1
      ensures r.Ok? ==> RemainingBytes() == old(RemainingBytes())[1..]
    {
      if position >= limit {
        return Err(BufferUnderflow);
      }
      var b := hb[position + offset];
      position := position + 1;
      return Ok(b);
    }

    /** `get(int i)`: the byte at index `i`, which must be below the limit. */
    method GetAt(i: int) returns (r: Result<bv8>)
      requires Valid()
      ensures r.Err? <==> i < 0 || i >= limit
      ensures r.Err? ==> r.error == IndexOutOfBounds
      ensures r.Ok? ==> r.value == Contents()[i]
    {
      if i < 0 || i >= limit {
        return Err(IndexOutOfBounds);
      }
      return Ok(hb[i + offset]);
    }

    /**
     * `get(byte[] dst, int offset, int length)`: copies the next `length`
     * bytes to `dst[off..]` and advances position by `length`.
     */
    method GetBytes(dst: array<bv8>, off: int, length: int) returns (st: Status)
      requires Valid()
      modifies this`position, dst
      ensures Valid()
      ensures !InBounds(off, length, dst.Length) ==> st == Thrown(IndexOutOfBounds)
      ensures InBounds(off, length, dst.Length) && length > old(Remaining()) ==> st == Thrown(BufferUnderflow)
      ensures st.Thrown? ==> position == old(position) && dst[..] == old(dst[..])
      ensures st.Done? <==> InBounds(off, length, dst.Length) && length <= old(Remaining())
      ensures st.Done? ==> dst[..] == old(dst[..off]) + old(RemainingBytes()[..length]) + old(dst[off + length..])
      ensures st.Done? ==> position == old(position) + length
    {
      if !InBounds(off, length, dst.Length) {
        return Thrown(IndexOutOfBounds);
      }
      if length > Remaining() {
        return Thrown(BufferUnderflow);
      }
      ghost var moved := RemainingBytes()[..length];
      assert moved == hb[position + offset..position + offset + length];
      ArrayCopy.Copy(hb, position + offset, dst, off, length);
      position := position + length;
      return Done;
    }

    /** `put(byte x)`: stores `x` at position, which then advances; overflow at the limit. */
    method Put(x: bv8) returns (st: Status)
      requires Valid()
      modifies this`position, hb
      ensures Valid()
      ensures st.Thrown? <==> old(position) >= limit
      ensures st.Thrown? ==> st.error == BufferOverflow && position == old(position) && hb[..] == old(hb[..])
      ensures st.Done? ==> hb[..] == old(hb[..])[offset + old(position) := x] && position == old(position) + 1
      ensures st.Done? ==> Contents() == old(Contents())[old(position) := x]
    {
      if position >= limit {
        return Thrown(BufferOverflow);
      }
      hb[position + offset] := x;
      position := position + 1;
      return Done;
    }

    /** `put(int i, byte x)`: stores `x` at index `i`, which must be below the limit. */
    method PutAt(i: int, x: bv8) returns (st: Status)
      requires Valid()
      modifies hb
      ensures st.Thrown? <==> i < 0 || i >= limit
      ensures st.Thrown? ==> st.error == IndexOutOfBounds && hb[..] == old(hb[..])
      ensures st.Done? ==> hb[..] == old(hb[..])[offset + i := x]
      ensures st.Done? ==> Contents() == old(Contents())[i := x]
    {
      if i < 0 || i >= limit {
        return Thrown(IndexOutOfBounds);
      }
      hb[i + offset] := x;
      return Done;
    }

    /**
     * `put(byte[] src, int offset, int length)`: copies `src[off..off+length]`
     * to the buffer at position and advances position by `length`.
     */
    method PutBytes(src: array<bv8>, off: int, length: int) returns (st: Status)
      requires Valid()
      modifies this`position, hb
      ensures Valid()
      ensures !InBounds(off, length, src.Length) ==> st == Thrown(IndexOutOfBounds)
      ensures InBounds(off, length, src.Length) && length > old(Remaining()) ==> st == Thrown(BufferOverflow)
      ensures st.Thrown? ==> position == old(position) && hb[..] == old(hb[..])
      ensures st.Done? <==> InBounds(off, length, src.Length) && length <= old(Remaining())
      ensures st.Done? ==> position == old(position) + length
      ensures st.Done? ==> hb[..] == old(hb[..offset + position]) + old(src[off..off + length]) + old(hb[offset + position + length..])
    {
      if !InBounds(off, length, src.Length) {
        return Thrown(IndexOutOfBounds);
      }
      if length > Remaining() {
        return Thrown(BufferOverflow);
      }
      ArrayCopy.Copy(src, off, hb, position + offset, length);
      position := position + length;
      return Done;
    }

    /**
     * `put(ByteBuffer src)` for a heap source: moves all of `src`'s
     * remaining bytes to this buffer at position, advancing both positions.
     */
    method PutBuffer(src: HeapByteBuffer) returns (st: Status)
      requires Valid() && src.Valid()
      modifies this`position, src`position, hb
      ensures Valid() && src.Valid()
      ensures src == this ==> st == Thrown(IllegalArgument)
      ensures src != this && old(src.Remaining()) > old(Remaining()) ==> st == Thrown(BufferOverflow)
      ensures st.Thrown? ==> position == old(position) && src.position == old(src.position) && hb[..] == old(hb[..])
      ensures st.Done? <==> src != this && old(src.Remaining()) <= old(Remaining())
      ensures st.Done? ==> position == old(position) + old(src.Remaining()) && src.position == src.limit
      ensures st.Done? ==> hb[..] == old(hb[..offset + position]) + old(src.RemainingBytes())
                                     + old(hb[offset + position + src.Remaining()..])
    {
      if src == this {
        return Thrown(IllegalArgument);
      }
      var n := src.Remaining();
      if n > Remaining() {
        return Thrown(BufferOverflow);
      }
      ArrayCopy.Copy(src.hb, src.position + src.offset, hb, position + offset, n);
      src.position := src.position + n;
      position := position + n;
      return Done;
    }

    /**
     * `compact()`: moves the remaining bytes to index 0, leaves position just
     * after them, opens the limit to the capacity and drops the mark.
     */
    method Compact()
      requires Valid()
      modifies this`position, this`limit, this`mark, hb
      ensures Valid()
      ensures position == old(Remaining()) && limit == capacity && mark == -1
      ensures Contents() == old(RemainingBytes()) + old(Contents())[old(Remaining())..]
      ensures hb[..offset] == old(hb[..offset]) && hb[offset + capacity..] == old(hb[offset + capacity..])
    {
      ghost var before := hb[..];
      ghost var r, c := RemainingBytes(), Contents();
      var n := Remaining();
      var from := position + offset;
      ArrayCopy.Copy(hb, from, hb, offset, n);
      CompactedWindow(before, hb[..], offset, capacity, position, limit, from, n, r, c);
      position := n;
      limit := capacity;
      mark := -1;
    }

    /** `isDirect()`: a heap buffer is never direct. */
    predicate IsDirect()
      ensures !IsDirect()
    {
      false
    }

    /** `isReadOnly()`: this class is the writable heap buffer. */
    predicate IsReadOnly()
      ensures !IsReadOnly()
    {
      false
    }
  }

  /** A byte put at index 0 and a byte put at index 1 are read back where they were put. */
  method PutThenGet() returns (first: Result<bv8>, second: Result<bv8>, beyond: Result<bv8>)
    ensures first == Ok(7) && second == Ok(9) && beyond == Err(IndexOutOfBounds)
  {
    var b := new HeapByteBuffer.Allocate(4, 2);
    var _ := b.Put(7);
    var _ := b.Put(9);
    first := b.GetAt(0);
    second := b.GetAt(1);
    beyond := b.GetAt(2);
  }

  /** A slice starts at the parent's position, and a write through it shows in the parent. */
  method SliceSharesBytes() returns (seen: Result<bv8>)
    ensures seen == Ok(5)
  {
    var b := new HeapByteBuffer.Allocate(4, 4);
    b.position := 2;
    var s := b.Slice();
    var _ := s.PutAt(0, 5);
    seen := b.GetAt(2);
  }
}
