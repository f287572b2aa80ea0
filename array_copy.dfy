// `System.arraycopy`, which the buffer and sorting classes use to move
// ranges of elements.  The copy behaves as if the source range were first
// copied to a temporary array, so overlapping ranges of one array are moved
// correctly.  Callers in the modelled classes always pass in-range indices.
module ArrayCopy {

  method Copy<T>(src: array<T>, srcPos: int, dst: array<T>, dstPos: int, length: int)
    requires 0 <= srcPos && 0 <= dstPos && 0 <= length
    requires srcPos + length <= src.Length && dstPos + length <= dst.Length
    modifies dst
    ensures dst[..] == old(dst[..dstPos]) + old(src[srcPos..srcPos + length]) + old(dst[dstPos + length..])
  {
    var moved := src[srcPos..srcPos + length];
    ghost var before := dst[..];
    var i := 0;
    while i < length
      invariant 0 <= i <= length
      invariant forall k :: 0 <= k < dst.Length ==> dst[k] == (if dstPos <= k < dstPos + i then moved[k - dstPos] else before[k])
    {
      dst[dstPos + i] := moved[i];
      i := i + 1;
    }
    assert dst[..] == before[..dstPos] + moved + before[dstPos + length..];
  }
}
