// Java's 32-bit two's-complement `int` arithmetic over unbounded integers.
module JavaInts {

  const INT_MIN: int := -0x8000_0000
  const INT_MAX: int := 0x7fff_ffff
  const TWO_32: int := 0x1_0000_0000

  predicate IsInt(x: int)
  {
    INT_MIN <= x <= INT_MAX
  }

  /** The Java `int` that the mathematical value `x` wraps to. */
  function Wrap(x: int): (r: int)
    ensures IsInt(r)
    ensures (r - x) % TWO_32 == 0
    ensures IsInt(x) ==> r == x
  {
    (x - INT_MIN) % TWO_32 + INT_MIN
  }

  /** `a + b` on Java ints. */
  function Add(a: int, b: int): (r: int)
    requires IsInt(a) && IsInt(b)
    ensures IsInt(r)
    ensures IsInt(a + b) ==> r == a + b
    ensures a + b > INT_MAX ==> r == a + b - TWO_32
    ensures a + b < INT_MIN ==> r == a + b + TWO_32
  {
    Wrap(a + b)
  }

  /** `a - b` on Java ints. */
  function Sub(a: int, b: int): (r: int)
    requires IsInt(a) && IsInt(b)
    ensures IsInt(r)
    ensures IsInt(a - b) ==> r == a - b
    ensures a - b > INT_MAX ==> r == a - b - TWO_32
    ensures a - b < INT_MIN ==> r == a - b + TWO_32
  {
    Wrap(a - b)
  }
}
