/** C#'s 32-bit `int` and its unchecked (wrapping) arithmetic. */
module Numerics {

  const Int32Min: int := -0x8000_0000
  const Int32Max: int := 0x7FFF_FFFF

  /** The values of a C# `int`. */
  type Int32 = x: int | Int32Min <= x <= Int32Max

  /** The result of an unchecked C# `int` operation whose exact result is `x`:
      congruent to `x` modulo 2^32 and inside the `int` range. */
  function Wrap32(x: int): (r: Int32)
    ensures (r - x) % 0x1_0000_0000 == 0
    ensures Int32Min <= x <= Int32Max ==> r == x
  {
    (x - Int32Min) % 0x1_0000_0000 + Int32Min
  }
}
