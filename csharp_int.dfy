/** C#'s 32-bit `int` and its default (unchecked) arithmetic. */
module CSharpInt {

  const MinInt32: int := -0x8000_0000
  const MaxInt32: int := 0x7FFF_FFFF
  const Modulus: int := 0x1_0000_0000

  type Int32 = x: int | MinInt32 <= x <= MaxInt32

  /** Reduces a mathematical integer into the signed 32-bit range, as two's-complement
      hardware does: the result is the unique Int32 congruent to `x` modulo 2^32. */
  function Wrap(x: int): (r: Int32)
    ensures (r - x) % Modulus == 0
    ensures MinInt32 <= x <= MaxInt32 ==> r == x
  {
    (x - MinInt32) % Modulus + MinInt32
  }

  /** `a - b` on two C# ints in an unchecked context (what `a -= b` stores). */
  function Subtract(a: Int32, b: Int32): (r: Int32)
    ensures MinInt32 <= a - b <= MaxInt32 ==> r == a - b
    ensures a - b < MinInt32 ==> r == a - b + Modulus
    ensures a - b > MaxInt32 ==> r == a - b - Modulus
  {
    Wrap(a - b)
  }
}
