/**
 * Two's-complement 32-bit integers, as used by the C# `int` fields of the
 * caches and by `Interlocked.Increment` / `Interlocked.Decrement`, which
 * wrap around instead of overflowing.
 */
module Int32Arith {

  const MinValue: int := -0x8000_0000
  const MaxValue: int := 0x7FFF_FFFF
  const Modulus: int := 0x1_0000_0000

  type Int32 = x: int | MinValue <= x <= MaxValue

  /** Reduces an unbounded integer into the 32-bit range, modulo 2^32. */
  function Wrap(x: int): (r: Int32)
    ensures MinValue <= x <= MaxValue ==> r == x
    ensures x == MaxValue + 1 ==> r == MinValue
    ensures x == MinValue - 1 ==> r == MaxValue
  {
    (x - MinValue) % Modulus + MinValue
  }

}
