/**
 Java's 64-bit `long`.  The task adds the clock reading and the reuse
 tolerance as longs, so the sum wraps around as section 15.18.2 of the
 Java Language Specification says: the result is the one long congruent
 to the mathematical sum modulo 2^64.
 */
module JavaLong {

  const MinLong: int := -0x8000_0000_0000_0000
  const MaxLong: int := 0x7FFF_FFFF_FFFF_FFFF
  const Modulus: int := 0x1_0000_0000_0000_0000

  type Long = x: int | MinLong <= x <= MaxLong

  /** Java's 32-bit `int`. */
  type Int = x: int | -0x8000_0000 <= x <= 0x7FFF_FFFF

  /** `a + b` on two Java longs. */
  function AddLong(a: Long, b: Long): (r: Long)
    ensures (a + b - r) % Modulus == 0
    ensures MinLong <= a + b <= MaxLong ==> r == a + b
    ensures a + b > MaxLong ==> r < a + b && r < 0 <= b
    ensures a + b < MinLong ==> r > a + b && b < 0 <= r
  {
    if a + b > MaxLong then a + b - Modulus
    else if a + b < MinLong then a + b + Modulus
    else a + b
  }
}
