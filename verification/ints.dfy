/** Fixed-width integers of the C source: unsigned widths as bounded
    integers with explicit wrap-around, the range of `int`, and the
    conversion of an `int` to `uint64_t`. */
module Ints {

  const TWO_8: int := 0x100
  const TWO_16: int := 0x1_0000
  const TWO_32: int := 0x1_0000_0000

  const TWO_64: int := 0x1_0000_0000_0000_0000
  const Int32Min: int := -0x8000_0000
  const Int32Max: int := 0x7FFF_FFFF

  newtype uint8 = x: int | 0 <= x < 0x100
  newtype uint16 = x: int | 0 <= x < 0x1_0000
  newtype uint32 = x: int | 0 <= x < 0x1_0000_0000

  /** C's conversion of any integer to uint16_t: reduction modulo 2^16. */
  function Wrap16(x: int): uint16
  {
    (x % TWO_16) as uint16
  }

  /** C's conversion of any integer to uint32_t: reduction modulo 2^32.
      Dafny's `%` is Euclidean, so the remainder is never negative, which
      is what the unsigned conversion does for negative inputs too. */
  function Wrap32(x: int): uint32
  {
    (x % TWO_32) as uint32
  }

  /** A value already in range is its own 32-bit pattern. */
  lemma Wrap32Small(x: int)
    requires 0 <= x < TWO_32
    ensures Wrap32(x) as int == x
  {
  }

  /** Wrapping twice is wrapping once: the inner reduction can be dropped. */
  lemma Wrap32Absorbs(a: int, b: int)
    ensures Wrap32(Wrap32(a) as int + b) == Wrap32(a + b)
  {
    var q := a / TWO_32;
    assert a == q * TWO_32 + Wrap32(a) as int;
    ShiftMod(a + b, q);
  }

  /** Subtracting a multiple of 2^32 leaves the residue unchanged. */
  lemma {:induction false} ShiftMod(x: int, q: int)
    ensures (x - q * TWO_32) % TWO_32 == x % TWO_32
    decreases if q < 0 then -q else q
  {
    if q > 0 {
      ShiftMod(x, q - 1);
      assert x - q * TWO_32 == (x - (q - 1) * TWO_32) - TWO_32;
    } else if q < 0 {
      ShiftMod(x, q + 1);
      assert x - q * TWO_32 == (x - (q + 1) * TWO_32) + TWO_32;
    }
  }

  /** C's conversion of a signed `int` to `uint64_t`: the value in
      [0, 2^64) congruent to it modulo 2^64, so a negative one becomes 2^64
      plus it. */
  function ToUint64(x: int): (r: nat)
    requires Int32Min <= x <= Int32Max
    ensures r < TWO_64
    ensures (r - x) % TWO_64 == 0
    ensures x >= 0 ==> r == x
    ensures x < 0 ==> r >= TWO_64 + Int32Min
  {
    if x >= 0 then x else TWO_64 + x
  }

  function Min(a: int, b: int): int
  {
    if a <= b then a else b
  }

  function Abs(x: int): nat
  {
    if x < 0 then -x else x
  }
}
