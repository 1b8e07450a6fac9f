/**
 * Fixed-width integers of the target platform, written out explicitly: a byte,
 * the 32-bit `unsigned long` of `millis()`, the 32-bit signed sink register,
 * and the two's-complement reinterpretations the decoder performs.
 */
module Bytes {
  newtype byte = x: int | 0 <= x < 0x100
  newtype u32 = x: int | 0 <= x < 0x1_0000_0000
  newtype i32 = x: int | -0x8000_0000 <= x < 0x8000_0000

  const TWO_32: int := 0x1_0000_0000
  const TWO_63: int := 0x8000_0000_0000_0000
  const TWO_64: int := 0x1_0000_0000_0000_0000

  /** The low four bits of a byte, `b & 0x0f`. */
  function LowNibble(b: byte): (r: nat)
    ensures r < 16
  {
    b as nat % 16
  }

  /** A byte reinterpreted as `int8_t` (two's complement). */
  function Int8(b: byte): (r: int)
    ensures -0x80 <= r < 0x80
    ensures (r - b as int) % 0x100 == 0
  {
    if b < 0x80 then b as int else b as int - 0x100
  }

  /** A `uint64_t` bit pattern reinterpreted as `int64_t` (two's complement). */
  function Int64(u: nat): (r: int)
    requires u < TWO_64
    ensures -TWO_63 <= r < TWO_63
    ensures (r - u) % TWO_64 == 0
    ensures u < TWO_63 ==> r == u
  {
    if u < TWO_63 then u else u - TWO_64
  }

  /** An exact integer truncated to 32 bits and reinterpreted as `int32_t`. */
  function WrapInt32(x: int): (r: i32)
    ensures (r as int - x) % TWO_32 == 0
    ensures -0x8000_0000 <= x < 0x8000_0000 ==> r as int == x
  {
    var m := x % TWO_32;
    if m < 0x8000_0000 then m as i32 else (m - TWO_32) as i32
  }

  /** `a - b` on 32-bit `unsigned long`, which wraps around. */
  function ElapsedU32(now: u32, since: u32): (r: nat)
    ensures r < TWO_32
    ensures now >= since ==> r == (now - since) as nat
    ensures now < since ==> r == TWO_32 + now as int - since as int
  {
    ((now as int - since as int) % TWO_32) as nat
  }

  /** Euclidean division is unique: a quotient and a remainder in range are the ones `/` and `%` give. */
  lemma DivisionUnique(x: int, d: int, q: int, r: int)
    requires d >= 1 && x == q * d + r && 0 <= r < d
    ensures x / d == q && x % d == r
  {
    var q', r' := x / d, x % d;
    assert x == q' * d + r' && 0 <= r' < d;
    var e := q - q';
    assert e * d == q * d - q' * d;
    assert e * d == r' - r;
    if e >= 1 {
      AtLeastOnce(e, d);
    } else if e <= -1 {
      AtLeastOnce(-e, d);
    }
  }

  lemma AtLeastOnce(e: int, d: int)
    requires e >= 1 && d >= 0
    ensures e * d >= d
  {
    assert e * d == (e - 1) * d + d;
    assert (e - 1) * d >= 0;
  }
}
