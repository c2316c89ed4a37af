/**
 * The fixed-width integers that cross the C boundary, and the
 * reinterpreting cast `as i32` / `as c_int` from u32.
 */
module Ints {

  const U32_MODULUS: int := 0x1_0000_0000
  const I32_MODULUS_HALF: int := 0x8000_0000

  type i32 = x: int | -0x8000_0000 <= x < 0x8000_0000
  type u32 = x: int | 0 <= x < 0x1_0000_0000

  /** A u32 reinterpreted as i32: values from 2^31 up wrap to negatives. */
  function AsI32(x: u32): (r: i32)
    ensures (r - x) % U32_MODULUS == 0
    ensures x < I32_MODULUS_HALF ==> r == x
  {
    if x < I32_MODULUS_HALF then x else x - U32_MODULUS
  }
}
