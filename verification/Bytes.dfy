/** Bytes and little-endian words. */
module Bytes {

  type byte = b: int | 0 <= b < 256

  const ERASED: byte := 0xFF

  function U16(a: byte, b: byte): (r: nat)
    ensures r < 0x1_0000
  {
    a + 0x100 * b
  }

  function U32(a: byte, b: byte, c: byte, d: byte): (r: nat)
    ensures r < 0x1_0000_0000
  {
    a + 0x100 * b + 0x1_0000 * c + 0x100_0000 * d
  }
}
