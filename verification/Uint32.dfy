/** C++'s `uint32_t`: values below 2^32, with addition and subtraction that wrap around. */
module Uint32 {
  const MODULUS: int := 0x1_0000_0000

  type uint32 = x: int | 0 <= x < MODULUS

  function Add(a: uint32, b: uint32): uint32 {
    if a + b < MODULUS then a + b else a + b - MODULUS
  }

  function Sub(a: uint32, b: uint32): uint32 {
    if a >= b then a - b else a - b + MODULUS
  }
}
