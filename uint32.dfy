/** Go's fixed-width integers and the wrapping uint32 arithmetic the genesis
    setup relies on. Dafny's integers are unbounded, so every place where the
    source computes on `uint32` goes through one of these functions. */
module Uint32 {

  /** 2^32: uint32 arithmetic is arithmetic modulo this number. */
  const Modulus: int := 0x1_0000_0000

  type uint32 = x: int | 0 <= x < 0x1_0000_0000
  type uint64 = x: int | 0 <= x < 0x1_0000_0000_0000_0000
  type int64 = x: int | -0x8000_0000_0000_0000 <= x < 0x8000_0000_0000_0000

  /** `a + b` on uint32: wraps around past 2^32 - 1. */
  function Add32(a: uint32, b: uint32): (r: uint32)
    ensures a + b < Modulus ==> r == a + b
    ensures a + b >= Modulus ==> r == a + b - Modulus && r < a && r < b
  {
    (a + b) % Modulus
  }

  /** `a - b` on uint32: wraps around below zero. */
  function Sub32(a: uint32, b: uint32): (r: uint32)
    ensures b <= a ==> r == a - b
    ensures a < b ==> r == Modulus + a - b && r > a
  {
    (a - b) % Modulus
  }

  /** `a * b` on uint32: keeps the low 32 bits of the product. */
  function Mul32(a: uint32, b: uint32): (r: uint32)
    ensures a * b < Modulus ==> r == a * b
  {
    var p := a * b;
    if p < Modulus then p else p % Modulus
  }
}
