// The fixed-width integers of the C++ source. They are subset types, so every
// assignment to a variable of one of these types carries a proof that the
// value did not wrap; the places where the source relies on wrap-around write
// it out with Wrap32.
module MachineInts {
  type uint16 = x: int | 0 <= x < 0x1_0000
  type uint32 = x: int | 0 <= x < 0x1_0000_0000
  type uint64 = x: int | 0 <= x < 0x1_0000_0000_0000_0000

  /** A digit of a big number; the mask kBigitMask keeps every stored chunk in this range. */
  type Bigit = x: int | 0 <= x < 0x1000_0000

  // 64-bit operations inside conditions: each use carries the proof that it does not wrap.

  function Plus(a: uint64, b: uint64): uint64
    requires a + b < 0x1_0000_0000_0000_0000
  {
    a + b
  }

  function Minus(a: uint64, b: uint64): uint64
    requires b <= a
  {
    a - b
  }

  function Times(a: uint64, b: uint64): uint64
    requires 0 <= a * b < 0x1_0000_0000_0000_0000
  {
    a * b
  }

  function Max(a: int, b: int): int { if a < b then b else a }

  function Min(a: int, b: int): int { if a < b then a else b }

  /** Unsigned 32-bit arithmetic with wrap-around. */
  function Wrap32(x: int): uint32 { x % 0x1_0000_0000 }
}
