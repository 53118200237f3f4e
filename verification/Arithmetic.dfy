/** Machine integers, and the laws of products and quotients that proofs name instead of leaving them
    to the solver. */
module Arithmetic {

  type int32 = x: int | -0x8000_0000 <= x < 0x8000_0000
  type uint32 = x: int | 0 <= x < 0x1_0000_0000
  type uint64 = x: int | 0 <= x < 0x1_0000_0000_0000_0000

  /** A negative int read as an unsigned 64-bit number is huge. */
  function Unsigned64(x: int): uint64 { x % 0x1_0000_0000_0000_0000 }

  lemma TimesOrdered(a: int, b: int, c: nat)
    requires a <= b
    ensures a * c <= b * c
  {}

  lemma TimesSum(a: int, b: int, c: int)
    ensures (a + b) * c == a * c + b * c
  {}

  lemma TimesAgain(a: int, b: int, c: int)
    ensures a * (b * c) == (a * b) * c
  {}

  lemma QuotientBounds(a: nat, b: nat)
    requires b > 0
    ensures 0 <= a / b && b * (a / b) <= a < b * (a / b) + b
  {}
}
