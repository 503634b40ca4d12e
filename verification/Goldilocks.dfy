/** Arithmetic of the field the circuits are built over. */
module Goldilocks {

  /** The order of the field. */
  const P: nat := 0xffff_ffff_0000_0001

  /** It is 2^64 - 2^32 + 1. */
  lemma OrderOfField()
    ensures P == 0x1_0000_0000 * (0x1_0000_0000 - 1) + 1
  {}

  function FAdd(a: int, b: int): int { (a + b) % P }
  function FSub(a: int, b: int): int { (a - b) % P }
  function FMul(a: int, b: int): int { (a * b) % P }

  /** A boolean as a field element. */
  function Bit(b: bool): int { if b then 1 else 0 }
}
