/** Fixed-width integers of the C sources: bytes, and unsigned 32-bit words that wrap. */
module Bytes {
  type byte = b: int | 0 <= b < 0x100

  /** 2^32: the modulus of the UInt32 arithmetic of the sources. */
  const WORD := 0x1_0000_0000

  type word = v: int | 0 <= v < WORD

  function Pow2(n: nat): (p: nat)
    ensures p >= 1
  {
    if n == 0 then 1 else 2 * Pow2(n - 1)
  }
}
