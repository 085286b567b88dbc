/** Bytes as bit vectors. */
module Bits {
  /** The 8-bit vector of a byte determines the byte. */
  lemma CastAndBack(x: int)
    requires 0 <= x < 0x100
    ensures (x as bv8) as int == x
  {}
}

/** Machine words, byte order and results. */
module Words {
  const HALF := 0x1_0000             // 16-bit words wrap here
  const WORD := 0x1_0000_0000        // 32-bit words wrap here

  type byte = x: int | 0 <= x < 0x100
  type uint16 = x: int | 0 <= x < 0x1_0000
  type uint32 = x: int | 0 <= x < 0x1_0000_0000
  type int16 = x: int | -0x8000 <= x < 0x8000

  datatype Result<+T, +E> = Ok(value: T) | Err(error: E)
}
