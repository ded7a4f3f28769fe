/**
 * Facts about widening bytes to 64-bit words and or-ing them in at
 * non-overlapping positions, kept apart from the queue so that their proofs
 * see only bit-vector arithmetic.
 */
module Bits {
  /** A value below 256 survives the conversion to eight bits and back. */
  lemma ByteBits(v: int)
    requires 0 <= v < 256
    ensures (v as bv8) as int == v
  {
  }

  /** Zero-extending eight bits to 64 keeps the value, which stays below 256. */
  lemma ZeroExtend(x: bv8)
    ensures x as bv64 < 256 && (x as bv64) as int == x as int
  {
  }

  // Or-ing a byte into the bits above a narrower value adds it with its weight.

  lemma OrInto8(x: bv64, c: bv64)
    requires x < 256 && c < 256
    ensures x | (c << 8) < 0x1_0000
    ensures (x | (c << 8)) as int == x as int + 256 * c as int
  {
  }

  lemma OrInto16(x: bv64, c: bv64)
    requires x < 0x1_0000 && c < 256
    ensures x | (c << 16) < 0x100_0000
    ensures (x | (c << 16)) as int == x as int + 65536 * c as int
  {
  }

  lemma OrInto24(x: bv64, c: bv64)
    requires x < 0x100_0000 && c < 256
    ensures x | (c << 24) < 0x1_0000_0000
    ensures (x | (c << 24)) as int == x as int + 16777216 * c as int
  {
  }
}
