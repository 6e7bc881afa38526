/** Bitwise facts about 32-bit flag words, kept apart from the sequence reasoning. */
module Bits {
  /** Masking with 63 keeps each of the six low bits. */
  lemma KnownBits(flags: bv32)
    ensures ((flags & 63) & 1 != 0) == (flags & 1 != 0)
    ensures ((flags & 63) & 2 != 0) == (flags & 2 != 0)
    ensures ((flags & 63) & 4 != 0) == (flags & 4 != 0)
    ensures ((flags & 63) & 8 != 0) == (flags & 8 != 0)
    ensures ((flags & 63) & 16 != 0) == (flags & 16 != 0)
    ensures ((flags & 63) & 32 != 0) == (flags & 32 != 0)
  {
  }
}
