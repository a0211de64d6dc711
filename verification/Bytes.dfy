/** Byte strings, and the endless bit strings that they begin. */
module Bytes {
  import opened Bits

  type Byte = x: int | 0 <= x < 256

  /** The string continued with zero bytes for ever. */
  function ByteAt(s: seq<Byte>, j: nat): Byte {
    if j < |s| then s[j] else 0
  }

  /** Bit p of the string; within a byte, low bits come first. */
  predicate BitAt(s: seq<Byte>, p: nat) {
    Bit(ByteAt(s, p / 8), p % 8)
  }
}
