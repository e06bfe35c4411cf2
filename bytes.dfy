/** Bytes as the driver sees them: unsigned 8-bit values and their bits. */
module Bytes {

  /** The driver's `u8`. */
  type byte = bv8

  /** Bit `k` of `b`, counting from the least significant bit. */
  function Bit(b: byte, k: byte): bool
    requires k < 8
  {
    (b >> k) & 1 == 1
  }
}
