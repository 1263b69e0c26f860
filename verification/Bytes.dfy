/** Bytes as the C code sees them: unsigned 8-bit values. */
module Bytes {
  type byte = b: int | 0 <= b < 256
}
