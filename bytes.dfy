/** The fixed-width integers of the programs: bytes as they read and write them, and the
    unsigned 32-bit integers of their arithmetic. As newtypes, any value that would not fit
    (a Rust overflow or underflow) is a failed proof. */
module Bytes {
  newtype byte = x: int | 0 <= x < 256

  newtype u32 = x: int | 0 <= x < 0x1_0000_0000
}
