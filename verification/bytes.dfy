/** Octets, as Rust's `u8`. */
module Bytes {

  type byte = b: int | 0 <= b < 256
}
