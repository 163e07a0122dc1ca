/** The octet as the programs of this repository move it about: an unsigned char. */
module Bytes {
  type byte = x: int | 0 <= x < 256
}
