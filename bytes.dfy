/** The octet type shared by the hash, the receive buffer and the response. */
module Bytes {
  /** An `unsigned char`: every value the C code stores in a byte. */
  newtype byte = x: int | 0 <= x < 256
}
