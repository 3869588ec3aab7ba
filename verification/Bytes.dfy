/** Octets. */
module Bytes {
  newtype byte = b: int | 0 <= b < 256
}
