/** Bytes, as the other modules use them. */
module Bytes {

  type byte = b: int | 0 <= b < 256
}
