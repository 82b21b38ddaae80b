/** What device buffers hold. */
module Bytes {
  type byte = x: int | 0 <= x < 256
}
