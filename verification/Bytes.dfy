/** The values of one unsigned byte. */
module Bytes {
  type Byte = x: int | 0 <= x < 256
}
