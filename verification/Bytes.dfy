/** Bytes as the integers below 256. */
module Bytes {
  type Byte = b: int | 0 <= b < 256
}
