/** Bytes, the elements of texts and of encoded messages. */
module Bytes {
  type Byte = b: int | 0 <= b < 256
}
