/** The unsigned byte, the unit of every buffer and key in the model. */
module Bytes {
  type Byte = b: int | 0 <= b < 256
}
