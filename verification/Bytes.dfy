/** The bytes of flash and files. */
module Bytes {
  type byte = x: int | 0 <= x < 256
}
