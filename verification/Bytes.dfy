/** Bytes as numbers. */
module Bytes {
  newtype byte = x: int | 0 <= x < 256
}
