/** Octets, shared by the base 64 codec and the frame buffers. */
module Bytes {

  /** An octet. */
  type byte = x: int | 0 <= x < 256
}
