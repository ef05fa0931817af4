/** Small shared vocabulary: an optional value and the byte type. */
module Wrappers {

  /** The result of a decoder that may reject its input: `None` on rejection, `Some` of the value read. */
  datatype Option<+T> = None | Some(value: T)
}

module Bytes {

  /** An unsigned 8-bit value, as in the `UInt8` bytes of `Data` and of a SHA-256 digest. */
  type uint8 = b: int | 0 <= b < 0x100
}
