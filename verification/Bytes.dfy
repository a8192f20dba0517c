/** Octets, as the codecs see them. */
module Bytes {

  type byte = b: int | 0 <= b < 256
}
