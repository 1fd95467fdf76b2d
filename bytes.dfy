/** Octets, as Java's `byte[]` holds them once read as unsigned values. */
module Bytes {

  type Byte = b: int | 0 <= b < 256
}
