/** The bytes that texts are made of. */
module Bytes {
  type Byte = bv8
}
