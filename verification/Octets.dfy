/** Byte strings. */
module Octets {
  type Byte = c: char | c as int < 256
  type Bytes = seq<Byte>
}
