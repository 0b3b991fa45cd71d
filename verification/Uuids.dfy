/** A 128-bit identifier, kept as its 32 hexadecimal digits. */
module Uuids {
  type Nibble = n: int | 0 <= n < 16

  type Nibbles = s: seq<Nibble> | |s| == 32 witness seq(32, _ => 0)

  datatype Uuid = Uuid(nibbles: Nibbles)
}
