/** Basic values shared by the model of the ESP8266 MAC reader. */
module Bytes {

  /** An octet: Go's `byte`. */
  newtype byte = x: int | 0 <= x < 256

  /** Go's `[4]byte`: the 4-byte value field of one register-read reply. */
  type Word = s: seq<byte> | |s| == 4 witness [0, 0, 0, 0]

  datatype Option<T> = None | Some(value: T)
}
