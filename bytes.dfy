/** The unsigned byte of guest buffers and pixel data, with Rust's wrapping `u8` addition. */
module Bytes {

  /** A `u8`. */
  newtype Byte = b: int | 0 <= b < 256

  /** `u8::wrapping_add`: the two bytes are added and a carry out of the
      top bit is dropped; the result is the sum modulo 256. */
  function WrappingAdd(a: Byte, b: int): (r: Byte)
    ensures r as int == (a as int + b) % 256
  {
    var sum := a as int + b % 256;
    if sum < 256 then sum as Byte else (sum - 256) as Byte
  }
}
