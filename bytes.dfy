/** Octets, as Rust's `u8`, and the bit-field arithmetic the codecs share. */
module Bytes {
  type Byte = b: int | 0 <= b < 256

  /** A value split into a high part and a low field of 2, 4 or 6 bits comes apart again. */
  lemma Split4(h: int, l: int)
    requires 0 <= l < 4
    ensures (h * 4 + l) / 4 == h && (h * 4 + l) % 4 == l
  {
  }

  lemma Split16(h: int, l: int)
    requires 0 <= l < 16
    ensures (h * 16 + l) / 16 == h && (h * 16 + l) % 16 == l
  {
  }

  lemma Split64(h: int, l: int)
    requires 0 <= l < 64
    ensures (h * 64 + l) / 64 == h && (h * 64 + l) % 64 == l
  {
  }
}
