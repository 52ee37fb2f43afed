/**
 * UTF-8 as `std::str::from_utf8` accepts it: the well-formed byte sequences
 * of Table 3-7 of the Unicode Standard (no overlong forms, no surrogates,
 * nothing above U+10FFFF). A `string` here is a sequence of Unicode scalar
 * values, so decoding yields the characters the bytes encode.
 */
module Utf8 {
  import opened Wrappers
  import opened Bytes

  predicate IsContinuation(b: Byte)
  {
    0x80 <= b <= 0xBF
  }

  /** The code point of a two-, three- or four-byte sequence from its leading byte's bits and the continuations. */
  function CodePoint2(b0: int, b1: int): int { (b0 - 0xC0) * 64 + (b1 - 0x80) }
  function CodePoint3(b0: int, b1: int, b2: int): int { (b0 - 0xE0) * 4096 + (b1 - 0x80) * 64 + (b2 - 0x80) }
  function CodePoint4(b0: int, b1: int, b2: int, b3: int): int
  {
    (b0 - 0xF0) * 262144 + (b1 - 0x80) * 4096 + (b2 - 0x80) * 64 + (b3 - 0x80)
  }

  /** The smallest and largest second byte Table 3-7 allows after a three- or four-byte lead. */
  function SecondLow(b0: int): int { if b0 == 0xE0 then 0xA0 else if b0 == 0xF0 then 0x90 else 0x80 }
  function SecondHigh(b0: int): int { if b0 == 0xED then 0x9F else if b0 == 0xF4 then 0x8F else 0xBF }

  /**
   * The first character of `b` and the number of bytes it takes, or None
   * when `b` does not start with a well-formed sequence.
   */
  function DecodeFirst(b: seq<Byte>): (r: Option<(char, nat)>)
    requires |b| > 0
    ensures r.Some? ==> 1 <= r.value.1 <= 4 && r.value.1 <= |b|
  {
    var b0 := b[0];
    if b0 < 0x80 then
      Some((b0 as char, 1))
    else if 0xC2 <= b0 <= 0xDF then
      if |b| >= 2 && IsContinuation(b[1]) then Some((CodePoint2(b0, b[1]) as char, 2))
      else None
    else if 0xE0 <= b0 <= 0xEF then
      if |b| >= 3 && SecondLow(b0) <= b[1] <= SecondHigh(b0) && IsContinuation(b[2]) then
        Some((CodePoint3(b0, b[1], b[2]) as char, 3))
      else None
    else if 0xF0 <= b0 <= 0xF4 then
      if |b| >= 4 && SecondLow(b0) <= b[1] <= SecondHigh(b0) && IsContinuation(b[2]) && IsContinuation(b[3]) then
        Some((CodePoint4(b0, b[1], b[2], b[3]) as char, 4))
      else None
    else None
  }

  /** `std::str::from_utf8`: the characters, or None when the bytes are not UTF-8. */
  function Decode(b: seq<Byte>): Option<string>
    decreases |b|
  {
    if b == [] then Some([])
    else
      match DecodeFirst(b)
      case None => None
      case Some((c, n)) =>
        match Decode(b[n..])
        case None => None
        case Some(rest) => Some([c] + rest)
  }

  /** The UTF-8 bytes of one character. */
  function EncodeChar(c: char): (r: seq<Byte>)
    ensures 1 <= |r| <= 4
  {
    var n := c as int;
    var q1 := n / 64;
    var q2 := q1 / 64;
    var q3 := q2 / 64;
    if n < 0x80 then [n]
    else if n < 0x800 then [0xC0 + q1, 0x80 + n % 64]
    else if n < 0x10000 then [0xE0 + q2, 0x80 + q1 % 64, 0x80 + n % 64]
    else [0xF0 + q3, 0x80 + q2 % 64, 0x80 + q1 % 64, 0x80 + n % 64]
  }

  /** The UTF-8 bytes of a string, the inverse that fixes what decoding accepts. */
  function Encode(s: string): seq<Byte>
    decreases |s|
  {
    if s == [] then [] else EncodeChar(s[0]) + Encode(s[1..])
  }

  lemma DecodeFirstOfEncodeChar(c: char, rest: seq<Byte>)
    ensures DecodeFirst(EncodeChar(c) + rest) == Some((c, |EncodeChar(c)|))
  {
    var n := c as int;
    var q1 := n / 64;
    var q2 := q1 / 64;
    var q3 := q2 / 64;
    assert n == q1 * 64 + n % 64;
    assert q1 == q2 * 64 + q1 % 64;
    assert q2 == q3 * 64 + q2 % 64;
    var b := EncodeChar(c) + rest;
    if n < 0x80 {
    } else if n < 0x800 {
      assert CodePoint2(b[0], b[1]) == n;
    } else if n < 0x10000 {
      assert CodePoint3(b[0], b[1], b[2]) == n;
    } else {
      assert CodePoint4(b[0], b[1], b[2], b[3]) == n;
    }
  }

  /** Decoding undoes encoding: every string survives the round trip. */
  lemma {:induction false} DecodeEncode(s: string)
    ensures Decode(Encode(s)) == Some(s)
    decreases |s|
  {
    if s != [] {
      var e := EncodeChar(s[0]);
      DecodeFirstOfEncodeChar(s[0], Encode(s[1..]));
      assert (e + Encode(s[1..]))[|e|..] == Encode(s[1..]);
      DecodeEncode(s[1..]);
      assert [s[0]] + s[1..] == s;
    }
  }

  lemma EncodeCodePoint2(b0: Byte, b1: Byte)
    requires 0xC2 <= b0 <= 0xDF && IsContinuation(b1)
    ensures 0x80 <= CodePoint2(b0, b1) < 0x800
    ensures EncodeChar(CodePoint2(b0, b1) as char) == [b0, b1]
  {
    Split64(b0 - 0xC0, b1 - 0x80);
  }

  lemma EncodeCodePoint3(b0: Byte, b1: Byte, b2: Byte)
    requires 0xE0 <= b0 <= 0xEF && SecondLow(b0) <= b1 <= SecondHigh(b0) && IsContinuation(b2)
    ensures 0x800 <= CodePoint3(b0, b1, b2) < 0x10000
    ensures CodePoint3(b0, b1, b2) < 0xD800 || 0xE000 <= CodePoint3(b0, b1, b2)
    ensures EncodeChar(CodePoint3(b0, b1, b2) as char) == [b0, b1, b2]
  {
    var n := CodePoint3(b0, b1, b2);
    var q1 := (b0 - 0xE0) * 64 + (b1 - 0x80);
    assert n == q1 * 64 + (b2 - 0x80);
    Split64(q1, b2 - 0x80);
    Split64(b0 - 0xE0, b1 - 0x80);
  }

  lemma EncodeCodePoint4(b0: Byte, b1: Byte, b2: Byte, b3: Byte)
    requires 0xF0 <= b0 <= 0xF4 && SecondLow(b0) <= b1 <= SecondHigh(b0)
    requires IsContinuation(b2) && IsContinuation(b3)
    ensures 0x10000 <= CodePoint4(b0, b1, b2, b3) < 0x110000
    ensures EncodeChar(CodePoint4(b0, b1, b2, b3) as char) == [b0, b1, b2, b3]
  {
    var n := CodePoint4(b0, b1, b2, b3);
    var q2 := (b0 - 0xF0) * 64 + (b1 - 0x80);
    var q1 := q2 * 64 + (b2 - 0x80);
    assert n == q1 * 64 + (b3 - 0x80);
    Split64(q1, b3 - 0x80);
    Split64(q2, b2 - 0x80);
    Split64(b0 - 0xF0, b1 - 0x80);
  }

  lemma EncodeCharOfDecodeFirst(b: seq<Byte>)
    requires |b| > 0 && DecodeFirst(b).Some?
    ensures EncodeChar(DecodeFirst(b).value.0) == b[..DecodeFirst(b).value.1]
  {
    var n := DecodeFirst(b).value.1;
    if n == 2 {
      EncodeCodePoint2(b[0], b[1]);
    } else if n == 3 {
      EncodeCodePoint3(b[0], b[1], b[2]);
    } else if n == 4 {
      EncodeCodePoint4(b[0], b[1], b[2], b[3]);
    }
  }

  /** Bytes that decode decode character by character: the first one, then the rest. */
  lemma DecodeStep(b: seq<Byte>)
    requires b != [] && Decode(b).Some?
    ensures DecodeFirst(b).Some?
    ensures Decode(b[DecodeFirst(b).value.1..]).Some?
    ensures Decode(b).value == [DecodeFirst(b).value.0] + Decode(b[DecodeFirst(b).value.1..]).value
  {
  }

  /** A character's bytes followed by the rest's encoding are the encoding of both. */
  lemma JoinChars(b: seq<Byte>, n: nat, c: char, rest: string)
    requires n <= |b| && EncodeChar(c) == b[..n] && Encode(rest) == b[n..]
    ensures Encode([c] + rest) == b
  {
    var s := [c] + rest;
    assert s[0] == c && s[1..] == rest;
    assert b == b[..n] + b[n..];
  }

  /** Only encodings decode: a successful decode re-encodes to the same bytes. */
  lemma {:induction false} EncodeDecode(b: seq<Byte>)
    requires Decode(b).Some?
    ensures Encode(Decode(b).value) == b
    decreases |b|
  {
    if b != [] {
      DecodeStep(b);
      var c, n := DecodeFirst(b).value.0, DecodeFirst(b).value.1;
      var rest := Decode(b[n..]).value;
      EncodeCharOfDecodeFirst(b);
      EncodeDecode(b[n..]);
      JoinChars(b, n, c, rest);
    }
  }
}
