/**
 * Base 64 with the standard alphabet, section 4 of RFC 4648: the `decode`
 * that `decode_token` calls, and the encoding it inverts. Decoding is the
 * strict one RFC 4648 describes: the length is a multiple of four
 * (section 3.2), any character outside the alphabet or a misplaced pad is
 * rejected (section 3.3), and the unused bits before a pad must be zero
 * (section 3.5).
 */
module Base64 {
  import opened Wrappers
  import opened Bytes

  /** The value of one base-64 character. */
  type Sextet = v: int | 0 <= v < 64

  const PAD: char := '='

  /** Why decoding failed, after the variants of the library's DecodeError. */
  datatype DecodeError = InvalidLength | InvalidByte | InvalidLastSymbol

  /** The character Table 1 of RFC 4648 gives for a value. */
  function Symbol(v: Sextet): (c: char)
    ensures c != PAD
  {
    if v < 26 then ('A' as int + v) as char
    else if v < 52 then ('a' as int + (v - 26)) as char
    else if v < 62 then ('0' as int + (v - 52)) as char
    else if v == 62 then '+'
    else '/'
  }

  /** The value Table 1 gives to a character, if it is in the alphabet. */
  function ValueOf(c: char): (r: Option<Sextet>)
    ensures r.Some? ==> Symbol(r.value) == c
    ensures c == PAD ==> r.None?
  {
    if 'A' <= c <= 'Z' then Some(c as int - 'A' as int)
    else if 'a' <= c <= 'z' then Some(c as int - 'a' as int + 26)
    else if '0' <= c <= '9' then Some(c as int - '0' as int + 52)
    else if c == '+' then Some(62)
    else if c == '/' then Some(63)
    else None
  }

  /** Every symbol reads back as the value it was written for. */
  lemma ValueOfSymbol(v: Sextet)
    ensures ValueOf(Symbol(v)) == Some(v)
  {
  }

  /** The three bytes carried by four full sextets. */
  function Triple(a: Sextet, b: Sextet, c: Sextet, d: Sextet): seq<Byte>
  {
    [a * 4 + b / 16, (b % 16) * 16 + c / 4, (c % 4) * 64 + d]
  }

  /** Decodes one group of four characters; only the final group may hold pads. */
  function DecodeQuad(q: string, last: bool): Result<seq<Byte>, DecodeError>
    requires |q| == 4
  {
    var a, b, c, d := ValueOf(q[0]), ValueOf(q[1]), ValueOf(q[2]), ValueOf(q[3]);
    if a.None? || b.None? then Err(InvalidByte)
    else if last && q[2] == PAD && q[3] == PAD then
      if b.value % 16 == 0 then Ok([a.value * 4 + b.value / 16]) else Err(InvalidLastSymbol)
    else if c.None? then Err(InvalidByte)
    else if last && q[3] == PAD then
      if c.value % 4 == 0 then Ok([a.value * 4 + b.value / 16, (b.value % 16) * 16 + c.value / 4])
      else Err(InvalidLastSymbol)
    else if d.None? then Err(InvalidByte)
    else Ok(Triple(a.value, b.value, c.value, d.value))
  }

  function DecodeGroups(s: string): Result<seq<Byte>, DecodeError>
    requires |s| % 4 == 0
    decreases |s|
  {
    if s == [] then Ok([])
    else
      match DecodeQuad(s[..4], |s| == 4)
      case Err(e) => Err(e)
      case Ok(head) =>
        match DecodeGroups(s[4..])
        case Err(e) => Err(e)
        case Ok(tail) => Ok(head + tail)
  }

  /** `base64::decode`. */
  function Decode(s: string): (r: Result<seq<Byte>, DecodeError>)
    ensures |s| % 4 != 0 ==> r == Err(InvalidLength)
  {
    if |s| % 4 != 0 then Err(InvalidLength) else DecodeGroups(s)
  }

  /** One group of one to three bytes as four characters, padded as section 4 of RFC 4648 says. */
  function EncodeGroup(g: seq<Byte>): (q: string)
    requires 1 <= |g| <= 3
    ensures |q| == 4
  {
    if |g| == 1 then
      [Symbol(g[0] / 4), Symbol((g[0] % 4) * 16), PAD, PAD]
    else if |g| == 2 then
      [Symbol(g[0] / 4), Symbol((g[0] % 4) * 16 + g[1] / 16), Symbol((g[1] % 16) * 4), PAD]
    else
      [Symbol(g[0] / 4), Symbol((g[0] % 4) * 16 + g[1] / 16), Symbol((g[1] % 16) * 4 + g[2] / 64), Symbol(g[2] % 64)]
  }

  /** Encoding with padding, the inverse that fixes what decoding must accept. */
  function Encode(b: seq<Byte>): (s: string)
    ensures |s| % 4 == 0
    decreases |b|
  {
    if b == [] then []
    else if |b| <= 3 then EncodeGroup(b)
    else
      var rest := Encode(b[3..]);
      Split4(|rest| / 4 + 1, 0);
      EncodeGroup(b[..3]) + rest
  }

  lemma DecodeSymbols(a: Sextet, b: Sextet, c: Sextet, d: Sextet, last: bool)
    ensures DecodeQuad([Symbol(a), Symbol(b), Symbol(c), Symbol(d)], last) == Ok(Triple(a, b, c, d))
  {
    ValueOfSymbol(a);
    ValueOfSymbol(b);
    ValueOfSymbol(c);
    ValueOfSymbol(d);
  }

  lemma DecodeSymbolsPadPad(a: Sextet, b: Sextet)
    requires b % 16 == 0
    ensures DecodeQuad([Symbol(a), Symbol(b), PAD, PAD], true) == Ok([a * 4 + b / 16])
  {
    ValueOfSymbol(a);
    ValueOfSymbol(b);
  }

  lemma DecodeSymbolsPad(a: Sextet, b: Sextet, c: Sextet)
    requires c % 4 == 0
    ensures DecodeQuad([Symbol(a), Symbol(b), Symbol(c), PAD], true)
            == Ok([a * 4 + b / 16, (b % 16) * 16 + c / 4])
  {
    ValueOfSymbol(a);
    ValueOfSymbol(b);
    ValueOfSymbol(c);
  }

  lemma GroupOfOne(g: seq<Byte>)
    requires |g| == 1
    ensures DecodeQuad(EncodeGroup(g), true) == Ok(g)
  {
    var x := g[0];
    var v1 := (x % 4) * 16;
    Split16(x % 4, 0);
    DecodeSymbolsPadPad(x / 4, v1);
    assert (x / 4) * 4 + v1 / 16 == x;
    assert [x] == g;
  }

  lemma GroupOfTwo(g: seq<Byte>)
    requires |g| == 2
    ensures DecodeQuad(EncodeGroup(g), true) == Ok(g)
  {
    var x, y := g[0], g[1];
    var v1 := (x % 4) * 16 + y / 16;
    var v2 := (y % 16) * 4;
    Split16(x % 4, y / 16);
    Split4(y % 16, 0);
    DecodeSymbolsPad(x / 4, v1, v2);
    assert (x / 4) * 4 + v1 / 16 == x;
    assert (v1 % 16) * 16 + v2 / 4 == y;
    assert [x, y] == g;
  }

  lemma TripleRoundTrip(x: Byte, y: Byte, z: Byte)
    ensures Triple(x / 4, (x % 4) * 16 + y / 16, (y % 16) * 4 + z / 64, z % 64) == [x, y, z]
  {
    var v1 := (x % 4) * 16 + y / 16;
    var v2 := (y % 16) * 4 + z / 64;
    Split16(x % 4, y / 16);
    Split4(y % 16, z / 64);
    assert (x / 4) * 4 + v1 / 16 == x;
    assert (v1 % 16) * 16 + v2 / 4 == y;
    assert (v2 % 4) * 64 + z % 64 == z;
  }

  lemma GroupOfThree(g: seq<Byte>, last: bool)
    requires |g| == 3
    ensures DecodeQuad(EncodeGroup(g), last) == Ok(g)
  {
    var x, y, z := g[0], g[1], g[2];
    DecodeSymbols(x / 4, (x % 4) * 16 + y / 16, (y % 16) * 4 + z / 64, z % 64, last);
    TripleRoundTrip(x, y, z);
    assert [x, y, z] == g;
  }

  lemma DecodeGroup(g: seq<Byte>, last: bool)
    requires 1 <= |g| <= 3
    requires |g| < 3 ==> last
    ensures DecodeQuad(EncodeGroup(g), last) == Ok(g)
  {
    if |g| == 1 {
      GroupOfOne(g);
    } else if |g| == 2 {
      GroupOfTwo(g);
    } else {
      GroupOfThree(g, last);
    }
  }

  /** Decoding undoes encoding: every byte string survives the round trip. */
  lemma {:induction false} DecodeEncode(b: seq<Byte>)
    ensures Decode(Encode(b)) == Ok(b)
    decreases |b|
  {
    var s := Encode(b);
    if 0 < |b| <= 3 {
      DecodeGroup(b, true);
      assert |s| == 4 && s[..4] == s && s[4..] == [];
      assert DecodeGroups(s[4..]) == Ok([]);
      assert b + [] == b;
    } else if |b| > 3 {
      var q := EncodeGroup(b[..3]);
      assert s[..4] == q && s[4..] == Encode(b[3..]);
      DecodeGroup(b[..3], false);
      DecodeEncode(b[3..]);
      assert b == b[..3] + b[3..];
    }
  }

  lemma EncodeOfPadPad(a: Sextet, b: Sextet)
    requires b % 16 == 0
    ensures EncodeGroup([a * 4 + b / 16]) == [Symbol(a), Symbol(b), PAD, PAD]
  {
    Split4(a, b / 16);
  }

  lemma EncodeOfPad(a: Sextet, b: Sextet, c: Sextet)
    requires c % 4 == 0
    ensures EncodeGroup([a * 4 + b / 16, (b % 16) * 16 + c / 4]) == [Symbol(a), Symbol(b), Symbol(c), PAD]
  {
    Split4(a, b / 16);
    Split16(b % 16, c / 4);
  }

  lemma EncodeOfTriple(a: Sextet, b: Sextet, c: Sextet, d: Sextet)
    ensures EncodeGroup(Triple(a, b, c, d)) == [Symbol(a), Symbol(b), Symbol(c), Symbol(d)]
  {
    var x, y, z := a * 4 + b / 16, (b % 16) * 16 + c / 4, (c % 4) * 64 + d;
    Split4(a, b / 16);
    Split16(b % 16, c / 4);
    Split64(c % 4, d);
    assert x / 4 == a;
    assert (x % 4) * 16 + y / 16 == b;
    assert (y % 16) * 4 + z / 64 == c;
    assert z % 64 == d;
  }

  /** A group that decodes is the padded encoding of what it decodes to. */
  lemma EncodeOfDecodeQuad(q: string, last: bool, g: seq<Byte>)
    requires |q| == 4 && DecodeQuad(q, last) == Ok(g)
    ensures 1 <= |g| <= 3 && (|g| < 3 ==> last)
    ensures EncodeGroup(g) == q
  {
    var a, b := ValueOf(q[0]).value, ValueOf(q[1]).value;
    if last && q[2] == PAD && q[3] == PAD {
      EncodeOfPadPad(a, b);
      assert q == [Symbol(a), Symbol(b), PAD, PAD];
    } else if last && q[3] == PAD {
      var c := ValueOf(q[2]).value;
      EncodeOfPad(a, b, c);
      assert q == [Symbol(a), Symbol(b), Symbol(c), PAD];
    } else {
      var c, d := ValueOf(q[2]).value, ValueOf(q[3]).value;
      EncodeOfTriple(a, b, c, d);
      assert q == [Symbol(a), Symbol(b), Symbol(c), Symbol(d)];
    }
  }

  /** Non-empty text of whole groups has a first group, and whole groups after it. */
  lemma WholeGroups(n: int)
    requires n % 4 == 0 && n > 0
    ensures n >= 4 && (n - 4) % 4 == 0
  {
  }

  /** Accepted text decodes group by group: its first group, then the rest. */
  lemma DecodeGroupsStep(s: string)
    requires |s| % 4 == 0 && s != [] && DecodeGroups(s).Ok?
    ensures DecodeQuad(s[..4], |s| == 4).Ok? && DecodeGroups(s[4..]).Ok?
    ensures DecodeGroups(s).value == DecodeQuad(s[..4], |s| == 4).value + DecodeGroups(s[4..]).value
    ensures |s| == 4 ==> DecodeGroups(s[4..]).value == []
  {
    WholeGroups(|s|);
  }

  /** Text made of an encoded first group and the encoding of the rest is the encoding of both. */
  lemma JoinGroups(s: string, head: seq<Byte>, tail: seq<Byte>)
    requires |s| >= 4 && 1 <= |head| <= 3 && (|s| > 4 ==> |head| == 3)
    requires EncodeGroup(head) == s[..4] && Encode(tail) == s[4..]
    requires |s| == 4 ==> tail == []
    requires |s| > 4 ==> tail != []
    ensures Encode(head + tail) == s
  {
    if |s| == 4 {
      assert head + tail == head;
      assert s == s[..4];
    } else {
      var b := head + tail;
      assert b[..3] == head && b[3..] == tail;
      assert s == s[..4] + s[4..];
    }
  }

  /**
   * Decoding accepts only canonical text: whatever it accepts is the padded
   * encoding of the bytes it returns, and non-empty text yields bytes.
   */
  lemma {:induction false} EncodeDecodeGroups(s: string, b: seq<Byte>)
    requires |s| % 4 == 0 && DecodeGroups(s) == Ok(b)
    ensures Encode(b) == s
    ensures s != [] ==> b != []
    decreases |s|
  {
    if s != [] {
      WholeGroups(|s|);
      DecodeGroupsStep(s);
      var head := DecodeQuad(s[..4], |s| == 4).value;
      var tail := DecodeGroups(s[4..]).value;
      EncodeOfDecodeQuad(s[..4], |s| == 4, head);
      EncodeDecodeGroups(s[4..], tail);
      JoinGroups(s, head, tail);
    }
  }

  /** The converse round trip: text that decodes is the encoding of its bytes. */
  lemma EncodeDecode(s: string)
    requires Decode(s).Ok?
    ensures Encode(Decode(s).value) == s
  {
    EncodeDecodeGroups(s, Decode(s).value);
  }
}
