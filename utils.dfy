/**
 * src/utils.rs: the alphabet and length of API tokens and their generator,
 * the error mapping around the password hasher and verifier, and the
 * decoding of a base-64 bearer credential.
 */
module Utils {
  import opened Wrappers
  import opened Bytes
  import opened Errors
  import Base64
  import Utf8

  /** The 62 symbols a token is drawn from, in the order the source lists them. */
  const CHARSET: string := "ABCDEFGHIJKLMNOPQRSTUVWXYZ" + "abcdefghijklmnopqrstuvwxyz" + "0123456789"

  /** How many symbols a generated token has. */
  const API_TOKEN_LEN: nat := 30

  predicate IsAlphanumeric(c: char)
  {
    'A' <= c <= 'Z' || 'a' <= c <= 'z' || '0' <= c <= '9'
  }

  /** CHARSET is the base-64 alphabet of RFC 4648 without its last two symbols. */
  lemma CharsetAt(i: int)
    requires 0 <= i < 62
    ensures |CHARSET| == 62 && CHARSET[i] == Base64.Symbol(i)
  {
  }

  /** The position of an alphanumeric character in CHARSET. */
  function CharsetIndex(c: char): (i: nat)
    requires IsAlphanumeric(c)
    ensures i < |CHARSET| && CHARSET[i] == c
  {
    var i := Base64.ValueOf(c).value;
    CharsetAt(i);
    i
  }

  /** CHARSET has 62 symbols, pairwise distinct, and they are exactly the ASCII letters and digits. */
  lemma CharsetShape()
    ensures |CHARSET| == 62
    ensures forall i, j :: 0 <= i < j < |CHARSET| ==> CHARSET[i] != CHARSET[j]
    ensures forall c :: c in CHARSET <==> IsAlphanumeric(c)
  {
    forall i | 0 <= i < |CHARSET| ensures IsAlphanumeric(CHARSET[i]) && CharsetIndex(CHARSET[i]) == i {
      CharsetAt(i);
    }
    forall c | IsAlphanumeric(c) ensures c in CHARSET {
      var i := CharsetIndex(c);
    }
  }

  /** What `rand::Rng::gen_range(0..CHARSET.len())` may return. */
  predicate IsCharsetIndex(i: int)
  {
    0 <= i < |CHARSET|
  }

  /** The shape of every token the generator hands out. */
  predicate IsApiToken(t: string)
  {
    |t| == API_TOKEN_LEN && forall i :: 0 <= i < |t| ==> IsAlphanumeric(t[i])
  }

  /** The token spelled by one index per position. */
  function TokenOf(draws: seq<int>): (t: string)
    requires |draws| == API_TOKEN_LEN && forall i :: 0 <= i < |draws| ==> IsCharsetIndex(draws[i])
  {
    seq(API_TOKEN_LEN, i requires 0 <= i < API_TOKEN_LEN && IsCharsetIndex(draws[i]) => CHARSET[draws[i]])
  }

  /**
   * `generate_api_token`, with the random generator's 30 draws passed in:
   * position k holds the CHARSET symbol at the k-th draw.
   */
  method GenerateApiToken(draws: seq<int>) returns (token: string)
    requires |draws| == API_TOKEN_LEN
    requires forall i :: 0 <= i < |draws| ==> IsCharsetIndex(draws[i])
    ensures token == TokenOf(draws)
    ensures IsApiToken(token)
  {
    var buffer := new char[API_TOKEN_LEN];
    for k := 0 to API_TOKEN_LEN
      invariant forall i :: 0 <= i < k ==> buffer[i] == CHARSET[draws[i]] && IsAlphanumeric(buffer[i])
    {
      CharsetAt(draws[k]);
      buffer[k] := CHARSET[draws[k]];
    }
    token := buffer[..];
  }

  /** The draws that spell a given token. */
  function DrawsFor(t: string): (draws: seq<int>)
    requires IsApiToken(t)
    ensures |draws| == API_TOKEN_LEN && forall i :: 0 <= i < |draws| ==> IsCharsetIndex(draws[i])
    ensures TokenOf(draws) == t
  {
    seq(API_TOKEN_LEN, i requires 0 <= i < API_TOKEN_LEN => CharsetIndex(t[i]))
  }

  /** The generator reaches every well-formed token and nothing else. */
  lemma GeneratedTokensAreExactlyApiTokens(t: string)
    ensures IsApiToken(t) <==>
      exists draws :: |draws| == API_TOKEN_LEN && (forall i :: 0 <= i < |draws| ==> IsCharsetIndex(draws[i]))
                      && TokenOf(draws) == t
  {
    if IsApiToken(t) {
      var draws := DrawsFor(t);
    }
    forall draws | |draws| == API_TOKEN_LEN && (forall i :: 0 <= i < |draws| ==> IsCharsetIndex(draws[i]))
      ensures IsApiToken(TokenOf(draws))
    {
      forall i | 0 <= i < API_TOKEN_LEN ensures IsAlphanumeric(TokenOf(draws)[i]) {
        CharsetAt(draws[i]);
      }
    }
  }

  /** The failure of the foreign Argon2 call, whatever its cause. */
  datatype HashFailure = HashFailure

  /** argonautica's hasher: (password, secret key) to an encoded hash. Opaque. */
  type Hasher = (string, string) -> Result<string, HashFailure>

  /** argonautica's verifier: (hash, password, secret key) to whether they match. Opaque. */
  type Verifier = (string, string, string) -> Result<bool, HashFailure>

  const HASH_FAILED: string := "Could not hash password"
  const VERIFY_FAILED: string := "Unauthorized"

  /** `hash_password`: the hasher's output, or its failure as an authentication error. */
  function HashPassword(hasher: Hasher, secretKey: string, password: string): (r: Result<string, ServiceError>)
    ensures r.Ok? <==> hasher(password, secretKey).Ok?
    ensures r.Ok? ==> r.value == hasher(password, secretKey).value
    ensures r.Err? ==> r.error == AuthenticationError(HASH_FAILED)
  {
    match hasher(password, secretKey)
    case Ok(h) => Ok(h)
    case Err(_) => Err(AuthenticationError(HASH_FAILED))
  }

  /** `verify`: the verifier's verdict, or its failure as an authentication error. */
  function Verify(verifier: Verifier, secretKey: string, hash: string, password: string): (r: Result<bool, ServiceError>)
    ensures r.Ok? <==> verifier(hash, password, secretKey).Ok?
    ensures r.Ok? ==> r.value == verifier(hash, password, secretKey).value
    ensures r.Err? ==> r.error == AuthenticationError(VERIFY_FAILED)
  {
    match verifier(hash, password, secretKey)
    case Ok(b) => Ok(b)
    case Err(_) => Err(AuthenticationError(VERIFY_FAILED))
  }

  /** The two `panic`s of `decode_token`, made explicit. */
  datatype TokenPanic = InvalidBase64(cause: Base64.DecodeError) | InvalidUtf8

  /**
   * `decode_token`: on success, the string whose UTF-8 bytes are the base-64
   * decoding of the credential; a credential that is not base 64, or whose
   * bytes are not UTF-8, is a panic.
   */
  function DecodeToken(credential: string): (r: Result<string, TokenPanic>)
    ensures r.Ok? <==> Base64.Decode(credential).Ok? && Utf8.Decode(Base64.Decode(credential).value).Some?
    ensures r.Ok? ==> Base64.Decode(credential) == Ok(Utf8.Encode(r.value))
    ensures Base64.Decode(credential).Err? ==> r == Err(InvalidBase64(Base64.Decode(credential).error))
    ensures Base64.Decode(credential).Ok? && r.Err? ==> r == Err(InvalidUtf8)
  {
    match Base64.Decode(credential)
    case Err(e) => Err(InvalidBase64(e))
    case Ok(bytes) =>
      match Utf8.Decode(bytes)
      case None => Err(InvalidUtf8)
      case Some(s) =>
        Utf8.EncodeDecode(bytes);
        Ok(s)
  }

  /**
   * The credentials `decode_token` accepts are exactly the base-64 encodings
   * of UTF-8 strings: one made that way decodes to its string, and one that
   * decodes is the encoding of what it decodes to.
   */
  lemma DecodeTokenRoundTrip(s: string, credential: string)
    ensures DecodeToken(Base64.Encode(Utf8.Encode(s))) == Ok(s)
    ensures DecodeToken(credential).Ok? ==> credential == Base64.Encode(Utf8.Encode(DecodeToken(credential).value))
  {
    Base64.DecodeEncode(Utf8.Encode(s));
    Utf8.DecodeEncode(s);
    if DecodeToken(credential).Ok? {
      Base64.EncodeDecode(credential);
    }
  }

  /**
   * Under the strict RFC 4648 decoder modelled here, a generated token is
   * never a base-64 credential: its 30 symbols are not a whole number of
   * four-symbol groups, so `decode_token` panics on it. A decoder that
   * accepts unpadded input would not reject it on length.
   */
  lemma DecodeTokenRejectsGeneratedTokens(t: string)
    requires IsApiToken(t)
    ensures DecodeToken(t) == Err(InvalidBase64(Base64.InvalidLength))
  {
  }
}
