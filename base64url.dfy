/**
 * Name hashing: the digest of a document name written with the URL-safe
 * base64 alphabet of section 5 of RFC 4648, without '=' padding
 * (Go's base64.RawURLEncoding).
 */
module Base64Url {

  type Byte = b: int | 0 <= b < 256

  /** A six-bit group, the value one output character carries. */
  type Sextet = c: int | 0 <= c < 64

  /** A SHA-256 digest: 32 bytes. */
  type Digest = d: seq<Byte> | |d| == 32 witness seq(32, _ => 0)

  predicate IsUrlChar(c: char) {
    'A' <= c <= 'Z' || 'a' <= c <= 'z' || '0' <= c <= '9' || c == '-' || c == '_'
  }

  predicate AllUrlChars(s: string) {
    forall i :: 0 <= i < |s| ==> IsUrlChar(s[i])
  }

  /** The character for a sextet: A-Z, a-z, 0-9, then '-' and '_'. */
  function EncodeSextet(c: Sextet): (ch: char)
    ensures IsUrlChar(ch)
  {
    if c < 26 then ('A' as int + c) as char
    else if c < 52 then ('a' as int + (c - 26)) as char
    else if c < 62 then ('0' as int + (c - 52)) as char
    else if c == 62 then '-'
    else '_'
  }

  function DecodeSextet(ch: char): Sextet
    requires IsUrlChar(ch)
  {
    if 'A' <= ch <= 'Z' then ch as int - 'A' as int
    else if 'a' <= ch <= 'z' then ch as int - 'a' as int + 26
    else if '0' <= ch <= '9' then ch as int - '0' as int + 52
    else if ch == '-' then 62
    else 63
  }

  lemma DecodeEncodeSextet(c: Sextet)
    ensures DecodeSextet(EncodeSextet(c)) == c
  {
  }

  /** Three bytes become four characters, the first byte's high bits first. */
  function EncodeGroup(b0: Byte, b1: Byte, b2: Byte): string {
    [EncodeSextet(b0 / 4), EncodeSextet((b0 % 4) * 16 + b1 / 16),
     EncodeSextet((b1 % 16) * 4 + b2 / 64), EncodeSextet(b2 % 64)]
  }

  /**
   * The whole encoding. Without padding, a final pair of bytes gives three
   * characters and a final single byte two.
   */
  function Encode(b: seq<Byte>): (s: string)
    ensures |s| == (4 * |b| + 2) / 3
    ensures AllUrlChars(s)
    decreases |b|
  {
    if |b| >= 3 then EncodeGroup(b[0], b[1], b[2]) + Encode(b[3..])
    else if |b| == 2 then [EncodeSextet(b[0] / 4), EncodeSextet((b[0] % 4) * 16 + b[1] / 16), EncodeSextet((b[1] % 16) * 4)]
    else if |b| == 1 then [EncodeSextet(b[0] / 4), EncodeSextet((b[0] % 4) * 16)]
    else []
  }

  /** The inverse of Encode on its image: four characters give back three bytes. */
  function Decode(s: string): seq<Byte>
    requires AllUrlChars(s)
    decreases |s|
  {
    if |s| >= 4 then
      var c0, c1, c2, c3 := DecodeSextet(s[0]), DecodeSextet(s[1]), DecodeSextet(s[2]), DecodeSextet(s[3]);
      [c0 * 4 + c1 / 16, (c1 % 16) * 16 + c2 / 4, (c2 % 4) * 64 + c3] + Decode(s[4..])
    else if |s| == 3 then
      var c0, c1, c2 := DecodeSextet(s[0]), DecodeSextet(s[1]), DecodeSextet(s[2]);
      [c0 * 4 + c1 / 16, (c1 % 16) * 16 + c2 / 4]
    else if |s| == 2 then
      [DecodeSextet(s[0]) * 4 + DecodeSextet(s[1]) / 16]
    else []
  }

  /** The bit arithmetic of one group: the three bytes come back from the four sextets. */
  lemma GroupArithmetic(b0: Byte, b1: Byte, b2: Byte)
    ensures var c0, c1, c2, c3 := b0 / 4, (b0 % 4) * 16 + b1 / 16, (b1 % 16) * 4 + b2 / 64, b2 % 64;
      c0 * 4 + c1 / 16 == b0 && (c1 % 16) * 16 + c2 / 4 == b1 && (c2 % 4) * 64 + c3 == b2
  {
  }

  lemma DecodeGroup(b0: Byte, b1: Byte, b2: Byte, rest: string)
    requires AllUrlChars(rest)
    ensures AllUrlChars(EncodeGroup(b0, b1, b2) + rest)
    ensures Decode(EncodeGroup(b0, b1, b2) + rest) == [b0, b1, b2] + Decode(rest)
  {
    var s := EncodeGroup(b0, b1, b2) + rest;
    DecodeEncodeSextet(b0 / 4);
    DecodeEncodeSextet((b0 % 4) * 16 + b1 / 16);
    DecodeEncodeSextet((b1 % 16) * 4 + b2 / 64);
    DecodeEncodeSextet(b2 % 64);
    GroupArithmetic(b0, b1, b2);
    assert s[4..] == rest;
  }

  /** Encoding loses nothing: the bytes can be read back from the text. */
  lemma {:induction false} DecodeEncode(b: seq<Byte>)
    ensures Decode(Encode(b)) == b
    decreases |b|
  {
    if |b| >= 3 {
      DecodeGroup(b[0], b[1], b[2], Encode(b[3..]));
      DecodeEncode(b[3..]);
      assert b == [b[0], b[1], b[2]] + b[3..];
    } else if |b| == 2 {
      DecodeEncodeSextet(b[0] / 4);
      DecodeEncodeSextet((b[0] % 4) * 16 + b[1] / 16);
      DecodeEncodeSextet((b[1] % 16) * 4);
      GroupArithmetic(b[0], b[1], 0);
    } else if |b| == 1 {
      DecodeEncodeSextet(b[0] / 4);
      DecodeEncodeSextet((b[0] % 4) * 16);
      GroupArithmetic(b[0], 0, 0);
    }
  }

  /** Different digests never share a name. */
  lemma EncodeInjective(a: seq<Byte>, b: seq<Byte>)
    ensures Encode(a) == Encode(b) ==> a == b
  {
    DecodeEncode(a);
    DecodeEncode(b);
  }

  /**
   * Doc.Hash: the name's SHA-256 digest, base64url without padding. SHA-256
   * itself is the parameter sha; the name depends on nothing but the
   * document name.
   */
  function HashName(sha: string -> Digest, name: string): (h: string)
    ensures |h| == 43 && AllUrlChars(h)
  {
    Encode(sha(name))
  }

  /** The hash name determines the digest it was made from. */
  lemma HashNameDecodes(sha: string -> Digest, name: string)
    ensures Decode(HashName(sha, name)) == sha(name)
  {
    DecodeEncode(sha(name));
  }
}
