/**
 * `PasswordUtils.hashPassword` (PasswordUtils.kt): the SHA-256 digest of the
 * password, each byte written as two lowercase hex digits. The digest itself is
 * a parameter of the model.
 */
module PasswordUtils {

  /** A JVM `Byte`. */
  newtype Byte = b: int | -128 <= b < 128

  /** The byte as the formatter sees it for `%x`: negative values have 2^8 added. */
  function Unsigned(b: Byte): (u: int)
    ensures 0 <= u < 256
    ensures u % 256 == (b as int) % 256
  {
    if b < 0 then b as int + 256 else b as int
  }

  predicate IsHexDigit(c: char) {
    ('0' <= c <= '9') || ('a' <= c <= 'f')
  }

  /** The lowercase hex digit for a nibble. */
  function HexDigit(v: int): (c: char)
    requires 0 <= v < 16
    ensures IsHexDigit(c)
  {
    if v < 10 then ('0' as int + v) as char else ('a' as int + v - 10) as char
  }

  /** The value of a lowercase hex digit. */
  function DigitValue(c: char): (v: int)
    requires IsHexDigit(c)
    ensures 0 <= v < 16 && HexDigit(v) == c
  {
    if c <= '9' then c as int - '0' as int else c as int - 'a' as int + 10
  }

  /** `"%02x".format(b)`: two lowercase digits, high nibble first. */
  function HexByte(b: Byte): (s: string)
    ensures |s| == 2 && IsHexDigit(s[0]) && IsHexDigit(s[1])
    ensures DigitValue(s[0]) * 16 + DigitValue(s[1]) == Unsigned(b)
  {
    var u := Unsigned(b);
    Nibbles(u);
    [HexDigit(u / 16), HexDigit(u % 16)]
  }

  lemma Nibbles(u: int)
    requires 0 <= u < 256
    ensures 0 <= u / 16 < 16 && 0 <= u % 16 < 16 && (u / 16) * 16 + u % 16 == u
  {
  }

  /** The two digits of a byte read back as that byte. */
  lemma ByteOfHexByte(b: Byte)
    ensures ByteOf(HexByte(b)[0], HexByte(b)[1]) == b
  {
  }

  ghost predicate AllHex(s: string) {
    forall i :: 0 <= i < |s| ==> IsHexDigit(s[i])
  }

  /** `joinToString("") { "%02x".format(it) }`. */
  function HexEncode(bytes: seq<Byte>): (s: string)
    ensures |s| == 2 * |bytes|
    ensures AllHex(s)
  {
    if bytes == [] then "" else HexByte(bytes[0]) + HexEncode(bytes[1..])
  }

  /** The byte two hex digits stand for. */
  function ByteOf(hi: char, lo: char): (b: Byte)
    requires IsHexDigit(hi) && IsHexDigit(lo)
  {
    var u := DigitValue(hi) * 16 + DigitValue(lo);
    if u >= 128 then (u - 256) as Byte else u as Byte
  }

  /** Reads an even-length string of hex digits back into bytes. */
  function HexDecode(s: string): (bytes: seq<Byte>)
    requires |s| % 2 == 0 && AllHex(s)
    ensures |bytes| == |s| / 2
  {
    if s == [] then [] else [ByteOf(s[0], s[1])] + HexDecode(s[2..])
  }

  /** Decoding inverts encoding. */
  lemma {:induction false} DecodeEncode(bytes: seq<Byte>)
    ensures HexDecode(HexEncode(bytes)) == bytes
  {
    if bytes != [] {
      var s := HexEncode(bytes);
      var h := HexByte(bytes[0]);
      assert s == h + HexEncode(bytes[1..]);
      assert s[0] == h[0] && s[1] == h[1];
      assert s[2..] == HexEncode(bytes[1..]);
      ByteOfHexByte(bytes[0]);
      DecodeEncode(bytes[1..]);
    }
  }

  /** Encoding is injective: equal hex strings come from equal digests. */
  lemma EncodeInjective(a: seq<Byte>, b: seq<Byte>)
    ensures HexEncode(a) == HexEncode(b) <==> a == b
  {
    if HexEncode(a) == HexEncode(b) {
      DecodeEncode(a);
      DecodeEncode(b);
    }
  }

  /** `hashPassword`, with `digest` standing for SHA-256 over the password's bytes. */
  function HashPassword(digest: string -> seq<Byte>, password: string): (h: string)
    ensures |h| == 2 * |digest(password)|
    ensures AllHex(h)
  {
    HexEncode(digest(password))
  }

  /** Two passwords hash alike exactly when their digests are equal. */
  lemma HashesMatchIffDigestsMatch(digest: string -> seq<Byte>, p: string, q: string)
    ensures HashPassword(digest, p) == HashPassword(digest, q) <==> digest(p) == digest(q)
  {
    EncodeInjective(digest(p), digest(q));
  }

  /** A 32-byte digest gives 64 lowercase hex digits. */
  lemma Sha256HashLength(digest: string -> seq<Byte>, password: string)
    requires |digest(password)| == 32
    ensures |HashPassword(digest, password)| == 64
    ensures AllHex(HashPassword(digest, password))
  {
  }
}
