/**
  Password hashing as done by the local store: the SHA-256 digest of the
  password's UTF-8 bytes, each digest byte printed with `"%02x"` and the
  pieces joined. The digest itself is not modelled: every operation that
  hashes takes the digest as a function argument (`Sha256`), so all the model
  knows of it is that it is deterministic and yields 32 bytes. The hex step is
  modelled exactly, including Kotlin's signed `Byte`.
*/
module PasswordHash {

  /** A Kotlin `Byte`: signed, -128..127. */
  type SByte = b: int | -128 <= b < 128

  /** A SHA-256 digest: 32 bytes. */
  type Digest = d: seq<SByte> | |d| == 32 witness seq(32, _ => 0)

  /** `MessageDigest.getInstance("SHA-256").digest(password.toByteArray())`, taken as given. */
  type Sha256 = string -> Digest

  /** A lowercase hex digit, as `%x` prints them. */
  predicate IsHexDigit(c: char) {
    '0' <= c <= '9' || 'a' <= c <= 'f'
  }

  /** A digest as stored in the users table: 64 lowercase hex characters. */
  predicate IsDigestHex(h: string) {
    |h| == 64 && forall i :: 0 <= i < |h| ==> IsHexDigit(h[i])
  }

  /** The lowercase hex digit of a value below 16. */
  function HexDigit(v: nat): (c: char)
    requires v < 16
    ensures IsHexDigit(c) && HexValue(c) == v
  {
    if v < 10 then ('0' as int + v) as char else ('a' as int + v - 10) as char
  }

  /**
    `java.util.Formatter` applies `%x` to a negative `Byte` after adding 2^8,
    so every byte prints as its unsigned value.
  */
  function Unsigned(b: SByte): (u: nat)
    ensures u < 256
    ensures (u - b) % 256 == 0
  {
    if b < 0 then b + 256 else b
  }

  /** `"%02x".format(b)`: exactly two lowercase hex digits, high nibble first. */
  function HexByte(b: SByte): (h: string)
    ensures |h| == 2 && IsHexDigit(h[0]) && IsHexDigit(h[1])
    ensures HexValue(h[0]) * 16 + HexValue(h[1]) == Unsigned(b)
  {
    var u := Unsigned(b);
    [HexDigit(u / 16), HexDigit(u % 16)]
  }

  /** `bytes.joinToString("") { "%02x".format(it) }` */
  function HexEncode(bytes: seq<SByte>): (h: string)
    ensures |h| == 2 * |bytes|
    ensures forall i :: 0 <= i < |h| ==> IsHexDigit(h[i])
  {
    if |bytes| == 0 then [] else HexByte(bytes[0]) + HexEncode(bytes[1..])
  }

  /** The value of a lowercase hex digit. */
  function HexValue(c: char): (v: nat)
    requires IsHexDigit(c)
    ensures v < 16
  {
    if '0' <= c <= '9' then c as int - '0' as int else c as int - 'a' as int + 10
  }

  /** Reads two hex digits back as a signed byte. */
  function ParseByte(h: string): (b: SByte)
    requires |h| == 2 && IsHexDigit(h[0]) && IsHexDigit(h[1])
  {
    var u := HexValue(h[0]) * 16 + HexValue(h[1]);
    if u < 128 then u else u - 256
  }

  /** The inverse of `HexEncode`, for strings of hex digit pairs. */
  function HexDecode(h: string): (bytes: seq<SByte>)
    requires |h| % 2 == 0
    requires forall i :: 0 <= i < |h| ==> IsHexDigit(h[i])
    ensures 2 * |bytes| == |h|
  {
    if |h| == 0 then [] else [ParseByte(h[..2])] + HexDecode(h[2..])
  }

  /** Hex encoding loses nothing: decoding gives the bytes back. */
  lemma {:induction false} HexRoundTrip(bytes: seq<SByte>)
    ensures HexDecode(HexEncode(bytes)) == bytes
  {
    if |bytes| > 0 {
      var h := HexEncode(bytes);
      var b := bytes[0];
      assert h[..2] == HexByte(b);
      assert h[2..] == HexEncode(bytes[1..]);
      assert ParseByte(HexByte(b)) == b;
      HexRoundTrip(bytes[1..]);
    }
  }

  /** `hashPassword`: the hex rendering of the password's digest. */
  function HashPassword(sha: Sha256, password: string): (h: string)
    ensures IsDigestHex(h)
  {
    HexEncode(sha(password))
  }

  /** Two passwords hash alike exactly when their digests are equal: the hex step never merges digests. */
  lemma HashEqualIffDigestEqual(sha: Sha256, p: string, q: string)
    ensures HashPassword(sha, p) == HashPassword(sha, q) <==> sha(p) == sha(q)
  {
    if HashPassword(sha, p) == HashPassword(sha, q) {
      HexRoundTrip(sha(p));
      HexRoundTrip(sha(q));
    }
  }
}
