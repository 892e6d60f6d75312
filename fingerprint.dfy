/**
 * Content fingerprints (src/commands/utils.rs): the SHA-256 digest of a
 * file's bytes, rendered by `format!("{:X}", ..)` as upper-case hex, two
 * digits per byte, high nibble first.
 *
 * SHA-256 itself is not modelled: every operation that fingerprints takes
 * the digest function as a parameter whose results are 32 bytes long.
 */
module Fingerprint {
  import opened Common

  /** A SHA-256 digest: exactly 32 bytes. */
  type Digest = d: seq<byte> | |d| == 32 witness seq(32, _ => 0)

  /** The alphabet of `{:X}`, indexed by nibble value. */
  const UpperHexDigits: string := "0123456789ABCDEF"

  predicate IsUpperHexDigit(c: char)
  {
    '0' <= c <= '9' || 'A' <= c <= 'F'
  }

  /** Upper-case hex rendering of a byte string. */
  function HexUpper(d: seq<byte>): (r: string)
    ensures |r| == 2 * |d|
    ensures forall i :: 0 <= i < |d| ==>
              r[2 * i] == UpperHexDigits[d[i] / 16] && r[2 * i + 1] == UpperHexDigits[d[i] % 16]
    ensures forall k :: 0 <= k < |r| ==> IsUpperHexDigit(r[k])
  {
    if d == [] then []
    else
      var rest := HexUpper(d[1..]);
      var r := [UpperHexDigits[d[0] / 16], UpperHexDigits[d[0] % 16]] + rest;
      assert forall i :: 1 <= i < |d| ==>
               r[2 * i] == UpperHexDigits[d[i] / 16] && r[2 * i + 1] == UpperHexDigits[d[i] % 16] by {
        forall i | 1 <= i < |d|
          ensures r[2 * i] == UpperHexDigits[d[i] / 16] && r[2 * i + 1] == UpperHexDigits[d[i] % 16]
        {
          assert d[1..][i - 1] == d[i];
          assert r[2 * i] == rest[2 * (i - 1)] && r[2 * i + 1] == rest[2 * (i - 1) + 1];
        }
      }
      r
  }

  /** `generate_hash`: the fingerprint of `content` under the digest function `sha256`. */
  function GenerateHash(sha256: seq<byte> -> Digest, content: seq<byte>): (r: string)
    ensures |r| == 64
    ensures forall k :: 0 <= k < |r| ==> IsUpperHexDigit(r[k])
  {
    HexUpper(sha256(content))
  }

  /** The value of one hex digit of either case, or None. */
  function NibbleOf(c: char): Option<int>
  {
    if '0' <= c <= '9' then Some(c as int - '0' as int)
    else if 'A' <= c <= 'F' then Some(c as int - 'A' as int + 10)
    else if 'a' <= c <= 'f' then Some(c as int - 'a' as int + 10)
    else None
  }

  /** Reference decoder: reads a hex string two digits per byte, high nibble first. */
  function HexDecode(s: string): (r: Option<seq<byte>>)
    decreases |s|
  {
    if s == [] then Some([])
    else if |s| == 1 then None
    else
      match (NibbleOf(s[0]), NibbleOf(s[1]), HexDecode(s[2..]))
      case (Some(hi), Some(lo), Some(rest)) =>
        if 0 <= hi < 16 && 0 <= lo < 16 then Some([(hi * 16 + lo) as byte] + rest) else None
      case _ => None
  }

  lemma NibbleOfDigit(n: int)
    requires 0 <= n < 16
    ensures NibbleOf(UpperHexDigits[n]) == Some(n)
  {
  }

  /** Decoding one rendered byte in front of `s`. */
  lemma HexDecodePair(b: byte, s: string)
    ensures HexDecode([UpperHexDigits[b / 16], UpperHexDigits[b % 16]] + s)
            == match HexDecode(s) case Some(rest) => Some([b] + rest) case None => None
  {
    var t := [UpperHexDigits[b / 16], UpperHexDigits[b % 16]] + s;
    assert t[2..] == s;
    NibbleOfDigit(b / 16);
    NibbleOfDigit(b % 16);
    assert (b / 16) * 16 + b % 16 == b;
  }

  /** Decoding the rendering gives back the digest. */
  lemma {:induction false} HexDecodeHexUpper(d: seq<byte>)
    ensures HexDecode(HexUpper(d)) == Some(d)
  {
    if d != [] {
      HexDecodeHexUpper(d[1..]);
      HexDecodePair(d[0], HexUpper(d[1..]));
      assert d == [d[0]] + d[1..];
    }
  }

  /** Distinct digests render to distinct strings. */
  lemma HexUpperInjective(a: seq<byte>, b: seq<byte>)
    requires HexUpper(a) == HexUpper(b)
    ensures a == b
  {
    HexDecodeHexUpper(a);
    HexDecodeHexUpper(b);
  }

  /** Equal fingerprints mean equal digests: the fingerprint loses nothing of the digest. */
  lemma GenerateHashInjectiveOnDigest(sha256: seq<byte> -> Digest, x: seq<byte>, y: seq<byte>)
    requires GenerateHash(sha256, x) == GenerateHash(sha256, y)
    ensures sha256(x) == sha256(y)
  {
    HexUpperInjective(sha256(x), sha256(y));
  }
}
