/**
 * HashPassword (client.go): the SHA-1 digest of the password, printed with
 * `%X` (two upper-case hex characters per byte, high nibble first) and cut
 * after the fifth character into the prefix sent to the service and the
 * suffix kept for local matching. SHA-1 itself is not modelled: the 20-byte
 * digest is the input.
 */
module HashSplit {

  type byte = x: int | 0 <= x < 256

  const DigestLength: nat := 20
  const PrefixLength: nat := 5

  predicate IsUpperHex(c: char) {
    '0' <= c <= '9' || 'A' <= c <= 'F'
  }

  predicate AllUpperHex(s: string) {
    forall k :: 0 <= k < |s| ==> IsUpperHex(s[k])
  }

  function HexChar(v: nat): (c: char)
    requires v < 16
    ensures IsUpperHex(c)
  {
    if v < 10 then ('0' as int + v) as char else ('A' as int + v - 10) as char
  }

  function HexValue(c: char): (v: nat)
    requires IsUpperHex(c)
    ensures v < 16 && HexChar(v) == c
    ensures forall w :: 0 <= w < 16 && HexChar(w) == c ==> w == v
  {
    if c <= '9' then c as int - '0' as int else c as int - 'A' as int + 10
  }

  /** fmt.Sprintf("%X", digest). */
  function HexEncode(digest: seq<byte>): (s: string)
    ensures |s| == 2 * |digest|
  {
    if digest == [] then []
    else [HexChar(digest[0] / 16), HexChar(digest[0] % 16)] + HexEncode(digest[1..])
  }

  /** `%X` writes only the characters 0-9 and A-F. */
  lemma HexEncodeIsHex(digest: seq<byte>)
    ensures AllUpperHex(HexEncode(digest))
  {
  }

  /** Reads upper-case hex text back into bytes, two characters per byte. */
  function HexDecode(s: string): (digest: seq<byte>)
    requires |s| % 2 == 0 && AllUpperHex(s)
    ensures |digest| == |s| / 2
  {
    if s == [] then [] else [HexValue(s[0]) * 16 + HexValue(s[1])] + HexDecode(s[2..])
  }

  lemma {:induction false} HexRoundTrip(digest: seq<byte>)
    ensures AllUpperHex(HexEncode(digest)) && HexDecode(HexEncode(digest)) == digest
  {
    HexEncodeIsHex(digest);
    if digest != [] {
      var s := HexEncode(digest);
      var hi, lo := digest[0] / 16, digest[0] % 16;
      assert HexValue(s[0]) == hi && HexValue(s[1]) == lo;
      assert s[2..] == HexEncode(digest[1..]);
      HexRoundTrip(digest[1..]);
    }
  }

  lemma HexCharInjective(v: nat, w: nat)
    requires v < 16 && w < 16
    ensures HexChar(v) == HexChar(w) <==> v == w
  {
  }

  /** Character k of the hex text: a nibble of byte k / 2. */
  lemma {:induction false} HexEncodeAt(digest: seq<byte>, k: nat)
    requires k < 2 * |digest|
    ensures HexEncode(digest)[k] ==
      if k % 2 == 0 then HexChar(digest[k / 2] / 16) else HexChar(digest[k / 2] % 16)
  {
    if k >= 2 {
      HexEncodeAt(digest[1..], k - 2);
    }
  }

  /** The two halves of the hex digest: the prefix sent to the service and
      the suffix kept for matching. */
  datatype PrefixSuffix = PrefixSuffix(prefix: string, suffix: string)

  /** HashPassword, given the password's SHA-1 digest. */
  function HashPassword(digest: seq<byte>): (r: PrefixSuffix)
    requires |digest| == DigestLength
    ensures |r.prefix| == PrefixLength && |r.suffix| == 2 * DigestLength - PrefixLength
    ensures r.prefix + r.suffix == HexEncode(digest)
  {
    var hash := HexEncode(digest);
    assert hash[0..5] + hash[5..] == hash;
    PrefixSuffix(hash[0..5], hash[5..])
  }

  /** Prefix and suffix are upper-case hex, and together they determine the
      digest: nothing of it is lost by the split. */
  lemma HashPasswordLossless(digest: seq<byte>)
    requires |digest| == DigestLength
    ensures AllUpperHex(HashPassword(digest).prefix) && AllUpperHex(HashPassword(digest).suffix)
    ensures HexDecode(HashPassword(digest).prefix + HashPassword(digest).suffix) == digest
  {
    var r := HashPassword(digest);
    var hash := HexEncode(digest);
    HexEncodeIsHex(digest);
    forall k | 0 <= k < |r.prefix|
      ensures IsUpperHex(r.prefix[k])
    {
      assert r.prefix[k] == hash[k];
    }
    forall k | 0 <= k < |r.suffix|
      ensures IsUpperHex(r.suffix[k])
    {
      assert r.suffix[k] == hash[k + 5];
    }
    HexRoundTrip(digest);
  }

  /** What the prefix reveals about the digest is exactly its first 20 bits:
      two digests give the same prefix iff they agree on the first two bytes
      and the high nibble of the third. */
  lemma PrefixRevealsTwentyBits(d1: seq<byte>, d2: seq<byte>)
    requires |d1| == DigestLength && |d2| == DigestLength
    ensures HashPassword(d1).prefix == HashPassword(d2).prefix <==>
      d1[0] == d2[0] && d1[1] == d2[1] && d1[2] / 16 == d2[2] / 16
  {
    var p1, p2 := HashPassword(d1).prefix, HashPassword(d2).prefix;
    forall k | 0 <= k < PrefixLength
      ensures p1[k] == HexEncode(d1)[k] && p2[k] == HexEncode(d2)[k]
    {
      HexEncodeAt(d1, k);
      HexEncodeAt(d2, k);
    }
    HexEncodeAt(d1, 0); HexEncodeAt(d2, 0);
    HexEncodeAt(d1, 1); HexEncodeAt(d2, 1);
    HexEncodeAt(d1, 2); HexEncodeAt(d2, 2);
    HexEncodeAt(d1, 3); HexEncodeAt(d2, 3);
    HexEncodeAt(d1, 4); HexEncodeAt(d2, 4);
    HexCharInjective(d1[0] / 16, d2[0] / 16);
    HexCharInjective(d1[0] % 16, d2[0] % 16);
    HexCharInjective(d1[1] / 16, d2[1] / 16);
    HexCharInjective(d1[1] % 16, d2[1] % 16);
    HexCharInjective(d1[2] / 16, d2[2] / 16);
    if p1 == p2 {
      assert d1[0] / 16 == d2[0] / 16 && d1[0] % 16 == d2[0] % 16;
      assert d1[1] / 16 == d2[1] / 16 && d1[1] % 16 == d2[1] % 16;
    }
    if d1[0] == d2[0] && d1[1] == d2[1] && d1[2] / 16 == d2[2] / 16 {
      assert p1 == p2;
    }
  }

  /** The prefix is the hex text of the first two and a half bytes. */
  lemma PrefixOfDigest(digest: seq<byte>)
    requires |digest| == DigestLength
    ensures HashPassword(digest).prefix ==
      [HexChar(digest[0] / 16), HexChar(digest[0] % 16), HexChar(digest[1] / 16),
       HexChar(digest[1] % 16), HexChar(digest[2] / 16)]
  {
    var p := HashPassword(digest).prefix;
    HexEncodeAt(digest, 0);
    HexEncodeAt(digest, 1);
    HexEncodeAt(digest, 2);
    HexEncodeAt(digest, 3);
    HexEncodeAt(digest, 4);
    assert p[0] == HexEncode(digest)[0] && p[1] == HexEncode(digest)[1] && p[2] == HexEncode(digest)[2];
    assert p[3] == HexEncode(digest)[3] && p[4] == HexEncode(digest)[4];
  }

  /** The prefixes the client's tests expect for the empty password (SHA-1
      DA39A3EE...) and for "password" (SHA-1 5BAA61E4...). */
  lemma KnownPrefixes(digest: seq<byte>)
    requires |digest| == DigestLength
    ensures digest[..3] == [0xDA, 0x39, 0xA3] ==> HashPassword(digest).prefix == "DA39A"
    ensures digest[..3] == [0x5B, 0xAA, 0x61] ==> HashPassword(digest).prefix == "5BAA6"
  {
    PrefixOfDigest(digest);
    assert digest[0] == digest[..3][0] && digest[1] == digest[..3][1] && digest[2] == digest[..3][2];
  }
}
