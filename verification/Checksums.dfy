/** Checksums in hexadecimal (svn/checksum.go). */
module Checksums {
  import opened Common
  import opened Decimal

  const DOLLAR: byte := 36

  datatype ChecksumKind = MD5 | SHA1 | FNV1a32

  datatype Checksum = Checksum(kind: ChecksumKind, digest: Text)

  function Size(kind: ChecksumKind): nat {
    match kind
    case MD5 => 16
    case SHA1 => 20
    case FNV1a32 => 4
  }

  function HexDigit(n: nat): byte
    requires n < 16
  {
    if n < 10 then ZERO + n else 87 + n
  }

  function Unhex(c: byte): Option<nat> {
    if ZERO <= c <= NINE then Some(c - ZERO)
    else if 97 <= c <= 102 then Some(c - 87)
    else if 65 <= c <= 70 then Some(c - 55)
    else None
  }

  /** The first n bytes of the digest, two digits each. */
  function HexString(digest: Text, n: nat): Text
    requires n <= |digest|
  {
    if n == 0 then [] else HexString(digest, n - 1) + [HexDigit(digest[n - 1] / 16), HexDigit(digest[n - 1] % 16)]
  }

  function Hex(checksum: Checksum): Text {
    HexString(checksum.digest, |checksum.digest|)
  }

  /** The bytes that the first n pairs of digits stand for. */
  function DecodeHex(s: Text, n: nat): Option<Text>
    requires 2 * n <= |s|
  {
    if n == 0 then Some([])
    else match DecodeHex(s, n - 1)
      case None => None
      case Some(before) =>
        match (Unhex(s[2 * n - 2]), Unhex(s[2 * n - 1]))
        case (Some(high), Some(low)) => if 16 * high + low < 256 then Some(before + [16 * high + low]) else None
        case (_, _) => None
  }

  function ParseChecksumHex(kind: ChecksumKind, value: Text): Option<Checksum> {
    if |value| != 2 * Size(kind) then None
    else match DecodeHex(value, Size(kind))
      case None => None
      case Some(digest) => Some(Checksum(kind, digest))
  }

  const MD5_PREFIX: Text := [DOLLAR, 109, 100, 53, SPACE, DOLLAR]
  const MD5_SHORT_PREFIX: Text := [DOLLAR, 109, 100, 53, DOLLAR]
  const SHA1_PREFIX: Text := [DOLLAR, 115, 104, 97, 49, DOLLAR]
  const FNV1_PREFIX: Text := [DOLLAR, 102, 110, 118, 49, DOLLAR]

  /** A serialization prefix decides the kind; without one the length does. */
  function ParseChecksum(value: Text): Option<Checksum> {
    if MD5_PREFIX <= value then ParseChecksumHex(MD5, value[|MD5_PREFIX|..])
    else if MD5_SHORT_PREFIX <= value then ParseChecksumHex(MD5, value[|MD5_SHORT_PREFIX|..])
    else if SHA1_PREFIX <= value then ParseChecksumHex(SHA1, value[|SHA1_PREFIX|..])
    else if FNV1_PREFIX <= value then ParseChecksumHex(FNV1a32, value[|FNV1_PREFIX|..])
    else if |value| == 2 * Size(MD5) then ParseChecksumHex(MD5, value)
    else if |value| == 2 * Size(SHA1) then ParseChecksumHex(SHA1, value)
    else if |value| == 2 * Size(FNV1a32) then ParseChecksumHex(FNV1a32, value)
    else None
  }

  lemma {:induction false} UnhexDigit(n: nat)
    requires n < 16
    ensures Unhex(HexDigit(n)) == Some(n) && HexDigit(n) != DOLLAR
  {
  }

  lemma {:induction false} HexLength(digest: Text, n: nat)
    requires n <= |digest|
    ensures |HexString(digest, n)| == 2 * n
    ensures n > 0 ==> HexString(digest, n)[0] != DOLLAR
  {
    if n > 0 {
      HexLength(digest, n - 1);
      UnhexDigit(digest[n - 1] / 16);
    }
  }

  lemma {:induction false} HexPrefix(s: Text, t: Text, n: nat)
    requires 2 * n <= |s| && 2 * n <= |t| && forall i :: 0 <= i < 2 * n ==> s[i] == t[i]
    ensures DecodeHex(s, n) == DecodeHex(t, n)
  {
    if n > 0 { HexPrefix(s, t, n - 1); }
  }

  lemma {:induction false} HexRoundTrip(digest: Text, n: nat)
    requires n <= |digest|
    ensures |HexString(digest, n)| == 2 * n
    ensures DecodeHex(HexString(digest, n), n) == Some(digest[..n])
  {
    HexLength(digest, n);
    if n > 0 {
      HexRoundTrip(digest, n - 1);
      HexLength(digest, n - 1);
      HexPrefix(HexString(digest, n - 1), HexString(digest, n), n - 1);
      var b := digest[n - 1];
      UnhexDigit(b / 16);
      UnhexDigit(b % 16);
      assert digest[..n] == digest[..n - 1] + [b];
    }
  }

  lemma {:induction false} ParsedSize(kind: ChecksumKind, value: Text)
    ensures ParseChecksumHex(kind, value).Some? ==> |ParseChecksumHex(kind, value).value.digest| == Size(kind)
  {
    if |value| == 2 * Size(kind) {
      DecodedSize(value, Size(kind));
    }
  }

  lemma {:induction false} DecodedSize(s: Text, n: nat)
    requires 2 * n <= |s|
    ensures DecodeHex(s, n).Some? ==> |DecodeHex(s, n).value| == n
  {
    if n > 0 { DecodedSize(s, n - 1); }
  }

  predicate WellFormed(checksum: Checksum) {
    |checksum.digest| == Size(checksum.kind)
  }

  /** The receiver, who is sent no kind, recovers a checksum exactly when its digest has the size
      of its kind. */
  lemma {:induction false} ChecksumRoundTrip(checksum: Checksum)
    ensures ParseChecksum(Hex(checksum)) == Some(checksum) <==> WellFormed(checksum)
  {
    var value := Hex(checksum);
    HexLength(checksum.digest, |checksum.digest|);
    if WellFormed(checksum) {
      HexRoundTrip(checksum.digest, |checksum.digest|);
      assert checksum.digest[..|checksum.digest|] == checksum.digest;
      assert value[0] != DOLLAR;
    } else {
      ParsedSize(checksum.kind, value);
    }
  }
}
