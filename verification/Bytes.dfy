/** Octets, and the big-endian integers the wire format is made of. */
module Bytes {

  /** uint8_t */
  type byte = bv8

  /** uint16_t: the length field of a TLV */
  type uint16 = n: int | 0 <= n < 0x1_0000

  /** uint32_t */
  type uint32 = n: int | 0 <= n < 0x1_0000_0000

  /** int32_t: a motor coordinate */
  type int32 = n: int | -0x8000_0000 <= n < 0x8000_0000

  lemma OctetOfInt(n: int)
    requires 0 <= n < 256
    ensures (n as byte) as int == n
  {
    if n < 16 {} else if n < 32 {} else if n < 64 {} else if n < 128 {} else if n < 192 {} else {}
  }

  lemma IntOfOctet(b: byte)
    ensures 0 <= b as int < 256
    ensures (b as int) as byte == b
  {
  }

  /** The value the four or two octets at the front of a field have in network order. */
  function FromBigEndian(s: seq<byte>): nat {
    if s == [] then 0 else FromBigEndian(s[..|s| - 1]) * 256 + s[|s| - 1] as int
  }

  /** The `width` octets htons/htonl leave in memory. */
  function ToBigEndian(n: nat, width: nat): (s: seq<byte>)
    ensures |s| == width
  {
    if width == 0 then [] else ToBigEndian(n / 256, width - 1) + [(n % 256) as byte]
  }

  function Pow256(width: nat): (p: nat)
    ensures p > 0
  {
    if width == 0 then 1 else 256 * Pow256(width - 1)
  }

  lemma {:induction false} BigEndianRoundTrip(n: nat, width: nat)
    requires n < Pow256(width)
    ensures FromBigEndian(ToBigEndian(n, width)) == n
  {
    if width > 0 {
      BigEndianRoundTrip(n / 256, width - 1);
      OctetOfInt(n % 256);
      assert ToBigEndian(n, width)[..width - 1] == ToBigEndian(n / 256, width - 1);
    }
  }

  lemma LastDigit(q: nat, r: nat)
    requires r < 256
    ensures (q * 256 + r) / 256 == q && (q * 256 + r) % 256 == r
  {
  }

  lemma MoreDigits(q: nat, r: nat, p: nat)
    requires q < p && r < 256
    ensures q * 256 + r < 256 * p
  {
  }

  lemma DigitOctets(q: nat, r: nat, width: nat)
    requires r < 256
    ensures ToBigEndian(q * 256 + r, width + 1) == ToBigEndian(q, width) + [r as byte]
  {
    LastDigit(q, r);
  }

  lemma {:induction false} BigEndianBound(s: seq<byte>)
    ensures FromBigEndian(s) < Pow256(|s|)
  {
    if s != [] {
      BigEndianBound(s[..|s| - 1]);
      IntOfOctet(s[|s| - 1]);
      MoreDigits(FromBigEndian(s[..|s| - 1]), s[|s| - 1] as int, Pow256(|s| - 1));
    }
  }

  lemma OneMoreOctet(n: nat, q: nat, front: seq<byte>, last: byte)
    requires ToBigEndian(q, |front|) == front && n == q * 256 + last as int
    ensures ToBigEndian(n, |front| + 1) == front + [last]
  {
    IntOfOctet(last);
    DigitOctets(q, last as int, |front|);
  }

  lemma FromSnoc(front: seq<byte>, last: byte)
    ensures FromBigEndian(front + [last]) == FromBigEndian(front) * 256 + last as int
  {
    assert (front + [last])[..|front|] == front;
  }

  lemma {:induction false} BigEndianReadsBack(s: seq<byte>, n: nat)
    requires n == FromBigEndian(s)
    ensures ToBigEndian(n, |s|) == s
  {
    if s != [] {
      var front, last := s[..|s| - 1], s[|s| - 1];
      assert s == front + [last];
      BigEndianReadsBack(front, FromBigEndian(front));
      FromSnoc(front, last);
      OneMoreOctet(n, FromBigEndian(front), front, last);
    }
  }

  lemma BigEndianInverse(s: seq<byte>)
    ensures FromBigEndian(s) < Pow256(|s|)
    ensures ToBigEndian(FromBigEndian(s), |s|) == s
  {
    BigEndianBound(s);
    BigEndianReadsBack(s, FromBigEndian(s));
  }

  /** The uint32_t with the same bits as `n` (the conversion htonl applies to an int32_t). */
  function ToUnsigned(n: int32): uint32 {
    if n < 0 then n + 0x1_0000_0000 else n
  }

  /** The int32_t with the same bits as `n` (two's complement). */
  function ToSigned(n: uint32): int32 {
    if n >= 0x8000_0000 then n - 0x1_0000_0000 else n
  }

  /** An int32_t as the four octets of its network representation. */
  function EncodeInt32(n: int32): (s: seq<byte>)
    ensures |s| == 4
  {
    ToBigEndian(ToUnsigned(n), 4)
  }

  function DecodeInt32(s: seq<byte>): int32
    requires |s| == 4
  {
    BigEndianInverse(s);
    assert Pow256(4) == 0x1_0000_0000;
    ToSigned(FromBigEndian(s))
  }

  /** What network order is: the first octet weighs most. */
  lemma NetworkOrder(a: byte, b: byte, c: byte, d: byte)
    ensures FromBigEndian([a, b]) == a as int * 0x100 + b as int
    ensures FromBigEndian([a, b, c, d]) == a as int * 0x100_0000 + b as int * 0x1_0000 + c as int * 0x100 + d as int
  {
    FromSnoc([], a);
    FromSnoc([a], b);
    FromSnoc([a, b], c);
    FromSnoc([a, b, c], d);
    assert [] + [a] == [a] && [a] + [b] == [a, b];
    assert [a, b] + [c] == [a, b, c] && [a, b, c] + [d] == [a, b, c, d];
  }

  /** On the wire a coordinate is two's complement. */
  lemma EncodedInt32(n: int32)
    ensures FromBigEndian(EncodeInt32(n)) == if n >= 0 then n else n + 0x1_0000_0000
  {
    assert Pow256(4) == 0x1_0000_0000;
    BigEndianRoundTrip(ToUnsigned(n), 4);
  }

  /** And read from the wire: any four octets. */
  lemma DecodedInt32(s: seq<byte>)
    requires |s| == 4
    ensures FromBigEndian(s) < 0x1_0000_0000
    ensures var n := FromBigEndian(s); DecodeInt32(s) == if n < 0x8000_0000 then n else n - 0x1_0000_0000
  {
    assert Pow256(4) == 0x1_0000_0000;
    BigEndianInverse(s);
  }

  lemma Int32RoundTrip(n: int32)
    ensures DecodeInt32(EncodeInt32(n)) == n
  {
    assert Pow256(4) == 0x1_0000_0000;
    BigEndianRoundTrip(ToUnsigned(n), 4);
  }

  lemma Uint16RoundTrip(n: uint16)
    ensures FromBigEndian(ToBigEndian(n, 2)) == n
  {
    assert Pow256(2) == 0x1_0000;
    BigEndianRoundTrip(n, 2);
  }

  lemma Uint16Inverse(s: seq<byte>)
    requires |s| == 2
    ensures FromBigEndian(s) < 0x1_0000
    ensures ToBigEndian(FromBigEndian(s), 2) == s
  {
    assert Pow256(2) == 0x1_0000;
    BigEndianInverse(s);
  }
}
