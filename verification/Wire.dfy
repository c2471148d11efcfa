/** The wire format of messages: what `message.c` serialises, checks and parses. */
module Wire {
  import opened Bytes
  import opened Crc32
  import opened ShiftRegister
  import opened Words

  const MAX_TLV_COUNT := 25

  const TLV_COMMAND: byte := 1
  const TLV_REPLY: byte := 2
  const TLV_CHECKSUM: byte := 3
  const TLV_MOTOR_POSITION: byte := 4
  const TLV_CURRENT_READING: byte := 5
  const TLV_SFP_CALIBRATION: byte := 6
  const TLV_ERROR_REPORT: byte := 7
  const TLV_POWER_READING: byte := 8
  const TLV_ENCODER_VALUE: byte := 9
  const TLV_VIBRATION_VALUE: byte := 10

  datatype RawTlv = RawTlv(typ: byte, value: seq<byte>)

  /** A TLV's length is a uint16_t. */
  type Tlv = t: RawTlv | |t.value| < 0x1_0000 witness RawTlv(0, [])

  /**
   * What an operation on messages reports. `AssertionFailed` stands for the abort of a failed
   * `assert`, `ReadPastValue` for C's undefined behaviour.
   */
  datatype Code =
    | Success
    | TooManyTlvs
    | BufferTooSmall
    | ParseError
    | ChecksumMismatch
    | TlvNotFound
    | AssertionFailed
    | ReadPastValue

  /** The reported code, and the TLVs the message holds afterwards. */
  datatype Outcome = Outcome(code: Code, tlvs: seq<Tlv>)

  // ---- Serialisation ----

  function Octets(t: Tlv): (s: seq<byte>)
    ensures |s| == 3 + |t.value|
  {
    [t.typ] + ToBigEndian(|t.value|, 2) + t.value
  }

  function Serialize(m: seq<Tlv>): seq<byte> {
    if m == [] then [] else Octets(m[0]) + Serialize(m[1..])
  }

  lemma {:induction false} SerializeConcat(a: seq<Tlv>, b: seq<Tlv>)
    ensures Serialize(a + b) == Serialize(a) + Serialize(b)
  {
    if a == [] {
      assert a + b == b;
    } else {
      assert (a + b)[1..] == a[1..] + b;
      SerializeConcat(a[1..], b);
    }
  }

  lemma SerializeSnoc(a: seq<Tlv>, t: Tlv)
    ensures Serialize(a + [t]) == Serialize(a) + Octets(t)
  {
    SerializeConcat(a, [t]);
    assert Serialize([t]) == Octets(t) + Serialize([t][1..]);
  }

  /** How many TLVs `message_serialize` writes before it runs out of room. */
  function Fitting(m: seq<Tlv>, capacity: nat): (j: nat)
    ensures j <= |m|
  {
    if m == [] || |Octets(m[0])| > capacity then 0 else 1 + Fitting(m[1..], capacity - |Octets(m[0])|)
  }

  lemma {:induction false} FittingIsMost(m: seq<Tlv>, capacity: nat)
    ensures var j := Fitting(m, capacity);
      |Serialize(m[..j])| <= capacity && (j < |m| ==> |Serialize(m[..j + 1])| > capacity)
    ensures Fitting(m, capacity) == |m| <==> |Serialize(m)| <= capacity
  {
    if m != [] {
      var size := |Octets(m[0])|;
      var j := Fitting(m, capacity);
      assert m[..1][1..] == [];
      if size <= capacity {
        FittingIsMost(m[1..], capacity - size);
        assert m[..j][1..] == m[1..][..j - 1];
        if j < |m| {
          assert m[..j + 1][1..] == m[1..][..j];
        }
      }
    }
  }

  // ---- Checksums ----

  function Down24(w: bv32): (p: bv32)
    ensures p < 256
  {
    w >> 24
  }

  function Down16(w: bv32): bv32 { w >> 16 }

  function Down8(w: bv32): bv32 { w >> 8 }

  function LowOctet(w: bv32): (p: bv32)
    ensures p < 256
  {
    w & 0xFF
  }

  function OctetOf(p: bv32): byte
    requires p < 256
  {
    p as byte
  }

  /** The four octets of a word in network order. */
  function WordOctets(w: bv32): (s: seq<byte>)
    ensures |s| == 4
  {
    [OctetOf(Down24(w)), OctetOf(LowOctet(Down16(w))), OctetOf(LowOctet(Down8(w))), OctetOf(LowOctet(w))]
  }

  lemma OctetOfInjective(x: bv32, y: bv32)
    requires x < 256 && y < 256 && OctetOf(x) == OctetOf(y)
    ensures x == y
  {
    assert (x as byte) as bv32 == x && (y as byte) as bv32 == y;
  }

  lemma FromParts(w: bv32, x: bv32, y: bv32, a: bv32, b: bv32, c: bv32, d: bv32)
    requires x == w >> 16 && y == w >> 8
    requires a == w >> 24 && b == x & 0xFF && c == y & 0xFF && d == w & 0xFF
    ensures (a << 24) | (b << 16) | (c << 8) | d == w
  {
  }

  lemma OctetBack(p: bv32, b: byte)
    requires p < 256 && b == OctetOf(p)
    ensures b as bv32 == p
  {
  }

  lemma PartsBack(w: bv32, s: seq<byte>)
    requires s == WordOctets(w)
    ensures s[0] as bv32 == Down24(w) && s[1] as bv32 == LowOctet(Down16(w))
    ensures s[2] as bv32 == LowOctet(Down8(w)) && s[3] as bv32 == LowOctet(w)
  {
    OctetBack(Down24(w), s[0]);
    OctetBack(LowOctet(Down16(w)), s[1]);
    OctetBack(LowOctet(Down8(w)), s[2]);
    OctetBack(LowOctet(w), s[3]);
  }

  lemma WordFrom(w: bv32, a: bv32, b: bv32, c: bv32, d: bv32)
    requires a == Down24(w) && b == LowOctet(Down16(w)) && c == LowOctet(Down8(w)) && d == LowOctet(w)
    ensures (a << 24) | (b << 16) | (c << 8) | d == w
  {
    FromParts(w, Down16(w), Down8(w), a, b, c, d);
  }

  /** The four octets in memory, read in network order, are the word. */
  lemma OctetsInNetworkOrder(w: bv32, s: seq<byte>)
    requires s == WordOctets(w)
    ensures (s[0] as bv32 << 24) | (s[1] as bv32 << 16) | (s[2] as bv32 << 8) | s[3] as bv32 == w
  {
    PartsBack(w, s);
    WordFrom(w, s[0] as bv32, s[1] as bv32, s[2] as bv32, s[3] as bv32);
  }

  lemma XorBy24(v: bv32, w: bv32)
    ensures (v ^ w) >> 24 == (v >> 24) ^ (w >> 24)
  {
  }

  lemma XorBy16(v: bv32, w: bv32)
    ensures (v ^ w) >> 16 == (v >> 16) ^ (w >> 16)
  {
  }

  lemma XorBy8(v: bv32, w: bv32)
    ensures (v ^ w) >> 8 == (v >> 8) ^ (w >> 8)
  {
  }

  lemma MaskedXor(v: bv32, w: bv32)
    ensures (v ^ w) & 0xFF == (v & 0xFF) ^ (w & 0xFF)
  {
  }

  lemma Down24Linear(v: bv32, w: bv32)
    ensures Down24(Xor(v, w)) == Xor(Down24(v), Down24(w))
  {
    XorBy24(v, w);
  }

  lemma Down16Linear(v: bv32, w: bv32)
    ensures Down16(Xor(v, w)) == Xor(Down16(v), Down16(w))
  {
    XorBy16(v, w);
  }

  lemma Down8Linear(v: bv32, w: bv32)
    ensures Down8(Xor(v, w)) == Xor(Down8(v), Down8(w))
  {
    XorBy8(v, w);
  }

  lemma LowLinear(v: bv32, w: bv32)
    ensures LowOctet(Xor(v, w)) == Xor(LowOctet(v), LowOctet(w))
  {
    MaskedXor(v, w);
  }

  lemma SameIffNoDifference(x: bv32, y: bv32, z: bv32)
    requires x < 256 && y < 256 && z < 256 && z == Xor(x, y)
    ensures OctetOf(x) == OctetOf(y) <==> OctetOf(z) == 0
  {
    XorZero(x, y);
    if OctetOf(x) == OctetOf(y) {
      OctetOfInjective(x, y);
    }
    if OctetOf(z) == 0 {
      OctetOfInjective(z, 0);
    }
  }

  lemma LowOctetsDiffer(v: bv32, w: bv32, d: bv32)
    requires d == Xor(v, w)
    ensures OctetOf(LowOctet(v)) == OctetOf(LowOctet(w)) <==> OctetOf(LowOctet(d)) == 0
  {
    LowLinear(v, w);
    SameIffNoDifference(LowOctet(v), LowOctet(w), LowOctet(d));
  }

  lemma TopOctetsDiffer(v: bv32, w: bv32, d: bv32)
    requires d == Xor(v, w)
    ensures WordOctets(v)[0] == WordOctets(w)[0] <==> WordOctets(d)[0] == 0
  {
    Down24Linear(v, w);
    SameIffNoDifference(Down24(v), Down24(w), Down24(d));
  }

  lemma SecondOctetsDiffer(v: bv32, w: bv32, d: bv32)
    requires d == Xor(v, w)
    ensures WordOctets(v)[1] == WordOctets(w)[1] <==> WordOctets(d)[1] == 0
  {
    Down16Linear(v, w);
    LowOctetsDiffer(Down16(v), Down16(w), Down16(d));
  }

  lemma ThirdOctetsDiffer(v: bv32, w: bv32, d: bv32)
    requires d == Xor(v, w)
    ensures WordOctets(v)[2] == WordOctets(w)[2] <==> WordOctets(d)[2] == 0
  {
    Down8Linear(v, w);
    LowOctetsDiffer(Down8(v), Down8(w), Down8(d));
  }

  lemma LastOctetsDiffer(v: bv32, w: bv32, d: bv32)
    requires d == Xor(v, w)
    ensures WordOctets(v)[3] == WordOctets(w)[3] <==> WordOctets(d)[3] == 0
  {
    LowOctetsDiffer(v, w, d);
  }

  lemma AnyOfFour(s: seq<byte>, t: seq<byte>, u: seq<byte>, i: nat)
    requires |s| == |t| == |u| == 4 && i < 4
    requires (s[0] == t[0] <==> u[0] == 0) && (s[1] == t[1] <==> u[1] == 0)
    requires (s[2] == t[2] <==> u[2] == 0) && (s[3] == t[3] <==> u[3] == 0)
    ensures s[i] == t[i] <==> u[i] == 0
  {
  }

  /** Octets of words are equal where the octets of their difference are zero. */
  lemma OctetsOfDifference(v: bv32, w: bv32, d: bv32, s: seq<byte>, t: seq<byte>, u: seq<byte>, i: nat)
    requires d == Xor(v, w) && s == WordOctets(v) && t == WordOctets(w) && u == WordOctets(d) && i < 4
    ensures s[i] == t[i] <==> u[i] == 0
  {
    TopOctetsDiffer(v, w, d);
    SecondOctetsDiffer(v, w, d);
    ThirdOctetsDiffer(v, w, d);
    LastOctetsDiffer(v, w, d);
    AnyOfFour(s, t, u, i);
  }

  lemma ZeroParts(d: bv32)
    requires d >> 24 == 0 && (d >> 16) & 0xFF == 0 && (d >> 8) & 0xFF == 0 && d & 0xFF == 0
    ensures d == 0
  {
  }

  lemma ZeroOctets(d: bv32)
    requires WordOctets(d) == [0, 0, 0, 0]
    ensures d == 0
  {
    assert WordOctets(d)[0] == 0 && WordOctets(d)[1] == 0 && WordOctets(d)[2] == 0 && WordOctets(d)[3] == 0;
    OctetOfInjective(Down24(d), 0);
    OctetOfInjective(LowOctet(Down16(d)), 0);
    OctetOfInjective(LowOctet(Down8(d)), 0);
    OctetOfInjective(LowOctet(d), 0);
    ZeroParts(d);
  }

  lemma WordOctetsInjective(v: bv32, w: bv32)
    requires WordOctets(v) == WordOctets(w)
    ensures v == w
  {
    var d := Xor(v, w);
    TopOctetsDiffer(v, w, d);
    SecondOctetsDiffer(v, w, d);
    ThirdOctetsDiffer(v, w, d);
    LastOctetsDiffer(v, w, d);
    ZeroOctets(d);
    XorZero(v, w);
  }

  /** The first `n` octets of a word in memory are zero. */
  predicate StartsZero(d: bv32, n: nat)
    requires n <= 4
  {
    forall i :: 0 <= i < n ==> WordOctets(d)[i] == 0
  }

  lemma SamePrefix(s: seq<byte>, t: seq<byte>, u: seq<byte>, n: nat)
    requires n <= |s| == |t| == |u| && forall i :: 0 <= i < n ==> (s[i] == t[i] <==> u[i] == 0)
    ensures s[..n] == t[..n] <==> forall i :: 0 <= i < n ==> u[i] == 0
  {
    if s[..n] == t[..n] {
      forall i | 0 <= i < n ensures u[i] == 0 {
        assert s[..n][i] == t[..n][i];
      }
    }
  }

  lemma SameStart(v: bv32, w: bv32, d: bv32, s: seq<byte>, t: seq<byte>, n: nat)
    requires d == Xor(v, w) && s == WordOctets(v) && t == WordOctets(w) && n <= 4
    ensures s[..n] == t[..n] <==> StartsZero(d, n)
  {
    forall i | 0 <= i < n ensures s[i] == t[i] <==> WordOctets(d)[i] == 0 {
      OctetsOfDifference(v, w, d, s, t, WordOctets(d), i);
    }
    SamePrefix(s, t, WordOctets(d), n);
  }

  /** The CRC-32 the loop at message.c:376-378 leaves: continued from value to value. */
  ghost function ValuesCrc(m: seq<Tlv>): bv32 {
    if m == [] then 0 else Crc(ValuesCrc(m[..|m| - 1]), m[|m| - 1].value)
  }

  /** The octets in memory of what `message_checksum` returns. */
  ghost function Checksum(m: seq<Tlv>): (s: seq<byte>)
    ensures |s| == 4
  {
    WordOctets(ValuesCrc(m))
  }

  /** All the values of a message, one after the other. */
  function Values(m: seq<Tlv>): seq<byte> {
    if m == [] then [] else Values(m[..|m| - 1]) + m[|m| - 1].value
  }

  /** The checksum depends on the concatenated values only, not on how they are split into TLVs. */
  lemma {:induction false} ChecksumOfValues(m: seq<Tlv>)
    ensures ValuesCrc(m) == Crc(0, Values(m))
  {
    if m == [] {
      NothingAdded(0);
    } else {
      var front := m[..|m| - 1];
      ChecksumOfValues(front);
      Chaining(0, Values(front), m[|m| - 1].value);
    }
  }

  /** The octets of a checksum, read in network order, are the CRC-32 of all values joined. */
  lemma ChecksumInNetworkOrder(m: seq<Tlv>, s: seq<byte>)
    requires s == Checksum(m)
    ensures (s[0] as bv32 << 24) | (s[1] as bv32 << 16) | (s[2] as bv32 << 8) | s[3] as bv32 == Crc(0, Values(m))
  {
    ChecksumOfValues(m);
    OctetsInNetworkOrder(ValuesCrc(m), s);
  }

  /** What joining the values means: one TLV has its own value, and messages in a row have theirs in a row. */
  lemma {:induction false} ValuesJoin(a: seq<Tlv>, b: seq<Tlv>)
    ensures Values(a + b) == Values(a) + Values(b)
    ensures |b| == 1 ==> Values(b) == b[0].value
  {
    if b == [] {
      assert a + b == a;
    } else {
      assert (a + b)[..|a + b| - 1] == a + b[..|b| - 1];
      ValuesJoin(a, b[..|b| - 1]);
      Joined(Values(a), Values(b[..|b| - 1]), b[|b| - 1].value);
      assert [] + b[|b| - 1].value == b[|b| - 1].value;
    }
  }

  /** Values that differ within 32 consecutive bits, even straddling TLVs, have different checksums. */
  lemma BurstChangesChecksum(a: seq<Tlv>, b: seq<Tlv>, k: nat)
    requires AgreeOutside(32, Bits(Values(a)), Bits(Values(b)), k) && Bits(Values(a)) != Bits(Values(b))
    ensures Checksum(a) != Checksum(b)
  {
    ChecksumOfValues(a);
    ChecksumOfValues(b);
    BurstDetected(0, Values(a), Values(b), k);
    if Checksum(a) == Checksum(b) {
      WordOctetsInjective(ValuesCrc(a), ValuesCrc(b));
    }
  }

  lemma WindowChangesChecksum(a: seq<Tlv>, b: seq<Tlv>, k: nat)
    requires DifferInWindow(Values(a), Values(b), k)
    ensures Checksum(a) != Checksum(b)
  {
    ChecksumOfValues(a);
    ChecksumOfValues(b);
    WindowDetected(0, Values(a), Values(b), k);
    if Checksum(a) == Checksum(b) {
      WordOctetsInjective(ValuesCrc(a), ValuesCrc(b));
    }
  }

  // ---- Parsing ----

  /**
   * How many octets of a checksum `message_parse` compares. A parenthesis at message.c:91 closes
   * late, so that the count is `sizeof(uint32_t) != 0`; four were meant. What follows holds of
   * every count from 1 to 4, and is stated for all of them.
   */
  const COMPARED := 1

  /** The check at message.c:88-95 on a TLV that follows `before`. */
  ghost predicate ChecksumFails(n: nat, before: seq<Tlv>, t: Tlv)
    requires n <= 4
  {
    t.typ == TLV_CHECKSUM && n <= |t.value| && t.value[..n] != Checksum(before)[..n]
  }

  predicate ValueTooShort(n: nat, t: Tlv) {
    t.typ == TLV_CHECKSUM && |t.value| < n
  }

  /** `message_parse` on `d`, after the TLVs `acc`. */
  ghost function ParseFrom(n: nat, acc: seq<Tlv>, d: seq<byte>): Outcome
    requires n <= 4
    decreases |d|
  {
    if d == [] then Outcome(Success, acc)
    else if |acc| >= MAX_TLV_COUNT then Outcome(TooManyTlvs, [])
    else if |d| < 3 then Outcome(ParseError, [])
    else
      var len := FieldLength(d);
      if |d| < 3 + len then Outcome(ParseError, [])
      else
        var t := RawTlv(d[0], d[3..3 + len]);
        if ValueTooShort(n, t) then Outcome(ReadPastValue, [])
        else if ChecksumFails(n, acc, t) then Outcome(ChecksumMismatch, [])
        else ParseFrom(n, acc + [t], d[3 + len..])
  }

  function FieldLength(d: seq<byte>): uint16
    requires |d| >= 3
  {
    Uint16Inverse(d[1..3]);
    FromBigEndian(d[1..3])
  }

  ghost function Parse(n: nat, d: seq<byte>): Outcome
    requires n <= 4
  {
    ParseFrom(n, [], d)
  }

  /** The TLVs `m` can follow `acc` in a message that parses. */
  ghost predicate AcceptedAfter(n: nat, acc: seq<Tlv>, m: seq<Tlv>)
    requires n <= 4
  {
    && (m == [] || |acc| + |m| <= MAX_TLV_COUNT)
    && forall i :: 0 <= i < |m| ==> !ValueTooShort(n, m[i]) && !ChecksumFails(n, acc + m[..i], m[i])
  }

  /** At most 25 TLVs, and every checksum agrees with the values before it in the octets compared. */
  ghost predicate Accepted(n: nat, m: seq<Tlv>)
    requires n <= 4
  {
    && |m| <= MAX_TLV_COUNT
    && forall i :: 0 <= i < |m| && m[i].typ == TLV_CHECKSUM ==>
         n <= |m[i].value| && m[i].value[..n] == Checksum(m[..i])[..n]
  }

  /** Without checksums a message is acceptable up to 25 TLVs. */
  lemma CountLimit(n: nat, m: seq<Tlv>)
    requires n <= 4 && forall t :: t in m ==> t.typ != 3
    ensures Accepted(n, m) <==> |m| <= 25
  {
  }

  lemma AcceptedIsAcceptedAfter(n: nat, m: seq<Tlv>)
    requires n <= 4
    ensures Accepted(n, m) <==> AcceptedAfter(n, [], m)
  {
    forall i | 0 <= i < |m| ensures [] + m[..i] == m[..i] {}
  }

  lemma AcceptedAfterCons(n: nat, acc: seq<Tlv>, m: seq<Tlv>)
    requires n <= 4 && m != []
    ensures AcceptedAfter(n, acc, m) <==>
      && |acc| < MAX_TLV_COUNT && !ValueTooShort(n, m[0]) && !ChecksumFails(n, acc, m[0])
      && AcceptedAfter(n, acc + [m[0]], m[1..])
  {
    var acc', rest := acc + [m[0]], m[1..];
    assert acc + m[..0] == acc;
    forall i | 0 <= i < |rest| ensures acc' + rest[..i] == acc + m[..i + 1] && rest[i] == m[i + 1] {}
    if AcceptedAfter(n, acc', rest) && !ValueTooShort(n, m[0]) && !ChecksumFails(n, acc, m[0]) {
      forall i | 0 <= i < |m| ensures !ValueTooShort(n, m[i]) && !ChecksumFails(n, acc + m[..i], m[i]) {
        if i > 0 { assert rest[i - 1] == m[i] && acc' + rest[..i - 1] == acc + m[..i]; }
      }
    }
  }

  lemma OctetsPrefix(t: Tlv, s: seq<byte>)
    ensures var d := Octets(t) + s;
      FieldLength(d) == |t.value| && d[0] == t.typ && d[3..3 + |t.value|] == t.value && d[3 + |t.value|..] == s
  {
    var d := Octets(t) + s;
    assert d[1..3] == ToBigEndian(|t.value|, 2);
    Uint16RoundTrip(|t.value|);
  }

  lemma OctetsOfField(d: seq<byte>)
    requires |d| >= 3 && |d| >= 3 + FieldLength(d)
    ensures var len := FieldLength(d); d == Octets(RawTlv(d[0], d[3..3 + len])) + d[3 + len..]
  {
    Uint16Inverse(d[1..3]);
    Refit(d, d[1..3], 3 + FieldLength(d));
  }

  lemma Refit(d: seq<byte>, field: seq<byte>, e: nat)
    requires 3 <= e <= |d| && field == d[1..3]
    ensures d == [d[0]] + field + d[3..e] + d[e..]
  {
  }

  /** One round of the loop on a complete TLV. */
  lemma ParseOne(n: nat, acc: seq<Tlv>, t: Tlv, s: seq<byte>)
    requires n <= 4 && |acc| < MAX_TLV_COUNT && !ValueTooShort(n, t)
    ensures ParseFrom(n, acc, Octets(t) + s) ==
      if ChecksumFails(n, acc, t) then Outcome(ChecksumMismatch, []) else ParseFrom(n, acc + [t], s)
  {
    OctetsPrefix(t, s);
  }

  lemma AcceptedAfterTail(n: nat, acc: seq<Tlv>, m: seq<Tlv>, t: Tlv, rest: seq<Tlv>)
    requires n <= 4 && m != [] && t == m[0] && rest == m[1..] && AcceptedAfter(n, acc, m)
    ensures |acc| < MAX_TLV_COUNT && !ValueTooShort(n, t) && !ChecksumFails(n, acc, t)
    ensures AcceptedAfter(n, acc + [t], rest) && acc + m == acc + [t] + rest
  {
    AcceptedAfterCons(n, acc, m);
  }

  lemma {:induction false} ParsePrefix(n: nat, acc: seq<Tlv>, m: seq<Tlv>, s: seq<byte>)
    requires n <= 4 && AcceptedAfter(n, acc, m)
    ensures ParseFrom(n, acc, Serialize(m) + s) == ParseFrom(n, acc + m, s)
    decreases |m|
  {
    if m == [] {
      assert acc + m == acc && Serialize(m) + s == s;
    } else {
      var t, rest := m[0], m[1..];
      AcceptedAfterTail(n, acc, m, t, rest);
      Joined(Octets(t), Serialize(rest), s);
      ParseOne(n, acc, t, Serialize(rest) + s);
      ParsePrefix(n, acc + [t], rest, s);
    }
  }

  lemma FirstParsed(acc: seq<Tlv>, t: Tlv, m: seq<Tlv>, all: seq<Tlv>)
    requires acc + [t] <= all && all == acc + m
    ensures m != [] && m[0] == t && all == acc + [t] + m[1..]
  {
    assert all[|acc|] == t;
  }

  lemma {:induction false} ParsedIsSerialized(n: nat, acc: seq<Tlv>, d: seq<byte>, m: seq<Tlv>)
    requires n <= 4 && ParseFrom(n, acc, d) == Outcome(Success, acc + m)
    ensures d == Serialize(m) && AcceptedAfter(n, acc, m)
    decreases |d|
  {
    if d == [] {
      assert acc == acc + m;
      assert m == [];
    } else {
      var len := FieldLength(d);
      var t: Tlv := RawTlv(d[0], d[3..3 + len]);
      ParseExtends(n, acc + [t], d[3 + len..]);
      FirstParsed(acc, t, m, acc + m);
      ParsedIsSerialized(n, acc + [t], d[3 + len..], m[1..]);
      OctetsOfField(d);
      AcceptedAfterCons(n, acc, m);
    }
  }

  /** A successful parse keeps the TLVs it already had. */
  lemma {:induction false} ParseExtends(n: nat, acc: seq<Tlv>, d: seq<byte>)
    requires n <= 4
    ensures ParseFrom(n, acc, d).code == Success ==> acc <= ParseFrom(n, acc, d).tlvs
    ensures ParseFrom(n, acc, d).code != Success ==> ParseFrom(n, acc, d).tlvs == []
    decreases |d|
  {
    if d != [] && |acc| < MAX_TLV_COUNT && |d| >= 3 && |d| >= 3 + FieldLength(d) {
      var len := FieldLength(d);
      ParseExtends(n, acc + [RawTlv(d[0], d[3..3 + len])], d[3 + len..]);
    }
  }

  /** Parsing and serialising are mutual inverses on exactly the acceptable messages. */
  lemma ParseExact(n: nat, d: seq<byte>, m: seq<Tlv>)
    requires n <= 4
    ensures Parse(n, d) == Outcome(Success, m) <==> d == Serialize(m) && Accepted(n, m)
  {
    assert [] + m == m;
    AcceptedIsAcceptedAfter(n, m);
    if d == Serialize(m) && Accepted(n, m) {
      ParsePrefix(n, [], m, []);
      assert Serialize(m) + [] == d;
    }
    if Parse(n, d) == Outcome(Success, m) {
      ParsedIsSerialized(n, [], d, m);
    }
  }

  /** What stops the loop at `s`, after the TLVs `m`, with the code `c`. */
  ghost predicate Stops(n: nat, m: seq<Tlv>, s: seq<byte>, c: Code)
    requires n <= 4
  {
    if s == [] then c == Success
    else if |m| >= MAX_TLV_COUNT then c == TooManyTlvs
    else if |s| < 3 || |s| < 3 + FieldLength(s) then c == ParseError
    else
      var t := RawTlv(s[0], s[3..3 + FieldLength(s)]);
      || (c == ReadPastValue && ValueTooShort(n, t))
      || (c == ChecksumMismatch && !ValueTooShort(n, t) && ChecksumFails(n, m, t))
  }

  /** Where the loop stops on `d`: at most 25 acceptable TLVs, and what is left. */
  ghost predicate StopsAfter(n: nat, d: seq<byte>, m: seq<Tlv>, s: seq<byte>, c: Code)
    requires n <= 4
  {
    d == Serialize(m) + s && Accepted(n, m) && Stops(n, m, s, c)
  }

  lemma StopsHere(n: nat, m: seq<Tlv>, s: seq<byte>, c: Code)
    requires n <= 4 && Stops(n, m, s, c)
    ensures ParseFrom(n, m, s) == Outcome(c, if c == Success then m else [])
  {
  }

  /** Every input stops the loop somewhere. */
  lemma {:induction false} FindStop(n: nat, acc: seq<Tlv>, s: seq<byte>) returns (m: seq<Tlv>, rest: seq<byte>)
    requires n <= 4 && Accepted(n, acc)
    ensures Serialize(acc) + s == Serialize(m) + rest && Accepted(n, m)
    ensures Stops(n, m, rest, ParseFrom(n, acc, s).code)
    decreases |s|
  {
    m, rest := acc, s;
    if s != [] && |acc| < MAX_TLV_COUNT && |s| >= 3 && |s| >= 3 + FieldLength(s) {
      var t: Tlv := RawTlv(s[0], s[3..3 + FieldLength(s)]);
      if !ValueTooShort(n, t) && !ChecksumFails(n, acc, t) {
        AcceptedSnoc(n, acc, t);
        m, rest := FindStop(n, acc + [t], s[3 + FieldLength(s)..]);
        SerializeSnoc(acc, t);
        OctetsOfField(s);
        Joined(Serialize(acc), Octets(t), s[3 + FieldLength(s)..]);
      }
    }
  }

  lemma Joined(a: seq<byte>, b: seq<byte>, c: seq<byte>)
    ensures a + b + c == a + (b + c)
  {
  }

  lemma StopReached(n: nat, d: seq<byte>, m: seq<Tlv>, s: seq<byte>, c: Code)
    requires n <= 4 && StopsAfter(n, d, m, s, c)
    ensures Parse(n, d) == Outcome(c, if c == Success then m else [])
  {
    AcceptedIsAcceptedAfter(n, m);
    ParsePrefix(n, [], m, s);
    assert [] + m == m;
    StopsHere(n, m, s, c);
  }

  /** Exactly which input is reported with which code, success and undefined behaviour included. */
  lemma ParseCode(n: nat, d: seq<byte>, c: Code)
    requires n <= 4
    ensures Parse(n, d).code == c <==> exists m, s :: StopsAfter(n, d, m, s, c)
  {
    var m, s := FindStop(n, [], d);
    assert Serialize([]) + d == d;
    assert StopsAfter(n, d, m, s, Parse(n, d).code);
    if m', s' :| StopsAfter(n, d, m', s', c) {
      StopReached(n, d, m', s', c);
    }
  }

  /** A message that is refused leaves nothing behind. */
  lemma RefusedIsEmpty(n: nat, d: seq<byte>)
    requires n <= 4
    ensures Parse(n, d).code != Success ==> Parse(n, d).tlvs == []
  {
    ParseExtends(n, [], d);
  }

  lemma {:induction false} SerializeInjective(a: seq<Tlv>, b: seq<Tlv>)
    requires Serialize(a) == Serialize(b)
    ensures a == b
  {
    if a == [] || b == [] {
      assert a == b;
    } else {
      OctetsPrefix(a[0], Serialize(a[1..]));
      OctetsPrefix(b[0], Serialize(b[1..]));
      SerializeInjective(a[1..], b[1..]);
      assert a == [a[0]] + a[1..] && b == [b[0]] + b[1..];
    }
  }

  // ---- Truncated messages ----

  lemma AcceptedPrefix(n: nat, m: seq<Tlv>, j: nat)
    requires n <= 4 && j <= |m| && Accepted(n, m)
    ensures Accepted(n, m[..j])
  {
    forall i | 0 <= i < j ensures m[..j][..i] == m[..i] {}
  }

  lemma SerializePrefix(m: seq<Tlv>, j: nat)
    requires j <= |m|
    ensures Serialize(m[..j]) <= Serialize(m)
  {
    assert m == m[..j] + m[j..];
    SerializeConcat(m[..j], m[j..]);
  }

  lemma CutOctets(t: Tlv, s: seq<byte>, k: nat)
    requires 3 + |t.value| <= k <= 3 + |t.value| + |s|
    ensures (Octets(t) + s)[..k] == Octets(t) + s[..k - 3 - |t.value|]
  {
  }

  /** A cut inside the first TLV is an error, one behind it leaves the rest to be parsed. */
  lemma CutInside(n: nat, acc: seq<Tlv>, t: Tlv, s: seq<byte>, k: nat)
    requires n <= 4 && |acc| < MAX_TLV_COUNT && 0 < k < 3 + |t.value|
    ensures ParseFrom(n, acc, (Octets(t) + s)[..k]) == Outcome(ParseError, [])
  {
    OctetsPrefix(t, s);
    if k >= 3 {
      assert (Octets(t) + s)[..k][1..3] == (Octets(t) + s)[1..3];
    }
  }

  lemma CutBehind(n: nat, acc: seq<Tlv>, t: Tlv, s: seq<byte>, k: nat)
    requires n <= 4 && |acc| < MAX_TLV_COUNT && !ValueTooShort(n, t) && !ChecksumFails(n, acc, t)
    requires 3 + |t.value| <= k <= 3 + |t.value| + |s|
    ensures ParseFrom(n, acc, (Octets(t) + s)[..k]) == ParseFrom(n, acc + [t], s[..k - 3 - |t.value|])
  {
    CutOctets(t, s, k);
    ParseOne(n, acc, t, s[..k - 3 - |t.value|]);
  }

  lemma NoEndBehind(m: seq<Tlv>, k: nat, size: nat)
    requires m != [] && size == |Octets(m[0])| <= k
    requires forall j | 0 <= j <= |m| :: k != |Serialize(m[..j])|
    ensures forall j | 0 <= j <= |m[1..]| :: k - size != |Serialize(m[1..][..j])|
  {
    forall j | 0 <= j <= |m[1..]| ensures k - size != |Serialize(m[1..][..j])| {
      assert m[..j + 1][0] == m[0] && m[..j + 1][1..] == m[1..][..j];
      assert |Serialize(m[..j + 1])| == size + |Serialize(m[1..][..j])|;
    }
  }

  lemma {:induction false} TruncatedInside(n: nat, acc: seq<Tlv>, m: seq<Tlv>, k: nat)
    requires n <= 4 && AcceptedAfter(n, acc, m) && k <= |Serialize(m)|
    requires forall j | 0 <= j <= |m| :: k != |Serialize(m[..j])|
    ensures ParseFrom(n, acc, Serialize(m)[..k]) == Outcome(ParseError, [])
    decreases |m|
  {
    assert k != |Serialize(m[..0])|;
    assert m[..|m|] == m;
    assert m != [];
    var t, rest := m[0], m[1..];
    var size := |Octets(t)|;
    AcceptedAfterTail(n, acc, m, t, rest);
    if k < size {
      CutInside(n, acc, t, Serialize(rest), k);
    } else {
      NoEndBehind(m, k, size);
      TruncatedInside(n, acc + [t], rest, k - size);
      CutBehind(n, acc, t, Serialize(rest), k);
    }
  }

  /** The first `k` octets of a message parse exactly when `k` is the end of a TLV, and give the TLVs before it. */
  lemma Truncation(n: nat, m: seq<Tlv>, k: nat)
    requires n <= 4 && Accepted(n, m) && k <= |Serialize(m)|
    ensures forall j | 0 <= j <= |m| && k == |Serialize(m[..j])| ::
      Parse(n, Serialize(m)[..k]) == Outcome(Success, m[..j])
    ensures (forall j | 0 <= j <= |m| :: k != |Serialize(m[..j])|) ==>
      Parse(n, Serialize(m)[..k]) == Outcome(ParseError, [])
  {
    AcceptedIsAcceptedAfter(n, m);
    if j :| 0 <= j <= |m| && k == |Serialize(m[..j])| {
      forall j | 0 <= j <= |m| && k == |Serialize(m[..j])|
        ensures Parse(n, Serialize(m)[..k]) == Outcome(Success, m[..j])
      {
        AcceptedPrefix(n, m, j);
        SerializePrefix(m, j);
        ParseExact(n, Serialize(m)[..k], m[..j]);
      }
    } else {
      TruncatedInside(n, [], m, k);
    }
  }

  // ---- Corrupted messages ----

  lemma AcceptedSnoc(n: nat, m: seq<Tlv>, t: Tlv)
    requires n <= 4
    ensures Accepted(n, m + [t]) <==>
      |m| < MAX_TLV_COUNT && Accepted(n, m) && !ValueTooShort(n, t) && !ChecksumFails(n, m, t)
  {
    var m' := m + [t];
    assert m'[..|m|] == m;
    forall i | 0 <= i < |m| ensures m'[..i] == m[..i] && m'[i] == m[i] {}
    if Accepted(n, m') {
      AcceptedPrefix(n, m', |m|);
      assert m'[|m|] == t;
    }
  }

  lemma ParseLast(n: nat, acc: seq<Tlv>, t: Tlv, d: seq<byte>)
    requires n <= 4 && |acc| < MAX_TLV_COUNT && !ValueTooShort(n, t) && d == Octets(t)
    ensures ParseFrom(n, acc, d) ==
      if ChecksumFails(n, acc, t) then Outcome(ChecksumMismatch, []) else Outcome(Success, acc + [t])
  {
    assert d == Octets(t) + [];
    ParseOne(n, acc, t, []);
  }

  lemma LastTlvDecides(n: nat, m: seq<Tlv>, t: Tlv)
    requires n <= 4 && Accepted(n, m) && |m| < MAX_TLV_COUNT && !ValueTooShort(n, t)
    ensures Parse(n, Serialize(m + [t])) ==
      if ChecksumFails(n, m, t) then Outcome(ChecksumMismatch, []) else Outcome(Success, m + [t])
  {
    AcceptedIsAcceptedAfter(n, m);
    SerializeSnoc(m, t);
    assert [] + m == m;
    ParsePrefix(n, [], m, Octets(t));
    ParseLast(n, m, t, Octets(t));
  }

  /**
   * A message whose TLVs were `sent`, followed by their checksum, and arrive as `got`: the parser
   * notices exactly when the checksums differ in the octets it compares.
   */
  lemma CorruptionNoticed(n: nat, sent: seq<Tlv>, got: seq<Tlv>)
    requires n <= 4 && Accepted(n, got) && |got| < MAX_TLV_COUNT
    ensures var t := RawTlv(TLV_CHECKSUM, Checksum(sent));
      var r := Parse(n, Serialize(got + [t]));
      r == if Checksum(got)[..n] == Checksum(sent)[..n] then Outcome(Success, got + [t])
           else Outcome(ChecksumMismatch, [])
  {
    LastTlvDecides(n, got, RawTlv(TLV_CHECKSUM, Checksum(sent)));
  }

  /** Comparing all four octets would catch every burst of up to 32 bits in the values. */
  lemma FourOctetsCatchBursts(sent: seq<Tlv>, got: seq<Tlv>, k: nat)
    requires Accepted(4, got) && |got| < MAX_TLV_COUNT
    requires AgreeOutside(32, Bits(Values(sent)), Bits(Values(got)), k) && Bits(Values(sent)) != Bits(Values(got))
    ensures Parse(4, Serialize(got + [RawTlv(TLV_CHECKSUM, Checksum(sent))])) == Outcome(ChecksumMismatch, [])
  {
    BurstChangesChecksum(sent, got, k);
    assert Checksum(got)[..4] == Checksum(got) && Checksum(sent)[..4] == Checksum(sent);
    CorruptionNoticed(4, sent, got);
  }

  /** What a change of the values does to the checksum, as the register sees it. */
  ghost function Change(sent: seq<Tlv>, got: seq<Tlv>): bv32
    requires |Values(sent)| == |Values(got)|
  {
    BitsLength(Values(sent));
    BitsLength(Values(got));
    WORDS.Feed(0, XorBits(Bits(Values(sent)), Bits(Values(got))))
  }

  lemma ChecksumsDifferBy(sent: seq<Tlv>, got: seq<Tlv>)
    requires |Values(sent)| == |Values(got)|
    ensures Xor(ValuesCrc(got), ValuesCrc(sent)) == Change(sent, got)
  {
    ChecksumOfValues(sent);
    ChecksumOfValues(got);
    ChecksumDifference(0, Values(sent), Values(got));
    XorCommutes(ValuesCrc(got), ValuesCrc(sent));
  }

  /**
   * A change of the values that keeps their length is accepted exactly when the octets compared of the
   * change are zero: whether it is noticed does not depend on the message.
   */
  lemma ChangeNoticedIff(n: nat, sent: seq<Tlv>, got: seq<Tlv>)
    requires n <= 4 && Accepted(n, got) && |got| < MAX_TLV_COUNT && |Values(sent)| == |Values(got)|
    ensures var t := RawTlv(TLV_CHECKSUM, Checksum(sent));
      Parse(n, Serialize(got + [t])) ==
        if StartsZero(Change(sent, got), n) then Outcome(Success, got + [t]) else Outcome(ChecksumMismatch, [])
  {
    CorruptionNoticed(n, sent, got);
    ChecksumsDifferBy(sent, got);
    SameStart(ValuesCrc(got), ValuesCrc(sent), Change(sent, got), Checksum(got), Checksum(sent), n);
  }

  lemma OneValue(t: Tlv)
    ensures Checksum([t]) == WordOctets(Crc(0, t.value))
  {
    ChecksumOfValues([t]);
    assert Values([t]) == Values([t][..0]) + t.value == [] + t.value == t.value;
  }

  lemma FirstOctets()
    ensures WordOctets(0x41D9_12FF)[0] == 0x41 && WordOctets(0x41AE_15CF)[0] == 0x41
    ensures WordOctets(0x41D9_12FF)[1] == 0xD9 && WordOctets(0x41AE_15CF)[1] == 0xAE
  {
  }

  lemma SameFirstOctet(typ: byte)
    ensures var x, y := Checksum([RawTlv(typ, [0, 0])]), Checksum([RawTlv(typ, [1, 0x96])]);
      x[0] == y[0] && x[1] != y[1]
  {
    TwoZeros();
    OneAndNinetySix();
    OneValue(RawTlv(typ, [0, 0]));
    OneValue(RawTlv(typ, [1, 0x96]));
    FirstOctets();
  }

  /** The one octet the code compares misses a burst of 16 bits. */
  lemma OneOctetMissesBurst(typ: byte)
    requires typ != TLV_CHECKSUM
    ensures var sent, got := [RawTlv(typ, [0, 0])], [RawTlv(typ, [1, 0x96])];
      var t := RawTlv(TLV_CHECKSUM, Checksum(sent));
      Checksum(sent) != Checksum(got) && Parse(COMPARED, Serialize(got + [t])) == Outcome(Success, got + [t])
  {
    var sent, got := [RawTlv(typ, [0, 0])], [RawTlv(typ, [1, 0x96])];
    SameFirstOctet(typ);
    assert Checksum(sent)[..COMPARED] == [Checksum(sent)[0]] && Checksum(got)[..COMPARED] == [Checksum(got)[0]];
    CorruptionNoticed(COMPARED, sent, got);
  }
}
