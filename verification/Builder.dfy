/** Messages put together with the typed add functions, and read back with the typed getters. */
module Builder {
  import opened Bytes
  import opened Options
  import opened Wire

  /** The typed add functions of message.c:123-198, with their arguments. */
  datatype Addition =
    | Command(command: byte)
    | Reply(reply: byte)
    | MotorPosition(x: int32, y: int32, z: int32)
    | ErrorReport(code: uint32)
    | CurrentReading(current: uint16)
    | PowerReading(power: uint16)
    | EncoderValue(ex: int32, ey: int32)
    | VibrationValue(samples: seq<int32>)  // avg_x[4], avg_y[4], avg_z[4], max_x[4], max_y[4], max_z[4]
    | SfpCalibration(offsetX: uint32, offsetY: uint32)
    | ChecksumSoFar
  {
    predicate Valid() {
      VibrationValue? ==> |samples| == 24
    }
  }

  function EncodeInt32s(ns: seq<int32>): (s: seq<byte>)
    ensures |s| == 4 * |ns|
  {
    if ns == [] then [] else EncodeInt32(ns[0]) + EncodeInt32s(ns[1..])
  }

  /** The TLV an addition appends to `m`. */
  ghost function TlvOf(m: seq<Tlv>, a: Addition): (t: Tlv)
    requires a.Valid()
    ensures t.typ == TLV_CHECKSUM <==> a.ChecksumSoFar?
  {
    match a
    case Command(c) => RawTlv(TLV_COMMAND, [c])
    case Reply(r) => RawTlv(TLV_REPLY, [r])
    case MotorPosition(x, y, z) => RawTlv(TLV_MOTOR_POSITION, EncodeInt32s([x, y, z]))
    case ErrorReport(code) => RawTlv(TLV_ERROR_REPORT, ToBigEndian(code, 4))
    case CurrentReading(n) => RawTlv(TLV_CURRENT_READING, ToBigEndian(n, 2))
    case PowerReading(n) => RawTlv(TLV_POWER_READING, ToBigEndian(n, 2))
    case EncoderValue(x, y) => RawTlv(TLV_ENCODER_VALUE, EncodeInt32s([x, y]))
    case VibrationValue(ns) => RawTlv(TLV_VIBRATION_VALUE, EncodeInt32s(ns))
    case SfpCalibration(x, y) => RawTlv(TLV_SFP_CALIBRATION, ToBigEndian(x, 4) + ToBigEndian(y, 4))
    case ChecksumSoFar => RawTlv(TLV_CHECKSUM, Checksum(m))
  }

  /** `message_tlv_add` on a message's TLVs: a full message stays as it is. */
  ghost function Append(m: seq<Tlv>, t: Tlv): seq<Tlv> {
    if |m| >= MAX_TLV_COUNT then m else m + [t]
  }

  /** The message after a run of additions. */
  ghost function Build(m: seq<Tlv>, run: seq<Addition>): seq<Tlv>
    requires forall a :: a in run ==> a.Valid()
    decreases |run|
  {
    if run == [] then m else Build(Append(m, TlvOf(m, run[0])), run[1..])
  }

  lemma {:induction false} BuildStaysAccepted(n: nat, m: seq<Tlv>, run: seq<Addition>)
    requires n <= 4 && Accepted(n, m)
    requires forall a :: a in run ==> a.Valid()
    ensures m <= Build(m, run) && Accepted(n, Build(m, run))
    decreases |run|
  {
    if run != [] {
      var t := TlvOf(m, run[0]);
      AcceptedSnoc(n, m, t);
      BuildStaysAccepted(n, Append(m, t), run[1..]);
    }
  }

  /** Whatever the typed functions build is accepted when it arrives unchanged. */
  lemma BuiltMessageParses(n: nat, run: seq<Addition>)
    requires n <= 4
    requires forall a :: a in run ==> a.Valid()
    ensures |Build([], run)| <= MAX_TLV_COUNT
    ensures Parse(n, Serialize(Build([], run))) == Outcome(Success, Build([], run))
  {
    BuildStaysAccepted(n, [], run);
    ParseExact(n, Serialize(Build([], run)), Build([], run));
  }

  // ---- Reading back ----

  /** The value of the first TLV of a type. */
  function First(m: seq<Tlv>, typ: byte): Option<seq<byte>> {
    if m == [] then None
    else if m[0].typ == typ then Some(m[0].value)
    else First(m[1..], typ)
  }

  predicate FirstAt(m: seq<Tlv>, typ: byte, i: nat) {
    i < |m| && m[i].typ == typ && forall j :: 0 <= j < i ==> m[j].typ != typ
  }

  /** What is found is the value of the TLV of the type before which there is none. */
  lemma {:induction false} FirstMeans(m: seq<Tlv>, typ: byte)
    ensures match First(m, typ)
      case None => forall j :: 0 <= j < |m| ==> m[j].typ != typ
      case Some(value) => exists i: nat :: FirstAt(m, typ, i) && m[i].value == value
  {
    if m != [] {
      if m[0].typ == typ {
        assert FirstAt(m, typ, 0);
      } else {
        FirstMeans(m[1..], typ);
        if First(m[1..], typ).Some? {
          var i: nat :| FirstAt(m[1..], typ, i) && m[1..][i].value == First(m[1..], typ).value;
          assert FirstAt(m, typ, i + 1) && m[i + 1].value == m[1..][i].value;
        } else {
          forall j | 0 <= j < |m| ensures m[j].typ != typ {
            if j > 0 { assert m[1..][j - 1] == m[j]; }
          }
        }
      }
    }
  }

  lemma {:induction false} FirstOfPrefix(a: seq<Tlv>, b: seq<Tlv>, typ: byte)
    requires a <= b && First(a, typ) != None
    ensures First(b, typ) == First(a, typ)
  {
    if a[0].typ != typ {
      FirstOfPrefix(a[1..], b[1..], typ);
    }
  }

  lemma {:induction false} BuildExtends(m: seq<Tlv>, run: seq<Addition>)
    requires forall a :: a in run ==> a.Valid()
    ensures m <= Build(m, run)
    decreases |run|
  {
    if run != [] {
      BuildExtends(Append(m, TlvOf(m, run[0])), run[1..]);
    }
  }

  /** Additions never change what a getter finds for a type that is already present. */
  lemma BuildKeepsFirst(m: seq<Tlv>, run: seq<Addition>, typ: byte)
    requires forall a :: a in run ==> a.Valid()
    requires First(m, typ) != None
    ensures First(Build(m, run), typ) == First(m, typ)
  {
    BuildExtends(m, run);
    FirstOfPrefix(m, Build(m, run), typ);
  }

  /** `message_tlv_get` into a variable that holds `destination`: a shorter value leaves its tail alone. */
  function Get(m: seq<Tlv>, typ: byte, destination: seq<byte>): (Code, seq<byte>) {
    match First(m, typ)
    case None => (TlvNotFound, destination)
    case Some(value) =>
      if |value| > |destination| then (AssertionFailed, destination)
      else (Success, value + destination[|value|..])
  }

  datatype Position = Position(x: int32, y: int32, z: int32)

  function DecodePosition(s: seq<byte>): Position
    requires |s| == 12
  {
    Position(DecodeInt32(s[..4]), DecodeInt32(s[4..8]), DecodeInt32(s[8..12]))
  }

  lemma PositionRoundTrip(x: int32, y: int32, z: int32)
    ensures DecodePosition(EncodeInt32s([x, y, z])) == Position(x, y, z)
  {
    EncodeThree(x, y, z);
    var s := EncodeInt32(x) + EncodeInt32(y) + EncodeInt32(z);
    assert s[..4] == EncodeInt32(x) && s[4..8] == EncodeInt32(y) && s[8..12] == EncodeInt32(z);
    Int32RoundTrip(x);
    Int32RoundTrip(y);
    Int32RoundTrip(z);
  }

  lemma EncodeCons(n: int32, ns: seq<int32>)
    ensures EncodeInt32s([n] + ns) == EncodeInt32(n) + EncodeInt32s(ns)
  {
    assert ([n] + ns)[1..] == ns;
  }

  lemma EncodeThree(x: int32, y: int32, z: int32)
    ensures EncodeInt32s([x, y, z]) == EncodeInt32(x) + EncodeInt32(y) + EncodeInt32(z)
  {
    assert [x, y, z] == [x] + ([y] + ([z] + []));
    EncodeCons(x, [y] + ([z] + []));
    EncodeCons(y, [z] + []);
    EncodeCons(z, []);
    var a, b, c := EncodeInt32(x), EncodeInt32(y), EncodeInt32(z);
    assert EncodeInt32s([x, y, z]) == a + (b + (c + []));
    assert a + (b + (c + [])) == a + b + c;
  }

  lemma {:induction false} EncodedAt(ns: seq<int32>, i: nat)
    requires i < |ns|
    ensures DecodeInt32(EncodeInt32s(ns)[4 * i..4 * i + 4]) == ns[i]
  {
    var rest := EncodeInt32s(ns[1..]);
    assert EncodeInt32s(ns) == EncodeInt32(ns[0]) + rest;
    if i == 0 {
      assert (EncodeInt32(ns[0]) + rest)[0..4] == EncodeInt32(ns[0]);
      Int32RoundTrip(ns[0]);
    } else {
      EncodedAt(ns[1..], i - 1);
      assert (EncodeInt32(ns[0]) + rest)[4 * i..4 * i + 4] == rest[4 * (i - 1)..4 * (i - 1) + 4];
    }
  }

  lemma WideReadsBack(n: nat, m: nat)
    requires n < 0x1_0000_0000 && m < 0x1_0000_0000
    ensures FromBigEndian(ToBigEndian(n, 4)) == n
    ensures (ToBigEndian(n, 4) + ToBigEndian(m, 4))[..4] == ToBigEndian(n, 4)
    ensures (ToBigEndian(n, 4) + ToBigEndian(m, 4))[4..8] == ToBigEndian(m, 4)
  {
    assert Pow256(4) == 0x1_0000_0000;
    BigEndianRoundTrip(n, 4);
  }

  lemma SfpReadsBack(x: uint32, y: uint32, v: seq<byte>)
    requires v == ToBigEndian(x, 4) + ToBigEndian(y, 4)
    ensures |v| == 8 && FromBigEndian(v[..4]) == x && FromBigEndian(v[4..8]) == y
  {
    WideReadsBack(x, y);
    WideReadsBack(y, x);
  }

  lemma EncoderReadsBack(x: int32, y: int32, v: seq<byte>)
    requires v == EncodeInt32s([x, y])
    ensures |v| == 8 && DecodeInt32(v[..4]) == x && DecodeInt32(v[4..8]) == y
  {
    EncodedAt([x, y], 0);
    EncodedAt([x, y], 1);
    assert v[0..4] == v[..4];
  }

  lemma VibrationReadsBack(ns: seq<int32>, v: seq<byte>)
    requires |ns| == 24 && v == EncodeInt32s(ns)
    ensures |v| == 96 && forall i :: 0 <= i < 24 ==> DecodeInt32(v[4 * i..4 * i + 4]) == ns[i]
  {
    forall i | 0 <= i < 24 ensures DecodeInt32(v[4 * i..4 * i + 4]) == ns[i] {
      EncodedAt(ns, i);
    }
  }

  /** The type of the TLV each typed function adds. */
  lemma AdditionType(m: seq<Tlv>, a: Addition)
    requires a.Valid()
    ensures TlvOf(m, a).typ == match a
                               case Command(_) => 1
                               case Reply(_) => 2
                               case ChecksumSoFar => 3
                               case MotorPosition(_, _, _) => 4
                               case CurrentReading(_) => 5
                               case SfpCalibration(_, _) => 6
                               case ErrorReport(_) => 7
                               case PowerReading(_) => 8
                               case EncoderValue(_, _) => 9
                               case VibrationValue(_) => 10
  {
  }

  /** The arguments of each typed function, read in network order from the value it adds. */
  lemma AdditionReadsBack(m: seq<Tlv>, a: Addition, v: seq<byte>)
    requires a.Valid() && v == TlvOf(m, a).value
    ensures match a
      case Command(n) => v == [n]
      case Reply(n) => v == [n]
      case CurrentReading(n) => |v| == 2 && FromBigEndian(v) == n
      case PowerReading(n) => |v| == 2 && FromBigEndian(v) == n
      case ErrorReport(n) => |v| == 4 && FromBigEndian(v) == n
      case SfpCalibration(x, y) => |v| == 8 && FromBigEndian(v[..4]) == x && FromBigEndian(v[4..8]) == y
      case MotorPosition(x, y, z) => |v| == 12 && DecodePosition(v) == Position(x, y, z)
      case EncoderValue(x, y) => |v| == 8 && DecodeInt32(v[..4]) == x && DecodeInt32(v[4..8]) == y
      case VibrationValue(ns) => |v| == 96 && forall i :: 0 <= i < 24 ==> DecodeInt32(v[4 * i..4 * i + 4]) == ns[i]
      case ChecksumSoFar => v == Checksum(m)
  {
    match a
    case Command(_) =>
    case Reply(_) =>
    case CurrentReading(n) => Uint16RoundTrip(n);
    case PowerReading(n) => Uint16RoundTrip(n);
    case ErrorReport(n) => WideReadsBack(n, 0);
    case SfpCalibration(x, y) => SfpReadsBack(x, y, v);
    case MotorPosition(x, y, z) => PositionRoundTrip(x, y, z);
    case EncoderValue(x, y) => EncoderReadsBack(x, y, v);
    case VibrationValue(ns) => VibrationReadsBack(ns, v);
    case ChecksumSoFar =>
  }

  /** The message koruza.c sends: a command, a motor position and the checksum of both. */
  ghost function MotorMessage(command: byte, p: Position): seq<Tlv> {
    Build([], [Command(command), MotorPosition(p.x, p.y, p.z), ChecksumSoFar])
  }

  lemma BuildCons(m: seq<Tlv>, a: Addition, run: seq<Addition>)
    requires a.Valid() && forall a' :: a' in run ==> a'.Valid()
    ensures Build(m, [a] + run) == Build(Append(m, TlvOf(m, a)), run)
  {
    assert ([a] + run)[1..] == run;
  }

  lemma BuildThree(m: seq<Tlv>, a: Addition, b: Addition, c: Addition, m1: seq<Tlv>, m2: seq<Tlv>)
    requires a.Valid() && b.Valid() && c.Valid()
    requires m1 == Append(m, TlvOf(m, a)) && m2 == Append(m1, TlvOf(m1, b))
    ensures Build(m, [a, b, c]) == Append(m2, TlvOf(m2, c))
  {
    var none: seq<Addition> := [];
    assert [a, b, c] == [a] + ([b] + ([c] + none));
    BuildCons(m, a, [b] + ([c] + none));
    BuildCons(m1, b, [c] + none);
    BuildCons(m2, c, none);
  }

  lemma BuildTwo(m: seq<Tlv>, a: Addition, b: Addition, m1: seq<Tlv>)
    requires a.Valid() && b.Valid() && m1 == Append(m, TlvOf(m, a))
    ensures Build(m, [a, b]) == Append(m1, TlvOf(m1, b))
  {
    var none: seq<Addition> := [];
    assert [a, b] == [a] + ([b] + none);
    BuildCons(m, a, [b] + none);
    BuildCons(m1, b, none);
  }

  lemma FirstCons(t: Tlv, m: seq<Tlv>, typ: byte)
    ensures First([t] + m, typ) == if t.typ == typ then Some(t.value) else First(m, typ)
  {
    assert ([t] + m)[1..] == m;
  }

  lemma FirstOfThree(a: Tlv, b: Tlv, c: Tlv, typ: byte)
    ensures First([a, b, c], typ) == if a.typ == typ then Some(a.value) else if b.typ == typ then Some(b.value)
                                     else if c.typ == typ then Some(c.value) else None
  {
    assert [a, b, c] == [a] + ([b] + ([c] + []));
    FirstCons(a, [b] + ([c] + []), typ);
    FirstCons(b, [c] + [], typ);
    FirstCons(c, [], typ);
  }

  lemma SerializedThree(a: Tlv, b: Tlv, c: Tlv)
    ensures |Serialize([a, b, c])| == 9 + |a.value| + |b.value| + |c.value|
  {
    assert [a, b, c] == [] + [a] + [b] + [c];
    SerializeSnoc([] + [a] + [b], c);
    SerializeSnoc([] + [a], b);
    SerializeSnoc([], a);
  }

  lemma SerializedTwo(a: Tlv, b: Tlv)
    ensures |Serialize([a, b])| == 6 + |a.value| + |b.value|
  {
    assert [a, b] == [] + [a] + [b];
    SerializeSnoc([] + [a], b);
    SerializeSnoc([], a);
  }

  lemma ThreeTlvs(command: byte, a: Addition, c: Tlv, t: Tlv, k: Tlv)
    requires a.Valid() && !a.ChecksumSoFar? && t == TlvOf([], a)
    requires c == TlvOf([], Command(command)) && k == TlvOf([c, t], ChecksumSoFar)
    ensures Build([], [Command(command), a, ChecksumSoFar]) == [c, t, k]
  {
    assert [] + [c] == [c] && [c] + [t] == [c, t] && [c, t] + [k] == [c, t, k];
    BuildThree([], Command(command), a, ChecksumSoFar, [c], [c, t]);
  }

  lemma ThreeReadBack(c: Tlv, t: Tlv, k: Tlv)
    requires c.typ == TLV_COMMAND && k.typ == TLV_CHECKSUM && t.typ !in {TLV_COMMAND, TLV_REPLY, TLV_CHECKSUM}
    ensures |Serialize([c, t, k])| == 9 + |c.value| + |t.value| + |k.value|
    ensures First([c, t, k], TLV_COMMAND) == Some(c.value) && First([c, t, k], TLV_REPLY) == None
    ensures First([c, t, k], t.typ) == Some(t.value)
  {
    SerializedThree(c, t, k);
    FirstOfThree(c, t, k, TLV_COMMAND);
    FirstOfThree(c, t, k, TLV_REPLY);
    FirstOfThree(c, t, k, t.typ);
  }

  /** A command with a payload and the checksum of both: its size, and what is found in it. */
  lemma PayloadReadsBack(command: byte, a: Addition, t: Tlv)
    requires a.Valid() && !a.Command? && !a.Reply? && !a.ChecksumSoFar? && t == TlvOf([], a)
    ensures var m := Build([], [Command(command), a, ChecksumSoFar]);
      && |Serialize(m)| == 14 + |t.value|
      && First(m, TLV_COMMAND) == Some([command]) && First(m, TLV_REPLY) == None
      && First(m, t.typ) == Some(t.value)
  {
    var c := TlvOf([], Command(command));
    var k := TlvOf([c, t], ChecksumSoFar);
    ThreeTlvs(command, a, c, t, k);
    ThreeReadBack(c, t, k);
  }

  lemma TwoTlvs(command: byte, c: Tlv, k: Tlv)
    requires c == TlvOf([], Command(command)) && k == TlvOf([c], ChecksumSoFar)
    ensures Build([], [Command(command), ChecksumSoFar]) == [c, k]
  {
    assert [] + [c] == [c] && [c] + [k] == [c, k];
    BuildTwo([], Command(command), ChecksumSoFar, [c]);
  }

  lemma TwoReadBack(c: Tlv, k: Tlv)
    requires c.typ == TLV_COMMAND && k.typ == TLV_CHECKSUM
    ensures |Serialize([c, k])| == 6 + |c.value| + |k.value|
    ensures First([c, k], TLV_COMMAND) == Some(c.value) && First([c, k], TLV_REPLY) == None
  {
    SerializedTwo(c, k);
    assert [c, k] == [c] + ([k] + []);
    FirstCons(c, [k] + [], TLV_COMMAND);
    FirstCons(c, [k] + [], TLV_REPLY);
    FirstCons(k, [], TLV_REPLY);
  }

  /** The same for a command without a payload. */
  lemma BareReadsBack(command: byte)
    ensures var m := Build([], [Command(command), ChecksumSoFar]);
      |Serialize(m)| == 11 && First(m, TLV_COMMAND) == Some([command]) && First(m, TLV_REPLY) == None
  {
    var c := TlvOf([], Command(command));
    var k := TlvOf([c], ChecksumSoFar);
    TwoTlvs(command, c, k);
    TwoReadBack(c, k);
  }

  /** The receiver gets the command and the signed coordinates that were put in. */
  lemma MotorMessageReadsBack(command: byte, p: Position, destination: seq<byte>)
    requires |destination| == 12
    ensures |Serialize(MotorMessage(command, p))| == 26
    ensures First(MotorMessage(command, p), TLV_COMMAND) == Some([command])
    ensures First(MotorMessage(command, p), TLV_REPLY) == None
    ensures var (code, bytes) := Get(MotorMessage(command, p), TLV_MOTOR_POSITION, destination);
      code == Success && |bytes| == 12 && DecodePosition(bytes) == p
  {
    var v := EncodeInt32s([p.x, p.y, p.z]);
    PayloadReadsBack(command, MotorPosition(p.x, p.y, p.z), RawTlv(TLV_MOTOR_POSITION, v));
    PositionRoundTrip(p.x, p.y, p.z);
    assert |v| == 12 && v + destination[12..] == v;
  }
}
