/** `message_t`: the operations of message.c on a message that is updated in place. */
module Message {
  import opened Bytes
  import Crc32
  import opened Wire
  import opened Builder

  lemma SerializeNext(m: seq<Tlv>, i: nat)
    requires i < |m|
    ensures Serialize(m[..i + 1]) == Serialize(m[..i]) + Octets(m[i])
  {
    assert m[..i + 1] == m[..i] + [m[i]];
    SerializeSnoc(m[..i], m[i]);
  }

  lemma FittingIs(m: seq<Tlv>, capacity: nat, j: nat)
    requires j <= |m| && |Serialize(m[..j])| <= capacity
    requires j < |m| ==> |Serialize(m[..j + 1])| > capacity
    ensures Fitting(m, capacity) == j
  {
    FittingIsMost(m, capacity);
    var f := Fitting(m, capacity);
    if f < j {
      assert m[..j][..f + 1] == m[..f + 1];
      SerializePrefix(m[..j], f + 1);
    } else if j < f {
      assert m[..f][..j + 1] == m[..j + 1];
      SerializePrefix(m[..f], j + 1);
    }
  }

  /** `memcpy` */
  method CopyTo(buffer: array<byte>, offset: nat, bytes: seq<byte>)
    requires offset + |bytes| <= buffer.Length
    modifies buffer
    ensures buffer[..] == old(buffer[..])[..offset] + bytes + old(buffer[..])[offset + |bytes|..]
  {
    forall k | 0 <= k < |bytes| {
      buffer[offset + k] := bytes[k];
    }
  }

  lemma Overwritten(done: seq<byte>, bytes: seq<byte>, was: seq<byte>, offset: nat, now: seq<byte>, after: seq<byte>)
    requires offset == |done| && offset + |bytes| <= |was|
    requires now == done + was[offset..] && after == now[..offset] + bytes + now[offset + |bytes|..]
    ensures after == done + bytes + was[offset + |bytes|..]
  {
  }

  lemma LengthAt(data: seq<byte>, offset: nat)
    requires offset + 3 <= |data|
    ensures FromBigEndian(data[offset + 1..offset + 3]) == FieldLength(data[offset..])
  {
    assert data[offset..][1..3] == data[offset + 1..offset + 3];
  }

  /** One round of the loop of `message_parse` on the complete TLV `t` between `offset` and `next`. */
  lemma TlvParsed(n: nat, acc: seq<Tlv>, data: seq<byte>, offset: nat, t: Tlv, next: nat)
    requires n <= 4 && |acc| < MAX_TLV_COUNT && !ValueTooShort(n, t)
    requires offset + 3 <= next <= |data| && next == offset + 3 + FieldLength(data[offset..])
    requires t == RawTlv(data[offset], data[offset + 3..next])
    ensures ParseFrom(n, acc, data[offset..]) ==
      if ChecksumFails(n, acc, t) then Outcome(ChecksumMismatch, []) else ParseFrom(n, acc + [t], data[next..])
  {
    var rest := data[offset..];
    OctetsOfField(rest);
    assert rest[3..3 + |t.value|] == t.value && rest[3 + |t.value|..] == data[next..];
    ParseOne(n, acc, t, data[next..]);
  }

  /** `memcpy` at the end of what is already written: `done`, over a buffer that held `was`. */
  method CopyAfter(buffer: array<byte>, offset: nat, bytes: seq<byte>, ghost done: seq<byte>, ghost was: seq<byte>)
    requires |was| == buffer.Length && offset == |done| && offset + |bytes| <= buffer.Length
    requires buffer[..] == done + was[offset..]
    modifies buffer
    ensures buffer[..] == done + bytes + was[offset + |bytes|..]
  {
    ghost var now := buffer[..];
    CopyTo(buffer, offset, bytes);
    Overwritten(done, bytes, was, offset, now, buffer[..]);
  }

  /** The first `i` TLVs of `m` stand at the front of a buffer that held `was`. */
  ghost predicate Written(m: seq<Tlv>, i: nat, offset: nat, was: seq<byte>, now: seq<byte>) {
    i <= |m| && offset == |Serialize(m[..i])| <= |was| && now == Serialize(m[..i]) + was[offset..]
  }

  /** Where the loop ends, the TLVs written are those that fit. */
  lemma StopsWhenFull(m: seq<Tlv>, capacity: nat, i: nat, offset: nat, was: seq<byte>, now: seq<byte>)
    requires Written(m, i, offset, was, now) && offset <= capacity
    requires i < |m| ==> capacity < offset + |Octets(m[i])|
    ensures Fitting(m, capacity) == i
  {
    if i < |m| {
      SerializeNext(m, i);
    }
    FittingIs(m, capacity, i);
  }

  /** The body of the loop of `message_serialize`, for a TLV that fits. */
  method WriteTlv(buffer: array<byte>, offset: nat, m: seq<Tlv>, i: nat, ghost was: seq<byte>)
    requires i < |m| && |was| == buffer.Length && offset + |Octets(m[i])| <= buffer.Length
    requires Written(m, i, offset, was, buffer[..])
    modifies buffer
    ensures Written(m, i + 1, offset + |Octets(m[i])|, was, buffer[..])
  {
    CopyAfter(buffer, offset, Octets(m[i]), Serialize(m[..i]), was);
    SerializeNext(m, i);
  }

  /** The loop of `message_serialize`, up to the TLV that does not fit. */
  method WriteTlvs(m: seq<Tlv>, buffer: array<byte>, capacity: nat) returns (i: nat, offset: nat)
    requires capacity <= buffer.Length
    modifies buffer
    ensures Written(m, i, offset, old(buffer[..]), buffer[..]) && i == Fitting(m, capacity)
  {
    ghost var was := buffer[..];
    i, offset := 0, 0;
    var remaining: nat := capacity;
    while i < |m|
      invariant offset + remaining == capacity
      invariant Written(m, i, offset, was, buffer[..])
    {
      var size := |Octets(m[i])|;
      if remaining < size {
        break;
      }
      WriteTlv(buffer, offset, m, i, was);
      offset, remaining := offset + size, remaining - size;
      i := i + 1;
    }
    StopsWhenFull(m, capacity, i, offset, was, buffer[..]);
  }

  class Message {
    const tlv: array<Tlv>
    var length: nat

    ghost predicate Valid()
      reads this
    {
      tlv.Length == MAX_TLV_COUNT && length <= MAX_TLV_COUNT
    }

    ghost function Contents(): seq<Tlv>
      requires Valid()
      reads this, tlv
    {
      tlv[..length]
    }

    /** A declared `message_t` on which `message_init` was called. */
    constructor ()
      ensures Valid() && Contents() == [] && fresh(tlv)
    {
      tlv := new Tlv[MAX_TLV_COUNT](_ => RawTlv(0, []));
      length := 0;
    }

    /** `message_init`; `message_free` does the same after returning the values to the heap. */
    method Init()
      requires Valid()
      modifies this`length, tlv
      ensures Valid() && Contents() == []
    {
      length := 0;
      forall i | 0 <= i < tlv.Length {
        tlv[i] := RawTlv(0, []);
      }
    }

    /** `message_parse` */
    method Parse(n: nat, data: seq<byte>) returns (r: Code)
      requires Valid() && n <= 4
      modifies this`length, tlv
      ensures Valid() && Outcome(r, Contents()) == Wire.Parse(n, data)
    {
      Init();
      var offset := 0;
      while offset < |data|
        invariant 0 <= offset <= |data| && Valid()
        invariant Wire.Parse(n, data) == ParseFrom(n, Contents(), data[offset..])
      {
        r, offset := ParseTlv(n, data, offset);
        if r != Success {
          return;
        }
      }
      return Success;
    }

    /** The body of the loop of `message_parse`: the TLV at `offset`. */
    method ParseTlv(n: nat, data: seq<byte>, offset: nat) returns (r: Code, next: nat)
      requires Valid() && n <= 4 && offset < |data|
      modifies this`length, tlv
      ensures Valid() && offset < next
      ensures r != Success ==> Contents() == [] && ParseFrom(n, old(Contents()), data[offset..]) == Outcome(r, [])
      ensures r == Success ==>
        next <= |data| && ParseFrom(n, old(Contents()), data[offset..]) == ParseFrom(n, Contents(), data[next..])
    {
      ghost var acc := Contents();
      next := offset + 1;
      if length >= MAX_TLV_COUNT {
        Init();
        return TooManyTlvs, next;
      }
      var i := length;
      var typ := data[offset];
      if next + 2 > |data| {
        Init();
        return ParseError, next;
      }
      LengthAt(data, offset);
      var len := FromBigEndian(data[next..next + 2]);
      next := next + 2;
      if next + len > |data| {
        Init();
        return ParseError, next;
      }
      var t := RawTlv(typ, data[next..next + len]);
      tlv[i] := t;
      next := next + len;
      assert tlv[..i] == acc;
      if typ == TLV_CHECKSUM {
        var checksum := MessageChecksum();
        if |t.value| < n {
          Init();
          return ReadPastValue, next;
        }
        TlvParsed(n, acc, data, offset, t, next);
        if checksum[..n] != t.value[..n] {
          Init();
          return ChecksumMismatch, next;
        }
      }
      TlvParsed(n, acc, data, offset, t, next);
      length := length + 1;
      assert tlv[..length] == acc + [t];
      return Success, next;
    }

    /** `message_checksum` */
    method MessageChecksum() returns (r: seq<byte>)
      requires Valid()
      ensures r == Checksum(Contents())
    {
      var checksum: bv32 := 0;
      var i := 0;
      while i < length
        invariant i <= length
        invariant checksum == ValuesCrc(tlv[..i])
      {
        assert tlv[..i + 1][..i] == tlv[..i];
        checksum := Crc32.Crc32(checksum, tlv[i].value);
        i := i + 1;
      }
      return WordOctets(checksum);
    }

    /** `message_tlv_add` */
    method TlvAdd(typ: byte, value: seq<byte>) returns (r: Code)
      requires Valid() && |value| < 0x1_0000
      modifies this`length, tlv
      ensures Valid() && Contents() == Append(old(Contents()), RawTlv(typ, value))
      ensures if old(length) >= MAX_TLV_COUNT then r == TooManyTlvs && Contents() == old(Contents())
              else r == Success && Contents() == old(Contents()) + [RawTlv(typ, value)]
    {
      if length >= MAX_TLV_COUNT {
        return TooManyTlvs;
      }
      tlv[length] := RawTlv(typ, value);
      length := length + 1;
      return Success;
    }

    /** `message_tlv_add_command` */
    method TlvAddCommand(command: byte) returns (r: Code)
      requires Valid()
      modifies this`length, tlv
      ensures Valid() && Contents() == Append(old(Contents()), TlvOf(old(Contents()), Command(command)))
      ensures r == if old(length) >= MAX_TLV_COUNT then TooManyTlvs else Success
    {
      r := TlvAdd(TLV_COMMAND, [command]);
    }

    /** `message_tlv_add_motor_position` */
    method TlvAddMotorPosition(x: int32, y: int32, z: int32) returns (r: Code)
      requires Valid()
      modifies this`length, tlv
      ensures Valid() && Contents() == Append(old(Contents()), TlvOf(old(Contents()), MotorPosition(x, y, z)))
      ensures r == if old(length) >= MAX_TLV_COUNT then TooManyTlvs else Success
    {
      EncodeThree(x, y, z);
      r := TlvAdd(TLV_MOTOR_POSITION, EncodeInt32(x) + EncodeInt32(y) + EncodeInt32(z));
    }

    /** `message_tlv_add_power_reading` */
    method TlvAddPowerReading(power: uint16) returns (r: Code)
      requires Valid()
      modifies this`length, tlv
      ensures Valid() && Contents() == Append(old(Contents()), TlvOf(old(Contents()), PowerReading(power)))
      ensures r == if old(length) >= MAX_TLV_COUNT then TooManyTlvs else Success
    {
      r := TlvAdd(TLV_POWER_READING, ToBigEndian(power, 2));
    }

    /** `message_tlv_add_checksum` */
    method TlvAddChecksum() returns (r: Code)
      requires Valid()
      modifies this`length, tlv
      ensures Valid() && Contents() == Append(old(Contents()), TlvOf(old(Contents()), ChecksumSoFar))
      ensures r == if old(length) >= MAX_TLV_COUNT then TooManyTlvs else Success
    {
      var checksum := MessageChecksum();
      r := TlvAdd(TLV_CHECKSUM, checksum);
    }

    /** `message_tlv_get` */
    method TlvGet(typ: byte, destination: array<byte>) returns (r: Code)
      requires Valid()
      modifies destination
      ensures (r, destination[..]) == Get(old(Contents()), typ, old(destination[..]))
      ensures match First(old(Contents()), typ)
        case None => r == TlvNotFound && destination[..] == old(destination[..])
        case Some(value) =>
          if |value| > destination.Length then r == AssertionFailed && destination[..] == old(destination[..])
          else r == Success && destination[..] == value + old(destination[..])[|value|..]
    {
      ghost var was := destination[..];
      ghost var m := Contents();
      var i := 0;
      while i < length
        invariant i <= length && m == Contents() && destination[..] == was
        invariant First(m, typ) == First(m[i..], typ)
      {
        assert m[i..][1..] == m[i + 1..];
        if tlv[i].typ == typ {
          var value := tlv[i].value;
          if |value| > destination.Length {
            return AssertionFailed;
          }
          CopyTo(destination, 0, value);
          assert destination[..] == value + was[|value|..];
          return Success;
        }
        i := i + 1;
      }
      return TlvNotFound;
    }

    /** `message_serialized_size` */
    method SerializedSize() returns (size: nat)
      requires Valid()
      ensures size == |Serialize(Contents())|
    {
      size := 0;
      var i := 0;
      while i < length
        invariant i <= length
        invariant size == |Serialize(tlv[..i])|
      {
        assert tlv[..i + 1] == tlv[..i] + [tlv[i]];
        SerializeSnoc(tlv[..i], tlv[i]);
        size := size + 3 + |tlv[i].value|;
        i := i + 1;
      }
    }

    /** `message_serialize`: the TLVs that fit are written even when the rest does not. */
    method SerializeTo(buffer: array<byte>, capacity: nat) returns (r: int)
      requires Valid() && capacity <= buffer.Length
      modifies buffer
      ensures var j := Fitting(old(Contents()), capacity);
        var written := Serialize(old(Contents())[..j]);
        && r == (if j == length then |written| else -3)
        && |written| <= buffer.Length
        && buffer[..] == written + old(buffer[..])[|written|..]
    {
      var written, offset := WriteTlvs(tlv[..length], buffer, capacity);
      return if written == length then offset else -3;
    }
  }
}
