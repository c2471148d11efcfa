/** koruza.c's handling of the motor unit on its own global state. */
module MotorDriver {
  import opened Bytes
  import opened Options
  import opened Wire
  import opened Builder
  import opened Message
  import opened Motors

  /** One message more was sent: it has the number of the command, no reply, and is acceptable. */
  ghost predicate OneMore(was: seq<seq<Tlv>>, now: seq<seq<Tlv>>, command: byte) {
    && |now| == |was| + 1 && now[..|was|] == was
    && First(now[|was|], TLV_COMMAND) == Some([command]) && First(now[|was|], TLV_REPLY) == None
    && Accepted(4, now[|was|])
  }

  lemma OrderOnWire(was: seq<seq<Tlv>>, o: Order)
    ensures OneMore(was, was + [MessageOf(o)], CommandOf(o))
    ensures o.Positioned? ==> CarriesPosition(MessageOf(o), Some(o.position))
    ensures o.StatusRequest? ==>
      && First(MessageOf(o), TLV_POWER_READING) == Some(ToBigEndian(o.power, 2))
      && FromBigEndian(ToBigEndian(o.power, 2)) == o.power
  {
    OrderReadsBack(o);
    BuildStaysAccepted(4, [], AdditionsOf(o));
  }

  class MotorDriver {
    var running: bool
    var connected: bool
    var x: int32
    var y: int32
    var z: int32
    var rangeX: int32
    var rangeY: int32
    var encoderX: int32
    var encoderY: int32
    var errorCode: uint32
    var config: Config
    var wire: seq<seq<Tlv>>       // the messages passed to serial_send_message since the start
    ghost var sent: seq<Order>

    ghost predicate Valid()
      reads this
    {
      rangeX > 0 && rangeY > 0 && |wire| == |sent| && forall i :: 0 <= i < |sent| ==> wire[i] == MessageOf(sent[i])
    }

    ghost function View(): Unit
      reads this
    {
      Unit(running, connected, Position(x, y, z), rangeX, rangeY, encoderX, encoderY, errorCode, config, sent)
    }

    /** koruza.c:180-184: a range read from the configuration */
    static method ReadRange(range: Option<int32>) returns (r: int32)
      ensures r == LoadRange(range)
      ensures r == if range.Some? && range.value > 0 then range.value else 25000
    {
      r := match range case Some(n) => n case None => DEFAULT_RANGE;
      if r <= 0 {
        r := DEFAULT_RANGE;
      }
    }

    /** koruza.c:192-195: a coordinate read from the configuration */
    static method ReadCoordinate(last: Option<int32>, range: int32) returns (r: int32)
      requires range > 0
      ensures r == LoadCoordinate(last, range)
      ensures r == if last.Some? && -range <= last.value <= range then last.value else 0
    {
      r := match last case Some(n) => n case None => 0;
      if r < -range || r > range {
        r := 0;
      }
    }

    /** The motor section of `koruza_init` */
    constructor (config: Config)
      ensures Valid() && View() == Boot(config)
      ensures running && !connected && z == encoderX == encoderY == 0 && errorCode == 0 && wire == []
      ensures rangeX == if config.rangeX.Some? && config.rangeX.value > 0 then config.rangeX.value else 25000
      ensures rangeY == if config.rangeY.Some? && config.rangeY.value > 0 then config.rangeY.value else 25000
      ensures x == if config.lastX.Some? && -rangeX <= config.lastX.value <= rangeX then config.lastX.value else 0
      ensures y == if config.lastY.Some? && -rangeY <= config.lastY.value <= rangeY then config.lastY.value else 0
    {
      running, connected := true, false;
      encoderX, encoderY, errorCode := 0, 0, 0;
      var rx := ReadRange(config.rangeX);
      var ry := ReadRange(config.rangeY);
      var lx := ReadCoordinate(config.lastX, rx);
      var ly := ReadCoordinate(config.lastY, ry);
      rangeX, rangeY, x, y, z := rx, ry, lx, ly, 0;
      this.config := config;
      wire, sent := [], [];
    }

    /** `serial_send_message` on the motor unit's device */
    method Transmit(message: Message, ghost o: Order)
      requires Valid() && message.Valid() && message.Contents() == MessageOf(o)
      modifies this`wire, this`sent
      ensures Valid() && View() == Sending(old(View()), o) && wire == old(wire) + [message.Contents()]
    {
      wire := wire + [message.tlv[..message.length]];
      sent := sent + [o];
    }

    /** A command, a position and their checksum, as `koruza_restore_motor` and `koruza_move_motor` send them. */
    method Send(command: byte, p: Position)
      requires Valid()
      modifies this`wire, this`sent
      ensures Valid() && View() == Sending(old(View()), Positioned(command, p))
      ensures OneMore(old(wire), wire, command) && CarriesPosition(wire[|old(wire)|], Some(p))
    {
      var message := new Message();
      var r := message.TlvAddCommand(command);
      r := message.TlvAddMotorPosition(p.x, p.y, p.z);
      r := message.TlvAddChecksum();
      SentMessage([Command(command), MotorPosition(p.x, p.y, p.z), ChecksumSoFar]);
      OrderOnWire(wire, Positioned(command, p));
      Transmit(message, Positioned(command, p));
    }

    /** A command and its checksum */
    method SendPlain(command: byte)
      requires Valid()
      modifies this`wire, this`sent
      ensures Valid() && View() == Sending(old(View()), Plain(command)) && OneMore(old(wire), wire, command)
    {
      var message := new Message();
      var r := message.TlvAddCommand(command);
      r := message.TlvAddChecksum();
      SentPlain(command);
      OrderOnWire(wire, Plain(command));
      Transmit(message, Plain(command));
    }

    /** `koruza_restore_motor` */
    method RestoreMotor()
      requires Valid()
      modifies this`wire, this`sent
      ensures Valid() && View() == Restore(old(View()))
      ensures OneMore(old(wire), wire, 7)
      ensures CarriesPosition(wire[|old(wire)|], Some(Position(x, y, z)))
    {
      Send(COMMAND_RESTORE_MOTOR, Position(x, y, z));
    }

    /** `koruza_move_motor` */
    method MoveMotor(px: int32, py: int32, pz: int32) returns (r: int)
      requires Valid()
      modifies this`wire, this`sent
      ensures Valid() && View() == Move(old(View()), Position(px, py, pz))
      ensures if connected
              then && OneMore(old(wire), wire, 2)
                   && CarriesPosition(wire[|old(wire)|], Some(Position(px, py, pz)))
              else wire == old(wire)
      ensures r == if connected then 0 else -1
    {
      if !connected {
        return -1;
      }
      Send(COMMAND_MOVE_MOTOR, Position(px, py, pz));
      return 0;
    }

    /** `koruza_homing` */
    method Homing() returns (r: int)
      requires Valid()
      modifies this`wire, this`sent
      ensures Valid() && View() == Home(old(View()))
      ensures if connected then OneMore(old(wire), wire, 6) else wire == old(wire)
      ensures r == if connected then 0 else -1
    {
      if !connected {
        return -1;
      }
      SendPlain(COMMAND_HOMING);
      return 0;
    }

    /** `koruza_reboot` */
    method Reboot()
      requires Valid()
      modifies this`wire, this`sent
      ensures Valid() && View() == Sending(old(View()), Plain(COMMAND_REBOOT))
      ensures OneMore(old(wire), wire, 4)
    {
      SendPlain(COMMAND_REBOOT);
    }

    /** `koruza_firmware_upgrade` */
    method FirmwareUpgrade()
      requires Valid()
      modifies this`wire, this`sent
      ensures Valid() && View() == Sending(old(View()), Plain(COMMAND_FIRMWARE_UPGRADE))
      ensures OneMore(old(wire), wire, 5)
    {
      SendPlain(COMMAND_FIRMWARE_UPGRADE);
    }

    static method StatusMessage(power: uint16) returns (message: Message)
      ensures message.Valid() && message.Contents() == MessageOf(StatusRequest(power)) && fresh(message)
    {
      message := new Message();
      var r := message.TlvAddCommand(COMMAND_GET_STATUS);
      r := message.TlvAddPowerReading(power);
      r := message.TlvAddChecksum();
      SentMessage([Command(COMMAND_GET_STATUS), PowerReading(power), ChecksumSoFar]);
    }

    /** `koruza_update_status`, as far as the motor unit goes; `reached` when the request could be sent */
    method UpdateStatus(power: uint16, reached: bool)
      requires Valid()
      modifies this`wire, this`sent, this`connected
      ensures Valid() && View() == Poll(old(View()), power, reached)
      ensures OneMore(old(wire), wire, 1) && connected == (old(connected) && reached)
      ensures var power' := First(wire[|old(wire)|], TLV_POWER_READING);
        power'.Some? && |power'.value| == 2 && FromBigEndian(power'.value) == power
    {
      var message := StatusMessage(power);
      OrderOnWire(wire, StatusRequest(power));
      Transmit(message, StatusRequest(power));
      if !reached {
        connected := false;
      }
    }

    /** `koruza_timer_wait_reply_handler` */
    method Disconnect()
      requires Valid()
      modifies this`connected
      ensures Valid() && View() == old(View()).(connected := false)
    {
      if !connected {
        return;
      }
      connected := false;
    }

    /** `message_tlv_get_reply` and `message_tlv_get_command`, into a variable that starts as 0 */
    method GetOctet(message: Message, typ: byte, local: byte) returns (value: byte, read: bool)
      requires message.Valid()
      ensures (value, read) == Octet(message.Contents(), typ, local)
      ensures match First(message.Contents(), typ)
        case None => value == 0 && read
        case Some(v) => if |v| > 1 then !read else read && value == (v + [local])[0]
    {
      var destination := new byte[1](_ => local);
      assert destination[..] == [local];
      var r := message.TlvGet(typ, destination);
      if r == AssertionFailed {
        return 0, false;
      }
      value := if r == Success then destination[0] else 0;
      return value, true;
    }

    /** A getter for a structure, into a variable that starts as `local` */
    method GetStruct(message: Message, typ: byte, local: seq<byte>) returns (r: Code, value: seq<byte>)
      requires message.Valid()
      ensures (r, value) == Get(message.Contents(), typ, local)
    {
      var destination := new byte[|local|](i requires 0 <= i < |local| => local[i]);
      assert destination[..] == local;
      r := message.TlvGet(typ, destination);
      value := destination[..];
    }

    /** `koruza_serial_motors_message_handler` */
    method HandleMessage(message: Message, l: Locals)
      requires Valid() && message.Valid() && l.Valid() && running
      modifies this
      ensures Valid() && View() == Handle(old(View()), message.Contents(), l)
    {
      var reply, replyRead := GetOctet(message, TLV_REPLY, l.reply);
      if !replyRead {
        running := false;
        return;
      }
      var command, commandRead := GetOctet(message, TLV_COMMAND, l.command);
      if !commandRead {
        running := false;
        return;
      }
      if reply == 0 && command == 0 {
        return;
      }
      if reply == REPLY_STATUS_REPORT {
        HandleStatusReport(message, l);
      } else if reply == REPLY_ERROR_REPORT {
        HandleErrorReport(message, l);
      }
      if running && command == COMMAND_RESTORE_MOTOR {
        RestoreMotor();
      }
    }

    /** The case REPLY_STATUS_REPORT */
    method HandleStatusReport(message: Message, l: Locals)
      requires Valid() && message.Valid() && l.Valid() && running
      modifies this
      ensures Valid() && View() == StatusReport(old(View()), message.Contents(), l)
    {
      if !connected {
        connected := true;
        RestoreMotor();
      }
      var r, bytes := GetStruct(message, TLV_MOTOR_POSITION, l.position);
      if r == AssertionFailed {
        running := false;
        return;
      }
      if r == Success {
        StorePosition(DecodePosition(bytes));
      }
      HandleEncoder(message, l);
    }

    /** koruza.c:266-280 */
    method StorePosition(p: Position)
      requires Valid()
      modifies this`x, this`y, this`z, this`config
      ensures Valid() && View() == Report(old(View()), p) && Position(x, y, z) == p
      ensures config == if -rangeX <= p.x <= rangeX && -rangeY <= p.y <= rangeY
                        then old(config).(lastX := Some(p.x), lastY := Some(p.y)) else old(config)
    {
      x, y, z := p.x, p.y, p.z;
      if x >= -rangeX && x <= rangeX && y >= -rangeY && y <= rangeY {
        config := config.(lastX := Some(x), lastY := Some(y));
      }
    }

    /** koruza.c:283-288 */
    method HandleEncoder(message: Message, l: Locals)
      requires Valid() && message.Valid() && l.Valid() && running
      modifies this`encoderX, this`encoderY, this`running
      ensures Valid() && View() == EncoderReport(old(View()), message.Contents(), l)
    {
      var r, bytes := GetStruct(message, TLV_ENCODER_VALUE, l.encoder);
      if r == AssertionFailed {
        running := false;
        return;
      }
      if r == Success {
        encoderX, encoderY := DecodeInt32(bytes[..4]), DecodeInt32(bytes[4..8]);
      }
    }

    /** The case REPLY_ERROR_REPORT */
    method HandleErrorReport(message: Message, l: Locals)
      requires Valid() && message.Valid() && l.Valid() && running
      modifies this
      ensures Valid() && View() == ErrorReported(old(View()), message.Contents(), l)
    {
      var r, bytes := GetStruct(message, TLV_ERROR_REPORT, l.error);
      if r == AssertionFailed {
        running := false;
        return;
      }
      if r == Success {
        BigEndianInverse(bytes);
        assert Pow256(4) == 0x1_0000_0000;
        errorCode := FromBigEndian(bytes);
      }
    }
  }

  /** What three or two additions leave is the message the model speaks of. */
  lemma SentMessage(run: seq<Addition>)
    requires |run| == 3 && run[0].Valid() && run[1].Valid() && run[2].Valid()
    ensures var c := Append([], TlvOf([], run[0]));
      var q := Append(c, TlvOf(c, run[1]));
      Append(q, TlvOf(q, run[2])) == Build([], run)
  {
    var c := Append([], TlvOf([], run[0]));
    assert run == [run[0], run[1], run[2]];
    BuildThree([], run[0], run[1], run[2], c, Append(c, TlvOf(c, run[1])));
  }

  lemma SentPlain(command: byte)
    ensures var c := Append([], TlvOf([], Command(command)));
      Append(c, TlvOf(c, ChecksumSoFar)) == MessageOf(Plain(command))
  {
    BuildTwo([], Command(command), ChecksumSoFar, Append([], TlvOf([], Command(command))));
  }
}
