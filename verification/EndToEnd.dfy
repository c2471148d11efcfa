/** From the driver's command to what the motor unit's handler reads. */
module EndToEnd {
  import opened Bytes
  import opened Options
  import opened Wire
  import opened Builder
  import opened Framing
  import FrameWriter
  import opened FrameParser
  import opened Message
  import opened Motors
  import MotorDriver

  /** The static buffer of `serial_send_message` */
  const SEND_BUFFER := FRAME_MAX_LENGTH

  /** Every message the driver sends to the motor unit fits the send buffer, and exactly its frame is written. */
  lemma OrderFitsBuffer(o: Order)
    ensures var b := Serialize(MessageOf(o));
      && |b| == SizeOf(o) && |Frame(b)| <= 2 * SizeOf(o) + 2 <= 54
      && FrameWriter.Result(b, SEND_BUFFER) == |Frame(b)| == FrameWriter.Written(b, SEND_BUFFER)
  {
    OrderReadsBack(o);
    FrameWriter.AmpleRoom(Serialize(MessageOf(o)), SEND_BUFFER);
  }

  /**
   * The frame of an order, cut into reads in any way, makes an idle parser call its handler exactly
   * once, with a message from which the command and any signed coordinates read back.
   */
  lemma OrderArrives(n: nat, o: Order, r: Receiver, chunks: seq<seq<byte>>, local: byte, destination: seq<byte>)
    requires n <= 4 && Sane(r) && r.mode == WaitStart && |destination| == 12
    requires Flatten(chunks) == Frame(Serialize(MessageOf(o)))
    ensures var after := RunChunks(r, chunks);
      && after.mode == WaitStart && after.payload == []
      && Handled(n, after.completed) == Handled(n, r.completed) + [MessageOf(o)]
    ensures Octet(MessageOf(o), TLV_COMMAND, local) == (CommandOf(o), true)
    ensures o.Positioned? ==>
      var (code, bytes) := Get(MessageOf(o), TLV_MOTOR_POSITION, destination);
      code == Success && |bytes| == 12 && DecodePosition(bytes) == o.position
  {
    OrderReadsBack(o);
    OrderAccepted(n, o);
    Framing.EndToEnd(n, r, MessageOf(o), chunks);
    if o.Positioned? {
      MotorMessageReadsBack(o.command, o.position, destination);
    }
    assert [CommandOf(o)] + [local][1..] == [CommandOf(o)];
  }

  lemma OrderAccepted(n: nat, o: Order)
    requires n <= 4
    ensures Accepted(n, MessageOf(o))
  {
    BuildStaysAccepted(n, [], AdditionsOf(o));
  }

  // ---- tests/test_frame.c, for every command and every position ----

  /** What the test pushes before the frame: none of it opens a frame. */
  const NOISE: seq<byte> := [0x10, 0x20, ESCAPE, START, 0x15, END]

  lemma NoiseIgnored()
    ensures Framing.Run(IDLE, NOISE) == IDLE
  {
    assert NOISE[..6] == NOISE && NOISE[..5][..4] == NOISE[..4] && NOISE[..4][..3] == NOISE[..3];
    assert NOISE[..3][..2] == NOISE[..2] && NOISE[..2][..1] == NOISE[..1] && NOISE[..1][..0] == [];
    assert Framing.Run(IDLE, NOISE[..1]) == IDLE && Framing.Run(IDLE, NOISE[..2]) == IDLE;
    assert Framing.Run(IDLE, NOISE[..3]) == IDLE.(mode := WaitStartEscape);
    assert Framing.Run(IDLE, NOISE[..4]) == IDLE && Framing.Run(IDLE, NOISE[..5]) == IDLE;
  }

  /** The first half of the test's `main`: a message is built and framed. */
  method FrameOrder(command: byte, x: int32, y: int32, z: int32) returns (bytes: seq<byte>)
    ensures bytes == Frame(Serialize(MessageOf(Positioned(command, Position(x, y, z)))))
  {
    ghost var o := Positioned(command, Position(x, y, z));
    ghost var b := Serialize(MessageOf(o));
    OrderReadsBack(o);
    FrameWriter.AmpleRoom(b, 1024);
    var message := BuildOrder(command, x, y, z);
    var frame := new byte[1024];
    var size := FrameWriter.FrameMessage(frame, 1024, message);
    bytes := frame[..size];
  }

  /** The second half: what the handler gets of the noise, a frame that completes `b`, and one octet more. */
  method ReceiveFrame(compared: nat, frame: seq<byte>, ghost b: seq<byte>) returns (handled: seq<seq<Tlv>>)
    requires compared <= 4 && Framing.Run(IDLE, NOISE) == IDLE
    requires Framing.Run(IDLE, frame) == IDLE.(completed := [b])
    ensures handled == Handled(compared, [b])
  {
    var parser := new FrameParser(compared);
    parser.SetHandler();
    parser.PushBuffer(NOISE);
    parser.PushBuffer(frame);
    parser.PushByte(0x10);
    return parser.handled;
  }

  /** The whole test: exactly one message is handled, and it is the one that was built. */
  method FrameTest(compared: nat, command: byte, x: int32, y: int32, z: int32) returns (handled: seq<seq<Tlv>>)
    requires compared <= 4
    ensures handled == [MessageOf(Positioned(command, Position(x, y, z)))]
  {
    ghost var o := Positioned(command, Position(x, y, z));
    var frame := FrameOrder(command, x, y, z);
    OneFrameHandled(compared, o);
    handled := ReceiveFrame(compared, frame, Serialize(MessageOf(o)));
  }

  lemma OneFrameHandled(n: nat, o: Order)
    requires n <= 4
    ensures var b := Serialize(MessageOf(o));
      && Framing.Run(IDLE, NOISE) == IDLE
      && Framing.Run(IDLE, Frame(b)) == IDLE.(completed := [b])
      && Handled(n, [b]) == [MessageOf(o)]
  {
    var b := Serialize(MessageOf(o));
    NoiseIgnored();
    OrderFitsBuffer(o);
    FrameSynchronises(IDLE, b);
    assert [] + b == b;
    OrderAccepted(n, o);
    HandledOne(n, b);
    ParseExact(n, b, MessageOf(o));
  }

  method BuildOrder(command: byte, x: int32, y: int32, z: int32) returns (message: Message)
    ensures message.Valid() && fresh(message) && fresh(message.tlv)
    ensures message.Contents() == MessageOf(Positioned(command, Position(x, y, z)))
  {
    message := new Message();
    var r := message.TlvAddCommand(command);
    r := message.TlvAddMotorPosition(x, y, z);
    r := message.TlvAddChecksum();
    MotorDriver.SentMessage([Command(command), MotorPosition(x, y, z), ChecksumSoFar]);
  }
}
