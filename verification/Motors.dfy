/** The motor unit as koruza.c sees it: reports, reconnects and restarts, and the position that survives them. */
module Motors {
  import opened Bytes
  import opened Options
  import opened Wire
  import opened Builder

  const COMMAND_GET_STATUS: byte := 1
  const COMMAND_MOVE_MOTOR: byte := 2
  const COMMAND_REBOOT: byte := 4
  const COMMAND_FIRMWARE_UPGRADE: byte := 5
  const COMMAND_HOMING: byte := 6
  const COMMAND_RESTORE_MOTOR: byte := 7
  const REPLY_STATUS_REPORT: byte := 1
  const REPLY_ERROR_REPORT: byte := 2
  const DEFAULT_RANGE: int32 := 25000

  /** The motor section of the UCI configuration; every commit succeeds. */
  datatype Config = Config(rangeX: Option<int32>, rangeY: Option<int32>, lastX: Option<int32>, lastY: Option<int32>)

  /** What is sent to the motor unit; `MessageOf` is how. */
  datatype Order =
    | Positioned(command: byte, position: Position)  // MOVE_MOTOR and RESTORE_MOTOR
    | Plain(command: byte)                           // HOMING, REBOOT and FIRMWARE_UPGRADE
    | StatusRequest(power: uint16)

  function CommandOf(o: Order): byte {
    if o.StatusRequest? then COMMAND_GET_STATUS else o.command
  }

  /** The typed additions a message is made with. */
  function AdditionsOf(o: Order): (run: seq<Addition>)
    ensures forall a :: a in run ==> a.Valid()
  {
    match o
    case Positioned(command, p) => [Command(command), MotorPosition(p.x, p.y, p.z), ChecksumSoFar]
    case Plain(command) => [Command(command), ChecksumSoFar]
    case StatusRequest(power) => [Command(COMMAND_GET_STATUS), PowerReading(power), ChecksumSoFar]
  }

  ghost function MessageOf(o: Order): seq<Tlv> {
    Build([], AdditionsOf(o))
  }

  function SizeOf(o: Order): nat {
    match o
    case Positioned(_, _) => 26
    case Plain(_) => 11
    case StatusRequest(_) => 16
  }

  /** What the motor unit finds in a message from the driver: the command, no reply, and the power reading. */
  lemma OrderReadsBack(o: Order)
    ensures |Serialize(MessageOf(o))| == SizeOf(o)
    ensures First(MessageOf(o), TLV_COMMAND) == Some([CommandOf(o)]) && First(MessageOf(o), TLV_REPLY) == None
    ensures o.Positioned? ==> CarriesPosition(MessageOf(o), Some(o.position))
    ensures o.StatusRequest? ==>
      && First(MessageOf(o), TLV_POWER_READING) == Some(ToBigEndian(o.power, 2))
      && FromBigEndian(ToBigEndian(o.power, 2)) == o.power
  {
    match o
    case Positioned(command, p) =>
      var v := EncodeInt32s([p.x, p.y, p.z]);
      PayloadReadsBack(command, MotorPosition(p.x, p.y, p.z), RawTlv(TLV_MOTOR_POSITION, v));
    case Plain(command) => BareReadsBack(command);
    case StatusRequest(power) =>
      PayloadReadsBack(COMMAND_GET_STATUS, PowerReading(power), RawTlv(TLV_POWER_READING, ToBigEndian(power, 2)));
      Uint16RoundTrip(power);
  }

  /** The motor part of the global `status`, the configuration, and what was sent since the last start. */
  datatype Unit = Unit(
    running: bool,
    connected: bool,
    position: Position,
    rangeX: int32,
    rangeY: int32,
    encoderX: int32,
    encoderY: int32,
    errorCode: uint32,
    config: Config,
    sent: seq<Order>
  )

  /** What local variables hold before `message_tlv_get` fills them. */
  datatype Locals = Locals(reply: byte, command: byte, position: seq<byte>, encoder: seq<byte>, error: seq<byte>) {
    predicate Valid() {
      |position| == 12 && |encoder| == 8 && |error| == 4
    }
  }

  // ---- Starting ----

  function LoadRange(range: Option<int32>): (r: int32)
    ensures r > 0
    ensures range.Some? && range.value > 0 ==> r == range.value
    ensures range.None? || range.value <= 0 ==> r == 25000
  {
    match range
    case None => DEFAULT_RANGE
    case Some(n) => if n <= 0 then DEFAULT_RANGE else n
  }

  predicate Within(n: int, range: int) {
    -range <= n <= range
  }

  function LoadCoordinate(last: Option<int32>, range: int32): (r: int32)
    requires range > 0
    ensures -range <= r <= range
    ensures last.Some? && -range <= last.value <= range ==> r == last.value
    ensures last.None? || last.value < -range || last.value > range ==> r == 0
  {
    match last
    case None => 0
    case Some(n) => if Within(n, range) then n else 0
  }

  function LoadX(c: Config): int32 { LoadCoordinate(c.lastX, LoadRange(c.rangeX)) }

  function LoadY(c: Config): int32 { LoadCoordinate(c.lastY, LoadRange(c.rangeY)) }

  /** In the range that is configured, or in the default one if none is or it is not positive. */
  predicate WithinConfigured(n: int32, range: Option<int32>) {
    if range.Some? && range.value > 0 then -range.value <= n <= range.value else -25000 <= n <= 25000
  }

  /** The position a start loads: each coordinate as it is stored if in its configured range, and 0 otherwise. */
  lemma LoadedPosition(c: Config)
    ensures LoadX(c) == if c.lastX.Some? && WithinConfigured(c.lastX.value, c.rangeX) then c.lastX.value else 0
    ensures LoadY(c) == if c.lastY.Some? && WithinConfigured(c.lastY.value, c.rangeY) then c.lastY.value else 0
  {
  }

  /** `koruza_init` after its memset */
  function Boot(c: Config): Unit {
    Unit(true, false, Position(LoadX(c), LoadY(c), 0), LoadRange(c.rangeX), LoadRange(c.rangeY), 0, 0, 0, c, [])
  }

  // ---- Operations ----

  function Sending(u: Unit, o: Order): Unit {
    u.(sent := u.sent + [o])
  }

  /** `koruza_restore_motor` */
  function Restore(u: Unit): Unit {
    Sending(u, Positioned(COMMAND_RESTORE_MOTOR, u.position))
  }

  /** `koruza_move_motor` */
  function Move(u: Unit, p: Position): Unit {
    if u.connected then Sending(u, Positioned(COMMAND_MOVE_MOTOR, p)) else u
  }

  /** `koruza_homing` */
  function Home(u: Unit): Unit {
    if u.connected then Sending(u, Plain(COMMAND_HOMING)) else u
  }

  /** The request of `koruza_update_status`; a unit that cannot be reached counts as disconnected. */
  function Poll(u: Unit, power: uint16, reached: bool): Unit {
    Sending(u, StatusRequest(power)).(connected := u.connected && reached)
  }

  predicate InRange(u: Unit, p: Position) {
    Within(p.x, u.rangeX) && Within(p.y, u.rangeY)
  }

  /** A reported position is kept, and saved when it is in range. */
  function Report(u: Unit, p: Position): Unit {
    if InRange(u, p) then u.(position := p, config := u.config.(lastX := Some(p.x), lastY := Some(p.y)))
    else u.(position := p)
  }

  /** A local variable of one octet: 0 unless the message has such a TLV. */
  function Octet(m: seq<Tlv>, typ: byte, local: byte): (byte, bool) {
    var (code, bytes) := Get(m, typ, [local]);
    if code == Success then (bytes[0], true) else (0, code != AssertionFailed)
  }

  /** The branch for REPLY_STATUS_REPORT; an assertion that fails ends the process where it stands. */
  function StatusReport(u: Unit, m: seq<Tlv>, l: Locals): Unit
    requires l.Valid()
  {
    var u1 := if u.connected then u else Restore(u.(connected := true));
    var (code, bytes) := Get(m, TLV_MOTOR_POSITION, l.position);
    if code == AssertionFailed then u1.(running := false)
    else
      var u2 := if code == Success then Report(u1, DecodePosition(bytes)) else u1;
      EncoderReport(u2, m, l)
  }

  function EncoderReport(u: Unit, m: seq<Tlv>, l: Locals): Unit
    requires l.Valid()
  {
    var (code, bytes) := Get(m, TLV_ENCODER_VALUE, l.encoder);
    if code == AssertionFailed then u.(running := false)
    else if code == Success then u.(encoderX := DecodeInt32(bytes[..4]), encoderY := DecodeInt32(bytes[4..8]))
    else u
  }

  /** The branch for REPLY_ERROR_REPORT */
  function ErrorReported(u: Unit, m: seq<Tlv>, l: Locals): Unit
    requires l.Valid()
  {
    var (code, bytes) := Get(m, TLV_ERROR_REPORT, l.error);
    if code == AssertionFailed then u.(running := false)
    else if code == Success then
      BigEndianInverse(bytes);
      assert Pow256(4) == 0x1_0000_0000;
      u.(errorCode := FromBigEndian(bytes))
    else u
  }

  /** `koruza_serial_motors_message_handler` */
  function Handle(u: Unit, m: seq<Tlv>, l: Locals): Unit
    requires l.Valid()
  {
    var (reply, replyRead) := Octet(m, TLV_REPLY, l.reply);
    var (command, commandRead) := Octet(m, TLV_COMMAND, l.command);
    if !replyRead || !commandRead then u.(running := false)
    else if reply == 0 && command == 0 then u
    else
      var u1 :=
        if reply == REPLY_STATUS_REPORT then StatusReport(u, m, l)
        else if reply == REPLY_ERROR_REPORT then ErrorReported(u, m, l)
        else u;
      if u1.running && command == COMMAND_RESTORE_MOTOR then Restore(u1) else u1
  }

  predicate SameRanges(u: Unit, u': Unit) {
    u'.rangeX == u.rangeX && u'.rangeY == u.rangeY
  }

  // ---- What a message does ----

  /** The first TLV of a type, if there is one, is no longer than a getter's variable. */
  predicate ReadsWithin(m: seq<Tlv>, typ: byte, size: nat) {
    match First(m, typ)
    case None => true
    case Some(value) => |value| <= size
  }

  /** The octet the handler's local variable holds: 0 without such a TLV, and left as it was by an empty one. */
  predicate Reads(m: seq<Tlv>, typ: byte, local: byte, b: byte) {
    match First(m, typ)
    case None => b == 0
    case Some(value) => value == [b] || (value == [] && b == local)
  }

  lemma OctetReads(m: seq<Tlv>, typ: byte, local: byte, b: byte)
    ensures Octet(m, typ, local) == (b, true) <==> Reads(m, typ, local, b)
    ensures Octet(m, typ, local).1 <==> ReadsWithin(m, typ, 1)
  {
    match First(m, typ)
    case None =>
    case Some(value) =>
      if |value| == 1 {
        assert value + [local][1..] == value == [value[0]];
      } else if value == [] {
        assert value + [local][0..] == [local];
      }
  }

  /**
   * Exactly when a message does not end the process by the assertion in `message_tlv_get`. The reply 1 is a
   * status report and 2 an error report.
   */
  lemma SurvivesMessage(u: Unit, m: seq<Tlv>, l: Locals)
    requires l.Valid() && u.running
    ensures Handle(u, m, l).running <==>
      && ReadsWithin(m, TLV_REPLY, 1) && ReadsWithin(m, TLV_COMMAND, 1)
      && (Reads(m, TLV_REPLY, l.reply, 1) ==>
            ReadsWithin(m, TLV_MOTOR_POSITION, 12) && ReadsWithin(m, TLV_ENCODER_VALUE, 8))
      && (Reads(m, TLV_REPLY, l.reply, 2) ==> ReadsWithin(m, TLV_ERROR_REPORT, 4))
  {
    OctetReads(m, TLV_REPLY, l.reply, REPLY_STATUS_REPORT);
    OctetReads(m, TLV_REPLY, l.reply, REPLY_ERROR_REPORT);
    OctetReads(m, TLV_COMMAND, l.command, 0);
  }

  /** What a message says it is: a reply of a kind, and a command. */
  predicate Asks(m: seq<Tlv>, l: Locals, reply: byte, command: byte) {
    Reads(m, TLV_REPLY, l.reply, reply) && Reads(m, TLV_COMMAND, l.command, command)
  }

  lemma AskedIsRead(m: seq<Tlv>, l: Locals, reply: byte, command: byte)
    requires Asks(m, l, reply, command)
    ensures Octet(m, TLV_REPLY, l.reply) == (reply, true) && Octet(m, TLV_COMMAND, l.command) == (command, true)
  {
    OctetReads(m, TLV_REPLY, l.reply, reply);
    OctetReads(m, TLV_COMMAND, l.command, command);
  }

  lemma WholeValue(v: seq<byte>, local: seq<byte>)
    requires |v| == |local|
    ensures v + local[|v|..] == v
  {
  }

  function Otherwise<T>(o: Option<T>, t: T): T {
    match o
    case None => t
    case Some(value) => value
  }

  /** The position a message was built with, if any. */
  predicate CarriesPosition(m: seq<Tlv>, p: Option<Position>) {
    First(m, TLV_MOTOR_POSITION) == match p
                                    case None => None
                                    case Some(q) => Some(EncodeInt32s([q.x, q.y, q.z]))
  }

  predicate CarriesEncoder(m: seq<Tlv>, e: Option<(int32, int32)>) {
    First(m, TLV_ENCODER_VALUE) == match e
                                   case None => None
                                   case Some((x, y)) => Some(EncodeInt32s([x, y]))
  }

  predicate CarriesError(m: seq<Tlv>, code: Option<uint32>) {
    First(m, TLV_ERROR_REPORT) == match code
                                  case None => None
                                  case Some(n) => Some(ToBigEndian(n, 4))
  }

  function RestoreIf(restore: bool, p: Position): seq<Order> {
    if restore then [Positioned(COMMAND_RESTORE_MOTOR, p)] else []
  }

  /** What a getter reads from a message that carries a position, encoder values or an error code. */
  lemma PositionRead(m: seq<Tlv>, p: Position, local: seq<byte>)
    requires |local| == 12 && CarriesPosition(m, Some(p))
    ensures var (code, bytes) := Get(m, TLV_MOTOR_POSITION, local);
      code == Success && |bytes| == 12 && DecodePosition(bytes) == p
  {
    PositionRoundTrip(p.x, p.y, p.z);
    WholeValue(EncodeInt32s([p.x, p.y, p.z]), local);
  }

  lemma EncoderRead(m: seq<Tlv>, x: int32, y: int32, local: seq<byte>)
    requires |local| == 8 && CarriesEncoder(m, Some((x, y)))
    ensures var (code, bytes) := Get(m, TLV_ENCODER_VALUE, local);
      code == Success && |bytes| == 8 && DecodeInt32(bytes[..4]) == x && DecodeInt32(bytes[4..8]) == y
  {
    EncoderReadsBack(x, y, EncodeInt32s([x, y]));
    WholeValue(EncodeInt32s([x, y]), local);
  }

  lemma ErrorRead(m: seq<Tlv>, n: uint32, local: seq<byte>)
    requires |local| == 4 && CarriesError(m, Some(n))
    ensures var (code, bytes) := Get(m, TLV_ERROR_REPORT, local);
      code == Success && FromBigEndian(bytes) == n
  {
    assert Pow256(4) == 0x1_0000_0000;
    BigEndianRoundTrip(n, 4);
    WholeValue(ToBigEndian(n, 4), local);
  }

  /** A variable of which a value too short fills the beginning only. */
  function Filled(value: seq<byte>, local: seq<byte>): (s: seq<byte>)
    requires |value| <= |local|
    ensures |s| == |local|
  {
    value + local[|value|..]
  }

  /** A message without a reply, or with one of another kind, does nothing but a restore it asks for. */
  lemma OtherMessageTakesEffect(u: Unit, m: seq<Tlv>, l: Locals, reply: byte, command: byte)
    requires l.Valid() && u.running && Asks(m, l, reply, command)
    requires reply != 1 && reply != 2
    ensures Handle(u, m, l) == u.(sent := u.sent + RestoreIf(command == COMMAND_RESTORE_MOTOR, u.position))
  {
    AskedIsRead(m, l, reply, command);
    assert u.sent + [] == u.sent;
  }

  /** The encoder values after a status report whose first such TLV, if any, is `encoder`. */
  lemma EncoderReportReads(u: Unit, m: seq<Tlv>, l: Locals, encoder: Option<seq<byte>>)
    requires l.Valid() && First(m, TLV_ENCODER_VALUE) == encoder && (encoder.Some? ==> |encoder.value| <= 8)
    ensures EncoderReport(u, m, l) ==
      match encoder
      case None => u
      case Some(v) =>
        var s := Filled(v, l.encoder);
        u.(encoderX := DecodeInt32(s[..4]), encoderY := DecodeInt32(s[4..8]))
  {
  }

  /**
   * A status report, whatever it carries: a unit that was away is first told the position from before the
   * report; a position is taken over, and saved exactly when it is in range; encoder values are taken over;
   * and a restore it asks for carries the position known by then.
   */
  lemma StatusReportReads(u: Unit, m: seq<Tlv>, l: Locals, command: byte, position: Option<seq<byte>>)
    requires l.Valid() && u.running && Asks(m, l, 1, command)
    requires First(m, TLV_MOTOR_POSITION) == position && (position.Some? ==> |position.value| <= 12)
    requires ReadsWithin(m, TLV_ENCODER_VALUE, 8)
    ensures var p := match position case None => u.position case Some(v) => DecodePosition(Filled(v, l.position));
      var inRange := -(u.rangeX as int) <= p.x <= u.rangeX && -(u.rangeY as int) <= p.y <= u.rangeY;
      var known := u.(
        connected := true,
        position := p,
        config := if position.Some? && inRange then u.config.(lastX := Some(p.x), lastY := Some(p.y)) else u.config,
        sent := u.sent + RestoreIf(!u.connected, u.position));
      var u' := EncoderReport(known, m, l);
      Handle(u, m, l) == u'.(sent := u'.sent + RestoreIf(command == COMMAND_RESTORE_MOTOR, p))
  {
    AskedIsRead(m, l, REPLY_STATUS_REPORT, command);
    var u1 := if u.connected then u else Restore(u.(connected := true));
    assert u.sent + [] == u.sent;
    assert u1 == u.(connected := true, sent := u.sent + RestoreIf(!u.connected, u.position));
    assert forall s: seq<Order> :: s + [] == s;
  }

  /** The same of a report that was built with a position or encoder values, or without. */
  lemma StatusReportTakesEffect(u: Unit, m: seq<Tlv>, l: Locals, p: Option<Position>, e: Option<(int32, int32)>,
                                command: byte)
    requires l.Valid() && u.running && Asks(m, l, 1, command)
    requires CarriesPosition(m, p) && CarriesEncoder(m, e)
    ensures var u' := Handle(u, m, l);
      && u'.running && u'.connected && u'.errorCode == u.errorCode && SameRanges(u, u')
      && u'.position == Otherwise(p, u.position)
      && (u'.encoderX, u'.encoderY) == Otherwise(e, (u.encoderX, u.encoderY))
      && u'.sent == u.sent + RestoreIf(!u.connected, u.position)
                  + RestoreIf(command == COMMAND_RESTORE_MOTOR, Otherwise(p, u.position))
  {
    if p.Some? {
      PositionRead(m, p.value, l.position);
    }
    if e.Some? {
      EncoderRead(m, e.value.0, e.value.1, l.encoder);
    }
    StatusReportReads(u, m, l, command, First(m, TLV_MOTOR_POSITION));
    EncoderReportReads(u, m, l, First(m, TLV_ENCODER_VALUE));
  }

  /** An error report sets the error code it carries, if any, and does nothing but a restore it asks for. */
  lemma ErrorReportReads(u: Unit, m: seq<Tlv>, l: Locals, command: byte, code: Option<seq<byte>>)
    requires l.Valid() && u.running && Asks(m, l, 2, command)
    requires First(m, TLV_ERROR_REPORT) == code && (code.Some? ==> |code.value| <= 4)
    ensures var u' := Handle(u, m, l);
      && u' == u.(errorCode := u'.errorCode, sent := u.sent + RestoreIf(command == COMMAND_RESTORE_MOTOR, u.position))
      && u'.errorCode == match code case None => u.errorCode case Some(v) => FromBigEndian(Filled(v, l.error))
  {
    AskedIsRead(m, l, REPLY_ERROR_REPORT, command);
    assert u.sent + [] == u.sent;
  }

  lemma ErrorReportTakesEffect(u: Unit, m: seq<Tlv>, l: Locals, code: Option<uint32>, command: byte)
    requires l.Valid() && u.running && Asks(m, l, 2, command) && CarriesError(m, code)
    ensures Handle(u, m, l) ==
      u.(errorCode := Otherwise(code, u.errorCode),
         sent := u.sent + RestoreIf(command == COMMAND_RESTORE_MOTOR, u.position))
  {
    if code.Some? {
      ErrorRead(m, code.value, l.error);
    }
    ErrorReportReads(u, m, l, command, First(m, TLV_ERROR_REPORT));
  }

  // ---- Runs ----

  datatype Event =
    | Arrived(m: seq<Tlv>, locals: Locals)  // a message from the motor unit
    | Silent                                // the reply timer expired
    | Polled(power: uint16, reached: bool)  // the status timer expired, or the start-up is complete
    | HomingRequested
    | RebootRequested
    | UpgradeRequested
    | MoveRequested(p: Position)
    | Restart                               // at any time, also after an abort
  {
    predicate Valid() {
      Arrived? ==> locals.Valid()
    }
  }

  function Step(u: Unit, e: Event): Unit
    requires e.Valid()
  {
    match e
    case Restart => Boot(u.config)
    case Arrived(m, l) => if u.running then Handle(u, m, l) else u
    case Silent => if u.running then u.(connected := false) else u
    case MoveRequested(p) => if u.running then Move(u, p) else u
    case Polled(power, reached) => if u.running then Poll(u, power, reached) else u
    case HomingRequested => if u.running then Home(u) else u
    case RebootRequested => if u.running then Sending(u, Plain(COMMAND_REBOOT)) else u
    case UpgradeRequested => if u.running then Sending(u, Plain(COMMAND_FIRMWARE_UPGRADE)) else u
  }

  function Run(u: Unit, es: seq<Event>): Unit
    requires forall e :: e in es ==> e.Valid()
  {
    if es == [] then u else Step(Run(u, es[..|es| - 1]), es[|es| - 1])
  }

  /** The position a status report brings to a process that is running, if it is in range. */
  function Reported(u: Unit, e: Event): Option<(int32, int32)>
    requires e.Valid()
  {
    if !u.running || !e.Arrived? then None
    else
      match First(e.m, TLV_MOTOR_POSITION)
      case None => None
      case Some(v) =>
        if && Reads(e.m, TLV_REPLY, e.locals.reply, 1) && ReadsWithin(e.m, TLV_COMMAND, 1)
           && |v| <= 12
        then
          var p := DecodePosition(Filled(v, e.locals.position));
          if && -(u.rangeX as int) <= p.x <= u.rangeX && -(u.rangeY as int) <= p.y <= u.rangeY then Some((p.x, p.y))
          else None
        else None
  }

  /** The last position reported in range during a run from a start on `c`, or what was loaded. */
  function Expected(c: Config, es: seq<Event>): (int32, int32)
    requires forall e :: e in es ==> e.Valid()
  {
    if es == [] then (LoadX(c), LoadY(c))
    else
      var front, e := es[..|es| - 1], es[|es| - 1];
      match Reported(Run(Boot(c), front), e)
      case Some(p) => p
      case None => Expected(c, front)
  }

  lemma StatusReportConfig(u: Unit, m: seq<Tlv>, l: Locals)
    requires l.Valid()
    ensures var u' := StatusReport(u, m, l);
      var (code, bytes) := Get(m, TLV_MOTOR_POSITION, l.position);
      && SameRanges(u, u')
      && u'.config == if code == Success && InRange(u, DecodePosition(bytes))
                      then u.config.(lastX := Some(DecodePosition(bytes).x), lastY := Some(DecodePosition(bytes).y))
                      else u.config
  {
  }

  lemma ErrorReportedConfig(u: Unit, m: seq<Tlv>, l: Locals)
    requires l.Valid()
    ensures SameRanges(u, ErrorReported(u, m, l)) && ErrorReported(u, m, l).config == u.config
  {
  }

  /** The configuration after an event: the ranges stay, and the position is saved as a pair or not at all. */
  lemma ConfigAfter(u: Unit, e: Event)
    requires e.Valid()
    ensures var u' := Step(u, e);
      && u'.config == (match Reported(u, e)
                       case Some((x, y)) => u.config.(lastX := Some(x), lastY := Some(y))
                       case None => u.config)
      && (!e.Restart? ==> SameRanges(u, u'))
  {
    if e.Arrived? {
      OctetReads(e.m, TLV_REPLY, e.locals.reply, REPLY_STATUS_REPORT);
      OctetReads(e.m, TLV_COMMAND, e.locals.command, 0);
      StatusReportConfig(u, e.m, e.locals);
      ErrorReportedConfig(u, e.m, e.locals);
    }
  }

  /** What is saved is in the ranges that are configured. */
  predicate SavedInRange(c: Config) {
    && c.lastX.Some? && WithinConfigured(c.lastX.value, c.rangeX)
    && c.lastY.Some? && WithinConfigured(c.lastY.value, c.rangeY)
  }

  predicate Keeps(u: Unit, c: Config, expected: (int32, int32)) {
    && u.rangeX == LoadRange(c.rangeX) && u.rangeY == LoadRange(c.rangeY)
    && u.config.rangeX == c.rangeX && u.config.rangeY == c.rangeY
    && (u.config == c || SavedInRange(u.config))
    && (LoadX(u.config), LoadY(u.config)) == expected
  }

  lemma StepKeeps(u: Unit, c: Config, expected: (int32, int32), e: Event)
    requires e.Valid() && Keeps(u, c, expected)
    ensures Keeps(Step(u, e), c, match Reported(u, e) case Some(p) => p case None => expected)
  {
    ConfigAfter(u, e);
  }

  /** Over every run: what is saved is in range (or untouched), and a restart would load what is expected. */
  lemma {:induction false} PositionSurvives(c: Config, es: seq<Event>)
    requires forall e :: e in es ==> e.Valid()
    ensures Keeps(Run(Boot(c), es), c, Expected(c, es))
  {
    if es != [] {
      PositionSurvives(c, es[..|es| - 1]);
      StepKeeps(Run(Boot(c), es[..|es| - 1]), c, Expected(c, es[..|es| - 1]), es[|es| - 1]);
    }
  }

  /** What the timers and the callers of the driver do to a process that is running, event by event. */
  lemma EventTakesEffect(u: Unit, e: Event)
    requires e.Valid() && u.running && !e.Arrived?
    ensures match e
      case Silent => Step(u, e) == u.(connected := false)
      case Polled(power, reached) =>
        Step(u, e) == u.(connected := u.connected && reached, sent := u.sent + [StatusRequest(power)])
      case MoveRequested(p) =>
        Step(u, e) == if u.connected then u.(sent := u.sent + [Positioned(COMMAND_MOVE_MOTOR, p)]) else u
      case HomingRequested => Step(u, e) == if u.connected then u.(sent := u.sent + [Plain(COMMAND_HOMING)]) else u
      case RebootRequested => Step(u, e) == u.(sent := u.sent + [Plain(COMMAND_REBOOT)])
      case UpgradeRequested => Step(u, e) == u.(sent := u.sent + [Plain(COMMAND_FIRMWARE_UPGRADE)])
      case Restart =>
        var u' := Step(u, e);
        u'.running && !u'.connected && u'.config == u.config && u'.sent == []
      case Arrived(_, _) => true
  {
  }

  /** After an abort nothing happens until the next start. */
  lemma {:induction false} DeadUntilRestart(u: Unit, es: seq<Event>)
    requires !u.running && forall e :: e in es ==> e.Valid() && !e.Restart?
    ensures Run(u, es) == u
  {
    if es != [] {
      DeadUntilRestart(u, es[..|es| - 1]);
    }
  }

  /** A unit that falls silent is told the position known then as soon as it reports again, before anything else. */
  lemma SilenceThenReport(u: Unit, m: seq<Tlv>, l: Locals, command: byte)
    requires l.Valid() && u.running && Asks(m, l, 1, command)
    requires ReadsWithin(m, TLV_MOTOR_POSITION, 12) && ReadsWithin(m, TLV_ENCODER_VALUE, 8)
    ensures var u' := Step(Step(u, Silent), Arrived(m, l));
      u'.connected && u.sent + [Positioned(COMMAND_RESTORE_MOTOR, u.position)] <= u'.sent
  {
    var u1 := u.(connected := false);
    StatusReportReads(u1, m, l, command, First(m, TLV_MOTOR_POSITION));
    EncoderReportReads(u1, m, l, First(m, TLV_ENCODER_VALUE));
  }

  /** Status requests, reboots and upgrades say nothing about where the motors are. */
  predicate Unplaced(o: Order) {
    o.StatusRequest? || o == Plain(COMMAND_REBOOT) || o == Plain(COMMAND_FIRMWARE_UPGRADE)
  }

  /** The first order that moves the motors or tells them where they are. */
  function FirstPlaced(sent: seq<Order>): Option<Order> {
    if sent == [] then None
    else
      match FirstPlaced(sent[..|sent| - 1])
      case Some(o) => Some(o)
      case None => if Unplaced(sent[|sent| - 1]) then None else Some(sent[|sent| - 1])
  }

  lemma FirstPlacedSnoc(sent: seq<Order>, o: Order)
    ensures FirstPlaced(sent + [o]) ==
      if FirstPlaced(sent).Some? then FirstPlaced(sent) else if Unplaced(o) then None else Some(o)
  {
    assert (sent + [o])[..|sent|] == sent;
  }

  ghost predicate FirstPlacedAt(sent: seq<Order>, k: nat) {
    k < |sent| && !Unplaced(sent[k]) && forall j :: 0 <= j < k ==> Unplaced(sent[j])
  }

  /** It is an order sent, and only status requests, reboots and upgrades were sent before it. */
  lemma {:induction false} FirstPlacedMeans(sent: seq<Order>)
    ensures match FirstPlaced(sent)
      case None => forall j :: 0 <= j < |sent| ==> Unplaced(sent[j])
      case Some(o) => exists k: nat :: FirstPlacedAt(sent, k) && sent[k] == o
  {
    if sent != [] {
      var front := sent[..|sent| - 1];
      FirstPlacedMeans(front);
      if FirstPlaced(front).Some? {
        var k: nat :| FirstPlacedAt(front, k) && front[k] == FirstPlaced(front).value;
        assert FirstPlacedAt(sent, k);
      } else if FirstPlaced(sent).Some? {
        assert FirstPlacedAt(sent, |front|);
      }
    }
  }

  /** Before the first restore the unit is not connected and the position is `p`, the one it is to be told. */
  predicate Told(sent: seq<Order>, connected: bool, position: Position, p: Position) {
    match FirstPlaced(sent)
    case None => !connected && position == p
    case Some(o) => o == Positioned(COMMAND_RESTORE_MOTOR, p)
  }

  /** The same of what was sent after the orders `pre`. */
  predicate ToldSince(u: Unit, pre: seq<Order>, p: Position) {
    pre <= u.sent && Told(u.sent[|pre|..], u.connected, u.position, p)
  }

  lemma SinceSnoc(sent: seq<Order>, pre: seq<Order>, o: Order)
    requires pre <= sent
    ensures pre <= sent + [o] && (sent + [o])[|pre|..] == sent[|pre|..] + [o]
  {
  }

  lemma RestoreTold(sent: seq<Order>, connected: bool, position: Position, p: Position, o: Order)
    requires Told(sent, connected, position, p) && o == Positioned(COMMAND_RESTORE_MOTOR, position)
    ensures FirstPlaced(sent + [o]) == Some(Positioned(COMMAND_RESTORE_MOTOR, p))
  {
    FirstPlacedSnoc(sent, o);
  }

  lemma ToldByRestore(u: Unit, pre: seq<Order>, p: Position, connected: bool)
    requires ToldSince(u, pre, p)
    ensures ToldSince(Restore(u.(connected := connected)), pre, p)
  {
    var o := Positioned(COMMAND_RESTORE_MOTOR, u.position);
    SinceSnoc(u.sent, pre, o);
    RestoreTold(u.sent[|pre|..], u.connected, u.position, p, o);
  }

  lemma ToldByOther(u: Unit, pre: seq<Order>, p: Position, o: Order, connected: bool)
    requires ToldSince(u, pre, p) && (u.connected || Unplaced(o)) && (connected ==> u.connected)
    ensures ToldSince(Sending(u, o).(connected := connected), pre, p)
  {
    SinceSnoc(u.sent, pre, o);
    FirstPlacedSnoc(u.sent[|pre|..], o);
  }

  lemma ReportTells(u: Unit, pre: seq<Order>, p: Position, m: seq<Tlv>, l: Locals)
    requires l.Valid() && ToldSince(u, pre, p)
    ensures ToldSince(StatusReport(u, m, l), pre, p)
  {
    ToldByRestore(u, pre, p, true);
  }

  lemma MessageTells(u: Unit, pre: seq<Order>, p: Position, m: seq<Tlv>, l: Locals)
    requires l.Valid() && ToldSince(u, pre, p)
    ensures ToldSince(Handle(u, m, l), pre, p)
  {
    var reply := Octet(m, TLV_REPLY, l.reply).0;
    if reply == REPLY_STATUS_REPORT {
      ReportTells(u, pre, p, m, l);
      ToldByRestore(StatusReport(u, m, l), pre, p, StatusReport(u, m, l).connected);
    } else if reply == REPLY_ERROR_REPORT {
      ToldByRestore(ErrorReported(u, m, l), pre, p, u.connected);
    } else {
      ToldByRestore(u, pre, p, u.connected);
    }
  }

  lemma StepTells(u: Unit, pre: seq<Order>, p: Position, e: Event)
    requires e.Valid() && !e.Restart? && ToldSince(u, pre, p)
    ensures ToldSince(Step(u, e), pre, p)
  {
    match e
    case Arrived(m, l) => MessageTells(u, pre, p, m, l);
    case Silent =>
    case MoveRequested(q) => if u.connected { ToldByOther(u, pre, p, Positioned(COMMAND_MOVE_MOTOR, q), true); }
    case Polled(power, reached) => ToldByOther(u, pre, p, StatusRequest(power), u.connected && reached);
    case HomingRequested => if u.connected { ToldByOther(u, pre, p, Plain(COMMAND_HOMING), true); }
    case RebootRequested => ToldByOther(u, pre, p, Plain(COMMAND_REBOOT), u.connected);
    case UpgradeRequested => ToldByOther(u, pre, p, Plain(COMMAND_FIRMWARE_UPGRADE), u.connected);
  }

  /**
   * Whenever the unit is away, only status requests, reboots and upgrades are sent before it is told
   * the position known then, and it does not count as connected before.
   */
  lemma {:induction false} ReconnectRestores(u: Unit, es: seq<Event>)
    requires !u.connected && forall e :: e in es ==> e.Valid() && !e.Restart?
    ensures ToldSince(Run(u, es), u.sent, u.position)
  {
    if es == [] {
      assert u.sent[|u.sent|..] == [];
    } else {
      ReconnectRestores(u, es[..|es| - 1]);
      StepTells(Run(u, es[..|es| - 1]), u.sent, u.position, es[|es| - 1]);
    }
  }

  /** In particular after a start. */
  lemma FirstMessageRestores(c: Config, es: seq<Event>)
    requires forall e :: e in es ==> e.Valid() && !e.Restart?
    ensures var u := Run(Boot(c), es);
      Told(u.sent, u.connected, u.position, Position(LoadX(c), LoadY(c), 0))
  {
    ReconnectRestores(Boot(c), es);
    assert Run(Boot(c), es).sent[0..] == Run(Boot(c), es).sent;
  }

  /**
   * Whatever happened before a restart, the first order after it that concerns the motors' position
   * restores the last position that was reported in range, or the one loaded initially.
   */
  lemma RestartRestoresPosition(c: Config, before: seq<Event>, after: seq<Event>)
    requires forall e :: e in before ==> e.Valid()
    requires forall e :: e in after ==> e.Valid() && !e.Restart?
    ensures var (x, y) := Expected(c, before);
      var u := Run(Step(Run(Boot(c), before), Restart), after);
      match FirstPlaced(u.sent)
      case None => !u.connected
      case Some(o) => o == Positioned(COMMAND_RESTORE_MOTOR, Position(x, y, 0))
  {
    PositionSurvives(c, before);
    var saved := Run(Boot(c), before).config;
    assert Step(Run(Boot(c), before), Restart) == Boot(saved);
    FirstMessageRestores(saved, after);
  }
}
