/** Frames on the serial line, and what the receiving state machine makes of any stream of octets. */
module Framing {
  import opened Bytes
  import opened Wire

  const FRAME_MAX_LENGTH := 131070
  const START: byte := 0xF1
  const END: byte := 0xF2
  const ESCAPE: byte := 0xF3

  /** The most octets a frame can hold: the limit is checked before an octet is added. */
  const CAPACITY := FRAME_MAX_LENGTH + 1

  predicate IsMarker(b: byte) {
    b == START || b == END || b == ESCAPE
  }

  // ---- Sending ----

  function EscapeOctet(b: byte): seq<byte> {
    if IsMarker(b) then [ESCAPE, b] else [b]
  }

  function Escape(s: seq<byte>): seq<byte> {
    if s == [] then [] else Escape(s[..|s| - 1]) + EscapeOctet(s[|s| - 1])
  }

  function Frame(s: seq<byte>): seq<byte> {
    [START] + Escape(s) + [END]
  }

  /** A payload without markers travels as it is. */
  lemma {:induction false} PlainPayload(s: seq<byte>)
    requires forall i :: 0 <= i < |s| ==> s[i] != 0xF1 && s[i] != 0xF2 && s[i] != 0xF3
    ensures Escape(s) == s && Frame(s) == [0xF1] + s + [0xF2]
  {
    if s != [] {
      var front, last := s[..|s| - 1], s[|s| - 1];
      PlainPayload(front);
      assert !IsMarker(last) && EscapeOctet(last) == [last];
      assert s == front + [last];
    }
  }

  /** Each of the three markers travels behind an escape. */
  lemma MarkersEscaped()
    ensures Frame([0xF1, 0xF2, 0xF3]) == [0xF1, 0xF3, 0xF1, 0xF3, 0xF2, 0xF3, 0xF3, 0xF2]
  {
    var s: seq<byte> := [0xF1, 0xF2, 0xF3];
    assert s[..2][..1] == s[..1] && s[..1][..0] == [];
    assert Escape(s[..1]) == [0xF3, 0xF1] && Escape(s[..2]) == [0xF3, 0xF1, 0xF3, 0xF2];
  }

  // ---- Receiving ----

  datatype Mode = WaitStart | WaitStartEscape | InFrame | AfterEscape

  /** The parser: its mode, the octets of the frame so far, and the payloads it has completed. */
  datatype Receiver = Receiver(mode: Mode, payload: seq<byte>, completed: seq<seq<byte>>)

  const IDLE := Receiver(WaitStart, [], [])

  /** `frame_parser_add_to_frame` */
  function AddToFrame(r: Receiver, b: byte): Receiver {
    if |r.payload| > FRAME_MAX_LENGTH then r.(mode := WaitStart, payload := [])
    else r.(payload := r.payload + [b])
  }

  /** `frame_parser_push_byte` */
  function Step(r: Receiver, b: byte): Receiver {
    match r.mode
    case WaitStart => if b == ESCAPE then r.(mode := WaitStartEscape) else if b == START then r.(mode := InFrame) else r
    case WaitStartEscape => r.(mode := WaitStart)
    case InFrame =>
      if b == ESCAPE then r.(mode := AfterEscape)
      else if b == START then r.(payload := [])
      else if b == END then Receiver(WaitStart, [], r.completed + [r.payload])
      else AddToFrame(r, b)
    case AfterEscape => AddToFrame(r, b).(mode := InFrame)
  }

  /** `frame_parser_push_buffer` */
  function Run(r: Receiver, s: seq<byte>): Receiver {
    if s == [] then r else Step(Run(r, s[..|s| - 1]), s[|s| - 1])
  }

  /** What holds of the parser at all times. */
  predicate Sane(r: Receiver) {
    && |r.payload| <= CAPACITY
    && (r.mode.WaitStart? || r.mode.WaitStartEscape? ==> r.payload == [])
  }

  lemma {:induction false} RunStaysSane(r: Receiver, s: seq<byte>)
    requires Sane(r)
    ensures Sane(Run(r, s)) && r.completed <= Run(r, s).completed
  {
    if s != [] {
      RunStaysSane(r, s[..|s| - 1]);
    }
  }

  lemma {:induction false} RunConcat(r: Receiver, a: seq<byte>, b: seq<byte>)
    ensures Run(r, a + b) == Run(Run(r, a), b)
  {
    if b == [] {
      assert a + b == a;
    } else {
      assert (a + b)[..|a + b| - 1] == a + b[..|b| - 1];
      RunConcat(r, a, b[..|b| - 1]);
    }
  }

  lemma RunOne(r: Receiver, b: byte)
    ensures Run(r, [b]) == Step(r, b)
  {
    assert [b][..0] == [];
  }

  /** What a frame holds after `s` was added to `q`: past the capacity an octet is dropped with all before it. */
  function Residue(q: seq<byte>, s: seq<byte>): seq<seq<byte>>
    requires |q| <= CAPACITY
    decreases |s|
  {
    if |q| + |s| <= CAPACITY then [q + s]
    else if IsMarker(s[CAPACITY - |q|]) then Residue([], s[CAPACITY - |q| + 1..])
    else []
  }

  lemma ResidueFits(q: seq<byte>, s: seq<byte>)
    requires |q| <= CAPACITY
    ensures Residue(q, s) == [q + s] <==> |q| + |s| <= CAPACITY
    ensures |Residue(q, s)| <= 1
    ensures Residue(q, s) != [] ==> |Residue(q, s)[0]| <= CAPACITY
    decreases |s|
  {
    if |q| + |s| > CAPACITY {
      var rest := s[CAPACITY - |q| + 1..];
      ResidueFits([], rest);
      if Residue(q, s) != [] {
        ResidueShorter([], rest);
      }
    }
  }

  lemma {:induction false} ResidueShorter(q: seq<byte>, s: seq<byte>)
    requires |q| <= CAPACITY && Residue(q, s) != []
    ensures |Residue(q, s)[0]| <= |q| + |s|
    decreases |s|
  {
    if |q| + |s| > CAPACITY {
      ResidueShorter([], s[CAPACITY - |q| + 1..]);
    }
  }

  /** The residue one octet later. */
  lemma {:induction false} ResidueSnoc(q: seq<byte>, s: seq<byte>, b: byte)
    requires |q| <= CAPACITY
    ensures Residue(q, s + [b]) ==
      if Residue(q, s) == [] then []
      else if |Residue(q, s)[0]| < CAPACITY then [Residue(q, s)[0] + [b]]
      else if IsMarker(b) then [[]]
      else []
    decreases |s|
  {
    var k := CAPACITY - |q|;
    if |s| < k {
      assert q + (s + [b]) == q + s + [b];
    } else if |s| == k {
      var e: seq<byte> := [];
      assert (s + [b])[k] == b && (s + [b])[k + 1..] == e && e + e == e;
    } else {
      ResidueSnoc([], s[k + 1..], b);
      assert (s + [b])[k] == s[k] && (s + [b])[k + 1..] == s[k + 1..] + [b];
    }
  }

  function Filled(r: Receiver, residue: seq<seq<byte>>): Receiver {
    if residue == [] then r.(mode := WaitStart, payload := []) else r.(mode := InFrame, payload := residue[0])
  }

  lemma {:induction false} EscapedContent(r: Receiver, s: seq<byte>)
    requires Sane(r) && r.mode == InFrame
    ensures Run(r, Escape(s)) == Filled(r, Residue(r.payload, s))
    ensures |Residue(r.payload, s)| == 1 ==> |Residue(r.payload, s)[0]| <= CAPACITY
  {
    ResidueFits(r.payload, s);
    if s == [] {
      assert r.payload + s == r.payload;
    } else {
      var front, b := s[..|s| - 1], s[|s| - 1];
      assert s == front + [b];
      EscapedContent(r, front);
      ResidueFits(r.payload, front);
      ResidueSnoc(r.payload, front, b);
      var mid := Run(r, Escape(front));
      RunConcat(r, Escape(front), EscapeOctet(b));
      PushEscaped(mid, b);
    }
  }

  lemma PushEscaped(r: Receiver, b: byte)
    ensures IsMarker(b) ==> Run(r, EscapeOctet(b)) == Step(Step(r, ESCAPE), b)
    ensures !IsMarker(b) ==> Run(r, EscapeOctet(b)) == Step(r, b)
  {
    if IsMarker(b) {
      assert [ESCAPE, b] == [ESCAPE] + [b];
      RunConcat(r, [ESCAPE], [b]);
      RunOne(r, ESCAPE);
      RunOne(Step(r, ESCAPE), b);
    } else {
      RunOne(r, b);
    }
  }

  lemma {:induction false} IgnoredContent(r: Receiver, s: seq<byte>)
    requires Sane(r) && r.mode == WaitStart
    ensures Run(r, Escape(s)) == r
  {
    if s != [] {
      IgnoredContent(r, s[..|s| - 1]);
      RunConcat(r, Escape(s[..|s| - 1]), EscapeOctet(s[|s| - 1]));
      PushEscaped(r, s[|s| - 1]);
    }
  }

  /** The payloads one complete frame hands on, by the state it finds the parser in. */
  function Deliveries(r: Receiver, s: seq<byte>): seq<seq<byte>>
    requires Sane(r)
  {
    match r.mode
    case WaitStart => Residue([], s)
    case InFrame => Residue([], s)
    case WaitStartEscape => []
    case AfterEscape => if |r.payload| == CAPACITY then Residue([], s) else Residue(r.payload + [START], s)
  }

  lemma FrameInThree(r: Receiver, s: seq<byte>)
    ensures Run(r, Frame(s)) == Step(Run(Step(r, START), Escape(s)), END)
  {
    var r1 := Step(r, START);
    RunOne(r, START);
    RunConcat(r, [START], Escape(s));
    RunConcat(r, [START] + Escape(s), [END]);
    RunOne(Run(r1, Escape(s)), END);
  }

  lemma BodyEnds(r: Receiver, s: seq<byte>)
    requires Sane(r) && r.mode == InFrame
    ensures Step(Run(r, Escape(s)), END) == Receiver(WaitStart, [], r.completed + Residue(r.payload, s))
  {
    EscapedContent(r, s);
    ResidueFits(r.payload, s);
    FilledEnds(r, Residue(r.payload, s));
  }

  lemma FilledEnds(r: Receiver, residue: seq<seq<byte>>)
    requires |residue| <= 1
    ensures Step(Filled(r, residue), END) == Receiver(WaitStart, [], r.completed + residue)
  {
  }

  /** After one complete frame, whatever came before, the parser is idle: it has synchronised. */
  lemma FrameSynchronises(r: Receiver, s: seq<byte>)
    requires Sane(r)
    ensures Run(r, Frame(s)) == Receiver(WaitStart, [], r.completed + Deliveries(r, s))
  {
    FrameInThree(r, s);
    var r1 := Step(r, START);
    if r.mode == WaitStartEscape {
      IgnoredContent(r1, s);
      assert r.completed + [] == r.completed;
    } else {
      BodyEnds(r1, s);
    }
  }

  // ---- Streams of frames ----

  function Frames(ss: seq<seq<byte>>): seq<byte> {
    if ss == [] then [] else Frames(ss[..|ss| - 1]) + Frame(ss[|ss| - 1])
  }

  function Residues(ss: seq<seq<byte>>): seq<seq<byte>> {
    if ss == [] then [] else Residues(ss[..|ss| - 1]) + Residue([], ss[|ss| - 1])
  }

  /** An idle parser takes frames one by one. */
  lemma {:induction false} FramesWhenIdle(r: Receiver, ss: seq<seq<byte>>)
    requires Sane(r) && r.mode == WaitStart
    ensures Run(r, Frames(ss)) == Receiver(WaitStart, [], r.completed + Residues(ss))
  {
    if ss == [] {
      assert r.completed + [] == r.completed;
    } else {
      var front, last := ss[..|ss| - 1], ss[|ss| - 1];
      var r1 := Run(r, Frames(front));
      FramesWhenIdle(r, front);
      RunConcat(r, Frames(front), Frame(last));
      FrameSynchronises(r1, last);
      assert r1.completed + Residue([], last) == r.completed + (Residues(front) + Residue([], last));
    }
  }

  /** From any state, every frame from the second on is handled as if it came alone. */
  lemma FramesSynchronise(r: Receiver, s: seq<byte>, ss: seq<seq<byte>>)
    requires Sane(r)
    ensures Run(r, Frame(s) + Frames(ss)) == Receiver(WaitStart, [], r.completed + Deliveries(r, s) + Residues(ss))
  {
    RunConcat(r, Frame(s), Frames(ss));
    FrameSynchronises(r, s);
    FramesWhenIdle(Run(r, Frame(s)), ss);
  }

  lemma {:induction false} FittingResidues(ss: seq<seq<byte>>)
    requires forall s :: s in ss ==> |s| <= CAPACITY
    ensures Residues(ss) == ss
  {
    if ss != [] {
      FittingResidues(ss[..|ss| - 1]);
      assert [] + ss[|ss| - 1] == ss[|ss| - 1];
      assert ss == ss[..|ss| - 1] + [ss[|ss| - 1]];
    }
  }

  /** A payload that fits arrives in every state but behind an escape, unless the frame was full there. */
  predicate Receptive(r: Receiver) {
    r.mode.WaitStart? || r.mode.InFrame? || (r.mode.AfterEscape? && |r.payload| == CAPACITY)
  }

  lemma DeliveredIffReceptive(r: Receiver, s: seq<byte>)
    requires Sane(r) && |s| <= CAPACITY
    ensures Deliveries(r, s) == [s] <==> Receptive(r)
    ensures |Deliveries(r, s)| <= 1
  {
    assert [] + s == s;
    if r.mode.AfterEscape? && |r.payload| < CAPACITY {
      MangledBehindEscape(r.payload + [START], s);
    }
  }

  lemma MangledBehindEscape(q: seq<byte>, s: seq<byte>)
    requires 0 < |q| <= CAPACITY
    ensures Residue(q, s) != [s] && |Residue(q, s)| <= 1
  {
    ResidueFits(q, s);
    if |q| + |s| > CAPACITY {
      var rest := s[CAPACITY - |q| + 1..];
      ResidueFits([], rest);
      if Residue([], rest) != [] {
        ResidueShorter([], rest);
      }
    } else {
      assert |q + s| > |s|;
    }
  }

  /**
   * After any garbage, payloads that fit arrive exactly once and in order from the second frame on;
   * the first arrives too exactly when the garbage left the parser receptive.
   */
  lemma GarbageThenFrames(garbage: seq<byte>, s: seq<byte>, ss: seq<seq<byte>>)
    requires |s| <= CAPACITY && forall s' :: s' in ss ==> |s'| <= CAPACITY
    ensures var r := Run(IDLE, garbage);
      var after := Run(IDLE, garbage + (Frame(s) + Frames(ss)));
      && Sane(r)
      && after == Receiver(WaitStart, [], r.completed + Deliveries(r, s) + ss)
      && (Deliveries(r, s) == [s] <==> Receptive(r))
      && |Deliveries(r, s)| <= 1
  {
    var r := Run(IDLE, garbage);
    RunStaysSane(IDLE, garbage);
    RunConcat(IDLE, garbage, Frame(s) + Frames(ss));
    FramesSynchronise(r, s, ss);
    FittingResidues(ss);
    DeliveredIffReceptive(r, s);
  }

  /** A payload is handed on unchanged exactly when it fits. */
  lemma DeliveredIffFits(r: Receiver, s: seq<byte>)
    requires Sane(r) && r.mode == WaitStart
    ensures Run(r, Frame(s)).completed == r.completed + [s] <==> |s| <= 131071
  {
    FrameSynchronises(r, s);
    ResidueFits([], s);
    assert [] + s == s;
    if r.completed + Residue([], s) == r.completed + [s] {
      assert Residue([], s) == (r.completed + Residue([], s))[|r.completed|..] == [s];
    }
  }

  // ---- Oversize payloads ----

  /** An octet is dropped, with all before it, each time this many have come. */
  const LIMIT := CAPACITY + 1

  function DropAt(j: nat): nat {
    LIMIT * j + CAPACITY
  }

  /** The first `k` octets that overflow a frame with the content `t` all travel escaped. */
  ghost predicate DropsEscaped(t: seq<byte>, k: nat)
    requires LIMIT * k <= |t|
  {
    forall j :: 0 <= j < k ==> IsMarker(t[DropAt(j)])
  }

  lemma DropsEscapedNext(t: seq<byte>, k: nat, rest: seq<byte>)
    requires k > 0 && LIMIT * k <= |t| && rest == t[LIMIT..]
    ensures DropsEscaped(t, k) <==> IsMarker(t[CAPACITY]) && DropsEscaped(rest, k - 1)
  {
    assert DropAt(0) == CAPACITY;
    if DropsEscaped(t, k) {
      forall j | 0 <= j < k - 1 ensures IsMarker(rest[DropAt(j)]) {
        assert rest[DropAt(j)] == t[DropAt(j + 1)];
      }
    }
    if IsMarker(t[CAPACITY]) && DropsEscaped(rest, k - 1) {
      forall j | 0 <= j < k ensures IsMarker(t[DropAt(j)]) {
        if j > 0 { assert t[DropAt(j)] == rest[DropAt(j - 1)]; }
      }
    }
  }

  /** What is left of content of any length: what follows the last drop, if every drop was escaped. */
  lemma {:induction false} ResidueClosedForm(t: seq<byte>, k: nat)
    requires LIMIT * k <= |t| < LIMIT * k + LIMIT
    ensures Residue([], t) == if DropsEscaped(t, k) then [t[LIMIT * k..]] else []
    decreases k
  {
    if k == 0 {
      assert [] + t == t == t[0..];
    } else {
      var rest := t[LIMIT..];
      DropsEscapedNext(t, k, rest);
      ResidueClosedForm(rest, k - 1);
      assert rest[LIMIT * (k - 1)..] == t[LIMIT * k..];
    }
  }

  /** What a frame already holds counts like the beginning of its content. */
  lemma ResidueJoins(q: seq<byte>, s: seq<byte>)
    requires |q| <= CAPACITY
    ensures Residue(q, s) == Residue([], q + s)
  {
    assert [] + (q + s) == q + s;
    if |q| + |s| > CAPACITY {
      assert (q + s)[CAPACITY] == s[CAPACITY - |q|] && (q + s)[CAPACITY + 1..] == s[CAPACITY - |q| + 1..];
    }
  }

  /** What the parser takes for the content of a frame: behind an escape its START is content too. */
  function Heard(r: Receiver, s: seq<byte>): seq<byte> {
    if r.mode.AfterEscape? then r.payload + [START] + s else s
  }

  lemma DeliveriesAreResidue(r: Receiver, s: seq<byte>)
    requires Sane(r) && !r.mode.WaitStartEscape?
    ensures Deliveries(r, s) == Residue([], Heard(r, s))
  {
    if r.mode.AfterEscape? {
      var q := r.payload + [START];
      if |r.payload| < CAPACITY {
        ResidueJoins(q, s);
      } else {
        assert (q + s)[CAPACITY] == START && (q + s)[CAPACITY + 1..] == s;
      }
    }
  }

  /** One complete frame of any length from any reachable state, in closed form. */
  lemma FrameOutcome(r: Receiver, s: seq<byte>, t: seq<byte>, k: nat)
    requires Sane(r) && t == Heard(r, s) && LIMIT * k <= |t| < LIMIT * k + LIMIT
    ensures Run(r, Frame(s)) == Receiver(WaitStart, [], r.completed +
      if !r.mode.WaitStartEscape? && DropsEscaped(t, k) then [t[LIMIT * k..]] else [])
  {
    FrameSynchronises(r, s);
    if !r.mode.WaitStartEscape? {
      DeliveriesAreResidue(r, s);
      ResidueClosedForm(t, k);
    }
  }

  /**
   * An idle parser and a payload of any length, `k` times too long: it hands on what follows the last
   * octet it dropped when all octets it dropped travelled escaped, and nothing otherwise.
   */
  lemma OversizeFrame(s: seq<byte>, k: nat)
    requires LIMIT * k <= |s| < LIMIT * k + LIMIT
    ensures Run(IDLE, Frame(s)).completed == if DropsEscaped(s, k) then [s[LIMIT * k..]] else []
  {
    FrameOutcome(IDLE, s, s, k);
  }

  // ---- Messages ----

  /** The messages the handler gets for completed payloads: those that parse. */
  ghost function Handled(n: nat, payloads: seq<seq<byte>>): seq<seq<Tlv>>
    requires n <= 4
  {
    if payloads == [] then []
    else
      var front, outcome := Handled(n, payloads[..|payloads| - 1]), Parse(n, payloads[|payloads| - 1]);
      if outcome.code == Success then front + [outcome.tlvs] else front
  }

  lemma {:induction false} HandledConcat(n: nat, a: seq<seq<byte>>, b: seq<seq<byte>>)
    requires n <= 4
    ensures Handled(n, a + b) == Handled(n, a) + Handled(n, b)
  {
    if b == [] {
      assert a + b == a;
    } else {
      assert (a + b)[..|a + b| - 1] == a + b[..|b| - 1];
      HandledConcat(n, a, b[..|b| - 1]);
    }
  }

  function Serializations(ms: seq<seq<Tlv>>): seq<seq<byte>> {
    seq(|ms|, i requires 0 <= i < |ms| => Serialize(ms[i]))
  }

  lemma HandledSnoc(n: nat, ps: seq<seq<byte>>, p: seq<byte>)
    requires n <= 4
    ensures Handled(n, ps + [p]) ==
      if Parse(n, p).code == Success then Handled(n, ps) + [Parse(n, p).tlvs] else Handled(n, ps)
  {
    assert (ps + [p])[..|ps|] == ps;
  }

  lemma SerializationsSnoc(ms: seq<seq<Tlv>>, m: seq<Tlv>)
    ensures Serializations(ms + [m]) == Serializations(ms) + [Serialize(m)]
  {
  }

  lemma {:induction false} AcceptedAreHandled(n: nat, ms: seq<seq<Tlv>>)
    requires n <= 4 && forall m :: m in ms ==> Accepted(n, m)
    ensures Handled(n, Serializations(ms)) == ms
  {
    if ms != [] {
      var front, last := ms[..|ms| - 1], ms[|ms| - 1];
      assert ms == front + [last];
      AcceptedAreHandled(n, front);
      SerializationsSnoc(front, last);
      HandledSnoc(n, Serializations(front), Serialize(last));
      ParseExact(n, Serialize(last), last);
    }
  }

  /** Of at most one payload the handler gets `m` exactly when it is the serialisation of `m`. */
  lemma HandledIs(n: nat, ps: seq<seq<byte>>, m: seq<Tlv>)
    requires n <= 4 && Accepted(n, m) && |ps| <= 1
    ensures Handled(n, ps) == [m] <==> ps == [Serialize(m)]
    ensures |Handled(n, ps)| <= 1
  {
    if ps != [] {
      var p, o := ps[0], Parse(n, ps[0]);
      assert ps == [] + [p];
      HandledSnoc(n, [], p);
      assert Handled(n, ps) == if o.code == Success then [o.tlvs] else [];
      ParseExact(n, p, m);
      OneOf(p, Serialize(m));
      OneOf(o.tlvs, m);
    }
  }

  lemma OneOf<T>(x: T, y: T)
    ensures [x] == [y] <==> x == y
  {
    if [x] == [y] {
      assert [x][0] == [y][0];
    }
  }

  /**
   * Acceptable messages reach the handler exactly once, equal and in order, from the second on, after
   * any garbage; the first too exactly when the garbage left the parser receptive.
   */
  lemma GarbageThenMessages(n: nat, garbage: seq<byte>, m: seq<Tlv>, ms: seq<seq<Tlv>>)
    requires n <= 4 && Accepted(n, m) && |Serialize(m)| <= CAPACITY
    requires forall m' :: m' in ms ==> Accepted(n, m') && |Serialize(m')| <= CAPACITY
    ensures var r := Run(IDLE, garbage);
      var after := Run(IDLE, garbage + (Frame(Serialize(m)) + Frames(Serializations(ms))));
      && Sane(r) && after.mode == WaitStart && after.payload == []
      && Handled(n, after.completed) == Handled(n, r.completed) + Handled(n, Deliveries(r, Serialize(m))) + ms
      && (Handled(n, Deliveries(r, Serialize(m))) == [m] <==> Receptive(r))
      && |Handled(n, Deliveries(r, Serialize(m)))| <= 1
  {
    var r, s, ss := Run(IDLE, garbage), Serialize(m), Serializations(ms);
    GarbageThenFrames(garbage, s, ss);
    AcceptedAreHandled(n, ms);
    HandledIs(n, Deliveries(r, s), m);
    HandledConcat(n, r.completed + Deliveries(r, s), ss);
    HandledConcat(n, r.completed, Deliveries(r, s));
  }

  function Flatten(chunks: seq<seq<byte>>): seq<byte> {
    if chunks == [] then [] else Flatten(chunks[..|chunks| - 1]) + chunks[|chunks| - 1]
  }

  /** `frame_parser_push_buffer` called on one chunk after the other. */
  function RunChunks(r: Receiver, chunks: seq<seq<byte>>): Receiver {
    if chunks == [] then r else Run(RunChunks(r, chunks[..|chunks| - 1]), chunks[|chunks| - 1])
  }

  /** How a stream is cut into reads makes no difference. */
  lemma {:induction false} ChunkingIrrelevant(r: Receiver, chunks: seq<seq<byte>>)
    ensures RunChunks(r, chunks) == Run(r, Flatten(chunks))
  {
    if chunks != [] {
      ChunkingIrrelevant(r, chunks[..|chunks| - 1]);
      RunConcat(r, Flatten(chunks[..|chunks| - 1]), chunks[|chunks| - 1]);
    }
  }

  /** End to end: one framed message, cut anyhow, is handled exactly once and is the message sent. */
  lemma EndToEnd(n: nat, r: Receiver, m: seq<Tlv>, chunks: seq<seq<byte>>)
    requires n <= 4 && Accepted(n, m) && |Serialize(m)| <= CAPACITY
    requires Sane(r) && r.mode == WaitStart && Flatten(chunks) == Frame(Serialize(m))
    ensures var after := RunChunks(r, chunks);
      && after == r.(completed := r.completed + [Serialize(m)])
      && Handled(n, after.completed) == Handled(n, r.completed) + [m]
  {
    ChunkingIrrelevant(r, chunks);
    FrameSynchronises(r, Serialize(m));
    assert [] + Serialize(m) == Serialize(m);
    AcceptedAreHandled(n, [m]);
    assert Serializations([m]) == [Serialize(m)];
    HandledConcat(n, r.completed, [Serialize(m)]);
  }
}
