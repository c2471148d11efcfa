/** A specification of framing without a state machine, and why the parser meets it. */
module Tokens {
  import opened Bytes
  import opened Framing

  /** An octet of the stream, and whether it was escaped. */
  datatype Token = Token(escaped: bool, octet: byte) {
    predicate IsStart() { !escaped && octet == START }
    predicate IsEnd() { !escaped && octet == END }
  }

  /** A stream split into tokens; `pending` when it ends in an escape that escapes nothing yet. */
  datatype Split = Split(tokens: seq<Token>, pending: bool)

  function Extend(s: Split, b: byte): Split {
    if s.pending then Split(s.tokens + [Token(true, b)], false)
    else if b == ESCAPE then Split(s.tokens, true)
    else Split(s.tokens + [Token(false, b)], false)
  }

  function Tokenize(s: seq<byte>): Split {
    if s == [] then Split([], false) else Extend(Tokenize(s[..|s| - 1]), s[|s| - 1])
  }

  /** The position of the last unescaped START, unless an unescaped END follows it; else -1. */
  function Open(ts: seq<Token>): (i: int)
    ensures -1 <= i < |ts|
  {
    if ts == [] then -1
    else
      var last := |ts| - 1;
      if ts[last].IsStart() then last else if ts[last].IsEnd() then -1 else Open(ts[..last])
  }

  ghost predicate OpensAt(ts: seq<Token>, i: nat) {
    i < |ts| && ts[i].IsStart() && forall j :: i < j < |ts| ==> !ts[j].IsStart() && !ts[j].IsEnd()
  }

  /** A START is open at the end exactly when no other START and no END follows it. */
  lemma {:induction false} OpenMeans(ts: seq<Token>, i: nat)
    ensures Open(ts) == i <==> OpensAt(ts, i)
  {
    if ts != [] {
      var last := |ts| - 1;
      var front := ts[..last];
      if ts[last].IsStart() || ts[last].IsEnd() {
        assert OpensAt(ts, i) ==> i == last;
      } else {
        OpenMeans(front, i);
        if OpensAt(front, i) {
          forall j | i < j < |ts| ensures !ts[j].IsStart() && !ts[j].IsEnd() {
            if j < last { assert front[j] == ts[j]; }
          }
        }
        if OpensAt(ts, i) {
          assert i < last;
          forall j | i < j < last ensures !front[j].IsStart() && !front[j].IsEnd() { assert front[j] == ts[j]; }
        }
      }
    }
  }

  function Octets(ts: seq<Token>): (s: seq<byte>)
    ensures |s| == |ts|
    ensures forall i :: 0 <= i < |ts| ==> s[i] == ts[i].octet
  {
    seq(|ts|, i requires 0 <= i < |ts| => ts[i].octet)
  }

  /** What follows position `i`, if there is a position. */
  function After(ts: seq<Token>, i: int): seq<byte>
    requires -1 <= i < |ts|
  {
    if i < 0 then [] else Octets(ts[i + 1..])
  }

  /** What lies between the open START and the end of the stream. */
  function OpenPart(ts: seq<Token>): seq<byte> {
    After(ts, Open(ts))
  }

  /** For every unescaped END, in order, the octets back to the START that is open there. */
  function Payloads(ts: seq<Token>): seq<seq<byte>> {
    if ts == [] then []
    else
      var front := ts[..|ts| - 1];
      if ts[|ts| - 1].IsEnd() && Open(front) >= 0 then Payloads(front) + [OpenPart(front)] else Payloads(front)
  }

  /** No stretch after an open START is longer than a frame may be. */
  ghost predicate NoOverflow(ts: seq<Token>) {
    forall k :: 0 <= k <= |ts| ==> |OpenPart(ts[..k])| <= CAPACITY
  }

  /** The parser's state after a stream, read off the tokens. */
  function StateAfter(s: Split): Receiver {
    var mode := if Open(s.tokens) >= 0 then (if s.pending then AfterEscape else InFrame)
                else (if s.pending then WaitStartEscape else WaitStart);
    Receiver(mode, OpenPart(s.tokens), Payloads(s.tokens))
  }

  lemma OpenAfter(ts: seq<Token>, t: Token)
    ensures Open(ts + [t]) == if t.IsStart() then |ts| else if t.IsEnd() then -1 else Open(ts)
  {
    assert (ts + [t])[..|ts|] == ts;
  }

  lemma OctetsSnoc(ts: seq<Token>, t: Token)
    ensures Octets(ts + [t]) == Octets(ts) + [t.octet]
  {
  }

  lemma DropSnoc(ts: seq<Token>, t: Token, i: nat)
    requires i <= |ts|
    ensures (ts + [t])[i..] == ts[i..] + [t]
  {
  }

  lemma AfterGrows(ts: seq<Token>, t: Token, i: int)
    requires -1 <= i < |ts|
    ensures After(ts + [t], i) == if i < 0 then [] else After(ts, i) + [t.octet]
  {
    if i >= 0 {
      DropSnoc(ts, t, i + 1);
      OctetsSnoc(ts[i + 1..], t);
    }
  }

  lemma AfterLast(ts: seq<Token>, t: Token)
    ensures After(ts + [t], |ts|) == []
  {
  }

  lemma OpenPartAfter(ts: seq<Token>, t: Token)
    ensures OpenPart(ts + [t]) ==
      if t.IsStart() || t.IsEnd() || Open(ts) < 0 then [] else OpenPart(ts) + [t.octet]
  {
    OpenAfter(ts, t);
    AfterLast(ts, t);
    AfterGrows(ts, t, Open(ts));
  }

  lemma PayloadsAfter(ts: seq<Token>, t: Token)
    ensures Payloads(ts + [t]) == if t.IsEnd() && Open(ts) >= 0 then Payloads(ts) + [OpenPart(ts)] else Payloads(ts)
  {
    assert (ts + [t])[..|ts|] == ts;
  }

  lemma NoOverflowBefore(ts: seq<Token>, t: Token)
    requires NoOverflow(ts + [t])
    ensures NoOverflow(ts) && |OpenPart(ts)| <= CAPACITY && |OpenPart(ts + [t])| <= CAPACITY
  {
    var more := ts + [t];
    forall k | 0 <= k <= |ts| ensures |OpenPart(ts[..k])| <= CAPACITY {
      assert more[..k] == ts[..k];
    }
    assert more[..|more|] == more && ts[..|ts|] == ts;
  }

  /** The parser's state after an octet that stands in or out of a frame, by how far the frame is. */
  function NextState(open: bool, part: seq<byte>, payloads: seq<seq<byte>>, t: Token): Receiver {
    if t.IsStart() then Receiver(InFrame, [], payloads)
    else if t.IsEnd() then Receiver(WaitStart, [], if open then payloads + [part] else payloads)
    else if open then Receiver(InFrame, part + [t.octet], payloads)
    else Receiver(WaitStart, [], payloads)
  }

  lemma TokenStep(ts: seq<Token>, t: Token)
    requires |OpenPart(ts)| <= CAPACITY && |OpenPart(ts + [t])| <= CAPACITY
    requires !t.escaped ==> t.octet != ESCAPE
    ensures Step(StateAfter(Split(ts, t.escaped)), t.octet) == StateAfter(Split(ts + [t], false))
  {
    StateAfterToken(ts, t);
    OpenPartAfter(ts, t);
    if Open(ts) >= 0 {
      StepInside(OpenPart(ts), Payloads(ts), t);
    } else {
      StepOutside(Payloads(ts), t);
    }
  }

  lemma StateAfterToken(ts: seq<Token>, t: Token)
    ensures StateAfter(Split(ts + [t], false)) == NextState(Open(ts) >= 0, OpenPart(ts), Payloads(ts), t)
  {
    OpenAfter(ts, t);
    OpenPartAfter(ts, t);
    PayloadsAfter(ts, t);
  }

  lemma StepInside(part: seq<byte>, payloads: seq<seq<byte>>, t: Token)
    requires |part| <= CAPACITY && (t.IsStart() || t.IsEnd() || |part| < CAPACITY)
    requires !t.escaped ==> t.octet != ESCAPE
    ensures Step(Receiver(if t.escaped then AfterEscape else InFrame, part, payloads), t.octet)
         == NextState(true, part, payloads, t)
  {
  }

  lemma StepOutside(payloads: seq<seq<byte>>, t: Token)
    requires !t.escaped ==> t.octet != ESCAPE
    ensures Step(Receiver(if t.escaped then WaitStartEscape else WaitStart, [], payloads), t.octet)
         == NextState(false, [], payloads, t)
  {
  }

  /** One octet more is one step of the parser. */
  lemma OctetStep(s: Split, b: byte)
    requires NoOverflow(Extend(s, b).tokens)
    ensures NoOverflow(s.tokens)
    ensures Step(StateAfter(s), b) == StateAfter(Extend(s, b))
  {
    if s.pending || b != ESCAPE {
      var t := Token(s.pending, b);
      NoOverflowBefore(s.tokens, t);
      TokenStep(s.tokens, t);
    }
  }

  /** While nothing overflows the parser completes exactly the payloads of the specification, in order. */
  lemma {:induction false} ParserMeetsSpecification(s: seq<byte>)
    requires NoOverflow(Tokenize(s).tokens)
    ensures Run(IDLE, s) == StateAfter(Tokenize(s))
  {
    if s != [] {
      OctetStep(Tokenize(s[..|s| - 1]), s[|s| - 1]);
      ParserMeetsSpecification(s[..|s| - 1]);
    }
  }

  predicate BehindEscape(r: Receiver) {
    r.mode.WaitStartEscape? || r.mode.AfterEscape?
  }

  lemma PendingStep(s: Split, r: Receiver, b: byte)
    requires s.pending == BehindEscape(r)
    ensures Extend(s, b).pending == BehindEscape(Step(r, b))
  {
  }

  /** The parser stands behind an escape exactly when the stream ends in one, overflow or not. */
  lemma {:induction false} PendingIsBehindEscape(s: seq<byte>)
    ensures Tokenize(s).pending <==> BehindEscape(Run(IDLE, s))
  {
    if s != [] {
      PendingIsBehindEscape(s[..|s| - 1]);
      PendingStep(Tokenize(s[..|s| - 1]), Run(IDLE, s[..|s| - 1]), s[|s| - 1]);
    }
  }

  /**
   * The frame after any garbage is delivered if the garbage does not end in an escape; if it does, only
   * when that escape comes in a frame that is just full.
   */
  lemma FirstFrameArrives(garbage: seq<byte>, s: seq<byte>)
    requires |s| <= CAPACITY
    ensures var r := Run(IDLE, garbage);
      Run(IDLE, garbage + Frame(s)).completed == r.completed + [s] <==>
        !Tokenize(garbage).pending || (r.mode.AfterEscape? && |r.payload| == CAPACITY)
  {
    var r := Run(IDLE, garbage);
    RunStaysSane(IDLE, garbage);
    RunConcat(IDLE, garbage, Frame(s));
    FrameSynchronises(r, s);
    DeliveredIffReceptive(r, s);
    PendingIsBehindEscape(garbage);
    SameTail(r.completed, Deliveries(r, s), [s]);
  }

  lemma SameTail<T>(a: seq<T>, b: seq<T>, c: seq<T>)
    ensures a + b == a + c <==> b == c
  {
    if a + b == a + c {
      assert b == (a + b)[|a|..] == (a + c)[|a|..] == c;
    }
  }

  /** A single escape before it loses a frame. */
  lemma EscapeLosesFrame(s: seq<byte>)
    ensures Run(IDLE, [ESCAPE] + Frame(s)) == IDLE
  {
    RunOne(IDLE, ESCAPE);
    RunConcat(IDLE, [ESCAPE], Frame(s));
    FrameSynchronises(Step(IDLE, ESCAPE), s);
  }

  // ---- The tokens of a frame ----

  function Content(s: seq<byte>): seq<Token> {
    seq(|s|, i requires 0 <= i < |s| => Token(IsMarker(s[i]), s[i]))
  }

  lemma ContentSnoc(s: seq<byte>, b: byte)
    ensures Content(s + [b]) == Content(s) + [Token(IsMarker(b), b)]
  {
  }

  lemma {:induction false} TokenizeConcat(a: seq<byte>, b: seq<byte>)
    requires !Tokenize(a).pending
    ensures Tokenize(a + b) == Split(Tokenize(a).tokens + Tokenize(b).tokens, Tokenize(b).pending)
  {
    if b == [] {
      assert a + b == a;
    } else {
      assert (a + b)[..|a + b| - 1] == a + b[..|b| - 1];
      TokenizeConcat(a, b[..|b| - 1]);
    }
  }

  lemma TokenizeOctet(b: byte)
    ensures Tokenize(EscapeOctet(b)) == Split([Token(IsMarker(b), b)], false)
  {
    var e := EscapeOctet(b);
    if IsMarker(b) {
      assert e[..1] == [ESCAPE] && [ESCAPE][..0] == [];
      assert Tokenize([ESCAPE]) == Split([], true);
      assert Tokenize(e) == Split([Token(true, b)], false);
    } else {
      assert e[..0] == [];
    }
  }

  lemma {:induction false} TokenizeEscaped(s: seq<byte>)
    ensures Tokenize(Escape(s)) == Split(Content(s), false)
  {
    if s != [] {
      var front, b := s[..|s| - 1], s[|s| - 1];
      TokenizeEscaped(front);
      TokenizeOctet(b);
      TokenizeConcat(Escape(front), EscapeOctet(b));
      ContentSnoc(front, b);
      assert s == front + [b];
    }
  }

  /** A frame is an unescaped START, the payload with exactly its markers escaped, and an unescaped END. */
  lemma FrameTokens(s: seq<byte>)
    ensures Tokenize(Frame(s)) == Split([Token(false, START)] + Content(s) + [Token(false, END)], false)
  {
    assert [START][..0] == [] && [END][..0] == [];
    assert Tokenize([START]) == Split([Token(false, START)], false);
    assert Tokenize([END]) == Split([Token(false, END)], false);
    TokenizeEscaped(s);
    TokenizeConcat([START], Escape(s));
    TokenizeConcat([START] + Escape(s), [END]);
  }

  /** The only unescaped START and END of a frame are its first and its last octet. */
  lemma OnlyOuterMarkers(s: seq<byte>, i: nat)
    ensures var ts := Tokenize(Frame(s)).tokens;
      && |ts| == |s| + 2
      && (i < |ts| ==> (ts[i].IsStart() <==> i == 0) && (ts[i].IsEnd() <==> i == |ts| - 1))
  {
    FrameTokens(s);
  }

  /** No frame is the beginning of another. */
  lemma FramesPrefixFree(a: seq<byte>, b: seq<byte>)
    requires Frame(a) <= Frame(b)
    ensures a == b
  {
    var rest := Frame(b)[|Frame(a)|..];
    assert Frame(b) == Frame(a) + rest;
    FrameTokens(a);
    FrameTokens(b);
    TokenizeConcat(Frame(a), rest);
    TokensPrefixFree(a, b, Tokenize(Frame(a)).tokens, Tokenize(Frame(b)).tokens);
  }

  lemma EndIsLast(s: seq<byte>, ts: seq<Token>, i: nat)
    requires ts == [Token(false, START)] + Content(s) + [Token(false, END)] && i < |ts| && ts[i].IsEnd()
    ensures i == |s| + 1
  {
  }

  lemma TokensPrefixFree(a: seq<byte>, b: seq<byte>, ta: seq<Token>, tb: seq<Token>)
    requires ta == [Token(false, START)] + Content(a) + [Token(false, END)]
    requires tb == [Token(false, START)] + Content(b) + [Token(false, END)]
    requires ta <= tb
    ensures a == b
  {
    assert ta[|a| + 1] == tb[|a| + 1];
    EndIsLast(b, tb, |a| + 1);
    forall i | 0 <= i < |a| ensures a[i] == b[i] {
      assert ta[i + 1] == tb[i + 1] && ta[i + 1].octet == a[i] && tb[i + 1].octet == b[i];
    }
  }
}
