/** `parser_t` and `frame_message`: frame.c on its own buffers. */
module FrameParser {
  import opened Bytes
  import opened Wire
  import opened Framing
  import opened Message

  const CHUNK := 1024

  class FrameParser {
    const compared: nat            // octets of a checksum that message_parse compares
    var hasHandler: bool           // handler != NULL
    var state: Mode
    var buffer: array<byte>        // buffer.Length is buffer_size
    var length: nat
    ghost var completed: seq<seq<byte>>
    var handled: seq<seq<Tlv>>     // the messages the handler was called with

    ghost predicate Valid()
      reads this, buffer
    {
      && compared <= 4
      && 1024 <= buffer.Length <= CAPACITY + 1 && buffer.Length % 1024 == 0
      && length <= buffer.Length
      && Sane(View())
    }

    ghost function View(): Receiver
      requires length <= buffer.Length
      reads this, buffer
    {
      Receiver(state, buffer[..length], completed)
    }

    /** `frame_parser_init` */
    constructor (compared: nat)
      requires compared <= 4
      ensures Valid() && View() == IDLE && fresh(buffer) && buffer.Length == 1024
      ensures this.compared == compared && !hasHandler && handled == []
    {
      this.compared := compared;
      hasHandler := false;
      state := WaitStart;
      length := 0;
      buffer := new byte[CHUNK];
      completed := [];
      handled := [];
    }

    /** `serial_set_message_handler` on this parser's device */
    method SetHandler()
      requires Valid()
      modifies this
      ensures Valid() && View() == old(View()) && buffer == old(buffer) && handled == old(handled) && hasHandler
    {
      hasHandler := true;
    }

    /** `frame_parser_add_to_frame` */
    method AddToFrame(b: byte)
      requires Valid() && (state == InFrame || state == AfterEscape)
      modifies this, buffer
      ensures Valid() && View() == Framing.AddToFrame(old(View()), b)
      ensures if old(length) == old(buffer.Length) <= FRAME_MAX_LENGTH
              then fresh(buffer) && buffer.Length == old(buffer.Length) + 1024
              else buffer == old(buffer)
      ensures hasHandler == old(hasHandler) && handled == old(handled) && completed == old(completed)
    {
      if length > FRAME_MAX_LENGTH {
        state := WaitStart;
        length := 0;
        return;
      }
      ghost var payload := buffer[..length];
      if length == buffer.Length {
        var bigger := new byte[buffer.Length + CHUNK];
        forall i | 0 <= i < length {
          bigger[i] := buffer[i];
        }
        buffer := bigger;
      }
      assert buffer[..length] == payload;
      buffer[length] := b;
      length := length + 1;
      assert buffer[..length] == payload + [b];
    }

    /** `frame_parser_push_byte` */
    method PushByte(b: byte)
      requires Valid()
      modifies this, buffer
      ensures Valid() && View() == Step(old(View()), b)
      ensures buffer == old(buffer) || fresh(buffer)
      ensures hasHandler == old(hasHandler)
      ensures Reported(compared, hasHandler, old(completed), completed, old(handled), handled)
    {
      match state
      case WaitStart =>
        if b == ESCAPE {
          state := WaitStartEscape;
        } else if b == START {
          state := InFrame;
        }
      case WaitStartEscape =>
        state := WaitStart;
      case InFrame =>
        if b == ESCAPE {
          state := AfterEscape;
        } else if b == START {
          length := 0;
        } else if b == END {
          EndFrame();
        } else {
          AddToFrame(b);
        }
      case AfterEscape =>
        AddToFrame(b);
        state := InFrame;
    }

    /** What `frame_parser_push_byte` does at the end of a frame. */
    method EndFrame()
      requires Valid() && state == InFrame
      modifies this
      ensures Valid() && View() == Receiver(WaitStart, [], old(completed) + [old(buffer[..length])])
      ensures buffer == old(buffer) && hasHandler == old(hasHandler)
      ensures Reported(compared, hasHandler, old(completed), completed, old(handled), handled)
    {
      if hasHandler {
        var message := new Message();
        var r := message.Parse(compared, buffer[..length]);
        HandledOne(compared, buffer[..length]);
        if r == Success {
          handled := handled + [message.tlv[..message.length]];
        }
      }
      assert (completed + [buffer[..length]])[|completed|..] == [buffer[..length]];
      completed := completed + [buffer[..length]];
      length := 0;
      state := WaitStart;
    }

    /** `frame_parser_push_buffer` */
    method PushBuffer(bytes: seq<byte>)
      requires Valid()
      modifies this, buffer
      ensures Valid() && View() == Run(old(View()), bytes)
      ensures buffer == old(buffer) || fresh(buffer)
      ensures hasHandler == old(hasHandler)
      ensures Reported(compared, hasHandler, old(completed), completed, old(handled), handled)
    {
      var i := 0;
      while i < |bytes|
        invariant i <= |bytes| && Valid()
        invariant View() == Run(old(View()), bytes[..i])
        invariant buffer == old(buffer) || fresh(buffer)
        invariant hasHandler == old(hasHandler)
        invariant Reported(compared, hasHandler, old(completed), completed, old(handled), handled)
      {
        ghost var before, was := completed, handled;
        PushByte(bytes[i]);
        ReportedOn(compared, hasHandler, old(completed), before, completed, old(handled), was, handled);
        assert bytes[..i + 1][..i] == bytes[..i];
        i := i + 1;
      }
      assert bytes[..i] == bytes;
    }
  }

  lemma HandledOne(n: nat, payload: seq<byte>)
    requires n <= 4
    ensures Handled(n, [payload]) == if Parse(n, payload).code == Success then [Parse(n, payload).tlvs] else []
  {
    assert [payload][..0] == [];
    assert Handled(n, []) == [];
  }

  /** Completing the payloads of `c1` beyond `c0` took the handler's calls from `h0` to `h1`. */
  ghost predicate Reported(n: nat, handler: bool, c0: seq<seq<byte>>, c1: seq<seq<byte>>,
                           h0: seq<seq<Tlv>>, h1: seq<seq<Tlv>>)
    requires n <= 4
  {
    c0 <= c1 && h1 == if handler then h0 + Handled(n, c1[|c0|..]) else h0
  }

  lemma ReportedOn(n: nat, handler: bool, c0: seq<seq<byte>>, c1: seq<seq<byte>>, c2: seq<seq<byte>>,
                   h0: seq<seq<Tlv>>, h1: seq<seq<Tlv>>, h2: seq<seq<Tlv>>)
    requires n <= 4 && Reported(n, handler, c0, c1, h0, h1) && Reported(n, handler, c1, c2, h1, h2)
    ensures Reported(n, handler, c0, c2, h0, h2)
  {
    assert c2[|c0|..] == c1[|c0|..] + c2[|c1|..];
    HandledConcat(n, c1[|c0|..], c2[|c1|..]);
  }
}
