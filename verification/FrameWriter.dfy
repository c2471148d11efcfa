/** `frame_message`: framing a message into a caller's buffer. */
module FrameWriter {
  import opened Bytes
  import opened Wire
  import opened Framing
  import opened Message

  /** The size of the first `i` octets of `b` in a frame, with the START. */
  function SizeUpTo(b: seq<byte>, i: nat): nat
    requires i <= |b|
  {
    1 + |Escape(b[..i])|
  }

  /** The first octet at or after `i` before which the loop at frame.c:150-164 finds the buffer full. */
  function StopsAt(b: seq<byte>, i: nat, length: nat): (j: nat)
    requires i <= |b|
    ensures i <= j <= |b|
    ensures j < |b| ==> SizeUpTo(b, j) >= length
    ensures forall k :: i <= k < j ==> SizeUpTo(b, k) < length
    decreases |b| - i
  {
    if i == |b| || SizeUpTo(b, i) >= length then i else StopsAt(b, i + 1, length)
  }

  /** How many octets of the output `frame_message` writes. */
  function Written(b: seq<byte>, length: nat): nat {
    var j := StopsAt(b, 0, length);
    if length < |b| + 2 then 0 else if j < |b| then SizeUpTo(b, j) else |Frame(b)|
  }

  /** What `frame_message` returns for the serialisation `b` and a buffer of `length`. */
  function Result(b: seq<byte>, length: nat): int {
    if length < |b| + 2 || StopsAt(b, 0, length) < |b| then -1 else |Frame(b)|
  }

  /** One octet more takes one or two octets more. */
  lemma SizeGrows(b: seq<byte>, i: nat)
    requires i < |b|
    ensures SizeUpTo(b, i + 1) == SizeUpTo(b, i) + |EscapeOctet(b[i])|
    ensures Escape(b[..i + 1]) == Escape(b[..i]) + EscapeOctet(b[i])
  {
    assert b[..i + 1][..i] == b[..i];
  }

  lemma {:induction false} SizeMonotone(b: seq<byte>, i: nat, j: nat)
    requires i <= j <= |b|
    ensures SizeUpTo(b, i) + (j - i) <= SizeUpTo(b, j)
    ensures Escape(b[..i]) <= Escape(b[..j])
    decreases j - i
  {
    if i < j {
      SizeMonotone(b, i, j - 1);
      SizeGrows(b, j - 1);
    }
  }

  lemma WholeSize(b: seq<byte>)
    ensures |Frame(b)| == SizeUpTo(b, |b|) + 1
  {
    assert b[..|b|] == b;
  }

  function CountMarkers(s: seq<byte>): nat {
    if s == [] then 0 else CountMarkers(s[..|s| - 1]) + if IsMarker(s[|s| - 1]) then 1 else 0
  }

  /** The exact size of a frame. */
  lemma {:induction false} FrameSize(b: seq<byte>)
    ensures |Frame(b)| == 2 + |b| + CountMarkers(b)
  {
    if b != [] {
      FrameSize(b[..|b| - 1]);
    }
  }

  /** Given room for the escaped frame, all of it is written and nothing else. */
  lemma EnoughRoom(b: seq<byte>, length: nat)
    ensures length >= 2 + |b| + CountMarkers(b) ==> Result(b, length) == |Frame(b)| == Written(b, length)
    ensures length < |b| + 2 ==> Result(b, length) == -1 && Written(b, length) == 0
  {
    FrameSize(b);
    WholeSize(b);
    if length >= |Frame(b)| {
      SizeMonotone(b, StopsAt(b, 0, length), |b|);
    }
  }

  /**
   * The loop looks for room once per octet, before writing one or two: a buffer that is too small
   * for the escaped frame is respected exactly when it is refused at once, or some prefix of the
   * octets fills it to the last.
   */
  lemma StaysInside(b: seq<byte>, length: nat)
    ensures Written(b, length) <= length <==>
      (length < |b| + 2 || length >= |Frame(b)| || exists i :: 0 <= i < |b| && SizeUpTo(b, i) == length)
  {
    var j := StopsAt(b, 0, length);
    WholeSize(b);
    if length >= |Frame(b)| {
      EnoughRoom(b, length);
      FrameSize(b);
    } else if length >= |b| + 2 {
      if i :| 0 <= i < |b| && SizeUpTo(b, i) == length {
        if j < i {
          SizeMonotone(b, j, i);
        }
      }
    }
  }

  /** In any case it writes at most two octets too many. */
  lemma OverrunAtMostTwo(b: seq<byte>, length: nat)
    ensures Written(b, length) <= length + 2
  {
    var j := StopsAt(b, 0, length);
    WholeSize(b);
    if length >= |b| + 2 && j > 0 {
      SizeGrows(b, j - 1);
    }
  }

  /** Refused at once, or because the octets before the last one fill the buffer; otherwise the frame's size. */
  lemma RefusedIff(b: seq<byte>, length: nat)
    ensures Result(b, length) == -1 <==> length < |b| + 2 || (b != [] && SizeUpTo(b, |b| - 1) >= length)
    ensures Result(b, length) != -1 ==> Result(b, length) == |Frame(b)| == Written(b, length)
  {
    var j := StopsAt(b, 0, length);
    WholeSize(b);
    if j < |b| {
      SizeMonotone(b, j, |b| - 1);
    }
  }

  /** A frame that is given up has filled the buffer, to the last octet or with one too many. */
  lemma GivenUpWhenFull(b: seq<byte>, length: nat)
    requires length >= |b| + 2 && Result(b, length) == -1
    ensures length <= Written(b, length) <= length + 1
    ensures exists j :: 0 <= j < |b| && Written(b, length) == SizeUpTo(b, j)
  {
    var j := StopsAt(b, 0, length);
    assert Written(b, length) == SizeUpTo(b, j);
    assert b[..0] == [];
    if j > 0 {
      SizeGrows(b, j - 1);
    }
  }

  lemma OverrunOctets(b: seq<byte>)
    requires b == [1, 0, 1, START]
    ensures Written(b, 6) == 7 && Result(b, 6) == 7
  {
    assert b[..0] == [];
    SizeGrows(b, 0);
    SizeGrows(b, 1);
    SizeGrows(b, 2);
    SizeGrows(b, 3);
    WholeSize(b);
  }

  lemma SerializedCommand(value: seq<byte>)
    requires |value| < 256
    ensures Serialize([RawTlv(TLV_COMMAND, value)]) == [1, 0, |value| as byte] + value
  {
    var t := RawTlv(TLV_COMMAND, value);
    SerializeSnoc([], t);
    assert [] + [t] == [t];
    assert ToBigEndian(0, 1) == [0] && ToBigEndian(|value|, 2) == [0, |value| as byte];
  }

  /** A message of one TLV with a marker for its value, and a buffer one octet too small for its frame. */
  lemma OverrunExample()
    ensures var b := Serialize([RawTlv(TLV_COMMAND, [START])]);
      |b| + 2 == 6 && Written(b, 6) == 7 && Result(b, 6) == 7
  {
    SerializedCommand([START]);
    OverrunOctets(Serialize([RawTlv(TLV_COMMAND, [START])]));
  }

  lemma OverrunTwoOctets(b: seq<byte>)
    requires b == [1, 0, 2, START, START]
    ensures Written(b, 7) == 9 && Result(b, 7) == 9
  {
    assert b[..0] == [];
    SizeGrows(b, 0);
    SizeGrows(b, 1);
    SizeGrows(b, 2);
    SizeGrows(b, 3);
    SizeGrows(b, 4);
    WholeSize(b);
  }

  /** The bound of two is reached: with two markers nine octets go into a buffer of seven. */
  lemma OverrunOfTwo()
    ensures var b := Serialize([RawTlv(TLV_COMMAND, [START, START])]);
      |b| + 2 == 7 && Written(b, 7) == 9 && Result(b, 7) == 9
  {
    SerializedCommand([START, START]);
    OverrunTwoOctets(Serialize([RawTlv(TLV_COMMAND, [START, START])]));
  }

  lemma {:induction false} FewMarkers(s: seq<byte>)
    ensures CountMarkers(s) <= |s|
  {
    if s != [] {
      FewMarkers(s[..|s| - 1]);
    }
  }

  /** Whatever the payload, a buffer of twice its size and two gets exactly its frame. */
  lemma AmpleRoom(b: seq<byte>, length: nat)
    requires length >= 2 * |b| + 2
    ensures Result(b, length) == |Frame(b)| == Written(b, length) <= 2 * |b| + 2
  {
    FewMarkers(b);
    FrameSize(b);
    EnoughRoom(b, length);
  }

  lemma ReachesOctet(b: seq<byte>, length: nat, i: nat)
    requires length >= |b| + 2 && i < StopsAt(b, 0, length)
    ensures SizeUpTo(b, i + 1) <= Written(b, length)
  {
    var j := StopsAt(b, 0, length);
    SizeMonotone(b, i + 1, j);
    WholeSize(b);
  }

  method FrameMessage(frame: array<byte>, length: nat, message: Message) returns (r: int)
    requires message.Valid()
    // what C needs for the writes to be defined; `EnoughRoom` gives the condition on `length` alone
    requires Written(Serialize(message.Contents()), length) <= frame.Length
    modifies frame
    ensures var b := Serialize(old(message.Contents()));
      var w := Written(b, length);
      && r == Result(b, length)
      && w <= |Frame(b)|
      && frame[..] == Frame(b)[..w] + old(frame[..])[w..]
  {
    ghost var was := frame[..];
    var bufferSize := message.SerializedSize();
    ghost var b := Serialize(message.Contents());
    if length < bufferSize + 2 {
      return -1;
    }
    var buffer := new byte[bufferSize];
    FittingIsMost(message.Contents(), bufferSize);
    var result := message.SerializeTo(buffer, bufferSize);
    assert message.Contents()[..message.length] == message.Contents();
    if result != bufferSize {
      return -1;
    }
    var bytes := buffer[..];
    assert bytes == b;
    r := WriteFrame(frame, length, bytes);
  }

  /** The framing loop, frame.c:147-168, on the serialised message. */
  method WriteFrame(frame: array<byte>, length: nat, b: seq<byte>) returns (r: int)
    requires length >= |b| + 2 && Written(b, length) <= frame.Length
    modifies frame
    ensures var w := Written(b, length);
      && r == Result(b, length)
      && w <= |Frame(b)|
      && frame[..] == Frame(b)[..w] + old(frame[..])[w..]
  {
    ghost var was := frame[..];
    ghost var stop := StopsAt(b, 0, length);
    WrittenAtLeast(b, length);
    frame[0] := START;
    assert frame[..] == [START] + was[1..];
    var index, full := WriteContent(frame, length, b, was);
    ghost var done := [START] + Escape(b[..stop]);
    if full {
      FrameBegins(b, stop);
      return -1;
    }
    assert b[..stop] == b;
    PutLast(done, was, index);
    frame[index] := END;
    assert Frame(b)[..index + 1] == Frame(b);
    return index + 1;
  }

  lemma FrameBegins(b: seq<byte>, i: nat)
    requires i <= |b|
    ensures SizeUpTo(b, i) <= |Frame(b)| && Frame(b)[..SizeUpTo(b, i)] == [START] + Escape(b[..i])
  {
    SizeMonotone(b, i, |b|);
    assert b[..|b|] == b;
  }

  lemma WrittenAtLeast(b: seq<byte>, length: nat)
    requires length >= |b| + 2
    ensures 1 <= SizeUpTo(b, StopsAt(b, 0, length)) <= Written(b, length) <= |Frame(b)|
    ensures StopsAt(b, 0, length) == |b| ==> Written(b, length) == SizeUpTo(b, |b|) + 1 == |Frame(b)|
  {
    WholeSize(b);
    SizeMonotone(b, StopsAt(b, 0, length), |b|);
  }

  /** The loop at frame.c:150-164; `full` when it gave up. */
  method WriteContent(frame: array<byte>, length: nat, b: seq<byte>, ghost was: seq<byte>)
    returns (index: nat, full: bool)
    requires length >= |b| + 2 && 1 <= Written(b, length) <= frame.Length == |was|
    requires frame[..] == [START] + was[1..]
    modifies frame
    ensures var j := StopsAt(b, 0, length);
      && full == (j < |b|)
      && index == SizeUpTo(b, j) <= frame.Length
      && frame[..] == [START] + Escape(b[..j]) + was[index..]
  {
    ghost var done := [START];
    assert b[..0] == [];
    index := 1;
    var i := 0;
    while i < |b|
      invariant i <= StopsAt(b, 0, length) && index == SizeUpTo(b, i) == |done| <= frame.Length
      invariant done == [START] + Escape(b[..i])
      invariant frame[..] == done + was[index..]
    {
      if index >= length {
        return index, true;
      }
      ReachesOctet(b, length, i);
      SizeGrows(b, i);
      index := PutOctet(frame, index, b[i], done, was);
      Concat([START], Escape(b[..i]), EscapeOctet(b[i]));
      done := done + EscapeOctet(b[i]);
      i := i + 1;
    }
    return index, false;
  }

  lemma Concat(a: seq<byte>, b: seq<byte>, c: seq<byte>)
    ensures a + b + c == a + (b + c)
  {
  }

  lemma PutLast(done: seq<byte>, was: seq<byte>, index: nat)
    requires index == |done| < |was|
    ensures (done + was[index..])[index := END] == done + [END] + was[index + 1..]
  {
  }

  /** The body of the framing loop: one octet, escaped if it is a marker. */
  method PutOctet(frame: array<byte>, index: nat, b: byte, ghost done: seq<byte>, ghost was: seq<byte>)
    returns (next: nat)
    requires |was| == frame.Length && index == |done| && index + |EscapeOctet(b)| <= frame.Length
    requires frame[..] == done + was[index..]
    modifies frame
    ensures next == index + |EscapeOctet(b)|
    ensures frame[..] == done + EscapeOctet(b) + was[next..]
  {
    next := index;
    if b == START || b == END || b == ESCAPE {
      frame[next] := ESCAPE;
      next := next + 1;
    }
    frame[next] := b;
    next := next + 1;
  }
}
