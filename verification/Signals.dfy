/** Writing the bit signals of both channels into one buffer, any number of times. */
module Signals {
  import opened BitStream

  /** What the two channels send. */
  datatype Signal = Signal(first: seq<bool>, second: seq<bool>) {

    function Bits(c: nat): seq<bool> {
      if c == 0 then first else second
    }

    /** Where a channel's bits begin: `bitpos` is carried over from the first channel to the second. */
    function Offset(c: nat): nat {
      if c == 0 then 0 else |first| % 32
    }

    function End(c: nat): nat {
      Offset(c) + |Bits(c)|
    }

    predicate Fits(words: nat) {
      words % CHANNELS == 0 && End(0) <= 16 * words && End(1) <= 16 * words
    }

    predicate SameLengths(s: Signal) {
      |first| == |s.first| && |second| == |s.second|
    }
  }

  /** Both channels painted, one after the other. */
  function Sent(raw: seq<bv32>, s: Signal): (r: seq<bv32>)
    requires s.Fits(|raw|)
    ensures |r| == |raw|
  {
    Paint(Paint(raw, 0, 0, s.first), 1, s.Offset(1), s.second)
  }

  /** Each channel's bits are in place, and every other bit of the buffer is as before. */
  lemma SentAt(raw: seq<bv32>, s: Signal, c: nat, q: nat)
    requires s.Fits(|raw|) && c < CHANNELS && Holds(raw, q + 1)
    ensures StreamBit(Sent(raw, s), c, q) ==
      if s.Offset(c) <= q < s.End(c) then s.Bits(c)[q - s.Offset(c)] else StreamBit(raw, c, q)
  {
    PaintAt(raw, 0, 0, s.first, c, q);
    PaintAt(Paint(raw, 0, 0, s.first), 1, s.Offset(1), s.second, c, q);
  }

  /** `n` bits of a channel as they lie in the buffer. */
  function ReadBack(raw: seq<bv32>, c: nat, p: nat, n: nat): (s: seq<bool>)
    requires c < CHANNELS && Holds(raw, p + n)
    ensures |s| == n
    ensures forall i :: 0 <= i < n ==> s[i] == StreamBit(raw, c, p + i)
  {
    seq(n, i requires 0 <= i < n => StreamBit(raw, c, p + i))
  }

  lemma SentReadsBack(raw: seq<bv32>, s: Signal, c: nat)
    requires s.Fits(|raw|) && c < CHANNELS
    ensures ReadBack(Sent(raw, s), c, s.Offset(c), |s.Bits(c)|) == s.Bits(c)
  {
    forall i | 0 <= i < |s.Bits(c)| ensures StreamBit(Sent(raw, s), c, s.Offset(c) + i) == s.Bits(c)[i] {
      SentAt(raw, s, c, s.Offset(c) + i);
    }
  }

  /** The buffer after one signal after the other. */
  function SentAll(raw: seq<bv32>, run: seq<Signal>): (r: seq<bv32>)
    requires forall s :: s in run ==> s.Fits(|raw|)
    ensures |r| == |raw|
  {
    if run == [] then raw else Sent(SentAll(raw, run[..|run| - 1]), run[|run| - 1])
  }

  /** Over a run of signals of the same lengths, the bits outside them never change. */
  lemma {:induction false} OutsideUnchanged(raw: seq<bv32>, shape: Signal, run: seq<Signal>, c: nat, q: nat)
    requires forall s :: s in run ==> s.Fits(|raw|) && s.SameLengths(shape)
    requires c < CHANNELS && Holds(raw, q + 1) && !(shape.Offset(c) <= q < shape.End(c))
    ensures StreamBit(SentAll(raw, run), c, q) == StreamBit(raw, c, q)
  {
    if run != [] {
      OutsideUnchanged(raw, shape, run[..|run| - 1], c, q);
      SentAt(SentAll(raw, run[..|run| - 1]), run[|run| - 1], c, q);
    }
  }

  /** A signal leaves no trace of those before it: the buffer is that of the last one alone. */
  lemma OnlyLastCounts(raw: seq<bv32>, run: seq<Signal>, last: Signal)
    requires last.Fits(|raw|) && forall s :: s in run ==> s.Fits(|raw|) && s.SameLengths(last)
    ensures Sent(SentAll(raw, run), last) == Sent(raw, last)
  {
    forall c, q | 0 <= c < CHANNELS && 0 <= q < 16 * |raw|
      ensures StreamBit(Sent(SentAll(raw, run), last), c, q) == StreamBit(Sent(raw, last), c, q)
    {
      SentAt(SentAll(raw, run), last, c, q);
      SentAt(raw, last, c, q);
      if !(last.Offset(c) <= q < last.End(c)) {
        OutsideUnchanged(raw, last, run, c, q);
      }
    }
    SameStreams(Sent(SentAll(raw, run), last), Sent(raw, last));
  }

  lemma ZeroStream(raw: seq<bv32>, c: nat, q: nat)
    requires forall k :: 0 <= k < |raw| ==> raw[k] == 0
    requires c < CHANNELS && Holds(raw, q + 1)
    ensures !StreamBit(raw, c, q)
  {
    ZeroBits(BitPos(q));
  }

  /** Sent into a cleared buffer, everything behind a channel's bits stays zero. */
  lemma TailStaysZero(raw: seq<bv32>, shape: Signal, run: seq<Signal>, c: nat, q: nat)
    requires forall k :: 0 <= k < |raw| ==> raw[k] == 0
    requires forall s :: s in run ==> s.Fits(|raw|) && s.SameLengths(shape)
    requires c < CHANNELS && Holds(raw, q + 1) && shape.End(c) <= q
    ensures !StreamBit(SentAll(raw, run), c, q)
  {
    OutsideUnchanged(raw, shape, run, c, q);
    ZeroStream(raw, c, q);
  }
}
