/** Rendering into the DMA buffer, and how large the buffer must be. */
module Ws2811 {
  import opened Bytes
  import opened BitStream
  import opened Pixels
  import opened Signals

  const LED_COLOURS := 4
  const LED_RESET_US := 55
  const DMA_CB_SIZE := 32
  const PAGE_SIZE := 4096

  // ---- Sizes ----

  function ResetBits(freq: nat): nat {
    LED_RESET_US * (freq * 3) / 1000000
  }

  /** LED_BIT_COUNT */
  function LedBitCount(leds: nat, freq: nat): nat {
    leds * LED_COLOURS * 8 * 3 + ResetBits(freq)
  }

  /** PWM_BYTE_COUNT: a shift by three and a mask with ~7 */
  function PwmByteCount(leds: nat, freq: nat): nat {
    var octets := LedBitCount(leds, freq) / 8;
    (octets - octets % 8 + 4 + 4) * CHANNELS
  }

  /** The words of the buffer. */
  function PwmWordCount(leds: nat, freq: nat): nat {
    PwmByteCount(leds, freq) / 4
  }

  /** The allocation at ws2811.c:480-483: buffer and control block, rounded up to whole pages. */
  function MboxSize(leds: nat, freq: nat): nat {
    var size := PwmByteCount(leds, freq) + DMA_CB_SIZE + (PAGE_SIZE - 1);
    size - size % PAGE_SIZE
  }

  function MaxCount(channels: seq<Channel>): nat {
    if channels == [] then 0
    else
      var rest, count := MaxCount(channels[..|channels| - 1]), channels[|channels| - 1].count;
      if count > rest then count else rest
  }

  lemma {:induction false} MaxCountBounds(channels: seq<Channel>, i: nat)
    requires i < |channels|
    ensures channels[i].count <= MaxCount(channels)
  {
    if i < |channels| - 1 {
      MaxCountBounds(channels[..|channels| - 1], i);
    }
  }

  /** It is the count of a channel, or 0. */
  lemma {:induction false} MaxCountAttained(channels: seq<Channel>)
    ensures MaxCount(channels) == 0 || exists i :: 0 <= i < |channels| && channels[i].count == MaxCount(channels)
  {
    if channels != [] {
      var front := channels[..|channels| - 1];
      MaxCountAttained(front);
      if MaxCount(channels) != 0 && MaxCount(channels) == MaxCount(front) {
        var i :| 0 <= i < |front| && front[i].count == MaxCount(front);
        assert channels[i] == front[i];
      }
    }
  }

  /** `max_channel_led_count` */
  method MaxChannelLedCount(channels: seq<Channel>) returns (max: nat)
    ensures max == MaxCount(channels)
  {
    max := 0;
    for chan := 0 to |channels|
      invariant max == MaxCount(channels[..chan])
    {
      assert channels[..chan + 1][..chan] == channels[..chan];
      if channels[chan].count > max {
        max := channels[chan].count;
      }
    }
    assert channels[..|channels|] == channels;
  }

  /** Every LED takes 96 bits, as if it had white, and the reset 55 microseconds of three bits a cycle. */
  lemma BitsNeeded(leds: nat, freq: nat)
    ensures LedBitCount(leds, freq) == 96 * leds + 165 * freq / 1000000
    ensures ResetBits(800000) == 132
  {
  }

  /** Each channel's stream is a whole number of 64-bit steps, longer than the LEDs and the reset need. */
  lemma StreamLength(leds: nat, freq: nat)
    ensures PwmWordCount(leds, freq) % CHANNELS == 0 && 4 * PwmWordCount(leds, freq) == PwmByteCount(leds, freq)
    ensures 16 * PwmWordCount(leds, freq) == 64 * (LedBitCount(leds, freq) / 64) + 64
    ensures 16 * PwmWordCount(leds, freq) > LedBitCount(leds, freq)
  {
    var bits := LedBitCount(leds, freq);
    var octets := bits / 8;
    assert octets / 8 == bits / 64;
    assert octets - octets % 8 == 8 * (octets / 8);
    assert PwmByteCount(leds, freq) == 16 * (bits / 64) + 16;
    assert PwmWordCount(leds, freq) == 4 * (bits / 64) + 4;
  }

  /** The control block and every octet of the buffer lie inside the allocation. */
  lemma BufferInsideAllocation(leds: nat, freq: nat)
    ensures 4 * PwmWordCount(leds, freq) == PwmByteCount(leds, freq)
    ensures 32 + PwmByteCount(leds, freq) <= MboxSize(leds, freq) < 32 + PwmByteCount(leds, freq) + 4096
    ensures MboxSize(leds, freq) % 4096 == 0
  {
    StreamLength(leds, freq);
    WholePages(PwmByteCount(leds, freq) + DMA_CB_SIZE);
  }

  lemma WholePages(size: nat)
    ensures var s := size + (PAGE_SIZE - 1); s - s % PAGE_SIZE >= size && (s - s % PAGE_SIZE) % PAGE_SIZE == 0
  {
    var s := size + (PAGE_SIZE - 1);
    assert s - s % PAGE_SIZE == PAGE_SIZE * (s / PAGE_SIZE);
  }

  /** C's 32-bit integers hold every intermediate value for up to 22 million LEDs. */
  lemma NoOverflow(leds: nat, freq: nat)
    requires leds <= 22_000_000 && freq <= 800_000
    ensures LED_RESET_US * (freq * 3) < 0x8000_0000 && LedBitCount(leds, freq) < 0x8000_0000
    ensures PwmByteCount(leds, freq) + DMA_CB_SIZE + PAGE_SIZE < 0x8000_0000
  {
  }

  // ---- Rendering ----

  predicate ValidPair(channels: seq<Channel>) {
    |channels| == CHANNELS && channels[0].Valid() && channels[1].Valid()
  }

  const NO_LEDS := Channel(0, [], 0, 0, 0, 0, 0, 0)

  /** The channels of a `ws2811_t`. */
  type Pair = channels: seq<Channel> | ValidPair(channels) witness [NO_LEDS, NO_LEDS]

  /** What the two channels send for their LEDs. */
  function SignalOf(channels: seq<Channel>): Signal
    requires |channels| == CHANNELS
  {
    Signal(ChannelBits(channels[0]), ChannelBits(channels[1]))
  }

  /** Where a channel's data end. */
  function DataEnd(channels: seq<Channel>, c: nat): nat
    requires |channels| == CHANNELS && c < CHANNELS
  {
    if c == 0 then WireLength(channels[0]) else WireLength(channels[0]) % 32 + WireLength(channels[1])
  }

  /** The buffer has room for both channels, the second from where the first leaves off. */
  predicate HasRoom(words: nat, channels: seq<Channel>)
    requires |channels| == CHANNELS
  {
    words % CHANNELS == 0 && DataEnd(channels, 0) <= 16 * words && DataEnd(channels, 1) <= 16 * words
  }

  /** `bits` have been written over `was`, and the cursor stands behind them. */
  ghost predicate Painting(raw: seq<bv32>, was: seq<bv32>, c: nat, p: nat, bits: seq<bool>, wordpos: nat, bitpos: int)
    requires c < CHANNELS
  {
    && Holds(was, p + |bits|) && raw == Paint(was, c, p, bits)
    && wordpos == WordPos(c, p + |bits|) && bitpos == BitPos(p + |bits|)
  }

  /** The body of the innermost loop. */
  method WriteBit(raw: array<bv32>, c: nat, wordpos: nat, bitpos: int, v: bool,
                  ghost was: seq<bv32>, ghost p: nat, ghost done: seq<bool>)
    returns (wordpos': nat, bitpos': int)
    requires c < CHANNELS && Painting(raw[..], was, c, p, done, wordpos, bitpos) && Holds(was, p + |done| + 1)
    modifies raw
    ensures Painting(raw[..], was, c, p, done + [v], wordpos', bitpos')
  {
    wordpos', bitpos' := wordpos, bitpos;
    PaintNext(raw[..], was, c, p, done, v, wordpos, bitpos);
    var w := Clear(raw[wordpos], Mask(bitpos));
    if v {
      w := Set(w, Mask(bitpos));
    }
    raw[wordpos] := w;
    bitpos' := bitpos' - 1;
    if bitpos' < 0 {
      wordpos' := wordpos' + 2;
      bitpos' := 31;
    }
    NextPosition(c, p + |done|);
  }

  lemma PaintNext(raw: seq<bv32>, was: seq<bv32>, c: nat, p: nat, done: seq<bool>, v: bool, wordpos: nat, bitpos: int)
    requires c < CHANNELS && Painting(raw, was, c, p, done, wordpos, bitpos) && Holds(was, p + |done| + 1)
    ensures wordpos < |raw| && 0 <= bitpos < 32
    ensures raw[wordpos := PutBit(raw[wordpos], bitpos, v)] == Paint(was, c, p, done + [v])
  {
    PaintSnoc(was, c, p, done, v);
    OnePainted(raw, c, p + |done|, v, wordpos, bitpos);
  }

  lemma OnePainted(raw: seq<bv32>, c: nat, q: nat, v: bool, wordpos: nat, bitpos: int)
    requires c < CHANNELS && Holds(raw, q + 1) && wordpos == WordPos(c, q) && bitpos == BitPos(q)
    ensures wordpos < |raw| && 0 <= bitpos < 32
    ensures raw[wordpos := PutBit(raw[wordpos], bitpos, v)] == PaintOne(raw, c, q, v)
  {
  }

  lemma Concat(a: seq<bool>, b: seq<bool>, c: seq<bool>)
    ensures a + b + c == a + (b + c)
  {
  }

  /** The loop over the bits of a symbol. */
  method WriteBits(raw: array<bv32>, c: nat, wordpos: nat, bitpos: int, symbol: nat,
                   ghost was: seq<bv32>, ghost p: nat, ghost done: seq<bool>)
    returns (wordpos': nat, bitpos': int)
    requires c < CHANNELS && Painting(raw[..], was, c, p, done, wordpos, bitpos) && Holds(was, p + |done| + 3)
    modifies raw
    ensures Painting(raw[..], was, c, p, done + Falling(symbol, 2, 3), wordpos', bitpos')
  {
    wordpos', bitpos' := wordpos, bitpos;
    ghost var all := done;
    var l := 2;
    while l >= 0
      invariant -1 <= l <= 2 && all == done + Falling(symbol, 2, 2 - l)
      invariant Painting(raw[..], was, c, p, all, wordpos', bitpos')
    {
      var v := BitOf(symbol, l);
      OneMoreFalling(done, all, symbol, 2 - l, v);
      wordpos', bitpos' := WriteBit(raw, c, wordpos', bitpos', v, was, p, all);
      all := all + [v];
      l := l - 1;
    }
  }

  lemma OneMoreFalling(done: seq<bool>, all: seq<bool>, symbol: nat, n: nat, v: bool)
    requires n <= 2 && all == done + Falling(symbol, 2, n) && v == BitOf(symbol, 2 - n)
    ensures all + [v] == done + Falling(symbol, 2, n + 1)
  {
    FallingSnoc(symbol, 2, n);
  }

  /** The symbol for a bit of colour: a high bit is 110, a low one 100. */
  method WriteSymbol(raw: array<bv32>, c: nat, wordpos: nat, bitpos: int, bit: bool,
                     ghost was: seq<bv32>, ghost p: nat, ghost done: seq<bool>)
    returns (wordpos': nat, bitpos': int)
    requires c < CHANNELS && Painting(raw[..], was, c, p, done, wordpos, bitpos) && Holds(was, p + |done| + 3)
    modifies raw
    ensures Painting(raw[..], was, c, p, done + Symbol(bit), wordpos', bitpos')
  {
    var symbol := SYMBOL_LOW;
    if bit {
      symbol := SYMBOL_HIGH;
    }
    wordpos', bitpos' := WriteBits(raw, c, wordpos, bitpos, symbol, was, p, done);
  }

  lemma FallingSnoc(x: nat, top: nat, n: nat)
    requires n <= top
    ensures Falling(x, top, n + 1) == Falling(x, top, n) + [BitOf(x, top - n)]
  {
  }

  /** The loop over the bits of a colour. */
  method WriteColour(raw: array<bv32>, c: nat, wordpos: nat, bitpos: int, colour: uint8,
                     ghost was: seq<bv32>, ghost p: nat, ghost done: seq<bool>)
    returns (wordpos': nat, bitpos': int)
    requires c < CHANNELS && Painting(raw[..], was, c, p, done, wordpos, bitpos) && Holds(was, p + |done| + 24)
    modifies raw
    ensures Painting(raw[..], was, c, p, done + ColourBits(colour), wordpos', bitpos')
  {
    wordpos', bitpos' := wordpos, bitpos;
    ghost var bits: seq<bool> := [];
    assert done + bits == done;
    var k := 7;
    while k >= 0
      invariant -1 <= k <= 7 && bits == Symbols(HighBits(colour, 7 - k))
      invariant Painting(raw[..], was, c, p, done + bits, wordpos', bitpos')
    {
      var v := BitOf(colour, k);
      OneMoreBit(colour, k);
      Concat(done, bits, Symbol(v));
      wordpos', bitpos' := WriteSymbol(raw, c, wordpos', bitpos', v, was, p, done + bits);
      bits := bits + Symbol(v);
      k := k - 1;
    }
  }

  lemma OneMoreBit(colour: uint8, k: nat)
    requires k < 8
    ensures Symbols(HighBits(colour, 8 - k)) == Symbols(HighBits(colour, 7 - k)) + Symbol(BitOf(colour, k))
  {
    FallingSnoc(colour, 7, 7 - k);
    SymbolsSnoc(HighBits(colour, 7 - k), BitOf(colour, k));
  }

  lemma SymbolsSnoc(bits: seq<bool>, v: bool)
    ensures Symbols(bits + [v]) == Symbols(bits) + Symbol(v)
  {
    assert (bits + [v])[..|bits|] == bits;
  }

  /** The loop over the colours of an LED. */
  method WriteColours(raw: array<bv32>, c: nat, wordpos: nat, bitpos: int, colours: seq<uint8>,
                      ghost was: seq<bv32>, ghost p: nat, ghost done: seq<bool>)
    returns (wordpos': nat, bitpos': int)
    requires c < CHANNELS && Painting(raw[..], was, c, p, done, wordpos, bitpos)
    requires Holds(was, p + |done| + 24 * |colours|)
    modifies raw
    ensures Painting(raw[..], was, c, p, done + ColoursBits(colours), wordpos', bitpos')
  {
    wordpos', bitpos' := wordpos, bitpos;
    ghost var bits: seq<bool> := [];
    assert done + bits == done;
    var j := 0;
    while j < |colours|
      invariant j <= |colours| && bits == ColoursBits(colours[..j])
      invariant Painting(raw[..], was, c, p, done + bits, wordpos', bitpos')
    {
      assert colours[..j + 1][..j] == colours[..j];
      Concat(done, bits, ColourBits(colours[j]));
      wordpos', bitpos' := WriteColour(raw, c, wordpos', bitpos', colours[j], was, p, done + bits);
      bits := bits + ColourBits(colours[j]);
      j := j + 1;
    }
    assert colours[..j] == colours;
  }

  /** The loop over the LEDs of a channel. */
  method WriteLeds(raw: array<bv32>, c: nat, wordpos: nat, bitpos: int, ch: Channel, ghost was: seq<bv32>, ghost p: nat)
    returns (wordpos': nat, bitpos': int)
    requires c < CHANNELS && Painting(raw[..], was, c, p, [], wordpos, bitpos)
    requires ch.Valid() && Holds(was, p + WireLength(ch))
    modifies raw
    ensures Painting(raw[..], was, c, p, ChannelBits(ch), wordpos', bitpos')
  {
    wordpos', bitpos' := wordpos, bitpos;
    ghost var done: seq<bool> := [];
    var i := 0;
    while i < ch.count
      invariant i <= |ch.leds| && done == ColoursBits(AllColours(ch, ch.leds[..i]))
      invariant Painting(raw[..], was, c, p, done, wordpos', bitpos')
    {
      OneMoreLed(ch, i);
      wordpos', bitpos' := WriteColours(raw, c, wordpos', bitpos', Pixels.Colours(ch, ch.leds[i]), was, p, done);
      done := ColoursBits(AllColours(ch, ch.leds[..i + 1]));
      i := i + 1;
    }
    assert ch.leds[..i] == ch.leds;
  }

  /** The body of the loop over the channels. */
  method WriteChannel(raw: array<bv32>, c: nat, bitpos: int, ch: Channel, ghost p: nat) returns (bitpos': int)
    requires c < CHANNELS && ch.Valid() && p < 32 && bitpos == 31 - p
    requires Holds(raw[..], p + WireLength(ch))
    modifies raw
    ensures raw[..] == Paint(old(raw[..]), c, p, ChannelBits(ch))
    ensures bitpos' == BitPos(p + WireLength(ch))
  {
    var wordpos := c;
    wordpos, bitpos' := WriteLeds(raw, c, wordpos, bitpos, ch, raw[..], p);
  }

  lemma OneMoreLed(ch: Channel, i: nat)
    requires i < |ch.leds|
    ensures ColoursBits(AllColours(ch, ch.leds[..i + 1]))
         == ColoursBits(AllColours(ch, ch.leds[..i])) + ColoursBits(Pixels.Colours(ch, ch.leds[i]))
    ensures |ColoursBits(AllColours(ch, ch.leds[..i + 1]))| <= |ChannelBits(ch)|
  {
    assert ch.leds[..i + 1][..i] == ch.leds[..i];
    ColoursBitsConcat(AllColours(ch, ch.leds[..i]), Pixels.Colours(ch, ch.leds[i]));
    MulMonotone(ch.Colours(), i + 1, ch.Colours(), |ch.leds|);
  }

  /** Where a channel's data begin. */
  function DataStart(channels: seq<Channel>, c: nat): (p: nat)
    requires |channels| == CHANNELS && c < CHANNELS
    ensures p < 32
  {
    if c == 0 then 0 else WireLength(channels[0]) % 32
  }

  /** The buffer when `chan` channels have been written. */
  function SentUpTo(raw: seq<bv32>, channels: seq<Channel>, chan: nat): (r: seq<bv32>)
    requires |channels| == CHANNELS && HasRoom(|raw|, channels) && chan <= CHANNELS
    ensures |r| == |raw|
  {
    if chan == 0 then raw
    else
      var c := chan - 1;
      Paint(SentUpTo(raw, channels, c), c, DataStart(channels, c), ChannelBits(channels[c]))
  }

  lemma BothSent(raw: seq<bv32>, channels: seq<Channel>)
    requires |channels| == CHANNELS && HasRoom(|raw|, channels)
    ensures SignalOf(channels).Fits(|raw|) && SentUpTo(raw, channels, 2) == Sent(raw, SignalOf(channels))
  {
    assert SentUpTo(raw, channels, 1) == Paint(raw, 0, 0, SignalOf(channels).first);
  }

  lemma CarriedOver(channels: seq<Channel>)
    requires |channels| == CHANNELS
    ensures BitPos(WireLength(channels[0])) == 31 - DataStart(channels, 1)
  {
    ClosedForm(0, WireLength(channels[0]));
  }

  lemma RoomForChannel(raw: seq<bv32>, channels: seq<Channel>, chan: nat)
    requires |channels| == CHANNELS && HasRoom(|raw|, channels) && chan < CHANNELS
    ensures Holds(raw, DataStart(channels, chan) + WireLength(channels[chan]))
  {
  }

  /** The body of the loop over the channels, where the channels before have left off. */
  method RenderChannel(raw: array<bv32>, channels: seq<Channel>, chan: nat, bitpos: int) returns (bitpos': int)
    requires ValidPair(channels) && HasRoom(raw.Length, channels) && chan < CHANNELS
    requires bitpos == 31 - DataStart(channels, chan)
    modifies raw
    ensures raw[..] == Paint(old(raw[..]), chan, DataStart(channels, chan), ChannelBits(channels[chan]))
    ensures chan + 1 < CHANNELS ==> bitpos' == 31 - DataStart(channels, chan + 1)
  {
    RoomForChannel(raw[..], channels, chan);
    CarriedOver(channels);
    bitpos' := WriteChannel(raw, chan, bitpos, channels[chan], DataStart(channels, chan));
  }

  lemma SentNext(raw: seq<bv32>, channels: seq<Channel>, chan: nat)
    requires |channels| == CHANNELS && HasRoom(|raw|, channels) && chan < CHANNELS
    ensures Holds(raw, DataStart(channels, chan) + WireLength(channels[chan]))
    ensures SentUpTo(raw, channels, chan + 1) ==
      Paint(SentUpTo(raw, channels, chan), chan, DataStart(channels, chan), ChannelBits(channels[chan]))
  {
  }

  /** `ws2811_render`, up to the transfer */
  method Render(raw: array<bv32>, channels: seq<Channel>)
    requires ValidPair(channels) && HasRoom(raw.Length, channels)
    modifies raw
    ensures raw[..] == Sent(old(raw[..]), SignalOf(channels))
  {
    ghost var was := raw[..];
    var bitpos := 31;
    var chan := 0;
    while chan < CHANNELS
      invariant chan <= CHANNELS && raw[..] == SentUpTo(was, channels, chan)
      invariant chan < CHANNELS ==> bitpos == 31 - DataStart(channels, chan)
    {
      SentNext(was, channels, chan);
      bitpos := RenderChannel(raw, channels, chan, bitpos);
      chan := chan + 1;
    }
    BothSent(was, channels);
  }

  // ---- The buffer that `ws2811_init` allocates ----

  /** The `j`th word of a channel. */
  function At(chan: nat, j: nat): nat {
    chan + 2 * j
  }

  /** The inner loop of `pwm_raw_init` */
  method ClearChannel(raw: array<bv32>, chan: nat, wordcount: nat)
    requires chan < CHANNELS && raw.Length == 2 * wordcount
    modifies raw
    ensures forall j :: 0 <= j < wordcount ==> raw[At(chan, j)] == 0
    ensures forall c, j :: 0 <= c < CHANNELS && c != chan && 0 <= j < wordcount ==> raw[At(c, j)] == old(raw[At(c, j)])
  {
    var i, wordpos := 0, chan;
    while i < wordcount
      invariant i <= wordcount && wordpos == At(chan, i)
      invariant forall j :: 0 <= j < i ==> raw[At(chan, j)] == 0
      invariant forall c, j :: 0 <= c < CHANNELS && c != chan && 0 <= j < wordcount ==>
                  raw[At(c, j)] == old(raw[At(c, j)])
    {
      raw[wordpos] := 0;
      wordpos := wordpos + 2;
      i := i + 1;
    }
  }

  /** `pwm_raw_init` */
  method PwmRawInit(raw: array<bv32>, channels: seq<Channel>, freq: nat)
    requires |channels| == CHANNELS && raw.Length == PwmWordCount(MaxCount(channels), freq)
    modifies raw
    ensures forall k :: 0 <= k < raw.Length ==> raw[k] == 0
  {
    var maxcount := MaxChannelLedCount(channels);
    StreamLength(maxcount, freq);
    var wordcount := PwmByteCount(maxcount, freq) / 4 / CHANNELS;
    var chan := 0;
    while chan < CHANNELS
      invariant chan <= CHANNELS
      invariant chan > 0 ==> forall j :: 0 <= j < wordcount ==> raw[At(0, j)] == 0
      invariant chan > 1 ==> forall j :: 0 <= j < wordcount ==> raw[At(1, j)] == 0
    {
      ClearChannel(raw, chan, wordcount);
      chan := chan + 1;
    }
    forall k | 0 <= k < raw.Length ensures raw[k] == 0 {
      assert k == At(k % 2, k / 2);
    }
  }

  lemma EightBitSteps(n: nat)
    ensures (24 * n) % 32 == 8 * (3 * n % 4) <= 24
  {
  }

  lemma ChannelLength(channels: seq<Channel>, c: nat)
    requires ValidPair(channels) && c < CHANNELS
    ensures |ChannelBits(channels[c])| <= 96 * MaxCount(channels)
  {
    MaxCountBounds(channels, c);
    FourColours(channels[c].Colours(), |channels[c].leds|);
  }

  lemma FourColours(colours: nat, n: nat)
    requires colours <= 4
    ensures colours * n <= 4 * n
  {
  }

  /** Channel 1 starts at most 24 bits late, and in time exactly when channel 0's octets come in fours. */
  lemma SecondOffset(channels: seq<Channel>)
    requires ValidPair(channels)
    ensures SignalOf(channels).Offset(1) == 24 * (channels[0].Colours() * |channels[0].leds|) % 32 <= 24
    ensures SignalOf(channels).Offset(1) == 0 <==> channels[0].Colours() * |channels[0].leds| % 4 == 0
  {
    var n := channels[0].Colours() * |channels[0].leds|;
    EightBitSteps(n);
    ThreeTimes(n);
  }

  lemma ThreeTimes(n: nat)
    ensures 3 * n % 4 == 0 <==> n % 4 == 0
  {
  }

  /** Rounding up leaves room for the latest start there is: LEDs come in steps of 32 bits, the stream in 64. */
  lemma LateStartFits(bits: nat, n: nat)
    requires bits >= 96 * n
    ensures 96 * n + 24 <= 64 * (bits / 64) + 64
  {
    assert 64 * (bits / 64) + 64 - 96 * n == 32 * (2 * (bits / 64) + 2 - 3 * n);
  }

  /** At every frequency the buffer holds both channels, whatever their counts and strips. */
  lemma BufferHoldsChannels(channels: seq<Channel>, freq: nat)
    requires ValidPair(channels)
    ensures HasRoom(PwmWordCount(MaxCount(channels), freq), channels)
    ensures SignalOf(channels).Fits(PwmWordCount(MaxCount(channels), freq))
  {
    StreamLength(MaxCount(channels), freq);
    LateStartFits(LedBitCount(MaxCount(channels), freq), MaxCount(channels));
    ChannelLength(channels, 0);
    ChannelLength(channels, 1);
    SecondOffset(channels);
  }

  /** The bits of the buffer behind a channel's data. */
  function Gap(channels: seq<Channel>, freq: nat, c: nat): int
    requires |channels| == CHANNELS && c < CHANNELS
  {
    16 * PwmWordCount(MaxCount(channels), freq) - SignalOf(channels).End(c)
  }

  /** Channel 0 ends in more bits than the reset needs; channel 1 in fewer by at most its late start. */
  lemma GapLength(channels: seq<Channel>, freq: nat, c: nat)
    requires ValidPair(channels) && c < CHANNELS
    ensures Gap(channels, freq, c) > ResetBits(freq) - SignalOf(channels).Offset(c)
  {
    StreamLength(MaxCount(channels), freq);
    ChannelLength(channels, c);
  }

  /** The strips use up channel 1, and its late start does not fit what rounding up has added. */
  predicate SecondResetCut(channels: seq<Channel>, freq: nat)
    requires |channels| == CHANNELS
  {
    && channels[1].HasWhite() && |channels[1].leds| == MaxCount(channels)
    && WireLength(channels[0]) % 32 + (96 * MaxCount(channels) + ResetBits(freq)) % 64 > 64
  }

  /** Exactly when channel 1's reset signal is long enough. */
  lemma SecondResetLongEnough(channels: seq<Channel>, freq: nat)
    requires ValidPair(channels)
    ensures Gap(channels, freq, 1) >= ResetBits(freq) <==> !SecondResetCut(channels, freq)
  {
    StreamLength(MaxCount(channels), freq);
    SecondOffset(channels);
    MaxCountBounds(channels, 1);
    var bits := LedBitCount(MaxCount(channels), freq);
    assert bits == 96 * MaxCount(channels) + ResetBits(freq);
    assert bits == 64 * (bits / 64) + bits % 64;
  }

  /** WS2811_TARGET_FREQ, the frequency the driver sets up */
  const TARGET_FREQ := 800000

  lemma Remainder(n: nat)
    ensures (96 * n + 132) % 64 <= 36
  {
    assert 96 * n + 132 == 64 * (n + n / 2 + 2) + 32 * (n % 2) + 4;
  }

  lemma NeverCutAtTarget(channels: seq<Channel>)
    requires ValidPair(channels)
    ensures ResetBits(TARGET_FREQ) == 132 && !SecondResetCut(channels, TARGET_FREQ)
  {
    SecondOffset(channels);
    Remainder(MaxCount(channels));
  }

  /** At the driver's frequency neither reset is ever short, whatever the counts and strips. */
  lemma ResetsLongAtTarget(channels: seq<Channel>, c: nat)
    requires ValidPair(channels) && c < CHANNELS
    ensures Gap(channels, TARGET_FREQ, c) >= ResetBits(TARGET_FREQ)
  {
    if c == 0 {
      GapLength(channels, TARGET_FREQ, 0);
    } else {
      NeverCutAtTarget(channels);
      SecondResetLongEnough(channels, TARGET_FREQ);
    }
  }

  /** At another frequency it can be: three RGB LEDs on channel 0, three RGBW on channel 1. */
  lemma SecondResetShort(a: Channel, b: Channel)
    requires a.Valid() && b.Valid() && a.count == b.count == 3 && !a.HasWhite() && b.HasWhite()
    ensures Gap([a, b], 575_758, 1) < ResetBits(575_758)
  {
    assert [a, b][..1] == [a] && [a][..0] == [];
    assert MaxCount([a]) == 3;
    assert ResetBits(575_758) == 95;
    assert SecondResetCut([a, b], 575_758);
    SecondResetLongEnough([a, b], 575_758);
  }

  // ---- Any number of renders ----

  /** The same strips, with other colours or another brightness. */
  predicate SameShape(a: seq<Channel>, b: seq<Channel>) {
    && ValidPair(a) && ValidPair(b)
    && a[0].count == b[0].count && a[0].stripType == b[0].stripType
    && a[1].count == b[1].count && a[1].stripType == b[1].stripType
  }

  lemma SameShapeSameLengths(a: seq<Channel>, b: seq<Channel>)
    requires SameShape(a, b)
    ensures SignalOf(a).SameLengths(SignalOf(b)) && MaxCount(a) == MaxCount(b)
  {
    assert a[..2] == a && b[..2] == b;
    assert a[..1][..0] == [] && b[..1][..0] == [];
    assert MaxCount(a[..1]) == MaxCount(b[..1]);
  }

  function SignalsOf(pictures: seq<Pair>): (run: seq<Signal>)
    ensures |run| == |pictures| && forall i :: 0 <= i < |run| ==> run[i] == SignalOf(pictures[i])
  {
    seq(|pictures|, i requires 0 <= i < |pictures| => SignalOf(pictures[i]))
  }

  /** Pictures for the same strips fit the buffer, and put their bits in the same places. */
  ghost predicate Consistent(words: nat, last: Pair, pictures: seq<Pair>) {
    && SignalOf(last).Fits(words)
    && forall s :: s in SignalsOf(pictures) ==> s.Fits(words) && s.SameLengths(SignalOf(last))
  }

  lemma RunFits(last: Pair, freq: nat, pictures: seq<Pair>)
    requires forall i :: 0 <= i < |pictures| ==> SameShape(pictures[i], last)
    ensures Consistent(PwmWordCount(MaxCount(last), freq), last, pictures)
  {
    var run := SignalsOf(pictures);
    BufferHoldsChannels(last, freq);
    forall i | 0 <= i < |run|
      ensures run[i].Fits(PwmWordCount(MaxCount(last), freq)) && run[i].SameLengths(SignalOf(last))
    {
      SameShapeSameLengths(pictures[i], last);
      BufferHoldsChannels(pictures[i], freq);
    }
  }

  /** What is sent depends on the last picture alone, not on the pictures rendered before. */
  lemma OnlyLastPictureCounts(raw: seq<bv32>, freq: nat, pictures: seq<Pair>, last: Pair)
    requires |raw| == PwmWordCount(MaxCount(last), freq)
    requires forall i :: 0 <= i < |pictures| ==> SameShape(pictures[i], last)
    ensures Consistent(|raw|, last, pictures)
    ensures Sent(SentAll(raw, SignalsOf(pictures)), SignalOf(last)) == Sent(raw, SignalOf(last))
  {
    RunFits(last, freq, pictures);
    OnlyLastCounts(raw, SignalsOf(pictures), SignalOf(last));
  }

  /** In a buffer that was cleared once, whatever was rendered, there are only zeros behind a channel's data. */
  lemma ResetGapStaysZero(raw: seq<bv32>, freq: nat, pictures: seq<Pair>, shape: Pair, c: nat, q: nat)
    requires |raw| == PwmWordCount(MaxCount(shape), freq)
    requires forall k :: 0 <= k < |raw| ==> raw[k] == 0
    requires forall i :: 0 <= i < |pictures| ==> SameShape(pictures[i], shape)
    requires c < CHANNELS && DataEnd(shape, c) <= q < 16 * |raw|
    ensures Consistent(|raw|, shape, pictures)
    ensures !StreamBit(SentAll(raw, SignalsOf(pictures)), c, q)
  {
    RunFits(shape, freq, pictures);
    TailStaysZero(raw, SignalOf(shape), SignalsOf(pictures), c, q);
  }

  /** What a strip decodes from the buffer is the scaled colours of its LEDs, whatever was there before. */
  lemma RenderDecodes(raw: seq<bv32>, channels: Pair, c: nat)
    requires HasRoom(|raw|, channels) && c < CHANNELS
    ensures var ch, s := channels[c], SignalOf(channels);
      var read, n := ReadBack(Sent(raw, s), c, s.Offset(c), |s.Bits(c)|), |AllColours(ch, ch.leds)|;
      |read| == 24 * n && Decode(read, n) == AllColours(ch, ch.leds) && IsSymbols(read)
  {
    var s := SignalOf(channels);
    SentReadsBack(raw, s, c);
    SignalBits(channels, c);
    DecodeSent(ReadBack(Sent(raw, s), c, s.Offset(c), |s.Bits(c)|), AllColours(channels[c], channels[c].leds));
  }

  lemma BitsAreColours(ch: Channel)
    ensures ChannelBits(ch) == ColoursBits(AllColours(ch, ch.leds))
  {
  }

  lemma SignalBits(channels: Pair, c: nat)
    requires c < CHANNELS
    ensures SignalOf(channels).Bits(c) == ColoursBits(AllColours(channels[c], channels[c].leds))
  {
    BitsAreColours(channels[c]);
    if c == 0 {
      assert SignalOf(channels).Bits(0) == ChannelBits(channels[0]);
    } else {
      assert SignalOf(channels).Bits(1) == ChannelBits(channels[1]);
    }
  }

  lemma DecodeSent(read: seq<bool>, cs: seq<uint8>)
    requires read == ColoursBits(cs)
    ensures |read| == 24 * |cs| && Decode(read, |cs|) == cs && IsSymbols(read)
  {
    DecodeColoursBits(cs);
    ColoursBitsAreSymbols(cs);
  }

  /** The octets a strip decodes from the buffer after both channels were rendered over `raw`. */
  function Shown(raw: seq<bv32>, channels: Pair, c: nat): (cs: seq<uint8>)
    requires HasRoom(|raw|, channels) && c < CHANNELS
    ensures cs == AllColours(channels[c], channels[c].leds)
  {
    var s := SignalOf(channels);
    RenderDecodes(raw, channels, c);
    Decode(ReadBack(Sent(raw, s), c, s.Offset(c), |s.Bits(c)|), |AllColours(channels[c], channels[c].leds)|)
  }

  /** A three-colour strip at full brightness shows the low 24 bits of each of its LEDs, in order. */
  lemma StripShowsLeds(raw: seq<bv32>, channels: Pair, c: nat, strip: uint32, i: nat)
    requires HasRoom(|raw|, channels) && c < CHANNELS && i < |channels[c].leds|
    requires IsThreeColourStrip(strip) && IsStrip(channels[c], strip, 255)
    ensures var ch, octets := channels[c], Shown(raw, channels, c);
      3 * i + 3 <= |octets| && ShowsColours(ch, octets[3 * i..3 * i + 3], ch.leds[i])
  {
    StripShifts(channels[c], strip, 255);
    ColoursOfLed(channels[c], channels[c].leds, 3, i);
    FullBrightnessExact(channels[c], strip, channels[c].leds[i]);
  }

  /** And a four-colour strip all 32 bits. */
  lemma WhiteStripShowsLeds(raw: seq<bv32>, channels: Pair, c: nat, strip: uint32, i: nat)
    requires HasRoom(|raw|, channels) && c < CHANNELS && i < |channels[c].leds|
    requires IsFourColourStrip(strip) && IsStrip(channels[c], strip, 255)
    ensures var ch, octets := channels[c], Shown(raw, channels, c);
      4 * i + 4 <= |octets| && ShowsAll(ch, octets[4 * i..4 * i + 4], ch.leds[i])
  {
    WhiteStripShifts(channels[c], strip, 255);
    ColoursOfLed(channels[c], channels[c].leds, 4, i);
    FullBrightnessExactWhite(channels[c], strip, channels[c].leds[i]);
  }

  // ---- What is shown, octet by octet ----

  /** What each three-colour strip type is shown for 0x00RRGGBB at any brightness. */
  lemma StripShows(raw: seq<bv32>, channels: Pair, c: nat, strip: uint32, b: uint8, i: nat)
    requires HasRoom(|raw|, channels) && c < CHANNELS && i < |channels[c].leds|
    requires IsThreeColourStrip(strip) && IsStrip(channels[c], strip, b)
    ensures LedSent(strip, channels[c].leds[i], b, Shown(raw, channels, c), i)
  {
    Pixels.StripOctets(channels[c], strip, b, i);
  }

  /** What each four-colour strip type is shown for 0xWWRRGGBB at any brightness. */
  lemma WhiteStripShows(raw: seq<bv32>, channels: Pair, c: nat, strip: uint32, b: uint8, i: nat)
    requires HasRoom(|raw|, channels) && c < CHANNELS && i < |channels[c].leds|
    requires IsFourColourStrip(strip) && IsStrip(channels[c], strip, b)
    ensures WhiteLedSent(strip, channels[c].leds[i], b, Shown(raw, channels, c), i)
  {
    Pixels.WhiteStripOctets(channels[c], strip, b, i);
  }

  /** At brightness 0 every strip, of whatever type, is sent zeros. */
  lemma DarkAtZero(raw: seq<bv32>, channels: Pair, c: nat, k: nat)
    requires HasRoom(|raw|, channels) && c < CHANNELS && channels[c].brightness == 0
    ensures k < |Shown(raw, channels, c)| ==> Shown(raw, channels, c)[k] == 0
  {
    if k < |Shown(raw, channels, c)| {
      AllDark(channels[c], channels[c].leds, k);
    }
  }
}
