/** What the LEDs of a channel look like as bits, and how the bits are read back. */
module Pixels {
  import opened Bytes

  type uint8 = n: int | 0 <= n < 256

  /** `ws2811_channel_t`, as far as rendering reads it. */
  datatype Channel = Channel(
    count: int,
    leds: seq<uint32>,
    brightness: uint8,
    stripType: uint32,
    wshift: uint8,
    rshift: uint8,
    gshift: uint8,
    bshift: uint8
  ) {
    /** The driver allocates `count` LEDs; C leaves shifts by 32 or more undefined. */
    predicate Valid() {
      && |leds| == (if count > 0 then count else 0)
      && wshift < 32 && rshift < 32 && gshift < 32 && bshift < 32
    }

    /** `strip_type & SK6812_SHIFT_WMASK`: one of the four highest bits is set */
    predicate HasWhite() {
      stripType >= 0x1000_0000
    }

    function Colours(): (n: nat)
      ensures n == 3 || n == 4
    {
      if HasWhite() then 4 else 3
    }
  }

  const WS2811_STRIP_RGB: uint32 := 0x0010_0800
  const WS2811_STRIP_RBG: uint32 := 0x0010_0008
  const WS2811_STRIP_GRB: uint32 := 0x0008_1000
  const WS2811_STRIP_GBR: uint32 := 0x0008_0010
  const WS2811_STRIP_BRG: uint32 := 0x0000_1008
  const WS2811_STRIP_BGR: uint32 := 0x0000_0810

  /** What the SK6812_STRIP types have on top: white is shifted by 24. */
  const SK6812_WHITE: uint32 := 0x1800_0000

  /** The LED part of `ws2811_init`: dark LEDs, and the shifts taken from the strip type. */
  function InitChannel(count: int, stripType: uint32, brightness: uint8): Channel {
    var strip := if stripType == 0 then WS2811_STRIP_RGB else stripType;
    Channel(count, seq(if count > 0 then count else 0, _ => 0), brightness, strip,
            strip / 0x100_0000 % 256, strip / 0x1_0000 % 256, strip / 0x100 % 256, strip % 256)
  }

  /** `strip_type & 0xf0000000` */
  lemma WhiteMask(ch: Channel)
    ensures ch.HasWhite() <==> ch.stripType / 0x1000_0000 % 16 != 0
  {
  }

  /** A channel without a strip type is an RGB strip; every LED starts dark. */
  lemma InitDefaults(count: int, stripType: uint32, brightness: uint8)
    ensures InitChannel(count, 0, brightness) == InitChannel(count, WS2811_STRIP_RGB, brightness)
    ensures var ch := InitChannel(count, stripType, brightness);
      && ch.count == count && |ch.leds| == (if count > 0 then count else 0) && ch.brightness == brightness
      && forall i :: 0 <= i < |ch.leds| ==> ch.leds[i] == 0
  {
  }

  function Pow2(n: nat): (p: nat)
    ensures p > 0
  {
    if n == 0 then 1 else 2 * Pow2(n - 1)
  }

  /** `((c & 0xff) * scale) >> 8` with `scale` one more than the brightness */
  function Scaled(c: uint8, brightness: uint8): (s: uint8)
    ensures s <= c && s <= brightness
    ensures brightness == 255 ==> s == c
    ensures brightness == 0 ==> s == 0
  {
    ScaledBounds(c, brightness);
    c * (brightness + 1) / 256
  }

  lemma ScaledBounds(c: uint8, brightness: uint8)
    ensures 0 <= c * (brightness + 1) / 256 <= c
    ensures c * (brightness + 1) / 256 <= brightness
  {
    MulMonotone(c, brightness + 1, c, 256);
    MulMonotone(c, brightness + 1, 255, brightness + 1);
    QuotientBound(c * (brightness + 1), c, brightness);
  }

  lemma MulMonotone(x: nat, y: nat, x': nat, y': nat)
    requires x <= x' && y <= y'
    ensures 0 <= x * y <= x' * y'
  {
    assert x * y <= x' * y;
    assert x' * y <= x' * y';
  }

  lemma QuotientBound(x: nat, c: nat, b: nat)
    requires x <= c * 256 && x <= 255 * (b + 1)
    ensures 0 <= x / 256 <= c && x / 256 <= b
  {
  }

  lemma ScaledMonotone(c: uint8, c': uint8, b: uint8, b': uint8)
    requires c <= c' && b <= b'
    ensures Scaled(c, b) <= Scaled(c', b')
  {
    MulMonotone(c, b + 1, c', b' + 1);
    DivMonotone(c * (b + 1), c' * (b' + 1));
  }

  lemma DivMonotone(x: nat, y: nat)
    requires x <= y
    ensures x / 256 <= y / 256
  {
  }

  function ColourOf(led: uint32, shift: nat): uint8 {
    led / Pow2(shift) % 256
  }

  /** The array `color` of ws2811.c:651-665, cut to the colours the strip has. */
  function Colours(ch: Channel, led: uint32): (cs: seq<uint8>)
    ensures |cs| == ch.Colours()
  {
    [Scaled(ColourOf(led, ch.rshift), ch.brightness),
     Scaled(ColourOf(led, ch.gshift), ch.brightness),
     Scaled(ColourOf(led, ch.bshift), ch.brightness)]
    + if ch.HasWhite() then [Scaled(ColourOf(led, ch.wshift), ch.brightness)] else []
  }

  // ---- Bits ----

  predicate BitOf(c: nat, k: nat) {
    c / Pow2(k) % 2 == 1
  }

  /** `n` bits of a number from bit `top` downwards. */
  function Falling(x: nat, top: nat, n: nat): (s: seq<bool>)
    requires n <= top + 1
    ensures |s| == n
  {
    seq(n, i requires 0 <= i < n => BitOf(x, top - i))
  }

  /** The `n` highest bits of an octet, highest first. */
  function HighBits(c: uint8, n: nat): (s: seq<bool>)
    requires n <= 8
    ensures |s| == n
  {
    Falling(c, 7, n)
  }

  const SYMBOL_HIGH: nat := 6
  const SYMBOL_LOW: nat := 4

  /** Three bits on the wire for one bit of colour: 110 or 100. */
  function Symbol(bit: bool): (s: seq<bool>)
    ensures |s| == 3
  {
    Falling(if bit then SYMBOL_HIGH else SYMBOL_LOW, 2, 3)
  }

  lemma SymbolIs(bit: bool)
    ensures Symbol(bit) == [true, bit, false]
  {
    assert Pow2(1) == 2 && Pow2(2) == 4;
  }

  function ColourBits(c: uint8): seq<bool> {
    Symbols(HighBits(c, 8))
  }

  function Symbols(bits: seq<bool>): (s: seq<bool>)
    ensures |s| == 3 * |bits|
  {
    if bits == [] then [] else Symbols(bits[..|bits| - 1]) + Symbol(bits[|bits| - 1])
  }

  /** The bits of some colours, one octet after the other. */
  function ColoursBits(cs: seq<uint8>): (s: seq<bool>)
    ensures |s| == 24 * |cs|
  {
    if cs == [] then [] else ColoursBits(cs[..|cs| - 1]) + ColourBits(cs[|cs| - 1])
  }

  /** The scaled colours of some LEDs, in the order they are sent. */
  function AllColours(ch: Channel, leds: seq<uint32>): (cs: seq<uint8>)
    ensures |cs| == ch.Colours() * |leds|
  {
    if leds == [] then [] else AllColours(ch, leds[..|leds| - 1]) + Colours(ch, leds[|leds| - 1])
  }

  /** How many bits a channel sends. */
  function WireLength(ch: Channel): nat {
    if ch.HasWhite() then 96 * |ch.leds| else 72 * |ch.leds|
  }

  function ChannelBits(ch: Channel): (s: seq<bool>)
    ensures |s| == 24 * |AllColours(ch, ch.leds)| == WireLength(ch)
  {
    ColoursBits(AllColours(ch, ch.leds))
  }

  lemma ColoursSnoc(cs: seq<uint8>, c: uint8)
    ensures ColoursBits(cs + [c]) == ColoursBits(cs) + ColourBits(c)
  {
    assert (cs + [c])[..|cs|] == cs;
  }

  lemma {:induction false} ColoursBitsConcat(a: seq<uint8>, b: seq<uint8>)
    ensures ColoursBits(a + b) == ColoursBits(a) + ColoursBits(b)
  {
    if b == [] {
      assert a + b == a;
    } else {
      var front, last := b[..|b| - 1], b[|b| - 1];
      assert b == front + [last] && a + b == (a + front) + [last];
      ColoursBitsConcat(a, front);
      ColoursSnoc(a + front, last);
      ColoursSnoc(front, last);
    }
  }

  /** The colours of the `i`th LED lie at `k * i`, where every LED has `k`. */
  lemma {:induction false} ColoursOfLed(ch: Channel, leds: seq<uint32>, k: nat, i: nat)
    requires k == ch.Colours() && i < |leds|
    ensures k * i + k <= |AllColours(ch, leds)| && AllColours(ch, leds)[k * i..k * i + k] == Colours(ch, leds[i])
  {
    var front, last := leds[..|leds| - 1], leds[|leds| - 1];
    var all := AllColours(ch, front);
    if i < |front| {
      ColoursOfLed(ch, front, k, i);
      assert (all + Colours(ch, last))[k * i..k * i + k] == all[k * i..k * i + k];
    } else {
      assert (all + Colours(ch, last))[|all|..|all| + k] == Colours(ch, last);
    }
  }

  // ---- Reading back ----

  function Weight(b: bool, w: nat): nat {
    if b then w else 0
  }

  /** The octet whose bits are the middle bits of eight symbols. */
  function DecodeColour(s: seq<bool>): uint8
    requires |s| == 24
  {
    Weight(s[1], 128) + Weight(s[4], 64) + Weight(s[7], 32) + Weight(s[10], 16)
    + Weight(s[13], 8) + Weight(s[16], 4) + Weight(s[19], 2) + Weight(s[22], 1)
  }

  predicate IsSymbols(s: seq<bool>) {
    |s| % 3 == 0 && forall i :: 0 <= i < |s| ==> (i % 3 == 0 ==> s[i]) && (i % 3 == 2 ==> !s[i])
  }

  /** The `n` octets sent as `s`. */
  function Decode(s: seq<bool>, n: nat): seq<uint8>
    requires |s| == 24 * n
  {
    if n == 0 then [] else Decode(s[..|s| - 24], n - 1) + [DecodeColour(s[|s| - 24..])]
  }

  lemma {:induction false} SymbolsAt(bits: seq<bool>, i: nat)
    requires i < |bits|
    ensures Symbols(bits)[3 * i] && Symbols(bits)[3 * i + 1] == bits[i] && !Symbols(bits)[3 * i + 2]
  {
    var front := bits[..|bits| - 1];
    SymbolIs(bits[|bits| - 1]);
    if i < |front| {
      SymbolsAt(front, i);
    }
  }

  lemma Powers()
    ensures Pow2(0) == 1 && Pow2(1) == 2 && Pow2(2) == 4 && Pow2(3) == 8
    ensures Pow2(4) == 16 && Pow2(5) == 32 && Pow2(6) == 64 && Pow2(7) == 128
  {
  }

  lemma Halve(q: nat)
    ensures q == 2 * (q / 2) + Weight(q % 2 == 1, 1)
  {
  }

  lemma HalveAgain(c: nat)
    ensures c / 2 / 2 == c / 4 && c / 4 / 2 == c / 8 && c / 8 / 2 == c / 16
    ensures c / 16 / 2 == c / 32 && c / 32 / 2 == c / 64 && c / 64 / 2 == c / 128
  {
  }

  lemma BitIsRemainder(c: nat, k: nat, p: nat)
    requires p == Pow2(k)
    ensures BitOf(c, k) == (c / p % 2 == 1)
  {
  }

  lemma LowBits(c: nat)
    ensures c == 2 * (c / 2) + Weight(BitOf(c, 0), 1) && c / 2 == 2 * (c / 4) + Weight(BitOf(c, 1), 1)
    ensures c / 4 == 2 * (c / 8) + Weight(BitOf(c, 2), 1) && c / 8 == 2 * (c / 16) + Weight(BitOf(c, 3), 1)
  {
    Powers();
    HalveAgain(c);
    Halve(c); Halve(c / 2); Halve(c / 4); Halve(c / 8);
    BitIsRemainder(c, 0, 1); BitIsRemainder(c, 1, 2); BitIsRemainder(c, 2, 4); BitIsRemainder(c, 3, 8);
  }

  lemma HighBitsOf(c: uint8)
    ensures c / 16 == 2 * (c / 32) + Weight(BitOf(c, 4), 1) && c / 32 == 2 * (c / 64) + Weight(BitOf(c, 5), 1)
    ensures c / 64 == 2 * (c / 128) + Weight(BitOf(c, 6), 1) && c / 128 == Weight(BitOf(c, 7), 1)
  {
    Powers();
    HalveAgain(c);
    Halve(c / 16); Halve(c / 32); Halve(c / 64);
    BitIsRemainder(c, 4, 16); BitIsRemainder(c, 5, 32); BitIsRemainder(c, 6, 64); BitIsRemainder(c, 7, 128);
  }

  lemma SumOfBits(c: uint8)
    ensures c == Weight(BitOf(c, 7), 128) + Weight(BitOf(c, 6), 64) + Weight(BitOf(c, 5), 32) + Weight(BitOf(c, 4), 16)
              + Weight(BitOf(c, 3), 8) + Weight(BitOf(c, 2), 4) + Weight(BitOf(c, 1), 2) + Weight(BitOf(c, 0), 1)
  {
    LowBits(c);
    HighBitsOf(c);
    SumUp(c, c / 2, c / 4, c / 8, c / 16, c / 32, c / 64, c / 128, BitOf(c, 0), BitOf(c, 1), BitOf(c, 2), BitOf(c, 3),
          BitOf(c, 4), BitOf(c, 5), BitOf(c, 6), BitOf(c, 7));
  }

  lemma SumUp(q0: nat, q1: nat, q2: nat, q3: nat, q4: nat, q5: nat, q6: nat, q7: nat,
              b0: bool, b1: bool, b2: bool, b3: bool, b4: bool, b5: bool, b6: bool, b7: bool)
    requires q0 == 2 * q1 + Weight(b0, 1) && q1 == 2 * q2 + Weight(b1, 1) && q2 == 2 * q3 + Weight(b2, 1)
    requires q3 == 2 * q4 + Weight(b3, 1) && q4 == 2 * q5 + Weight(b4, 1) && q5 == 2 * q6 + Weight(b5, 1)
    requires q6 == 2 * q7 + Weight(b6, 1) && q7 == Weight(b7, 1)
    ensures q0 == Weight(b7, 128) + Weight(b6, 64) + Weight(b5, 32) + Weight(b4, 16)
                + Weight(b3, 8) + Weight(b2, 4) + Weight(b1, 2) + Weight(b0, 1)
  {
  }

  lemma DecodeSymbols(h: seq<bool>)
    requires |h| == 8
    ensures DecodeColour(Symbols(h)) ==
      Weight(h[0], 128) + Weight(h[1], 64) + Weight(h[2], 32) + Weight(h[3], 16)
      + Weight(h[4], 8) + Weight(h[5], 4) + Weight(h[6], 2) + Weight(h[7], 1)
  {
    SymbolsAt(h, 0); SymbolsAt(h, 1); SymbolsAt(h, 2); SymbolsAt(h, 3);
    SymbolsAt(h, 4); SymbolsAt(h, 5); SymbolsAt(h, 6); SymbolsAt(h, 7);
  }

  lemma DecodeColourBits(c: uint8)
    ensures DecodeColour(ColourBits(c)) == c
  {
    DecodeSymbols(HighBits(c, 8));
    SumOfBits(c);
  }

  /** Every scaled octet is read back from its symbols. */
  lemma {:induction false} DecodeColoursBits(cs: seq<uint8>)
    ensures Decode(ColoursBits(cs), |cs|) == cs
  {
    if cs != [] {
      var front, c := cs[..|cs| - 1], cs[|cs| - 1];
      assert cs == front + [c];
      DecodeColoursBits(front);
      ColoursSnoc(front, c);
      DecodeColourBits(c);
      DecodeSnoc(ColoursBits(front), |front|, ColourBits(c), c);
    }
  }

  lemma DecodeSnoc(s: seq<bool>, n: nat, t: seq<bool>, c: uint8)
    requires |s| == 24 * n && |t| == 24 && DecodeColour(t) == c
    ensures Decode(s + t, n + 1) == Decode(s, n) + [c]
  {
    assert (s + t)[..|s|] == s && (s + t)[|s|..] == t;
  }

  /** Nothing but the symbols 110 and 100 is sent. */
  lemma {:induction false} ColoursBitsAreSymbols(cs: seq<uint8>)
    ensures IsSymbols(ColoursBits(cs))
  {
    if cs != [] {
      var front, c := cs[..|cs| - 1], cs[|cs| - 1];
      ColoursBitsAreSymbols(front);
      forall i | 0 <= i < 24 ensures (i % 3 == 0 ==> ColourBits(c)[i]) && (i % 3 == 2 ==> !ColourBits(c)[i]) {
        SymbolsAt(HighBits(c, 8), i / 3);
      }
      SymbolsConcat(ColoursBits(front), ColourBits(c));
    }
  }

  lemma SameRemainder(i: nat, n: nat)
    requires n % 3 == 0 && n <= i
    ensures (i - n) % 3 == i % 3
  {
  }

  lemma SymbolsConcat(s: seq<bool>, t: seq<bool>)
    requires IsSymbols(s) && IsSymbols(t)
    ensures IsSymbols(s + t)
  {
    SameRemainder(|s + t|, |s|);
    forall i | 0 <= i < |s + t| ensures (i % 3 == 0 ==> (s + t)[i]) && (i % 3 == 2 ==> !(s + t)[i]) {
      if i >= |s| {
        SameRemainder(i, |s|);
        assert (s + t)[i] == t[i - |s|];
      }
    }
  }

  // ---- Full brightness ----

  /** The low 24 bits of an LED, put together from the octets its strip sends first. */
  function Reassemble(ch: Channel, cs: seq<uint8>): int
    requires |cs| >= 3
  {
    cs[0] * Pow2(ch.rshift) + cs[1] * Pow2(ch.gshift) + cs[2] * Pow2(ch.bshift)
  }

  /** The octets sent for an LED hold its low 24 bits, or all 32. */
  predicate ShowsColours(ch: Channel, cs: seq<uint8>, led: uint32) {
    |cs| == 3 && Reassemble(ch, cs) == led % 0x100_0000
  }

  predicate ShowsAll(ch: Channel, cs: seq<uint8>, led: uint32) {
    |cs| == 4 && Reassemble(ch, cs) + cs[3] * Pow2(ch.wshift) == led
  }

  predicate IsThreeColourStrip(strip: uint32) {
    strip in {WS2811_STRIP_RGB, WS2811_STRIP_RBG, WS2811_STRIP_GRB,
              WS2811_STRIP_GBR, WS2811_STRIP_BRG, WS2811_STRIP_BGR}
  }

  /** A channel as `ws2811_init` leaves it for a strip, with its LEDs set. */
  predicate IsStrip(ch: Channel, strip: uint32, brightness: uint8) {
    ch.Valid() && ch == InitChannel(ch.count, strip, brightness).(leds := ch.leds)
  }

  lemma StripShifts(ch: Channel, strip: uint32, brightness: uint8)
    requires IsThreeColourStrip(strip) && IsStrip(ch, strip, brightness)
    ensures {ch.rshift, ch.gshift, ch.bshift} == {0, 8, 16} && !ch.HasWhite() && ch.brightness == brightness
    ensures ch.rshift != ch.gshift && ch.rshift != ch.bshift && ch.gshift != ch.bshift
  {
  }

  /** At full brightness each of the six three-colour strips shows the low 24 bits of every LED exactly. */
  lemma FullBrightnessExact(ch: Channel, strip: uint32, led: uint32)
    requires IsThreeColourStrip(strip) && IsStrip(ch, strip, 255)
    ensures ShowsColours(ch, Colours(ch, led), led)
  {
    StripShifts(ch, strip, 255);
    ReassembleAny(led, ch.rshift, ch.gshift, ch.bshift);
  }

  predicate IsFourColourStrip(strip: uint32) {
    strip >= SK6812_WHITE && IsThreeColourStrip(strip - SK6812_WHITE)
  }

  lemma WhiteStripShifts(ch: Channel, strip: uint32, brightness: uint8)
    requires IsFourColourStrip(strip) && IsStrip(ch, strip, brightness)
    ensures {ch.rshift, ch.gshift, ch.bshift} == {0, 8, 16} && ch.wshift == 24 && ch.HasWhite()
    ensures ch.rshift != ch.gshift && ch.rshift != ch.bshift && ch.gshift != ch.bshift && ch.brightness == brightness
  {
  }

  /** At full brightness each of the six four-colour strips shows all 32 bits of every LED exactly. */
  lemma FullBrightnessExactWhite(ch: Channel, strip: uint32, led: uint32)
    requires IsFourColourStrip(strip) && IsStrip(ch, strip, 255)
    ensures ShowsAll(ch, Colours(ch, led), led)
  {
    WhiteStripShifts(ch, strip, 255);
    ReassembleAny(led, ch.rshift, ch.gshift, ch.bshift);
    WhiteOctet(led);
  }

  lemma WhiteOctet(led: uint32)
    ensures Pow2(24) == 0x100_0000
    ensures led % 0x100_0000 + ColourOf(led, 24) * Pow2(24) == led
  {
    PowersOfShifts();
    assert Pow2(20) == 0x10_0000;
  }

  // ---- Any brightness ----

  /** What ws2811.c:651-657 promises of an octet `v % 256` at brightness `b`, in plain numbers. */
  function Dimmed(v: int, b: uint8): (d: nat)
    ensures v % 256 == 0 || b == 255 ==> d == v % 256
  {
    DimmedEnds(v % 256, b);
    v % 256 * (b + 1) / 256
  }

  lemma DimmedEnds(x: nat, b: uint8)
    requires x < 256
    ensures x * (b + 1) >= 0
    ensures x == 0 || b == 255 ==> x * (b + 1) / 256 == x
  {
  }

  /** The word of an LED moved down to one of its octets. */
  function Moved(led: uint32, shift: nat): int {
    led / Pow2(shift)
  }

  lemma ScaledIsDimmed(led: uint32, shift: nat, b: uint8)
    ensures Scaled(ColourOf(led, shift), b) == Dimmed(Moved(led, shift), b)
  {
  }

  lemma ThreeColours(ch: Channel, led: uint32)
    requires !ch.HasWhite()
    ensures var b := ch.brightness;
      Colours(ch, led) == [Dimmed(Moved(led, ch.rshift), b), Dimmed(Moved(led, ch.gshift), b),
                           Dimmed(Moved(led, ch.bshift), b)]
  {
    ScaledIsDimmed(led, ch.rshift, ch.brightness);
    ScaledIsDimmed(led, ch.gshift, ch.brightness);
    ScaledIsDimmed(led, ch.bshift, ch.brightness);
  }

  lemma FourColoursOf(ch: Channel, led: uint32)
    requires ch.HasWhite()
    ensures var b := ch.brightness;
      Colours(ch, led) == [Dimmed(Moved(led, ch.rshift), b), Dimmed(Moved(led, ch.gshift), b),
                           Dimmed(Moved(led, ch.bshift), b), Dimmed(Moved(led, ch.wshift), b)]
  {
    ScaledIsDimmed(led, ch.rshift, ch.brightness);
    ScaledIsDimmed(led, ch.gshift, ch.brightness);
    ScaledIsDimmed(led, ch.bshift, ch.brightness);
    ScaledIsDimmed(led, ch.wshift, ch.brightness);
  }

  /** The order in which each three-colour strip type is sent red, green and blue. */
  predicate InOrder(strip: uint32, red: nat, green: nat, blue: nat, octets: seq<nat>) {
    && (strip == 0x0010_0800 ==> octets == [red, green, blue])
    && (strip == 0x0010_0008 ==> octets == [red, blue, green])
    && (strip == 0x0008_1000 ==> octets == [green, red, blue])
    && (strip == 0x0008_0010 ==> octets == [green, blue, red])
    && (strip == 0x0000_1008 ==> octets == [blue, red, green])
    && (strip == 0x0000_0810 ==> octets == [blue, green, red])
  }

  lemma ShiftsInOrder(ch: Channel, strip: uint32, b: uint8)
    requires IsThreeColourStrip(strip) && IsStrip(ch, strip, b)
    ensures InOrder(strip, 16, 8, 0, [ch.rshift, ch.gshift, ch.bshift])
  {
  }

  lemma WhiteShiftsInOrder(ch: Channel, strip: uint32, b: uint8)
    requires IsFourColourStrip(strip) && IsStrip(ch, strip, b)
    ensures InOrder(strip - SK6812_WHITE, 16, 8, 0, [ch.rshift, ch.gshift, ch.bshift]) && ch.wshift == 24
  {
  }

  /** Order is kept by whatever is done to red, green and blue. */
  lemma KeepsOrder(strip: uint32, shifts: seq<nat>, f: nat -> nat, octets: seq<nat>)
    requires IsThreeColourStrip(strip) && |shifts| == |octets| == 3 && InOrder(strip, 16, 8, 0, shifts)
    requires octets[0] == f(shifts[0]) && octets[1] == f(shifts[1]) && octets[2] == f(shifts[2])
    ensures InOrder(strip, f(16), f(8), f(0), octets)
  {
  }

  lemma MovedOctets(led: uint32)
    ensures Moved(led, 0) == led && Moved(led, 8) == led / 0x100 && Moved(led, 16) == led / 0x1_0000
    ensures Moved(led, 24) == led / 0x100_0000
  {
    PowersOfShifts();
    WhiteOctet(led);
  }

  /** What a strip is sent for 0x00RRGGBB at brightness `b`. */
  predicate SendsColours(strip: uint32, led: uint32, b: uint8, octets: seq<nat>) {
    InOrder(strip, Dimmed(led / 0x1_0000, b), Dimmed(led / 0x100, b), Dimmed(led, b), octets)
  }

  /** What a strip with white is sent for 0xWWRRGGBB: white comes last. */
  predicate SendsAll(strip: uint32, led: uint32, b: uint8, octets: seq<nat>) {
    && strip >= SK6812_WHITE && |octets| == 4
    && SendsColours(strip - SK6812_WHITE, led, b, octets[..3]) && octets[3] == Dimmed(led / 0x100_0000, b)
  }

  lemma StripOrder(strip: uint32, shifts: seq<nat>, led: uint32, b: uint8, octets: seq<nat>)
    requires IsThreeColourStrip(strip) && |shifts| == 3 && InOrder(strip, 16, 8, 0, shifts)
    requires octets == [Dimmed(Moved(led, shifts[0]), b), Dimmed(Moved(led, shifts[1]), b),
                        Dimmed(Moved(led, shifts[2]), b)]
    ensures SendsColours(strip, led, b, octets)
  {
    KeepsOrder(strip, shifts, s => Dimmed(Moved(led, s), b), octets);
    MovedOctets(led);
  }

  /** At any brightness an LED's octets are those of its word at the channel's shifts, dimmed; in this order. */
  lemma LedOctets(ch: Channel, i: nat)
    requires i < |ch.leds| && !ch.HasWhite()
    ensures var led, b, all := ch.leds[i], ch.brightness, AllColours(ch, ch.leds);
      && 3 * i + 3 <= |all|
      && all[3 * i..3 * i + 3] == [Dimmed(Moved(led, ch.rshift), b), Dimmed(Moved(led, ch.gshift), b),
                                   Dimmed(Moved(led, ch.bshift), b)]
  {
    ColoursOfLed(ch, ch.leds, 3, i);
    ThreeColours(ch, ch.leds[i]);
  }

  lemma WhiteLedOctets(ch: Channel, i: nat)
    requires i < |ch.leds| && ch.HasWhite()
    ensures var led, b, all := ch.leds[i], ch.brightness, AllColours(ch, ch.leds);
      && 4 * i + 4 <= |all|
      && all[4 * i..4 * i + 4] == [Dimmed(Moved(led, ch.rshift), b), Dimmed(Moved(led, ch.gshift), b),
                                   Dimmed(Moved(led, ch.bshift), b), Dimmed(Moved(led, ch.wshift), b)]
  {
    ColoursOfLed(ch, ch.leds, 4, i);
    FourColoursOf(ch, ch.leds[i]);
  }

  /** The `i`th LED of a three-colour strip, or of one with white, among all octets sent. */
  predicate LedSent(strip: uint32, led: uint32, b: uint8, octets: seq<nat>, i: nat) {
    3 * i + 3 <= |octets| && SendsColours(strip, led, b, octets[3 * i..3 * i + 3])
  }

  predicate WhiteLedSent(strip: uint32, led: uint32, b: uint8, octets: seq<nat>, i: nat) {
    4 * i + 4 <= |octets| && SendsAll(strip, led, b, octets[4 * i..4 * i + 4])
  }

  lemma StripOctets(ch: Channel, strip: uint32, b: uint8, i: nat)
    requires IsThreeColourStrip(strip) && IsStrip(ch, strip, b) && i < |ch.leds|
    ensures LedSent(strip, ch.leds[i], b, AllColours(ch, ch.leds), i)
  {
    StripShifts(ch, strip, b);
    ShiftsInOrder(ch, strip, b);
    LedOctets(ch, i);
    var all := AllColours(ch, ch.leds);
    StripOrder(strip, [ch.rshift, ch.gshift, ch.bshift], ch.leds[i], b, all[3 * i..3 * i + 3]);
  }

  lemma WhiteStripOctets(ch: Channel, strip: uint32, b: uint8, i: nat)
    requires IsFourColourStrip(strip) && IsStrip(ch, strip, b) && i < |ch.leds|
    ensures WhiteLedSent(strip, ch.leds[i], b, AllColours(ch, ch.leds), i)
  {
    WhiteStripShifts(ch, strip, b);
    WhiteShiftsInOrder(ch, strip, b);
    WhiteLedOctets(ch, i);
    MovedOctets(ch.leds[i]);
    var mine := AllColours(ch, ch.leds)[4 * i..4 * i + 4];
    StripOrder(strip - SK6812_WHITE, [ch.rshift, ch.gshift, ch.bshift], ch.leds[i], b, mine[..3]);
  }

  lemma {:induction false} AllDark(ch: Channel, leds: seq<uint32>, k: nat)
    requires ch.brightness == 0 && k < |AllColours(ch, leds)|
    ensures AllColours(ch, leds)[k] == 0
  {
    if leds != [] && k < |AllColours(ch, leds[..|leds| - 1])| {
      AllDark(ch, leds[..|leds| - 1], k);
    }
  }

  lemma ReassembleAny(led: uint32, r: nat, g: nat, b: nat)
    requires {r, g, b} == {0, 8, 16} && r != g && r != b && g != b
    ensures ColourOf(led, r) * Pow2(r) + ColourOf(led, g) * Pow2(g) + ColourOf(led, b) * Pow2(b) == led % 0x100_0000
  {
    ShiftedColours(led);
    assert r in {0, 8, 16} && g in {0, 8, 16} && b in {0, 8, 16};
  }

  lemma ShiftedColours(led: uint32)
    ensures ColourOf(led, 0) * Pow2(0) + ColourOf(led, 8) * Pow2(8) + ColourOf(led, 16) * Pow2(16) == led % 0x100_0000
  {
    PowersOfShifts();
    ThreeOctets(led);
  }

  lemma PowersOfShifts()
    ensures Pow2(0) == 1 && Pow2(8) == 256 && Pow2(16) == 65536
  {
    Powers();
    assert Pow2(8) == 256;
    assert Pow2(12) == 4096;
  }

  lemma ThreeOctets(led: uint32)
    ensures led % 0x100_0000 == led % 256 + led / 256 % 256 * 256 + led / 65536 % 256 * 65536
  {
    DivideTwice(led);
    Digits(led, led / 256, led / 65536, led / 65536 / 256, led % 256, led / 256 % 256, led / 65536 % 256);
  }

  lemma DivideTwice(n: nat)
    ensures n / 65536 == n / 256 / 256
  {
  }

  lemma Digits(n: nat, q0: nat, q1: nat, q2: nat, r0: nat, r1: nat, r2: nat)
    requires n == 256 * q0 + r0 && q0 == 256 * q1 + r1 && q1 == 256 * q2 + r2
    requires r0 < 256 && r1 < 256 && r2 < 256
    ensures n % 0x100_0000 == r0 + r1 * 256 + r2 * 65536
  {
    LowPart(n, q2, r0 + r1 * 256 + r2 * 65536);
  }

  lemma LowPart(n: nat, q: nat, r: nat)
    requires r < 0x100_0000 && n == 0x100_0000 * q + r
    ensures n % 0x100_0000 == r
  {
  }
}
