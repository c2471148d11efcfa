/** The checksum routine, proved against the serial shift register it speeds up. */
module Crc32 {
  import opened Bytes
  import opened ShiftRegister
  import opened Words
  import opened CrcTable

  // ---- The reference: one bit at a time, lowest bit of each octet first ----

  ghost function OctetBits(b: byte): (s: seq<bool>)
    ensures |s| == 8
  {
    WORDS.BitsOf(8, b as bv32)
  }

  /** The bits of a buffer in the order a UART sends them. */
  ghost function Bits(s: seq<byte>): seq<bool> {
    Stream(OctetBits, s)
  }

  /** `crc ^ ~0U` */
  function Invert(x: bv32): bv32 {
    x ^ 0xFFFF_FFFF
  }

  /** The CRC-32 of `s` continued from `crc`: the register starts and ends inverted. */
  ghost function Crc(crc: bv32, s: seq<byte>): bv32 {
    Invert(WORDS.Feed(Invert(crc), Bits(s)))
  }

  // ---- The table form ----

  /** One round of the loop at crc32.c:97-98. */
  function TableStep(tab: seq<bv32>, c: bv32, b: byte): bv32
    requires |tab| == 256
  {
    IndexInTable(c ^ b as bv32);
    tab[((c ^ b as bv32) & 0xFF) as int] ^ (c >> 8)
  }

  lemma IndexInTable(x: bv32)
    ensures x & 0xFF < 256 && 0 <= (x & 0xFF) as int < 256
  {
  }

  lemma OctetFits(b: byte)
    ensures WORDS.Fits(8, b as bv32)
  {
    WORDS.FitsHalves(8, 0, b as bv32);
    HalvesEight(b as bv32);
    assert (b as bv32) >> 8 == 0;
  }

  lemma SameShifts(c: bv32)
    ensures WORDS.Shifts(8, c) == EightShifts(c)
  {
  }

  lemma HighClear(x: bv32, high: bv32, h: bv32)
    requires high == x & 0xFFFF_FF00 && h == x >> 8
    ensures WORDS.Clear(8, high) && WORDS.Halves(8, high) == h
  {
    HalvesEight(high);
  }

  /** The low octet of `x` is fed back, the rest only moves. */
  lemma ShiftsOfSplit(n: nat, x: bv32, low: bv32, high: bv32, h: bv32)
    requires WORDS.Clear(n, high) && WORDS.Halves(n, high) == h && x == Xor(low, high)
    ensures WORDS.Shifts(n, x) == Xor(WORDS.Shifts(n, low), h)
  {
    WordsAreLinear();
    WORDS.ShiftsSplit(n, low, high);
  }

  lemma Recombine(x: bv32, low: bv32, high: bv32)
    requires low == x & 0xFF && high == x & 0xFFFF_FF00
    ensures x == Xor(low, high)
  {
  }

  lemma OctetShifted(c: bv32, w: bv32, x: bv32)
    requires w & 0xFFFF_FF00 == 0 && x == Xor(c, w)
    ensures x >> 8 == c >> 8
  {
  }

  lemma OctetNarrow(b: byte)
    ensures (b as bv32) & 0xFFFF_FF00 == 0
  {
  }

  /** Eight steps of the serial register absorb an octet and come to eight shifts. */
  lemma OctetAbsorbed(c: bv32, b: byte)
    ensures WORDS.Feed(c, OctetBits(b)) == WORDS.Shifts(8, Xor(c, b as bv32))
  {
    OctetFits(b);
    WordsAreLawful();
    WORDS.FeedWord(32, c, 8, b as bv32);
  }

  lemma Lookup(x: bv32)
    requires x < 256
    ensures |CRC32_TAB| == 256 && 0 <= x as int < 256
    ensures CRC32_TAB[x as int] == WORDS.Shifts(8, x)
  {
    TableEntry(x);
    SameShifts(x);
  }

  lemma TableStepLooksUp(tab: seq<bv32>, c: bv32, b: byte, x: bv32, v: bv32)
    requires |tab| == 256 && x == (c ^ b as bv32) & 0xFF
    requires 0 <= x as int < 256 && tab[x as int] == v
    ensures TableStep(tab, c, b) == Xor(v, c >> 8)
  {
  }

  lemma LowOctetShifts(n: nat, x: bv32, low: bv32, high: bv32, h: bv32)
    requires n == 8 && low == x & 0xFF && high == x & 0xFFFF_FF00 && h == x >> 8
    ensures WORDS.Shifts(n, x) == Xor(WORDS.Shifts(n, low), h)
  {
    HighClear(x, high, h);
    Recombine(x, low, high);
    ShiftsOfSplit(n, x, low, high, h);
  }

  /** One table step is eight steps of the serial register. */
  lemma TableStepIsEightBits(c: bv32, b: byte)
    ensures |CRC32_TAB| == 256
    ensures TableStep(CRC32_TAB, c, b) == WORDS.Feed(c, OctetBits(b))
  {
    OctetAbsorbed(c, b);
    OctetNarrow(b);
    var x := Xor(c, b as bv32);
    OctetShifted(c, b as bv32, x);
    LowOctetShifts(8, x, x & 0xFF, x & 0xFFFF_FF00, c >> 8);
    IndexInTable(x);
    Lookup(x & 0xFF);
    TableStepLooksUp(CRC32_TAB, c, b, x & 0xFF, WORDS.Shifts(8, x & 0xFF));
  }

  method Crc32(crc: bv32, buf: seq<byte>) returns (r: bv32)
    ensures r == Crc(crc, buf)
  {
    var c := Invert(crc);
    TableStepIsEightBits(c, 0);
    var p := 0;
    while p < |buf|
      invariant p <= |buf|
      invariant c == WORDS.Feed(Invert(crc), Bits(buf[..p]))
    {
      TableStepIsEightBits(c, buf[p]);
      FeedOctet(WORDS, Invert(crc), buf, p);
      c := TableStep(CRC32_TAB, c, buf[p]);
      p := p + 1;
    }
    assert buf[..p] == buf;
    return Invert(c);
  }

  lemma FeedOctet(words: Register<bv32>, c: bv32, buf: seq<byte>, p: nat)
    requires p < |buf|
    ensures words.Feed(c, Bits(buf[..p + 1])) == words.Feed(words.Feed(c, Bits(buf[..p])), OctetBits(buf[p]))
  {
    assert buf[..p + 1] == buf[..p] + [buf[p]];
    StreamConcat(OctetBits, buf[..p], [buf[p]]);
    StreamOne(OctetBits, buf[p]);
    words.FeedConcat(c, Bits(buf[..p]), OctetBits(buf[p]));
  }

  lemma FeedParts(words: Register<bv32>, c: bv32, a: seq<byte>, b: seq<byte>)
    ensures words.Feed(c, Bits(a + b)) == words.Feed(words.Feed(c, Bits(a)), Bits(b))
  {
    StreamConcat(OctetBits, a, b);
    words.FeedConcat(c, Bits(a), Bits(b));
  }

  lemma InvertTwice(x: bv32)
    ensures Invert(Invert(x)) == x
  {
  }

  /** A checksum can be continued: the parts of a buffer may be fed one after the other. */
  lemma Chaining(crc: bv32, a: seq<byte>, b: seq<byte>)
    ensures Crc(Crc(crc, a), b) == Crc(crc, a + b)
  {
    FeedParts(WORDS, Invert(crc), a, b);
    InvertTwice(WORDS.Feed(Invert(crc), Bits(a)));
  }

  lemma NothingAdded(crc: bv32)
    ensures Crc(crc, []) == crc
  {
    InvertTwice(crc);
  }

  // ---- Bursts ----

  lemma BitsLength(s: seq<byte>)
    ensures |Bits(s)| == 8 * |s|
  {
    StreamLength(OctetBits, 8, s);
  }

  /** Every burst of at most 32 bits, wherever it starts, changes the checksum. */
  lemma BurstDetected(crc: bv32, a: seq<byte>, b: seq<byte>, k: nat)
    requires AgreeOutside(32, Bits(a), Bits(b), k) && Bits(a) != Bits(b)
    ensures Crc(crc, a) != Crc(crc, b)
  {
    WordsAreLawful();
    WORDS.BurstChangesState(32, Invert(crc), Bits(a), Bits(b), k);
    InvertTwice(WORDS.Feed(Invert(crc), Bits(a)));
    InvertTwice(WORDS.Feed(Invert(crc), Bits(b)));
  }

  lemma InvertBoth(x: bv32, y: bv32)
    ensures Xor(Invert(x), Invert(y)) == Xor(x, y)
  {
  }

  lemma FeedSameStart(words: Register<bv32>, c: bv32, a: seq<bool>, b: seq<bool>)
    requires words.Linear() && words.Differences() && |a| == |b|
    ensures words.xor(words.Feed(c, a), words.Feed(c, b)) == words.Feed(words.zero, XorBits(a, b))
  {
    words.FeedDifference(c, c, a, b, words.zero);
  }

  /** What a change does to the checksum depends on the change alone, not on the data or the start value. */
  lemma ChecksumDifference(crc: bv32, a: seq<byte>, b: seq<byte>)
    requires |a| == |b|
    ensures |Bits(a)| == |Bits(b)|
    ensures Xor(Crc(crc, a), Crc(crc, b)) == WORDS.Feed(0, XorBits(Bits(a), Bits(b)))
  {
    BitsLength(a);
    BitsLength(b);
    WordsAreLinear();
    WordsDiffer();
    FeedSameStart(WORDS, Invert(crc), Bits(a), Bits(b));
    InvertBoth(WORDS.Feed(Invert(crc), Bits(a)), WORDS.Feed(Invert(crc), Bits(b)));
  }

  /** A change goes unnoticed exactly when it leaves an empty register empty. */
  lemma ChangeUnnoticedIff(crc: bv32, a: seq<byte>, b: seq<byte>)
    requires |a| == |b|
    ensures |Bits(a)| == |Bits(b)|
    ensures Crc(crc, a) == Crc(crc, b) <==> WORDS.Feed(0, XorBits(Bits(a), Bits(b))) == 0
  {
    ChecksumDifference(crc, a, b);
    XorZero(Crc(crc, a), Crc(crc, b));
  }

  lemma WordOfOctet(b: byte)
    ensures (b as bv32) as byte == b
  {
  }

  lemma OctetBitsInjective(x: byte, y: byte)
    requires OctetBits(x) == OctetBits(y)
    ensures x == y
  {
    OctetFits(x);
    OctetFits(y);
    WordsAreLawful();
    WORDS.BitsInjective(32, 8, x as bv32, y as bv32);
    WordOfOctet(x);
    WordOfOctet(y);
  }

  lemma BitsInjective(a: seq<byte>, b: seq<byte>)
    requires Bits(a) == Bits(b)
    ensures a == b
  {
    BitsLength(a);
    BitsLength(b);
    forall x, y | OctetBits(x) == OctetBits(y) ensures x == y {
      OctetBitsInjective(x, y);
    }
    StreamInjective(OctetBits, 8, a, b);
  }

  /** Two buffers of equal length that differ, but only within four consecutive octets. */
  ghost predicate DifferInWindow(a: seq<byte>, b: seq<byte>, k: nat) {
    && |a| == |b| && a != b
    && forall i :: 0 <= i < |a| && !(k <= i < k + 4) ==> a[i] == b[i]
  }

  lemma WindowDetected(crc: bv32, a: seq<byte>, b: seq<byte>, k: nat)
    requires DifferInWindow(a, b, k)
    ensures Crc(crc, a) != Crc(crc, b)
  {
    StreamAgrees(OctetBits, 8, 4, a, b, k);
    if Bits(a) == Bits(b) {
      BitsInjective(a, b);
    } else {
      BurstDetected(crc, a, b, 8 * k);
    }
  }

  lemma OctetTo(c: bv32, b: byte, d: bv32)
    requires d == EightShifts(c ^ b as bv32)
    ensures WORDS.Feed(c, OctetBits(b)) == d
  {
    OctetAbsorbed(c, b);
    SameShifts(c ^ b as bv32);
  }

  lemma FeedSnoc(words: Register<bv32>, c: bv32, s: seq<byte>, b: byte, d: bv32, e: bv32)
    requires words.Feed(c, Bits(s)) == d && words.Feed(d, OctetBits(b)) == e
    ensures words.Feed(c, Bits(s + [b])) == e
  {
    assert (s + [b])[..|s|] == s && (s + [b])[..|s| + 1] == s + [b];
    FeedOctet(words, c, s + [b], |s|);
  }

  lemma FeedTwo(words: Register<bv32>, c: bv32, b0: byte, b1: byte, d0: bv32, d1: bv32)
    requires words.Feed(c, OctetBits(b0)) == d0 && words.Feed(d0, OctetBits(b1)) == d1
    ensures words.Feed(c, Bits([b0, b1])) == d1
  {
    FeedSnoc(words, c, [], b0, c, d0);
    FeedSnoc(words, c, [] + [b0], b1, d0, d1);
    assert [] + [b0] + [b1] == [b0, b1];
  }

  lemma FeedFive(words: Register<bv32>, c: bv32, b0: byte, b1: byte, b2: byte, b3: byte, b4: byte,
                 d0: bv32, d1: bv32, d2: bv32, d3: bv32, d4: bv32)
    requires words.Feed(c, OctetBits(b0)) == d0 && words.Feed(d0, OctetBits(b1)) == d1
    requires words.Feed(d1, OctetBits(b2)) == d2 && words.Feed(d2, OctetBits(b3)) == d3
    requires words.Feed(d3, OctetBits(b4)) == d4
    ensures words.Feed(c, Bits([b0, b1, b2, b3, b4])) == d4
  {
    FeedTwo(words, c, b0, b1, d0, d1);
    FeedSnoc(words, c, [b0, b1], b2, d1, d2);
    FeedSnoc(words, c, [b0, b1] + [b2], b3, d2, d3);
    FeedSnoc(words, c, [b0, b1] + [b2] + [b3], b4, d3, d4);
    assert [b0, b1] + [b2] + [b3] + [b4] == [b0, b1, b2, b3, b4];
  }

  lemma BurstSteps()
    ensures EightShifts(0xFFFF_FFFF ^ 0x41) == 0x2C26_6174 && EightShifts(0x2C26_6174 ^ 0x06) == 0xBE27_3671
    ensures EightShifts(0xBE27_3671 ^ 0x71) == 0x00BE_2736 && EightShifts(0x00BE_2736 ^ 0xDB) == 0xDEBB_20E2
    ensures EightShifts(0xDEBB_20E2 ^ 0x01) == 0x39DD_08E2
  {
  }

  lemma BurstOctets()
    ensures WORDS.Feed(0xFFFF_FFFF, OctetBits(0x41)) == 0x2C26_6174
    ensures WORDS.Feed(0x2C26_6174, OctetBits(0x06)) == 0xBE27_3671
    ensures WORDS.Feed(0xBE27_3671, OctetBits(0x71)) == 0x00BE_2736
    ensures WORDS.Feed(0x00BE_2736, OctetBits(0xDB)) == 0xDEBB_20E2
    ensures WORDS.Feed(0xDEBB_20E2, OctetBits(0x01)) == 0x39DD_08E2
  {
    BurstSteps();
    OctetTo(0xFFFF_FFFF, 0x41, 0x2C26_6174);
    OctetTo(0x2C26_6174, 0x06, 0xBE27_3671);
    OctetTo(0xBE27_3671, 0x71, 0x00BE_2736);
    OctetTo(0x00BE_2736, 0xDB, 0xDEBB_20E2);
    OctetTo(0xDEBB_20E2, 0x01, 0x39DD_08E2);
  }

  lemma RegisterAfterBurst()
    ensures WORDS.Feed(0xFFFF_FFFF, Bits([0x41, 0x06, 0x71, 0xDB, 0x01])) == 0x39DD_08E2
  {
    BurstOctets();
    FeedFive(WORDS, 0xFFFF_FFFF, 0x41, 0x06, 0x71, 0xDB, 0x01,
             0x2C26_6174, 0xBE27_3671, 0x00BE_2736, 0xDEBB_20E2, 0x39DD_08E2);
  }

  lemma ZeroSteps()
    ensures EightShifts(0xFFFF_FFFF) == 0x2DFD_1072 && EightShifts(0x2DFD_1072) == 0xBE26_ED00
    ensures EightShifts(0xBE26_ED00) == 0x00BE_26ED && EightShifts(0x00BE_26ED) == 0xDEBB_20E3
    ensures EightShifts(0xDEBB_20E3) == 0x39DD_08E2
  {
  }

  lemma ZeroOctets()
    ensures WORDS.Feed(0xFFFF_FFFF, OctetBits(0)) == 0x2DFD_1072
    ensures WORDS.Feed(0x2DFD_1072, OctetBits(0)) == 0xBE26_ED00
    ensures WORDS.Feed(0xBE26_ED00, OctetBits(0)) == 0x00BE_26ED
    ensures WORDS.Feed(0x00BE_26ED, OctetBits(0)) == 0xDEBB_20E3
    ensures WORDS.Feed(0xDEBB_20E3, OctetBits(0)) == 0x39DD_08E2
  {
    ZeroSteps();
    OctetTo(0xFFFF_FFFF, 0, 0x2DFD_1072);
    OctetTo(0x2DFD_1072, 0, 0xBE26_ED00);
    OctetTo(0xBE26_ED00, 0, 0x00BE_26ED);
    OctetTo(0x00BE_26ED, 0, 0xDEBB_20E3);
    OctetTo(0xDEBB_20E3, 0, 0x39DD_08E2);
  }

  lemma RegisterAfterZeros()
    ensures WORDS.Feed(0xFFFF_FFFF, Bits([0, 0, 0, 0, 0])) == 0x39DD_08E2
  {
    ZeroOctets();
    FeedFive(WORDS, 0xFFFF_FFFF, 0, 0, 0, 0, 0, 0x2DFD_1072, 0xBE26_ED00, 0x00BE_26ED, 0xDEBB_20E3, 0x39DD_08E2);
  }

  lemma OnlyFirstBit()
    ensures OctetBits(1)[1..] == OctetBits(0)[1..]
  {
    assert Half(1) == 0 && Half(0) == 0;
    assert WORDS.BitsOf(8, 1)[1..] == WORDS.BitsOf(7, Half(1)) && WORDS.BitsOf(8, 0)[1..] == WORDS.BitsOf(7, Half(0));
  }

  lemma BitsSnoc(s: seq<byte>, b: byte)
    ensures Bits(s + [b]) == Bits(s) + OctetBits(b)
  {
    StreamConcat(OctetBits, s, [b]);
    StreamOne(OctetBits, b);
  }

  lemma WithinOneMoreBit(s: seq<byte>, t: seq<byte>)
    requires |s| == |t| == 4
    ensures AgreeOutside(33, Bits(s + [1]), Bits(t + [0]), 0)
  {
    BitsLength(s);
    BitsLength(t);
    BitsSnoc(s, 1);
    BitsSnoc(t, 0);
    OnlyFirstBit();
    forall i | 33 <= i < 40 ensures Bits(s + [1])[i] == Bits(t + [0])[i] {
      assert OctetBits(1)[1..][i - 33] == OctetBits(0)[1..][i - 33];
    }
  }

  /** 32 is the best possible: a burst of 33 bits, the polynomial itself, goes unnoticed. */
  lemma LongerBurstUndetected(a: seq<byte>, b: seq<byte>)
    requires a == [0x41, 0x06, 0x71, 0xDB, 0x01] && b == [0, 0, 0, 0, 0]
    ensures AgreeOutside(33, Bits(a), Bits(b), 0) && Bits(a) != Bits(b)
    ensures Crc(0, a) == Crc(0, b)
  {
    assert a == a[..4] + [1] && b == b[..4] + [0];
    WithinOneMoreBit(a[..4], b[..4]);
    BurstGoesUnnoticed();
    if Bits(a) == Bits(b) {
      BitsInjective(a, b);
    }
  }

  lemma BurstGoesUnnoticed()
    ensures Crc(0, [0x41, 0x06, 0x71, 0xDB, 0x01]) == Crc(0, [0, 0, 0, 0, 0])
  {
    RegisterAfterBurst();
    RegisterAfterZeros();
  }

  lemma TwoZeros()
    ensures Crc(0, [0, 0]) == 0x41D9_12FF
  {
    ZeroOctets();
    FeedTwo(WORDS, 0xFFFF_FFFF, 0, 0, 0x2DFD_1072, 0xBE26_ED00);
  }

  lemma TwoSteps()
    ensures EightShifts(0xFFFF_FFFF ^ 1) == 0x5AFA_20E4 && EightShifts(0x5AFA_20E4 ^ 0x96) == 0xBE51_EA30
  {
  }

  lemma OneAndNinetySix()
    ensures Crc(0, [1, 0x96]) == 0x41AE_15CF
  {
    TwoSteps();
    OctetTo(0xFFFF_FFFF, 1, 0x5AFA_20E4);
    OctetTo(0x5AFA_20E4, 0x96, 0xBE51_EA30);
    FeedTwo(WORDS, 0xFFFF_FFFF, 1, 0x96, 0x5AFA_20E4, 0xBE51_EA30);
  }
}
