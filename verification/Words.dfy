/** 32-bit words, and the step of the CRC's shift register: they obey the laws of `ShiftRegister`. */
module Words {
  import opened ShiftRegister

  /** The generator polynomial, reflected: the coefficient of X^31 is the lowest bit. */
  const POLYNOMIAL: bv32 := 0xEDB8_8320

  /** One step of the shift register: towards the low end, feeding back the bit that falls out. */
  function Shift(c: bv32): bv32 {
    if c & 1 == 1 then (c >> 1) ^ POLYNOMIAL else c >> 1
  }

  function Xor(x: bv32, y: bv32): bv32 { x ^ y }

  predicate Low(v: bv32) { v & 1 == 1 }

  function Half(v: bv32): bv32 { v >> 1 }

  function Double(v: bv32): bv32 { v << 1 }

  function Odd(v: bv32): bv32 { v | 1 }

  function Push(b: bool, v: bv32): bv32 { if b then Odd(Double(v)) else Double(v) }

  const WORDS: Register<bv32> := Register(0, 1, Xor, Low, Half, Push, Shift)

  lemma XorShift(x: bv32, y: bv32)
    ensures (x ^ y) >> 1 == (x >> 1) ^ (y >> 1)
    ensures (x ^ y) & 1 == (x & 1) ^ (y & 1)
    ensures x & 1 == 0 || x & 1 == 1
    ensures y & 1 == 0 || y & 1 == 1
  {
  }

  lemma XorLaws(x: bv32, y: bv32, p: bv32)
    ensures (x ^ p) ^ y == (x ^ y) ^ p
    ensures x ^ (y ^ p) == (x ^ y) ^ p
    ensures (x ^ p) ^ (y ^ p) == x ^ y
    ensures (x ^ y) ^ y == x && x ^ (x ^ y) == y && x ^ 0 == x
  {
  }

  lemma ShiftLinear(x: bv32, y: bv32, z: bv32)
    requires z == x ^ y
    ensures Shift(z) == Shift(x) ^ Shift(y)
  {
    XorShift(x, y);
    XorLaws(x >> 1, y >> 1, POLYNOMIAL);
  }

  lemma ShiftEven(x: bv32)
    requires x & 1 == 0
    ensures Shift(x) == x >> 1
  {
  }

  lemma ShiftEvenIs(x: bv32, h: bv32)
    requires x & 1 == 0 && h == x >> 1
    ensures Shift(x) == h
  {
  }

  lemma ShiftSplit(x: bv32, high: bv32, y: bv32, h: bv32)
    requires high & 1 == 0 && y == x ^ high && h == high >> 1
    ensures Shift(y) == Shift(x) ^ h
  {
    ShiftLinear(x, high, y);
    ShiftEvenIs(high, h);
  }

  // The words below are named one by one: the solver is quick on names, slow on nested terms.
  lemma XorNamed(x: bv32, y: bv32, z: bv32)
    requires z == x ^ y
    ensures z == Xor(x, y)
  {
  }

  lemma OddParts(c: bv32, v: bv32, x: bv32, high: bv32, y: bv32, h: bv32)
    requires v & 1 == 1 && x == c ^ 1 && high == v ^ 1 && y == c ^ v && h == v >> 1
    ensures y == x ^ high && high >> 1 == h && high & 1 == 0
  {
  }

  lemma AbsorbsOne(c: bv32, v: bv32, x: bv32, high: bv32, y: bv32, h: bv32, s: bv32, t: bv32)
    requires v & 1 == 1 && x == c ^ 1 && high == v ^ 1 && y == c ^ v && h == v >> 1
    requires s == Shift(x) && t == Shift(y)
    ensures t == s ^ h
  {
    OddParts(c, v, x, high, y, h);
    ShiftSplit(x, high, y, h);
  }

  lemma AbsorbsOneNamed(c: bv32, v: bv32, x: bv32, high: bv32, y: bv32, h: bv32, s: bv32, t: bv32)
    requires v & 1 == 1 && x == c ^ 1 && high == v ^ 1 && y == c ^ v && h == v >> 1
    requires s == Shift(x) && t == Shift(y)
    ensures t == Xor(s, h)
  {
    AbsorbsOne(c, v, x, high, y, h, s, t);
    XorNamed(s, h, t);
  }

  lemma AbsorbsZero(c: bv32, v: bv32, y: bv32, h: bv32, s: bv32, t: bv32)
    requires v & 1 == 0 && y == c ^ v && h == v >> 1
    requires s == Shift(c) && t == Shift(y)
    ensures t == s ^ h
  {
    ShiftSplit(c, v, y, h);
  }

  lemma AbsorbsZeroNamed(c: bv32, v: bv32, y: bv32, h: bv32, s: bv32, t: bv32)
    requires v & 1 != 1 && y == c ^ v && h == v >> 1
    requires s == Shift(c) && t == Shift(y)
    ensures t == Xor(s, h)
  {
    XorShift(v, v);
    AbsorbsZero(c, v, y, h, s, t);
    XorNamed(s, h, t);
  }

  lemma ShiftAbsorbsOne(c: bv32, v: bv32)
    requires Low(v)
    ensures Shift(Xor(c, v)) == Xor(Shift(Xor(c, 1)), Half(v))
  {
    AbsorbsOneNamed(c, v, Xor(c, 1), Xor(v, 1), Xor(c, v), Half(v), Shift(Xor(c, 1)), Shift(Xor(c, v)));
  }

  lemma ShiftAbsorbsZero(c: bv32, v: bv32)
    requires !Low(v)
    ensures Shift(Xor(c, v)) == Xor(Shift(c), Half(v))
  {
    AbsorbsZeroNamed(c, v, Xor(c, v), Half(v), Shift(c), Shift(Xor(c, v)));
  }

  lemma NonzeroShift(x: bv32)
    requires x != 0
    ensures Shift(x) != 0
  {
    assert (x >> 1) & 0x8000_0000 == 0;
    if x & 1 == 1 {
      assert ((x >> 1) ^ POLYNOMIAL) & 0x8000_0000 == 0x8000_0000;
    } else {
      XorShift(x, x);
      assert x == ((x >> 1) << 1) | (x & 1);
    }
  }

  lemma ShiftInjective(x: bv32, y: bv32)
    requires Shift(x) == Shift(y)
    ensures x == y
  {
    var d := x ^ y;
    ShiftLinear(x, y, d);
    assert Shift(d) == 0;
    if d != 0 { NonzeroShift(d); }
    XorLaws(x, y, 0);
  }

  lemma HalvesSeven(v: bv32)
    ensures WORDS.Halves(7, v) == v >> 7
  {
  }

  lemma HalvesEight(v: bv32)
    ensures WORDS.Halves(8, v) == v >> 8
  {
  }

  lemma HalvesIsShift(v: bv32)
    ensures WORDS.Halves(31, v) == v >> 31
  {
    WORDS.HalvesSum(7, 24, v);
    WORDS.HalvesSum(8, 16, v);
    WORDS.HalvesSum(8, 8, v);
    HalvesEight(v);
    HalvesEight(v >> 8);
    HalvesEight(v >> 16);
    HalvesSeven(v >> 24);
    ShiftSums(v);
  }

  lemma ShiftSums(v: bv32)
    ensures v >> 8 >> 8 == v >> 16 && v >> 16 >> 8 == v >> 24 && v >> 24 >> 7 == v >> 31
  {
  }

  lemma TopClear(v: bv32, p: bv32)
    requires v >> 31 == 0 && p == v << 1
    ensures p >> 1 == v && p & 1 == 0
  {
    assert v == v & 0x7FFF_FFFF;
  }

  lemma Doubled(v: bv32, p: bv32)
    requires v >> 31 == 0 && p == Double(v)
    ensures Half(p) == v && !Low(p)
  {
    TopClear(v, p);
  }

  lemma LowSet(p: bv32, q: bv32)
    requires p & 1 == 0 && q == p | 1
    ensures q >> 1 == p >> 1 && q & 1 == 1
  {
  }

  lemma MadeOdd(p: bv32, q: bv32)
    requires p & 1 == 0 && q == Odd(p)
    ensures Half(q) == Half(p) && Low(q)
  {
    LowSet(p, q);
  }

  lemma RoomAtTop(v: bv32)
    requires WORDS.Fits(31, v)
    ensures v >> 31 == 0
  {
    WORDS.FitsHalves(31, 0, v);
    HalvesIsShift(v);
  }

  lemma EvenLow(p: bv32)
    requires !Low(p)
    ensures p & 1 == 0
  {
    XorShift(p, p);
  }

  lemma PushedOne(v: bv32, p: bv32, q: bv32)
    requires v >> 31 == 0 && p == Double(v) && q == Odd(p)
    ensures Low(q) && Half(q) == v
  {
    Doubled(v, p);
    EvenLow(p);
    MadeOdd(p, q);
  }

  lemma PushUndone(b: bool, v: bv32)
    requires WORDS.Fits(31, v)
    ensures Low(Push(b, v)) == b && Half(Push(b, v)) == v
  {
    RoomAtTop(v);
    if b {
      PushedOne(v, Double(v), Push(true, v));
    } else {
      Doubled(v, Push(false, v));
    }
  }

  lemma HalvesAndLow(v: bv32, w: bv32)
    requires Low(v) == Low(w) && Half(v) == Half(w)
    ensures v == w
  {
    XorShift(v, w);
    assert v == ((v >> 1) << 1) | (v & 1) && w == ((w >> 1) << 1) | (w & 1);
  }

  lemma XorCancels()
    ensures WORDS.XorCancels()
  {
    forall x, y, z | Xor(x, y) == Xor(x, z) ensures y == z {
      XorLaws(x, y, 0);
      XorLaws(x, z, 0);
    }
    forall x, y, z | Xor(y, x) == Xor(z, x) ensures y == z {
      XorLaws(y, x, 0);
      XorLaws(z, x, 0);
    }
  }

  lemma TwoParts()
    ensures forall v, w :: WORDS.low(v) == WORDS.low(w) && WORDS.half(v) == WORDS.half(w) ==> v == w
  {
    forall v, w | Low(v) == Low(w) && Half(v) == Half(w) ensures v == w {
      HalvesAndLow(v, w);
    }
  }

  lemma OnlyLowFeedsBack()
    ensures forall c, v :: WORDS.shift(WORDS.xor(c, v)) == WORDS.xor(WORDS.Absorb(c, WORDS.low(v)), WORDS.half(v))
  {
    forall c, v ensures WORDS.shift(WORDS.xor(c, v)) == WORDS.xor(WORDS.Absorb(c, WORDS.low(v)), WORDS.half(v)) {
      if Low(v) { ShiftAbsorbsOne(c, v); } else { ShiftAbsorbsZero(c, v); }
    }
  }

  lemma StepsDiffer()
    ensures forall x, y :: WORDS.shift(x) == WORDS.shift(y) ==> x == y
  {
    forall x, y | Shift(x) == Shift(y) ensures x == y {
      ShiftInjective(x, y);
    }
  }

  lemma PushesUndone()
    ensures forall b, v :: WORDS.Room(32, v) ==> WORDS.low(WORDS.push(b, v)) == b && WORDS.half(WORDS.push(b, v)) == v
  {
    forall b, v | WORDS.Room(32, v) ensures Low(Push(b, v)) == b && Half(Push(b, v)) == v {
      PushUndone(b, v);
    }
  }

  lemma WordsAreLawful()
    ensures WORDS.Lawful(32)
  {
    XorCancels();
    assert WORDS.half(WORDS.zero) == WORDS.zero;
    TwoParts();
    OnlyLowFeedsBack();
    StepsDiffer();
    PushesUndone();
  }

  lemma ShiftLinearXor(x: bv32, y: bv32, z: bv32)
    requires z == x ^ y
    ensures Shift(z) == Xor(Shift(x), Shift(y))
  {
    ShiftLinear(x, y, z);
  }

  lemma WordsAreLinear()
    ensures WORDS.Linear()
  {
    forall x, y ensures Shift(Xor(x, y)) == Xor(Shift(x), Shift(y)) {
      ShiftLinearXor(x, y, Xor(x, y));
    }
    forall v | !Low(v) ensures Shift(v) == Half(v) {
      XorShift(v, v);
      ShiftEven(v);
    }
  }

  lemma XorZero(x: bv32, y: bv32)
    ensures Xor(x, y) == 0 <==> x == y
  {
  }

  lemma FlipRight(x: bv32, y: bv32, p: bv32, y1: bv32, d: bv32)
    requires y1 == y ^ p && d == x ^ y
    ensures x ^ y1 == d ^ p
  {
    XorLaws(x, y, p);
  }

  lemma XorRight(x: bv32, y: bv32, p: bv32, y1: bv32, d: bv32)
    requires y1 == Xor(y, p) && d == Xor(x, y)
    ensures Xor(x, y1) == Xor(d, p)
  {
    FlipRight(x, y, p, y1, d);
  }

  lemma XorCommutes(x: bv32, y: bv32)
    ensures Xor(x, y) == Xor(y, x)
  {
  }

  lemma XorLeft(x: bv32, y: bv32, p: bv32, x1: bv32, d: bv32)
    requires x1 == Xor(x, p) && d == Xor(x, y)
    ensures Xor(x1, y) == Xor(d, p)
  {
    XorCommutes(x1, y);
    XorCommutes(x, y);
    XorRight(y, x, p, x1, d);
  }

  lemma FlipBoth(x: bv32, y: bv32, p: bv32, x1: bv32, y1: bv32)
    requires x1 == x ^ p && y1 == y ^ p
    ensures x1 ^ y1 == x ^ y
  {
    XorLaws(x, y, p);
  }

  lemma XorBoth(x: bv32, y: bv32, p: bv32, x1: bv32, y1: bv32)
    requires x1 == Xor(x, p) && y1 == Xor(y, p)
    ensures Xor(x1, y1) == Xor(x, y)
  {
    FlipBoth(x, y, p, x1, y1);
  }

  lemma WordsDiffer()
    ensures WORDS.Differences()
  {
    forall x, y ensures WORDS.xor(x, y) == WORDS.zero <==> x == y {
      XorZero(x, y);
    }
    forall c, d, x, y
      ensures WORDS.xor(WORDS.With(c, x), WORDS.With(d, y)) == WORDS.With(WORDS.xor(c, d), x != y)
    {
      XorLeft(c, d, 1, Xor(c, 1), Xor(c, d));
      XorRight(c, d, 1, Xor(d, 1), Xor(c, d));
      XorBoth(c, d, 1, Xor(c, 1), Xor(d, 1));
      WORDS.FlipsAddUp(c, d, x, y);
    }
  }
}
