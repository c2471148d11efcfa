/** The DMA buffer as two interleaved streams of bits. */
module BitStream {
  import opened ShiftRegister
  import opened Words

  function Mask(i: nat): bv32
    requires i < 32
  {
    1 << i
  }

  predicate Test(w: bv32, m: bv32) {
    w & m != 0
  }

  function Clear(w: bv32, m: bv32): bv32 {
    w & !m
  }

  function Set(w: bv32, m: bv32): bv32 {
    w | m
  }

  /** Clear the bits of `m`, then set them if they must be set: ws2811.c:682-686. */
  function Put(w: bv32, m: bv32, v: bool): bv32 {
    if v then Set(Clear(w, m), m) else Clear(w, m)
  }

  predicate GetBit(w: bv32, i: nat)
    requires i < 32
  {
    Test(w, Mask(i))
  }

  function PutBit(w: bv32, i: nat, v: bool): bv32
    requires i < 32
  {
    Put(w, Mask(i), v)
  }

  lemma MasksDistinct(i: nat, j: nat)
    requires i < j < 32
    ensures Mask(i) & Mask(j) == 0
  {
  }

  lemma MaskNonzero(i: nat)
    requires i < 32
    ensures Mask(i) != 0
  {
  }

  lemma MaskedOut(w: bv32, m: bv32, k: bv32)
    requires m & k == 0
    ensures (w & !m) & k == w & k
  {
  }

  lemma MaskedIn(w: bv32, m: bv32, k: bv32)
    requires m & k == 0
    ensures (w | m) & k == w & k
  {
  }

  lemma MaskedHere(w: bv32, m: bv32)
    ensures (w & !m) & m == 0
    ensures ((w & !m) | m) & m == m
  {
  }

  lemma SameTest(p: bv32, w: bv32, k: bv32)
    requires p & k == w & k
    ensures Test(p, k) == Test(w, k)
  {
  }

  lemma ClearedElsewhere(w: bv32, m: bv32, k: bv32, c: bv32)
    requires m & k == 0 && c == Clear(w, m)
    ensures Test(c, k) == Test(w, k)
  {
    MaskedOut(w, m, k);
    SameTest(c, w, k);
  }

  lemma SetElsewhere(c: bv32, m: bv32, k: bv32, p: bv32)
    requires m & k == 0 && p == Set(c, m)
    ensures Test(p, k) == Test(c, k)
  {
    MaskedIn(c, m, k);
    SameTest(p, c, k);
  }

  lemma PutElsewhere(w: bv32, m: bv32, v: bool, k: bv32, c: bv32, p: bv32)
    requires m & k == 0 && c == Clear(w, m) && p == if v then Set(c, m) else c
    ensures Test(p, k) == Test(w, k)
  {
    ClearedElsewhere(w, m, k, c);
    if v {
      SetElsewhere(c, m, k, p);
    }
  }

  lemma PutHere(w: bv32, m: bv32, v: bool)
    requires m != 0
    ensures Test(Put(w, m, v), m) == v
  {
    MaskedHere(w, m);
    if v {
      assert Put(w, m, v) == (w & !m) | m;
    } else {
      assert Put(w, m, v) == w & !m;
    }
  }

  lemma MasksApart(i: nat, j: nat)
    requires i < 32 && j < 32 && i != j
    ensures Mask(i) & Mask(j) == 0
  {
    if i < j {
      MasksDistinct(i, j);
    } else {
      MasksDistinct(j, i);
      Commute(Mask(i), Mask(j));
    }
  }

  lemma Commute(m: bv32, k: bv32)
    ensures m & k == k & m
  {
  }

  lemma PutBitAt(w: bv32, i: nat, v: bool, j: nat)
    requires i < 32 && j < 32
    ensures GetBit(PutBit(w, i, v), j) == if i == j then v else GetBit(w, j)
  {
    if i == j {
      MaskNonzero(i);
      PutHere(w, Mask(i), v);
    } else {
      MasksApart(i, j);
      var c := Clear(w, Mask(i));
      PutElsewhere(w, Mask(i), v, Mask(j), c, if v then Set(c, Mask(i)) else c);
    }
  }

  lemma ZeroBits(i: nat)
    requires i < 32
    ensures !GetBit(0, i)
  {
  }

  lemma MaskDoubles(i: nat)
    requires i < 31
    ensures Mask(i + 1) == Mask(i) << 1 && Mask(i) & 0x8000_0000 == 0
  {
  }

  lemma TestHalf(v: bv32, h: bv32, m: bv32, n: bv32)
    requires m & 0x8000_0000 == 0 && n == m << 1 && h == v >> 1
    ensures Test(v, n) == Test(h, m)
  {
  }

  lemma NextBit(v: bv32, h: bv32, i: nat)
    requires i < 31 && h == Half(v)
    ensures GetBit(v, i + 1) == GetBit(h, i)
  {
    MaskDoubles(i);
    TestHalf(v, h, Mask(i), Mask(i + 1));
  }

  lemma LowestBit(v: bv32)
    ensures GetBit(v, 0) == Low(v)
  {
    XorShift(v, v);
  }

  lemma WordFits(v: bv32)
    ensures WORDS.Fits(32, v)
  {
    WORDS.FitsHalves(32, 0, v);
    WORDS.HalvesSum(1, 31, v);
    HalvesIsShift(v);
    assert v >> 31 >> 1 == 0;
  }

  lemma {:induction false} SameLowBits(n: nat, v: bv32, w: bv32)
    requires n <= 32 && WORDS.Fits(n, v) && WORDS.Fits(n, w)
    requires forall i :: 0 <= i < n ==> GetBit(v, i) == GetBit(w, i)
    ensures v == w
  {
    if n > 0 {
      forall i | 0 <= i < n - 1 ensures GetBit(Half(v), i) == GetBit(Half(w), i) {
        NextBit(v, Half(v), i);
        NextBit(w, Half(w), i);
        assert GetBit(v, i + 1) == GetBit(w, i + 1);
      }
      SameLowBits(n - 1, Half(v), Half(w));
      LowestBit(v);
      LowestBit(w);
      HalvesAndLow(v, w);
    }
  }

  /** A word is its bits. */
  lemma SameBits(v: bv32, w: bv32)
    requires forall i :: 0 <= i < 32 ==> GetBit(v, i) == GetBit(w, i)
    ensures v == w
  {
    WordFits(v);
    WordFits(w);
    SameLowBits(32, v, w);
  }

  // ---- Channels: every other word, highest bit first ----

  const CHANNELS := 2

  /** The word that holds bit `p` of channel `c`: a step of 32 bits skips a word. */
  function WordPos(c: nat, p: nat): (w: nat)
    ensures c <= w && (w - c) % 2 == 0
    ensures 16 * (w - c) <= p < 16 * (w - c) + 32
  {
    if p < 32 then c else WordPos(c, p - 32) + 2
  }

  /** Where in its word bit `p` lies. */
  function BitPos(p: nat): (b: int)
    ensures 0 <= b < 32
  {
    if p < 32 then 31 - p else BitPos(p - 32)
  }

  lemma {:induction false} ClosedForm(c: nat, p: nat)
    ensures WordPos(c, p) == c + 2 * (p / 32) && BitPos(p) == 31 - p % 32
  {
    if p >= 32 {
      ClosedForm(c, p - 32);
    }
  }

  lemma {:induction false} BitInWord(c: nat, p: nat)
    ensures BitPos(p) == 31 - (p - 16 * (WordPos(c, p) - c))
  {
    if p >= 32 {
      BitInWord(c, p - 32);
    }
  }

  lemma {:induction false} NextPosition(c: nat, p: nat)
    ensures WordPos(c, p + 1) == if BitPos(p) == 0 then WordPos(c, p) + 2 else WordPos(c, p)
    ensures BitPos(p + 1) == if BitPos(p) == 0 then 31 else BitPos(p) - 1
  {
    if p >= 32 {
      NextPosition(c, p - 32);
    }
  }

  lemma PositionsDistinct(c: nat, p: nat, c': nat, q: nat)
    requires c < CHANNELS && c' < CHANNELS && WordPos(c, p) == WordPos(c', q) && BitPos(p) == BitPos(q)
    ensures c == c' && p == q
  {
  }

  /** A buffer of whole pairs of words: each channel has 16 bits per word of the buffer. */
  predicate Holds(raw: seq<bv32>, bits: nat) {
    |raw| % CHANNELS == 0 && bits <= 16 * |raw|
  }

  predicate StreamBit(raw: seq<bv32>, c: nat, p: nat)
    requires c < CHANNELS && Holds(raw, p + 1)
  {
    GetBit(raw[WordPos(c, p)], BitPos(p))
  }

  function PaintOne(raw: seq<bv32>, c: nat, p: nat, v: bool): (r: seq<bv32>)
    requires c < CHANNELS && Holds(raw, p + 1)
    ensures |r| == |raw|
  {
    raw[WordPos(c, p) := PutBit(raw[WordPos(c, p)], BitPos(p), v)]
  }

  /** The buffer after writing `bits` to channel `c` from position `p` on. */
  function Paint(raw: seq<bv32>, c: nat, p: nat, bits: seq<bool>): (r: seq<bv32>)
    requires c < CHANNELS && Holds(raw, p + |bits|)
    ensures |r| == |raw|
    decreases |bits|
  {
    if bits == [] then raw
    else PaintOne(Paint(raw, c, p, bits[..|bits| - 1]), c, p + |bits| - 1, bits[|bits| - 1])
  }

  lemma PaintOneAt(raw: seq<bv32>, c: nat, p: nat, v: bool, c': nat, q: nat)
    requires c < CHANNELS && Holds(raw, p + 1) && c' < CHANNELS && Holds(raw, q + 1)
    ensures StreamBit(PaintOne(raw, c, p, v), c', q) == if c' == c && q == p then v else StreamBit(raw, c', q)
  {
    if WordPos(c, p) == WordPos(c', q) {
      PutBitAt(raw[WordPos(c, p)], BitPos(p), v, BitPos(q));
      if BitPos(p) == BitPos(q) {
        PositionsDistinct(c, p, c', q);
      }
    }
  }

  lemma PaintSnoc(raw: seq<bv32>, c: nat, p: nat, bits: seq<bool>, v: bool)
    requires c < CHANNELS && Holds(raw, p + |bits| + 1)
    ensures Paint(raw, c, p, bits + [v]) == PaintOne(Paint(raw, c, p, bits), c, p + |bits|, v)
  {
    assert (bits + [v])[..|bits|] == bits;
  }

  /** Painting sets the bits it is given, and no other bit of the buffer changes. */
  lemma {:induction false} PaintAt(raw: seq<bv32>, c: nat, p: nat, bits: seq<bool>, c': nat, q: nat)
    requires c < CHANNELS && Holds(raw, p + |bits|) && c' < CHANNELS && Holds(raw, q + 1)
    ensures StreamBit(Paint(raw, c, p, bits), c', q) ==
      if c' == c && p <= q < p + |bits| then bits[q - p] else StreamBit(raw, c', q)
    decreases |bits|
  {
    if bits != [] {
      var front, last := bits[..|bits| - 1], bits[|bits| - 1];
      assert bits == front + [last];
      PaintAt(raw, c, p, front, c', q);
      PaintSnoc(raw, c, p, front, last);
      PaintOneAt(Paint(raw, c, p, front), c, p + |front|, last, c', q);
    }
  }

  /** A buffer is the bits of its two channels. */
  lemma SameStreams(v: seq<bv32>, w: seq<bv32>)
    requires |v| == |w| && |v| % CHANNELS == 0
    requires forall c, q :: 0 <= c < CHANNELS && 0 <= q < 16 * |v| ==> StreamBit(v, c, q) == StreamBit(w, c, q)
    ensures v == w
  {
    forall k | 0 <= k < |v| ensures v[k] == w[k] {
      var c := k % CHANNELS;
      forall i | 0 <= i < 32 ensures GetBit(v[k], i) == GetBit(w[k], i) {
        var q := 16 * (k - c) + (31 - i);
        BitInWord(c, q);
        assert WordPos(c, q) == k && BitPos(q) == i;
        assert StreamBit(v, c, q) == StreamBit(w, c, q);
      }
      SameBits(v[k], w[k]);
    }
  }
}
