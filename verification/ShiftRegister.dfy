/**
 * What a linear feedback shift register does to a stream of bits, from a few laws of its words.
 *
 * The proofs never look inside a word; `Crc32` shows that 32-bit words obey the laws.
 */
module ShiftRegister {

  /** A kind of word: its operations, and the register's step. */
  datatype Register<!W(!new)> = Register(
    zero: W,
    one: W,
    xor: (W, W) -> W,
    low: W -> bool,        // the lowest bit
    half: W -> W,          // all but the lowest bit, moved down
    push: (bool, W) -> W,  // moved up, with a new lowest bit
    shift: W -> W          // one step of the register
  ) {

    /** `v` has no bits beyond the lowest `n`. */
    ghost predicate Fits(n: nat, v: W) {
      if n == 0 then v == zero else Fits(n - 1, half(v))
    }

    ghost predicate XorCancels() {
      && (forall x :: xor(x, zero) == x)
      && (forall x, y, z :: xor(x, y) == xor(x, z) ==> y == z)
      && (forall x, y, z :: xor(y, x) == xor(z, x) ==> y == z)
    }

    ghost predicate Lawful(width: nat) {
      && XorCancels()
      && half(zero) == zero
      && (forall v, w :: low(v) == low(w) && half(v) == half(w) ==> v == w)
      // only the lowest bit of what is absorbed takes part in this step's feedback
      && (forall c, v :: shift(xor(c, v)) == xor(Absorb(c, low(v)), half(v)))
      && (forall x, y :: shift(x) == shift(y) ==> x == y)
      && (forall b, v :: Room(width, v) ==> low(push(b, v)) == b && half(push(b, v)) == v)
    }

    /** There is room for one more bit in a word of `width` bits. */
    ghost predicate Room(width: nat, v: W) {
      width > 0 && Fits(width - 1, v)
    }

    /** The `n` low bits of `v`, lowest first. */
    ghost function BitsOf(n: nat, v: W): (s: seq<bool>)
      ensures |s| == n
      decreases n
    {
      if n == 0 then [] else [low(v)] + BitsOf(n - 1, half(v))
    }

    ghost function Pack(bits: seq<bool>): W {
      if bits == [] then zero else push(bits[0], Pack(bits[1..]))
    }

    ghost function Shifts(n: nat, c: W): W
      decreases n
    {
      if n == 0 then c else Shifts(n - 1, shift(c))
    }

    /** One bit goes in at the low end. */
    ghost function Absorb(c: W, bit: bool): W {
      shift(if bit then xor(c, one) else c)
    }

    /** The register after absorbing a stream of bits. */
    ghost function Feed(c: W, bits: seq<bool>): W
      decreases |bits|
    {
      if bits == [] then c else Feed(Absorb(c, bits[0]), bits[1..])
    }

    lemma {:induction false} FeedConcat(c: W, a: seq<bool>, b: seq<bool>)
      ensures Feed(c, a + b) == Feed(Feed(c, a), b)
      decreases |a|
    {
      if a == [] {
        assert a + b == b;
      } else {
        assert (a + b)[1..] == a[1..] + b;
        FeedConcat(Absorb(c, a[0]), a[1..], b);
      }
    }

    /** Different states stay different, whatever both absorb. */
    lemma {:induction false} FeedInjective(width: nat, x: W, y: W, bits: seq<bool>)
      requires Lawful(width) && Feed(x, bits) == Feed(y, bits)
      ensures x == y
      decreases |bits|
    {
      if bits != [] {
        FeedInjective(width, Absorb(x, bits[0]), Absorb(y, bits[0]), bits[1..]);
      }
    }

    lemma {:induction false} ShiftsInjective(width: nat, n: nat, x: W, y: W)
      requires Lawful(width) && Shifts(n, x) == Shifts(n, y)
      ensures x == y
      decreases n
    {
      if n > 0 {
        ShiftsInjective(width, n - 1, shift(x), shift(y));
      }
    }

    /** A word absorbed bit by bit is the word absorbed at once and shifted as often. */
    lemma {:induction false} FeedWord(width: nat, c: W, n: nat, v: W)
      requires Lawful(width) && Fits(n, v)
      ensures Feed(c, BitsOf(n, v)) == Shifts(n, xor(c, v))
      decreases n
    {
      if n > 0 {
        assert BitsOf(n, v)[1..] == BitsOf(n - 1, half(v));
        FeedWord(width, Absorb(c, low(v)), n - 1, half(v));
      }
    }

    /** The register acts on sums term by term, and merely moves a word with a clear low bit. */
    ghost predicate Linear() {
      && (forall x, y :: shift(xor(x, y)) == xor(shift(x), shift(y)))
      && (forall v :: !low(v) ==> shift(v) == half(v))
    }

    lemma {:induction false} ShiftsLinear(n: nat, x: W, y: W)
      requires Linear()
      ensures Shifts(n, xor(x, y)) == xor(Shifts(n, x), Shifts(n, y))
      decreases n
    {
      if n > 0 {
        ShiftsLinear(n - 1, shift(x), shift(y));
      }
    }

    /** `c` with its lowest bit flipped or not. */
    ghost function With(c: W, bit: bool): W {
      if bit then xor(c, one) else c
    }

    /** The laws of differences: equal words have none, and flipped bits add up. */
    ghost predicate Differences() {
      && (forall x, y :: xor(x, y) == zero <==> x == y)
      && (forall c, d, x, y :: xor(With(c, x), With(d, y)) == With(xor(c, d), x != y))
    }

    lemma FlipsAddUp(c: W, d: W, x: bool, y: bool)
      requires xor(xor(c, one), d) == xor(xor(c, d), one) && xor(c, xor(d, one)) == xor(xor(c, d), one)
      requires xor(xor(c, one), xor(d, one)) == xor(c, d)
      ensures xor(With(c, x), With(d, y)) == With(xor(c, d), x != y)
    {
    }

    lemma ShiftDifference(p: W, q: W, r: W)
      requires Linear() && xor(p, q) == r
      ensures xor(shift(p), shift(q)) == shift(r)
    {
    }

    lemma AbsorbDifference(c: W, d: W, x: bool, y: bool)
      requires Linear() && Differences()
      ensures xor(Absorb(c, x), Absorb(d, y)) == Absorb(xor(c, d), x != y)
    {
      ShiftDifference(With(c, x), With(d, y), With(xor(c, d), x != y));
    }

    /** The difference of the states of two registers is the state of one that absorbs the difference. */
    lemma {:induction false} FeedDifference(c: W, d: W, a: seq<bool>, b: seq<bool>, e: W)
      requires Linear() && Differences() && |a| == |b| && e == xor(c, d)
      ensures xor(Feed(c, a), Feed(d, b)) == Feed(e, XorBits(a, b))
      decreases |a|
    {
      if a != [] {
        assert XorBits(a, b)[1..] == XorBits(a[1..], b[1..]);
        AbsorbDifference(c, d, a[0], b[0]);
        FeedDifference(Absorb(c, a[0]), Absorb(d, b[0]), a[1..], b[1..], Absorb(e, a[0] != b[0]));
      }
    }

    /** The `n` lowest bits of `v` are clear. */
    ghost predicate Clear(n: nat, v: W)
      decreases n
    {
      n == 0 || (!low(v) && Clear(n - 1, half(v)))
    }

    lemma {:induction false} ShiftsOfClear(n: nat, v: W)
      requires Linear() && Clear(n, v)
      ensures Shifts(n, v) == Halves(n, v)
      decreases n
    {
      if n > 0 {
        ShiftsOfClear(n - 1, half(v));
      }
    }

    lemma ShiftsSplit(n: nat, low: W, high: W)
      requires Linear() && Clear(n, high)
      ensures Shifts(n, xor(low, high)) == xor(Shifts(n, low), Halves(n, high))
    {
      ShiftsLinear(n, low, high);
      ShiftsOfClear(n, high);
    }

    lemma {:induction false} FitsMore(n: nat, m: nat, v: W)
      requires half(zero) == zero && n <= m && Fits(n, v)
      ensures Fits(m, v)
      decreases m
    {
      if m > 0 {
        FitsMore(if n == 0 then 0 else n - 1, m - 1, half(v));
      }
    }

    ghost function Halves(n: nat, v: W): W
      decreases n
    {
      if n == 0 then v else Halves(n - 1, half(v))
    }

    lemma {:induction false} HalvesSum(n: nat, m: nat, v: W)
      ensures Halves(n + m, v) == Halves(n, Halves(m, v))
      decreases m
    {
      if m > 0 {
        HalvesSum(n, m - 1, half(v));
      }
    }

    lemma {:induction false} FitsHalves(n: nat, m: nat, v: W)
      ensures Fits(n + m, v) == Fits(m, Halves(n, v))
      decreases n
    {
      if n > 0 {
        FitsHalves(n - 1, m, half(v));
      }
    }

    lemma {:induction false} PackUnpacks(width: nat, bits: seq<bool>)
      requires Lawful(width) && |bits| <= width
      ensures Fits(|bits|, Pack(bits)) && BitsOf(|bits|, Pack(bits)) == bits
    {
      if bits != [] {
        PackUnpacks(width, bits[1..]);
        FitsMore(|bits| - 1, width - 1, Pack(bits[1..]));
        var v := Pack(bits);
        assert Room(width, Pack(bits[1..]));
        assert low(v) == bits[0] && half(v) == Pack(bits[1..]);
        assert bits == [bits[0]] + bits[1..];
      }
    }

    lemma {:induction false} BitsInjective(width: nat, n: nat, v: W, w: W)
      requires Lawful(width) && Fits(n, v) && Fits(n, w) && BitsOf(n, v) == BitsOf(n, w)
      ensures v == w
      decreases n
    {
      if n > 0 {
        assert BitsOf(n, v)[0] == BitsOf(n, w)[0];
        assert BitsOf(n, v)[1..] == BitsOf(n, w)[1..];
        BitsInjective(width, n - 1, half(v), half(w));
      }
    }

    /** As many bits as a word holds determine the change of state. */
    lemma FeedDistinguishes(width: nat, c: W, a: seq<bool>, b: seq<bool>)
      requires Lawful(width) && |a| == |b| <= width
      requires Feed(c, a) == Feed(c, b)
      ensures a == b
    {
      PackUnpacks(width, a);
      PackUnpacks(width, b);
      FeedWord(width, c, |a|, Pack(a));
      FeedWord(width, c, |b|, Pack(b));
      ShiftsInjective(width, |a|, xor(c, Pack(a)), xor(c, Pack(b)));
    }

    lemma FeedInThree(c: W, a: seq<bool>, k: nat, e: nat)
      requires k <= e <= |a|
      ensures Feed(c, a) == Feed(Feed(Feed(c, a[..k]), a[k..e]), a[e..])
    {
      Thirds(a, k, e);
      FeedConcat(c, a[..k], a[k..e] + a[e..]);
      FeedConcat(Feed(c, a[..k]), a[k..e], a[e..]);
    }

    lemma SameStateSameBits(width: nat, c: W, a: seq<bool>, b: seq<bool>, k: nat)
      requires Lawful(width) && AgreeOutside(width, a, b, k)
      requires Feed(c, a) == Feed(c, b)
      ensures a == b
    {
      var n := |a|;
      if k < n {
        var e := if k + width < n then k + width else n;
        assert a[..k] == b[..k] && a[e..] == b[e..];
        FeedInThree(c, a, k, e);
        FeedInThree(c, b, k, e);
        var s := Feed(c, a[..k]);
        FeedInjective(width, Feed(s, a[k..e]), Feed(s, b[k..e]), a[e..]);
        FeedDistinguishes(width, s, a[k..e], b[k..e]);
        Thirds(a, k, e);
        Thirds(b, k, e);
      }
    }

    /** A change confined to as many consecutive bits as the register holds never cancels out. */
    lemma BurstChangesState(width: nat, c: W, a: seq<bool>, b: seq<bool>, k: nat)
      requires Lawful(width) && AgreeOutside(width, a, b, k) && a != b
      ensures Feed(c, a) != Feed(c, b)
    {
      if Feed(c, a) == Feed(c, b) {
        SameStateSameBits(width, c, a, b, k);
      }
    }
  }

  /** Where two streams differ. */
  function XorBits(a: seq<bool>, b: seq<bool>): (s: seq<bool>)
    requires |a| == |b|
    ensures |s| == |a|
  {
    seq(|a|, i requires 0 <= i < |a| => a[i] != b[i])
  }

  lemma Thirds<T>(a: seq<T>, k: nat, e: nat)
    requires k <= e <= |a|
    ensures a == a[..k] + (a[k..e] + a[e..])
  {
  }

  /** Two bit streams that agree except within `width` consecutive bits. */
  ghost predicate AgreeOutside(width: nat, a: seq<bool>, b: seq<bool>, k: nat) {
    && |a| == |b|
    && forall i :: 0 <= i < |a| && !(k <= i < k + width) ==> a[i] == b[i]
  }

  // ---- Streams made of symbols of a fixed number of bits ----

  /** The bits of each symbol of `s`, one symbol after the other. */
  ghost function Stream<T>(code: T -> seq<bool>, s: seq<T>): seq<bool> {
    if s == [] then [] else code(s[0]) + Stream(code, s[1..])
  }

  lemma {:induction false} StreamConcat<T>(code: T -> seq<bool>, a: seq<T>, b: seq<T>)
    ensures Stream(code, a + b) == Stream(code, a) + Stream(code, b)
  {
    if a == [] {
      assert a + b == b;
    } else {
      assert (a + b)[1..] == a[1..] + b;
      StreamConcat(code, a[1..], b);
    }
  }

  lemma StreamOne<T>(code: T -> seq<bool>, x: T)
    ensures Stream(code, [x]) == code(x)
  {
    assert Stream(code, [x]) == code(x) + Stream(code, [x][1..]);
  }

  lemma {:induction false} StreamLength<T(!new)>(code: T -> seq<bool>, n: nat, s: seq<T>)
    requires forall x :: |code(x)| == n
    ensures |Stream(code, s)| == n * |s|
  {
    if s != [] {
      StreamLength(code, n, s[1..]);
    }
  }

  lemma {:induction false} StreamInjective<T(!new)>(code: T -> seq<bool>, n: nat, a: seq<T>, b: seq<T>)
    requires forall x :: |code(x)| == n
    requires forall x, y :: code(x) == code(y) ==> x == y
    requires |a| == |b| && Stream(code, a) == Stream(code, b)
    ensures a == b
  {
    if a != [] {
      assert Stream(code, a)[..n] == code(a[0]) && Stream(code, a)[n..] == Stream(code, a[1..]);
      assert Stream(code, b)[..n] == code(b[0]) && Stream(code, b)[n..] == Stream(code, b[1..]);
      StreamInjective(code, n, a[1..], b[1..]);
      assert a == [a[0]] + a[1..] && b == [b[0]] + b[1..];
    }
  }

  /** Symbols that agree outside a window of `m` give bits that agree outside the window's bits. */
  lemma StreamAgrees<T(!new)>(code: T -> seq<bool>, n: nat, m: nat, a: seq<T>, b: seq<T>, k: nat)
    requires forall x :: |code(x)| == n
    requires |a| == |b| && forall i :: 0 <= i < |a| && !(k <= i < k + m) ==> a[i] == b[i]
    ensures AgreeOutside(n * m, Stream(code, a), Stream(code, b), n * k)
  {
    if k >= |a| {
      assert a == b;
    } else {
      var e := if k + m < |a| then k + m else |a|;
      assert a[..k] == b[..k] && a[e..] == b[e..];
      StreamInThree(code, a, k, e);
      StreamInThree(code, b, k, e);
      StreamThirdsAgree(code, n, m, a[..k], a[k..e], b[k..e], a[e..]);
    }
  }

  lemma StreamThirdsAgree<T(!new)>(code: T -> seq<bool>, n: nat, m: nat, p: seq<T>, x: seq<T>, y: seq<T>, q: seq<T>)
    requires forall x :: |code(x)| == n
    requires |x| == |y| <= m
    ensures AgreeOutside(n * m, Stream(code, p) + (Stream(code, x) + Stream(code, q)),
                         Stream(code, p) + (Stream(code, y) + Stream(code, q)), n * |p|)
  {
    StreamLength(code, n, p);
    StreamLength(code, n, x);
    StreamLength(code, n, y);
    Scale(n, |x|, m);
    ThirdsAgree(n * m, Stream(code, p), Stream(code, x), Stream(code, y), Stream(code, q), n * |p|);
  }

  lemma Scale(n: nat, i: nat, j: nat)
    requires i <= j
    ensures n * i <= n * j
  {
  }

  lemma ThirdsAgree(w: nat, p: seq<bool>, x: seq<bool>, y: seq<bool>, q: seq<bool>, k: nat)
    requires |x| == |y| <= w && |p| == k
    ensures AgreeOutside(w, p + (x + q), p + (y + q), k)
  {
  }

  lemma StreamInThree<T>(code: T -> seq<bool>, a: seq<T>, k: nat, e: nat)
    requires k <= e <= |a|
    ensures Stream(code, a) == Stream(code, a[..k]) + (Stream(code, a[k..e]) + Stream(code, a[e..]))
  {
    Thirds(a, k, e);
    StreamConcat(code, a[..k], a[k..e] + a[e..]);
    StreamConcat(code, a[k..e], a[e..]);
  }
}
