/** Sums, maxima and rings of samples: what the sliding statistics should report. */
module Window {
  import opened Options

  const SIZE := 120

  /** The samples a window of 120 still shows, oldest first. */
  function Recent<T>(h: seq<T>): (w: seq<T>)
    ensures |w| == if |h| < SIZE then |h| else SIZE
  {
    if |h| <= SIZE then h else h[|h| - SIZE..]
  }

  /** `w` with its last `k` elements first. */
  function Turned<T>(w: seq<T>, k: nat): (r: seq<T>)
    requires k <= |w|
    ensures |r| == |w|
  {
    w[|w| - k..] + w[..|w| - k]
  }

  /** The ring buffer after the samples `h`: slot i holds the last sample whose number is i modulo 120. */
  function Ring<T>(h: seq<T>, zero: T): (r: seq<T>)
    ensures |r| == SIZE
  {
    if |h| <= SIZE then h + seq(SIZE - |h|, _ => zero)
    else Turned(Recent(h), |h| % SIZE)
  }

  /** Where the next sample goes, and what is thrown out there. */
  lemma RingPush<T>(h: seq<T>, zero: T, x: T)
    ensures Ring(h, zero)[|h| % SIZE := x] == Ring(h + [x], zero)
    ensures |h| >= SIZE ==> Ring(h, zero)[|h| % SIZE] == Recent(h)[0]
    ensures |h| < SIZE ==> Ring(h, zero)[|h| % SIZE] == zero
    ensures Recent(h + [x]) == if |h| < SIZE then Recent(h) + [x] else Recent(h)[1..] + [x]
  {
    if |h| < SIZE {
      RingFills(h, zero, x);
    } else {
      RingTurns(h, zero, x, |h| % SIZE);
    }
  }

  lemma RingFills<T>(h: seq<T>, zero: T, x: T)
    requires |h| < SIZE
    ensures |h| % SIZE == |h| && Ring(h, zero)[|h|] == zero
    ensures Ring(h, zero)[|h| := x] == Ring(h + [x], zero)
  {
    assert (h + seq(SIZE - |h|, _ => zero))[|h| := x] == (h + [x]) + seq(SIZE - |h| - 1, _ => zero);
  }

  lemma RingIsTurned<T>(h: seq<T>, zero: T, k: nat)
    requires |h| >= SIZE && k == |h| % SIZE
    ensures Ring(h, zero) == Turned(Recent(h), k)
  {
    if |h| == SIZE {
      assert h + seq(0, _ => zero) == h == h[SIZE..] + h[..SIZE];
    }
  }

  lemma RecentNext<T>(h: seq<T>, x: T)
    requires |h| >= SIZE
    ensures Recent(h + [x]) == Recent(h)[1..] + [x]
  {
  }

  lemma Turn<T>(w: seq<T>, x: T, k: nat, next: nat)
    requires k < |w| && next == if k == |w| - 1 then 0 else k + 1
    ensures Turned(w, k)[k] == w[0]
    ensures Turned(w, k)[k := x] == Turned(w[1..] + [x], next)
  {
  }

  lemma RingTurns<T>(h: seq<T>, zero: T, x: T, k: nat)
    requires |h| >= SIZE && k == |h| % SIZE
    ensures Ring(h, zero)[k := x] == Ring(h + [x], zero) && Ring(h, zero)[k] == Recent(h)[0]
    ensures Recent(h + [x]) == Recent(h)[1..] + [x]
  {
    var next := if k == SIZE - 1 then 0 else k + 1;
    RingIsTurned(h, zero, k);
    RingIsTurned(h + [x], zero, next);
    RecentNext(h, x);
    Turn(Recent(h), x, k, next);
  }

  /** The slots in use are the window, rotated. */
  lemma RingIsRotation<T>(h: seq<T>, zero: T)
    ensures var w := Recent(h);
      var k := if |h| <= SIZE then 0 else SIZE - |h| % SIZE;
      k <= |w| && Ring(h, zero)[..|w|] == w[k..] + w[..k]
  {
    var w := Recent(h);
    if |h| <= SIZE {
      assert w[0..] + w[..0] == w;
    }
  }

  function Sum(s: seq<real>): real {
    if s == [] then 0.0 else Sum(s[..|s| - 1]) + s[|s| - 1]
  }

  /** With `SumConcat`, all there is to a sum. */
  lemma SumOfOne(x: real)
    ensures Sum([]) == 0.0 && Sum([x]) == x
  {
    assert [x][..0] == [];
  }

  lemma {:induction false} SumConcat(a: seq<real>, b: seq<real>)
    ensures Sum(a + b) == Sum(a) + Sum(b)
  {
    if b == [] {
      assert a + b == a;
    } else {
      assert (a + b)[..|a + b| - 1] == a + b[..|b| - 1];
      SumConcat(a, b[..|b| - 1]);
    }
  }

  lemma SumSlides(w: seq<real>, x: real)
    requires w != []
    ensures Sum(w[1..] + [x]) == Sum(w) - w[0] + x
  {
    assert w == [w[0]] + w[1..];
    SumConcat([w[0]], w[1..]);
    assert [w[0]][..0] == [] && (w[1..] + [x])[..|w| - 1] == w[1..];
  }

  function SquareSum(s: seq<real>, mean: real): real {
    if s == [] then 0.0
    else SquareSum(s[..|s| - 1], mean) + (s[|s| - 1] - mean) * (s[|s| - 1] - mean)
  }

  lemma SquareSumNext(s: seq<real>, i: nat, mean: real)
    requires i < |s|
    ensures SquareSum(s[..i + 1], mean) == SquareSum(s[..i], mean) + (s[i] - mean) * (s[i] - mean)
  {
    assert s[..i + 1][..i] == s[..i];
  }

  lemma {:induction false} SquareSumConcat(a: seq<real>, b: seq<real>, mean: real)
    ensures SquareSum(a + b, mean) == SquareSum(a, mean) + SquareSum(b, mean)
  {
    if b == [] {
      assert a + b == a;
    } else {
      assert (a + b)[..|a + b| - 1] == a + b[..|b| - 1];
      SquareSumConcat(a, b[..|b| - 1], mean);
    }
  }

  function Mean(w: seq<real>): real
    requires w != []
  {
    Sum(w) / |w| as real
  }

  /** The squares of the distances to `mean`. */
  function Squares(w: seq<real>, mean: real): (s: seq<real>)
    ensures |s| == |w| && forall i :: 0 <= i < |w| ==> s[i] == (w[i] - mean) * (w[i] - mean)
  {
    seq(|w|, i requires 0 <= i < |w| => (w[i] - mean) * (w[i] - mean))
  }

  /** Population variance: the mean square distance to the mean. */
  function Variance(w: seq<real>): real
    requires w != []
  {
    Mean(Squares(w, Mean(w)))
  }

  lemma SquaresSnoc(s: seq<real>, x: real, mean: real, t: seq<real>)
    requires t == s + [x]
    ensures Squares(t, mean) == Squares(s, mean) + [(x - mean) * (x - mean)]
  {
    forall i | 0 <= i < |s| ensures Squares(t, mean)[i] == Squares(s, mean)[i] {
      assert t[i] == s[i];
    }
    assert t[|s|] == x;
    assert Squares(t, mean)[..|s|] == Squares(s, mean) && Squares(t, mean)[|s|] == (x - mean) * (x - mean);
  }

  lemma SumSnoc(s: seq<real>, x: real)
    ensures Sum(s + [x]) == Sum(s) + x
  {
    assert (s + [x])[..|s|] == s;
  }

  /** The loop's running sum is the sum of the squares. */
  lemma {:induction false} SquareSumIsSum(w: seq<real>, mean: real)
    ensures SquareSum(w, mean) == Sum(Squares(w, mean))
  {
    if w != [] {
      var front, x := w[..|w| - 1], w[|w| - 1];
      SquareSumIsSum(front, mean);
      SquaresSnoc(front, x, mean, w);
      SumSnoc(Squares(front, mean), (x - mean) * (x - mean));
    }
  }

  /** The running maximum, from minus infinity on. */
  function RunningMax(s: seq<real>): Option<real> {
    if s == [] then None
    else
      match RunningMax(s[..|s| - 1])
      case None => Some(s[|s| - 1])
      case Some(m) => if s[|s| - 1] > m then Some(s[|s| - 1]) else Some(m)
  }

  lemma RunningMaxNext(s: seq<real>, i: nat)
    requires i < |s|
    ensures RunningMax(s[..i + 1]) == match RunningMax(s[..i])
                                      case None => Some(s[i])
                                      case Some(m) => if s[i] > m then Some(s[i]) else Some(m)
  {
    assert s[..i + 1][..i] == s[..i];
  }

  ghost predicate IsMaximum(m: real, s: seq<real>) {
    m in s && forall x :: x in s ==> x <= m
  }

  lemma {:induction false} RunningMaxIsMaximum(s: seq<real>)
    requires s != []
    ensures RunningMax(s).Some? && IsMaximum(RunningMax(s).value, s)
  {
    var front := s[..|s| - 1];
    assert s == front + [s[|s| - 1]];
    if front != [] {
      RunningMaxIsMaximum(front);
    }
  }
}
