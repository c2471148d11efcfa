/** The accelerometer statistics of koruza.c: a ring buffer with a running sum. */
module Statistics {
  import opened Options
  import opened Window

  /** `struct accelerometer_statistics_item` over the reals; None stands for NAN and -INFINITY. */
  datatype Item = Item(
    sum: real,
    average: real,
    variance: Option<real>,
    maximum: Option<real>,
    buffer: seq<real>,
    bufferMax: seq<real>,
    samples: nat,
    index: nat
  ) {
    predicate Valid() {
      |buffer| == SIZE && |bufferMax| == SIZE && samples <= SIZE && index < SIZE
    }
  }

  /** Statistics are cleared with the whole status by a memset. */
  function Zeroed(): Item {
    Item(0.0, 0.0, Some(0.0), Some(0.0), seq(SIZE, _ => 0.0), seq(SIZE, _ => 0.0), 0, 0)
  }

  /** `koruza_update_accelerometer_statistics_item` */
  function Updated(item: Item, avg: real, max: real): (r: Item)
    requires item.Valid()
    ensures r.Valid()
  {
    var sum := item.sum - item.buffer[item.index] + avg;
    var samples := if item.samples < SIZE then item.samples + 1 else item.samples;
    Item(sum, sum / samples as real, None, None,
         item.buffer[item.index := avg], item.bufferMax[item.index := max], samples, (item.index + 1) % SIZE)
  }

  /** `koruza_compute_accelerometer_statistics_item` */
  function Computed(item: Item): (r: Item)
    requires item.Valid()
    ensures r.Valid()
  {
    item.(variance := if item.samples == 0 then None
                      else Some(SquareSum(item.buffer[..item.samples], item.average) / item.samples as real),
          maximum := RunningMax(item.bufferMax[..item.samples]))
  }

  class StatisticsItem {
    var sum: real
    var average: real
    var variance: Option<real>
    var maximum: Option<real>
    const buffer: array<real>
    const bufferMax: array<real>
    var samples: nat
    var index: nat

    ghost predicate Valid()
      reads this
    {
      buffer != bufferMax && buffer.Length == SIZE && bufferMax.Length == SIZE && samples <= SIZE && index < SIZE
    }

    ghost function View(): Item
      reads this, buffer, bufferMax
    {
      Item(sum, average, variance, maximum, buffer[..], bufferMax[..], samples, index)
    }

    constructor ()
      ensures Valid() && View() == Zeroed()
      ensures sum == average == 0.0 && variance == maximum == Some(0.0) && samples == index == 0
      ensures forall i :: 0 <= i < SIZE ==> buffer[i] == bufferMax[i] == 0.0
    {
      sum, average, variance, maximum := 0.0, 0.0, Some(0.0), Some(0.0);
      buffer := new real[SIZE](_ => 0.0);
      bufferMax := new real[SIZE](_ => 0.0);
      samples, index := 0, 0;
    }

    method Update(avg: real, max: real)
      requires Valid()
      modifies this, buffer, bufferMax
      ensures Valid() && View() == Updated(old(View()), avg, max)
    {
      sum := sum - buffer[index];
      buffer[index] := avg;
      bufferMax[index] := max;
      sum := sum + avg;
      if samples < SIZE {
        samples := samples + 1;
      }
      index := (index + 1) % SIZE;
      average := sum / samples as real;
      variance := None;
      maximum := None;
    }

    method Compute()
      requires Valid()
      modifies this`variance, this`maximum
      ensures Valid() && View() == Computed(old(View()))
    {
      ghost var values, maxima := buffer[..], bufferMax[..];
      var squares := 0.0;
      maximum := None;
      var i := 0;
      while i < samples
        invariant i <= samples
        invariant squares == SquareSum(values[..i], average) && maximum == RunningMax(maxima[..i])
      {
        var value, valueMax := buffer[i], bufferMax[i];
        SquareSumNext(values, i, average);
        RunningMaxNext(maxima, i);
        if maximum.None? || valueMax > maximum.value {
          maximum := Some(valueMax);
        }
        squares := squares + (value - average) * (value - average);
        i := i + 1;
      }
      variance := if samples == 0 then None else Some(squares / samples as real);
    }
  }

  /** The statistics after a run of updates from the zeroed state. */
  function After(avgs: seq<real>, maxs: seq<real>): (r: Item)
    requires |avgs| == |maxs|
    ensures r.Valid()
  {
    if avgs == [] then Zeroed()
    else Updated(After(avgs[..|avgs| - 1], maxs[..|maxs| - 1]), avgs[|avgs| - 1], maxs[|maxs| - 1])
  }

  ghost predicate BuffersAgree(item: Item, avgs: seq<real>, maxs: seq<real>) {
    item.buffer == Ring(avgs, 0.0) && item.bufferMax == Ring(maxs, 0.0)
  }

  /** The counters, the sum and the average are those of the window `w` after `n` samples. */
  ghost predicate FiguresAgree(item: Item, w: seq<real>, n: nat) {
    && item.samples == |w| && item.index == n % SIZE && item.sum == Sum(w)
    && (w != [] ==> item.average == Mean(w))
  }

  /** Everything the structure holds, as a recomputation from the whole history would give it. */
  ghost predicate Agrees(item: Item, avgs: seq<real>, maxs: seq<real>) {
    BuffersAgree(item, avgs, maxs) && FiguresAgree(item, Recent(avgs), |avgs|)
  }

  lemma NextIndex(n: nat)
    ensures (n + 1) % SIZE == (n % SIZE + 1) % SIZE
  {
  }

  lemma UpdateFigures(item: Item, w: seq<real>, n: nat, x: real, y: real, w': seq<real>, n': nat)
    requires item.Valid() && FiguresAgree(item, w, n) && n' == n + 1
    requires |w'| == if |w| < SIZE then |w| + 1 else SIZE
    requires Sum(w') == Sum(w) - item.buffer[item.index] + x
    ensures FiguresAgree(Updated(item, x, y), w', n')
  {
    NextIndex(n);
  }

  lemma UpdateBuffers(item: Item, a: seq<real>, m: seq<real>, x: real, y: real, avgs: seq<real>, maxs: seq<real>)
    requires item.Valid() && |a| == |m| && BuffersAgree(item, a, m) && item.index == |a| % SIZE
    requires avgs == a + [x] && maxs == m + [y]
    ensures BuffersAgree(Updated(item, x, y), avgs, maxs)
  {
    RingPush(a, 0.0, x);
    RingPush(m, 0.0, y);
  }

  lemma SumPush(a: seq<real>, x: real, avgs: seq<real>, ring: seq<real>, i: nat)
    requires avgs == a + [x] && ring == Ring(a, 0.0) && i == |a| % SIZE
    ensures |Recent(avgs)| == if |Recent(a)| < SIZE then |Recent(a)| + 1 else SIZE
    ensures Sum(Recent(avgs)) == Sum(Recent(a)) - ring[i] + x
  {
    RingPush(a, 0.0, x);
    SumRecent(Recent(a), x, Recent(avgs), ring[i]);
  }

  lemma SumRecent(w: seq<real>, x: real, w': seq<real>, out: real)
    requires if |w| < SIZE then w' == w + [x] && out == 0.0 else w' == w[1..] + [x] && out == w[0]
    ensures Sum(w') == Sum(w) - out + x
  {
    if |w| < SIZE {
      assert (w + [x])[..|w|] == w;
    } else {
      SumSlides(w, x);
    }
  }

  lemma FiguresStep(item: Item, a: seq<real>, x: real, y: real, avgs: seq<real>)
    requires item.Valid() && item.buffer == Ring(a, 0.0) && FiguresAgree(item, Recent(a), |a|) && avgs == a + [x]
    ensures FiguresAgree(Updated(item, x, y), Recent(avgs), |avgs|)
  {
    SumPush(a, x, avgs, item.buffer, item.index);
    UpdateFigures(item, Recent(a), |a|, x, y, Recent(avgs), |avgs|);
  }

  lemma SplitLast(s: seq<real>)
    requires s != []
    ensures s == s[..|s| - 1] + [s[|s| - 1]]
  {
  }

  /** The running sum is the sum of the window, however long the run. */
  lemma {:induction false} AfterAgrees(avgs: seq<real>, maxs: seq<real>)
    requires |avgs| == |maxs|
    ensures Agrees(After(avgs, maxs), avgs, maxs)
    ensures avgs != [] ==> After(avgs, maxs).variance == None && After(avgs, maxs).maximum == None
    ensures After(avgs, maxs).samples == if |avgs| < 120 then |avgs| else 120
    ensures After(avgs, maxs).index == |avgs| % 120
  {
    if avgs != [] {
      var a, m, x, y := avgs[..|avgs| - 1], maxs[..|maxs| - 1], avgs[|avgs| - 1], maxs[|maxs| - 1];
      AfterAgrees(a, m);
      SplitLast(avgs);
      SplitLast(maxs);
      UpdateBuffers(After(a, m), a, m, x, y, avgs, maxs);
      FiguresStep(After(a, m), a, x, y, avgs);
    } else {
      AgreesAtFirst();
    }
  }

  lemma AgreesAtFirst()
    ensures Agrees(Zeroed(), [], [])
  {
  }

  /** Every update invalidates what was computed on demand before. */
  lemma UpdateInvalidates(item: Item, x: real, y: real)
    requires item.Valid()
    ensures Updated(item, x, y).variance == None && Updated(item, x, y).maximum == None
  {
  }

  /** Without a sample there is neither a variance nor a maximum. */
  lemma NothingComputed(item: Item)
    requires item.Valid() && item.samples == 0
    ensures Computed(item) == item.(variance := None, maximum := None)
  {
    assert item.bufferMax[..0] == [];
  }

  /** Whatever the rotation of the ring, the pass on demand finds the window's variance and maximum. */
  lemma ComputedAgrees(avgs: seq<real>, maxs: seq<real>)
    requires |avgs| == |maxs| && avgs != []
    ensures var r := Computed(After(avgs, maxs));
      && Agrees(r, avgs, maxs)
      && r.variance == Some(Variance(Recent(avgs)))
      && r.maximum.Some? && IsMaximum(r.maximum.value, Recent(maxs))
  {
    AfterAgrees(avgs, maxs);
    var item := After(avgs, maxs);
    RotatedSquares(avgs, item.average);
    SquareSumIsSum(Recent(avgs), item.average);
    RotatedMaximum(maxs);
  }

  lemma RotatedSquares(h: seq<real>, mean: real)
    ensures SquareSum(Ring(h, 0.0)[..|Recent(h)|], mean) == SquareSum(Recent(h), mean)
  {
    var w := Recent(h);
    var k := if |h| <= SIZE then 0 else SIZE - |h| % SIZE;
    RingIsRotation(h, 0.0);
    SquareSumConcat(w[k..], w[..k], mean);
    SquareSumConcat(w[..k], w[k..], mean);
    assert w == w[..k] + w[k..];
  }

  lemma RotatedMaximum(h: seq<real>)
    requires h != []
    ensures var m := RunningMax(Ring(h, 0.0)[..|Recent(h)|]); m.Some? && IsMaximum(m.value, Recent(h))
  {
    var w := Recent(h);
    var k := if |h| <= SIZE then 0 else SIZE - |h| % SIZE;
    RingIsRotation(h, 0.0);
    RotationMaximum(w, k, w[k..] + w[..k]);
  }

  lemma RotationMaximum(w: seq<real>, k: nat, r: seq<real>)
    requires k <= |w| && w != [] && r == w[k..] + w[..k]
    ensures RunningMax(r).Some? && IsMaximum(RunningMax(r).value, w)
  {
    RunningMaxIsMaximum(r);
    assert w == w[..k] + w[k..];
    forall x ensures x in r <==> x in w {}
  }
}
