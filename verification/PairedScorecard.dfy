/** The bootstrap interval on the mean paired difference: the index draw, the
    resamples and the two percentiles. Arithmetic is exact.
 */
module PairedScorecard {
  import opened Common
  import opened Sorting

  // ----- the index draw -----

  function Pow2(k: nat): (r: nat)
    ensures r > 0
  {
    if k == 0 then 1 else 2 * Pow2(k - 1)
  }

  /** `int.bit_length` */
  function BitLength(m: nat): nat {
    if m == 0 then 0 else 1 + BitLength(m / 2)
  }

  lemma {:induction false} BitLengthBounds(m: nat)
    ensures m < Pow2(BitLength(m))
    ensures 0 < m ==> Pow2(BitLength(m)) <= 2 * m
  {
    if 0 < m {
      BitLengthBounds(m / 2);
    }
  }

  /** The width used for a draw below `n` covers `n` and is less than twice as wide. */
  lemma DrawWidth(n: nat)
    requires 2 <= n
    ensures n <= Pow2(Width(n)) < 2 * n
  {
    var m := n - 1;
    BitLengthBounds(m);
  }

  /** The number of bits asked for when drawing below `n`. */
  function Width(n: int): nat {
    if n <= 0 then 0 else BitLength(n - 1)
  }

  /** A generator: `bits(p, k)` is what call number `p` returns when it asks for `k` bits. */
  class Rng {
    const bits: (nat, nat) -> nat
    var calls: nat

    constructor (bits: (nat, nat) -> nat)
      ensures this.bits == bits && calls == 0
    {
      this.bits := bits;
      calls := 0;
    }

    method GetRandBits(k: nat) returns (value: nat)
      modifies this
      ensures calls == old(calls) + 1 && value == bits(old(calls), k)
    {
      value := bits(calls, k);
      calls := calls + 1;
    }

    /** The first draw below `n`; none when there is nothing to draw from. The
        ghost parameter names a call that succeeds, which an unfair generator
        would not have. */
    method DrawIndex(n: int, ghost hit: nat) returns (index: Option<nat>)
      requires 2 <= n ==> calls <= hit && bits(hit, Width(n)) < n
      modifies this
      ensures index.None? <==> n <= 0
      ensures n <= 1 ==> calls == old(calls)
      ensures n == 1 ==> index == Some(0)
      ensures 2 <= n ==>
                && old(calls) < calls
                && index == Some(bits(calls - 1, Width(n))) && index.value < n
                && forall p | old(calls) <= p < calls - 1 :: n <= bits(p, Width(n))
      ensures index.Some? ==> Picks(bits, n, old(calls), index.value, calls)
    {
      if n <= 0 {
        return None;
      }
      if n == 1 {
        return Some(0);
      }
      var k := BitLength(n - 1);
      assert k == Width(n);
      while true
        invariant old(calls) <= calls <= hit
        invariant forall p | old(calls) <= p < calls :: n <= bits(p, k)
        decreases hit - calls
      {
        var value := GetRandBits(k);
        if value < n {
          return Some(value);
        }
      }
    }
  }

  /** From any call on, `next` names one that draws below `n`. */
  ghost predicate Fair(bits: (nat, nat) -> nat, next: nat -> nat, n: nat) {
    forall p: nat :: p <= next(p) && (2 <= n ==> bits(next(p), Width(n)) < n)
  }

  // ----- what a generator draws -----

  /** Starting at call `from`, a draw below `n` gives `index`, and the next call is number `to`. */
  ghost predicate Picks(bits: (nat, nat) -> nat, n: nat, from: nat, index: nat, to: nat) {
    if n <= 1 then index == 0 && to == from
    else
      && from < to && index == bits(to - 1, Width(n)) < n
      && forall p | from <= p < to - 1 :: n <= bits(p, Width(n))
  }

  /** The draw of one resample, index after index. */
  ghost predicate Drawn(bits: (nat, nat) -> nat, n: nat, from: nat, draw: seq<nat>, to: nat)
    decreases |draw|
  {
    if draw == [] then to == from
    else
      var front, last := draw[..|draw| - 1], draw[|draw| - 1];
      exists mid :: Picks(bits, n, mid, last, to) && Drawn(bits, n, from, front, mid)
  }

  /** The draws of all resamples, one after the other. */
  ghost predicate AllDrawn(bits: (nat, nat) -> nat, n: nat, from: nat, draws: seq<seq<nat>>, to: nat)
    decreases |draws|
  {
    if draws == [] then to == from
    else
      var front, last := draws[..|draws| - 1], draws[|draws| - 1];
      exists mid :: Drawn(bits, n, mid, last, to) && AllDrawn(bits, n, from, front, mid)
  }

  lemma PicksOne(bits: (nat, nat) -> nat, n: nat, from: nat, i: nat, to: nat, j: nat, to': nat)
    requires Picks(bits, n, from, i, to) && Picks(bits, n, from, j, to')
    ensures i == j && to == to'
  {
  }

  lemma {:induction false} DrawnOne(bits: (nat, nat) -> nat, n: nat, from: nat, a: seq<nat>, to: nat, b: seq<nat>, to': nat)
    requires Drawn(bits, n, from, a, to) && Drawn(bits, n, from, b, to') && |a| == |b|
    ensures a == b && to == to'
    decreases |a|
  {
    if a != [] {
      var m := |a| - 1;
      var mid :| Drawn(bits, n, from, a[..m], mid) && Picks(bits, n, mid, a[m], to);
      var mid' :| Drawn(bits, n, from, b[..m], mid') && Picks(bits, n, mid', b[m], to');
      DrawnOne(bits, n, from, a[..m], mid, b[..m], mid');
      PicksOne(bits, n, mid, a[m], to, b[m], to');
      assert a == a[..m] + [a[m]] && b == b[..m] + [b[m]];
    }
  }

  /** Main result: the resamples depend on nothing but the bits of the generator,
      the number of questions and how many are drawn. */
  lemma {:induction false} SameBitsSameDraws(bits: (nat, nat) -> nat, n: nat, from: nat,
                                             a: seq<seq<nat>>, to: nat, b: seq<seq<nat>>, to': nat)
    requires AllDrawn(bits, n, from, a, to) && AllDrawn(bits, n, from, b, to') && |a| == |b|
    requires forall i | 0 <= i < |a| :: |a[i]| == |b[i]|
    ensures a == b && to == to'
    decreases |a|
  {
    if a != [] {
      var m := |a| - 1;
      var mid :| AllDrawn(bits, n, from, a[..m], mid) && Drawn(bits, n, mid, a[m], to);
      var mid' :| AllDrawn(bits, n, from, b[..m], mid') && Drawn(bits, n, mid', b[m], to');
      assert a == a[..m] + [a[m]] && b == b[..m] + [b[m]];
      SameBitsSameDraws(bits, n, from, a[..m], mid, b[..m], mid');
      DrawnOne(bits, n, mid, a[m], to, b[m], to');
    }
  }

  // ----- the bootstrap -----

  /** A draw picks questions by index. */
  ghost predicate InRange(draw: seq<nat>, n: nat) {
    forall t | 0 <= t < |draw| :: draw[t] < n
  }

  /** The sum of the differences a draw picks. */
  ghost function Total(diffs: seq<real>, draw: seq<nat>): real
    requires InRange(draw, |diffs|)
  {
    if draw == [] then 0.0 else
      var n := |draw| - 1;
      Total(diffs, draw[..n]) + diffs[draw[n]]
  }

  /** One draw picks as many questions as there are, with replacement. */
  ghost predicate IsDraw(draw: seq<nat>, n: nat) {
    |draw| == n && InRange(draw, n)
  }

  ghost predicate AreDraws(draws: seq<seq<nat>>, n: nat) {
    forall d | d in draws :: IsDraw(d, n)
  }

  ghost function Means(diffs: seq<real>, draws: seq<seq<nat>>): (means: seq<real>)
    requires diffs != [] && AreDraws(draws, |diffs|)
    ensures |means| == |draws|
  {
    if draws == [] then [] else
      var r := |draws| - 1;
      assert draws[r] in draws;
      assert forall d :: d in draws[..r] ==> d in draws;
      Means(diffs, draws[..r]) + [Total(diffs, draws[r]) / |diffs| as real]
  }

  function Clamp(i: int, resamples: nat): int {
    var atLeast := if i < 0 then 0 else i;
    if atLeast <= resamples - 1 then atLeast else resamples - 1
  }

  /** `tail * resamples` */
  function TailCount(resamples: nat, confidence: real): real {
    (1.0 - confidence) / 2.0 * resamples as real
  }

  function LowIndex(resamples: nat, confidence: real): int {
    Clamp(((1.0 - confidence) / 2.0 * resamples as real).Floor, resamples)
  }

  function HighIndex(resamples: nat, confidence: real): int {
    Clamp(((1.0 - (1.0 - confidence) / 2.0) * resamples as real).Floor - 1, resamples)
  }

  datatype Interval = Interval(mean: real, low: real, high: real)

  ghost predicate IsSetting(resamples: nat, confidence: real) {
    0 < resamples && 0.0 < confidence < 1.0
  }

  /** The mean of the differences, and two of the sorted means. */
  function Percentiles(diffs: seq<real>, means: seq<real>, low: int, high: int): Interval
    requires diffs != [] && 0 <= low < |means| && 0 <= high < |means|
  {
    var sorted := Sort(means, RealLe);
    Interval(Mean(diffs, Value), sorted[low], sorted[high])
  }

  function IntervalOf(diffs: seq<real>, means: seq<real>, confidence: real): Interval
    requires diffs != [] && means != []
  {
    IndicesInRange(|means|, confidence);
    Percentiles(diffs, means, LowIndex(|means|, confidence), HighIndex(|means|, confidence))
  }

  ghost function Bootstrap(diffs: seq<real>, draws: seq<seq<nat>>, confidence: real): Interval
    requires diffs != [] && AreDraws(draws, |diffs|) && draws != []
  {
    IntervalOf(diffs, Means(diffs, draws), confidence)
  }

  method Resample(diffs: seq<real>, rng: Rng, ghost next: nat -> nat) returns (total: real, ghost draw: seq<nat>)
    requires Fair(rng.bits, next, |diffs|)
    modifies rng
    ensures IsDraw(draw, |diffs|) && total == Total(diffs, draw)
    ensures Drawn(rng.bits, |diffs|, old(rng.calls), draw, rng.calls)
  {
    total, draw := 0.0, [];
    var n := |diffs|;
    for t := 0 to n
      invariant |draw| == t && InRange(draw, n)
      invariant total == Total(diffs, draw)
      invariant Drawn(rng.bits, n, old(rng.calls), draw, rng.calls)
    {
      ghost var mid := rng.calls;
      var index := rng.DrawIndex(n, next(rng.calls));
      assert (draw + [index.value])[..t] == draw;
      assert Drawn(rng.bits, n, old(rng.calls), draw, mid) && Picks(rng.bits, n, mid, index.value, rng.calls);
      draw := draw + [index.value];
      total := total + diffs[index.value];
    }
  }

  method ResampleAll(diffs: seq<real>, rng: Rng, resamples: nat, ghost next: nat -> nat)
    returns (means: seq<real>, ghost draws: seq<seq<nat>>)
    requires diffs != [] && Fair(rng.bits, next, |diffs|)
    modifies rng
    ensures |draws| == resamples && AreDraws(draws, |diffs|) && means == Means(diffs, draws)
    ensures AllDrawn(rng.bits, |diffs|, old(rng.calls), draws, rng.calls)
  {
    means, draws := [], [];
    for r := 0 to resamples
      invariant |draws| == r && AreDraws(draws, |diffs|) && means == Means(diffs, draws)
      invariant AllDrawn(rng.bits, |diffs|, old(rng.calls), draws, rng.calls)
    {
      ghost var mid := rng.calls;
      ghost var draw;
      var total;
      total, draw := Resample(diffs, rng, next);
      MeansOneMore(diffs, draws, draw);
      DrawsOneMore(rng.bits, |diffs|, old(rng.calls), draws, mid, draw, rng.calls);
      means := means + [total / |diffs| as real];
      draws := draws + [draw];
    }
  }

  lemma DrawsOneMore(bits: (nat, nat) -> nat, n: nat, from: nat, draws: seq<seq<nat>>, mid: nat, draw: seq<nat>, to: nat)
    requires AllDrawn(bits, n, from, draws, mid) && Drawn(bits, n, mid, draw, to)
    ensures AllDrawn(bits, n, from, draws + [draw], to)
  {
    assert (draws + [draw])[..|draws|] == draws;
  }

  lemma MeansOneMore(diffs: seq<real>, draws: seq<seq<nat>>, draw: seq<nat>)
    requires diffs != [] && AreDraws(draws, |diffs|) && IsDraw(draw, |diffs|)
    ensures AreDraws(draws + [draw], |diffs|)
    ensures Means(diffs, draws + [draw]) == Means(diffs, draws) + [Total(diffs, draw) / |diffs| as real]
  {
    assert (draws + [draw])[..|draws|] == draws;
  }

  /** The interval as the code computes it, or nothing for the arguments it
      rejects. `next` witnesses that the generator is fair. */
  method BootstrapMeanDiff(diffs: seq<real>, rng: Rng, resamples: int, confidence: real, ghost next: nat -> nat)
    returns (ci: Option<Interval>, ghost draws: seq<seq<nat>>)
    requires Fair(rng.bits, next, |diffs|)
    modifies rng
    ensures ci.Some? <==> diffs != [] && 0 < resamples && 0.0 < confidence < 1.0
    ensures ci.Some? ==> |draws| == resamples && AreDraws(draws, |diffs|) && ci.value == Bootstrap(diffs, draws, confidence)
    ensures ci.Some? ==> AllDrawn(rng.bits, |diffs|, old(rng.calls), draws, rng.calls)
  {
    draws := [];
    if diffs == [] || resamples <= 0 || !(0.0 < confidence < 1.0) {
      return None, draws;
    }
    var means;
    means, draws := ResampleAll(diffs, rng, resamples, next);
    ci := Some(IntervalOf(diffs, means, confidence));
  }

  // ----- the two indices -----

  lemma IndicesInRange(resamples: nat, confidence: real)
    requires 0 < resamples
    ensures 0 <= LowIndex(resamples, confidence) < resamples
    ensures 0 <= HighIndex(resamples, confidence) < resamples
  {
  }

  /** The indices without the clamps: the floor of the tail count, and its mirror by the ceiling. */
  lemma IndicesByTail(resamples: nat, confidence: real)
    requires IsSetting(resamples, confidence)
    ensures var x := TailCount(resamples, confidence);
            && 0.0 < x && 2.0 * x < resamples as real
            && LowIndex(resamples, confidence) == x.Floor
            && HighIndex(resamples, confidence) ==
               if resamples - Ceiling(x) - 1 < 0 then 0 else resamples - Ceiling(x) - 1
  {
    var r, x := resamples as real, TailCount(resamples, confidence);
    var tail := (1.0 - confidence) / 2.0;
    TailBounds(tail, r);
    assert (1.0 - tail) * r == r - x;
    assert (r - x).Floor == resamples - Ceiling(x) by {
      assert (-x).Floor as real <= -x < (-x).Floor as real + 1.0;
      assert (r - x).Floor as real <= r - x < (r - x).Floor as real + 1.0;
    }
    assert x.Floor as real <= x;
  }

  lemma TailBounds(tail: real, r: real)
    requires 0.0 < tail < 0.5 && 0.0 < r
    ensures 0.0 < tail * r && 2.0 * (tail * r) < r
  {
    assert (0.5 - tail) * r > 0.0;
  }

  /** When the lower index does not pass the upper one. */
  predicate IndicesOrdered(resamples: nat, confidence: real) {
    var x := TailCount(resamples, confidence);
    x < 1.0 || x.Floor + Ceiling(x) <= resamples - 1
  }

  lemma IndicesOrderedIff(resamples: nat, confidence: real)
    requires IsSetting(resamples, confidence)
    ensures LowIndex(resamples, confidence) <= HighIndex(resamples, confidence) <==> IndicesOrdered(resamples, confidence)
  {
    IndicesByTail(resamples, confidence);
    var x := TailCount(resamples, confidence);
    assert x.Floor as real <= x < x.Floor as real + 1.0;
  }

  /** One whole resample inside the confidence band is enough. */
  lemma BandOfOneIsEnough(resamples: nat, confidence: real)
    requires IsSetting(resamples, confidence) && confidence * resamples as real >= 1.0
    ensures IndicesOrdered(resamples, confidence)
  {
    var x, r := TailCount(resamples, confidence), resamples as real;
    assert confidence * r == r - 2.0 * x;
    assert x.Floor as real <= x < x.Floor as real + 1.0;
    assert (-x).Floor as real <= -x < (-x).Floor as real + 1.0;
  }

  /** Three resamples at confidence 0.2 have crossed indices. */
  lemma CrossedIndices()
    ensures IsSetting(3, 0.2) && LowIndex(3, 0.2) == 1 && HighIndex(3, 0.2) == 0
  {
  }

  // ----- the bounds -----

  lemma {:induction false} TotalBounds(diffs: seq<real>, draw: seq<nat>, lo: real, hi: real)
    requires InRange(draw, |diffs|)
    requires forall d :: d in diffs ==> lo <= d <= hi
    ensures |draw| as real * lo <= Total(diffs, draw) <= |draw| as real * hi
  {
    if draw != [] {
      var n := |draw| - 1;
      assert diffs[draw[n]] in diffs;
      TotalBounds(diffs, draw[..n], lo, hi);
      assert |draw| as real * lo == n as real * lo + lo;
      assert |draw| as real * hi == n as real * hi + hi;
    }
  }

  lemma {:induction false} MeansBounds(diffs: seq<real>, draws: seq<seq<nat>>, lo: real, hi: real)
    requires diffs != [] && AreDraws(draws, |diffs|)
    requires forall d :: d in diffs ==> lo <= d <= hi
    ensures forall m :: m in Means(diffs, draws) ==> lo <= m <= hi
  {
    if draws != [] {
      var r := |draws| - 1;
      assert draws[r] in draws && forall d :: d in draws[..r] ==> d in draws;
      MeansBounds(diffs, draws[..r], lo, hi);
      TotalBounds(diffs, draws[r], lo, hi);
      DivideBounds(Total(diffs, draws[r]), |diffs|, lo, hi);
    }
  }

  lemma DivideBounds(total: real, n: nat, lo: real, hi: real)
    requires 0 < n && n as real * lo <= total <= n as real * hi
    ensures lo <= total / n as real <= hi
  {
    var q := total / n as real;
    assert q * n as real == total;
    NonNegativeFactor(q - lo, n as real);
    NonNegativeFactor(hi - q, n as real);
  }

  lemma NonNegativeFactor(x: real, n: real)
    requires 0.0 < n && 0.0 <= x * n
    ensures 0.0 <= x
  {
  }

  /** Main result: both bounds lie between the least and the greatest difference,
      and the lower one does not exceed the upper one when the indices are in order. */
  lemma {:induction false} BootstrapBounds(diffs: seq<real>, draws: seq<seq<nat>>, confidence: real, lo: real, hi: real)
    requires diffs != [] && AreDraws(draws, |diffs|) && IsSetting(|draws|, confidence)
    requires forall d :: d in diffs ==> lo <= d <= hi
    ensures var ci := Bootstrap(diffs, draws, confidence);
            && lo <= ci.low <= hi && lo <= ci.high <= hi
            && (IndicesOrdered(|draws|, confidence) ==> ci.low <= ci.high)
  {
    var means := Means(diffs, draws);
    var sorted := Sort(means, RealLe);
    MeansBounds(diffs, draws, lo, hi);
    SameElements(means, sorted);
    IndicesInRange(|draws|, confidence);
    IndicesOrderedIff(|draws|, confidence);
    RealOrder();
    SortSorted(means, RealLe);
    var l, h := LowIndex(|draws|, confidence), HighIndex(|draws|, confidence);
    assert sorted[l] in sorted && sorted[h] in sorted;
    assert l < h ==> RealLe(sorted[l], sorted[h]);
  }
}
