/** One metric tested paired, what exchanging the two arms does to it, and when
    the bootstrap interval can be trusted to be an interval.
 */
module PairedComparison {
  import opened Common
  import opened PairedScorecard
  import opened Sorting

  // ----- a sample on which every index shows -----

  /** Of two questions with differences 0 and 1, the first `z` resamples pick the first only, the others the second only. */
  ghost function StepDraws(r: nat, z: nat): (draws: seq<seq<nat>>)
    ensures |draws| == r && AreDraws(draws, 2)
    ensures forall i | 0 <= i < r :: draws[i] == if i < z then [0, 0] else [1, 1]
  {
    seq(r, i => if i < z then [0, 0] else [1, 1])
  }

  lemma PairTotal(a: nat)
    requires a < 2
    ensures InRange([a, a], 2) && Total([0.0, 1.0], [a, a]) == 2.0 * [0.0, 1.0][a]
  {
    var d, diffs := [a, a], [0.0, 1.0];
    assert d[..1] == [a] && [a][..0] == [];
    assert Total(diffs, [a]) == Total(diffs, []) + diffs[a];
  }

  lemma {:induction false} MeanAt(diffs: seq<real>, draws: seq<seq<nat>>, i: nat)
    requires diffs != [] && AreDraws(draws, |diffs|) && i < |draws|
    ensures draws[i] in draws && Means(diffs, draws)[i] == Total(diffs, draws[i]) / |diffs| as real
  {
    var r := |draws| - 1;
    assert draws[i] in draws && forall d :: d in draws[..r] ==> d in draws;
    if i < r {
      MeanAt(diffs, draws[..r], i);
    }
  }

  lemma StepMeans(r: nat, z: nat)
    ensures var sorted := Sort(Means([0.0, 1.0], StepDraws(r, z)), RealLe);
            |sorted| == r && forall i | 0 <= i < r :: sorted[i] == if i < z then 0.0 else 1.0
  {
    var draws := StepDraws(r, z);
    var means := Means([0.0, 1.0], draws);
    forall i | 0 <= i < r
      ensures means[i] == if i < z then 0.0 else 1.0
    {
      MeanAt([0.0, 1.0], draws, i);
      PairTotal(0);
      PairTotal(1);
    }
    RealOrder();
    SortOfSorted(means, RealLe);
  }

  // ----- low <= high -----

  ghost predicate AlwaysOrdered(r: nat, confidence: real)
    requires IsSetting(r, confidence)
  {
    forall diffs: seq<real>, draws: seq<seq<nat>> | diffs != [] && |draws| == r && AreDraws(draws, |diffs|) ::
      Bootstrap(diffs, draws, confidence).low <= Bootstrap(diffs, draws, confidence).high
  }

  lemma LeastAndGreatest(diffs: seq<real>) returns (lo: real, hi: real)
    ensures forall d :: d in diffs ==> lo <= d <= hi
  {
    if diffs == [] {
      lo, hi := 0.0, 0.0;
    } else {
      lo, hi := LeastAndGreatest(diffs[1..]);
      assert diffs == [diffs[0]] + diffs[1..];
      lo, hi := if diffs[0] < lo then diffs[0] else lo, if hi < diffs[0] then diffs[0] else hi;
    }
  }

  /** Main result: the interval is in order for every sample and every draw
      exactly when the two indices are. */
  lemma AlwaysOrderedIff(r: nat, confidence: real)
    requires IsSetting(r, confidence)
    ensures AlwaysOrdered(r, confidence) <==> IndicesOrdered(r, confidence)
  {
    if IndicesOrdered(r, confidence) {
      forall diffs: seq<real>, draws: seq<seq<nat>> | diffs != [] && |draws| == r && AreDraws(draws, |diffs|)
        ensures Bootstrap(diffs, draws, confidence).low <= Bootstrap(diffs, draws, confidence).high
      {
        var lo, hi := LeastAndGreatest(diffs);
        BootstrapBounds(diffs, draws, confidence, lo, hi);
      }
    } else {
      IndicesInRange(r, confidence);
      IndicesOrderedIff(r, confidence);
      var z := HighIndex(r, confidence) + 1;
      StepMeans(r, z);
      var ci := Bootstrap([0.0, 1.0], StepDraws(r, z), confidence);
      assert ci.low == 1.0 && ci.high == 0.0;
    }
  }

  // ----- exchanging the arms -----

  function Negated(xs: seq<real>): (r: seq<real>)
    ensures |r| == |xs| && forall i | 0 <= i < |xs| :: r[i] == -xs[i]
  {
    seq(|xs|, i requires 0 <= i < |xs| => -xs[i])
  }

  lemma {:induction false} NegatedTotal(diffs: seq<real>, draw: seq<nat>)
    requires InRange(draw, |diffs|)
    ensures Total(Negated(diffs), draw) == -Total(diffs, draw)
  {
    if draw != [] {
      NegatedTotal(diffs, draw[..|draw| - 1]);
    }
  }

  lemma {:induction false} NegatedSum(xs: seq<real>)
    ensures Sum(Negated(xs), Value) == -Sum(xs, Value)
  {
    if xs != [] {
      var n := |xs| - 1;
      NegatedSum(xs[..n]);
      assert Negated(xs)[..n] == Negated(xs[..n]);
    }
  }

  lemma NegatedQuotient(x: real, n: real)
    requires 0.0 < n
    ensures (-x) / n == -(x / n)
  {
    var q := x / n;
    assert q * n == x;
    assert (-q) * n == -x;
  }

  lemma {:induction false} NegatedMeans(diffs: seq<real>, draws: seq<seq<nat>>)
    requires diffs != [] && AreDraws(draws, |diffs|)
    ensures Means(Negated(diffs), draws) == Negated(Means(diffs, draws))
  {
    if draws != [] {
      var r := |draws| - 1;
      assert draws[r] in draws && forall d :: d in draws[..r] ==> d in draws;
      NegatedMeans(diffs, draws[..r]);
      NegatedTotal(diffs, draws[r]);
      NegatedQuotient(Total(diffs, draws[r]), |diffs| as real);
    }
  }

  function Mirrored(xs: seq<real>): (r: seq<real>)
    ensures |r| == |xs| && forall i | 0 <= i < |xs| :: r[i] == -xs[|xs| - 1 - i]
  {
    seq(|xs|, i requires 0 <= i < |xs| => -xs[|xs| - 1 - i])
  }

  lemma BothEnds(x: real, xs: seq<real>, ys: seq<real>)
    requires multiset(xs) == multiset(ys)
    ensures multiset([x] + xs) == multiset(ys + [x])
  {
  }

  lemma MirroredStep(xs: seq<real>, n: nat)
    requires |xs| == n + 1
    ensures Mirrored(xs) == [-xs[n]] + Mirrored(xs[..n])
    ensures Negated(xs) == Negated(xs[..n]) + [-xs[n]]
  {
  }

  lemma {:induction false} MirroredMultiset(xs: seq<real>)
    ensures multiset(Mirrored(xs)) == multiset(Negated(xs))
  {
    if xs != [] {
      var n := |xs| - 1;
      MirroredMultiset(xs[..n]);
      BothEnds(-xs[n], Mirrored(xs[..n]), Negated(xs[..n]));
      MirroredStep(xs, n);
    }
  }

  lemma {:induction false} NegatedCount(xs: seq<real>, y: real)
    ensures multiset(Negated(xs))[y] == multiset(xs)[-y]
  {
    if xs != [] {
      var n := |xs| - 1;
      NegatedCount(xs[..n], y);
      assert xs == xs[..n] + [xs[n]];
      assert Negated(xs) == Negated(xs[..n]) + [-xs[n]];
    }
  }

  lemma NegatedPermutation(a: seq<real>, b: seq<real>)
    requires multiset(a) == multiset(b)
    ensures multiset(Negated(a)) == multiset(Negated(b))
  {
    forall y
      ensures multiset(Negated(a))[y] == multiset(Negated(b))[y]
    {
      NegatedCount(a, y);
      NegatedCount(b, y);
    }
  }

  /** Sorting the negated means turns the sorted means round. */
  lemma SortNegated(xs: seq<real>)
    ensures Sort(Negated(xs), RealLe) == Mirrored(Sort(xs, RealLe))
  {
    var sorted := Sort(xs, RealLe);
    RealOrder();
    SortSorted(xs, RealLe);
    SortSorted(Negated(xs), RealLe);
    NegatedPermutation(xs, sorted);
    MirroredMultiset(sorted);
    forall i, j | 0 <= i < j < |sorted|
      ensures RealLe(Mirrored(sorted)[i], Mirrored(sorted)[j])
    {
      assert RealLe(sorted[|sorted| - 1 - j], sorted[|sorted| - 1 - i]);
    }
    SortedUnique(Sort(Negated(xs), RealLe), Mirrored(sorted), RealLe);
  }

  /** The two indices are mirror images when the tail holds a whole number of
      resamples, and trivially when there is only one. */
  predicate IndicesMirror(r: nat, confidence: real) {
    TailCount(r, confidence) == TailCount(r, confidence).Floor as real || r == 1
  }

  lemma IndicesMirrorIff(r: nat, confidence: real)
    requires IsSetting(r, confidence)
    ensures LowIndex(r, confidence) + HighIndex(r, confidence) == r - 1 <==> IndicesMirror(r, confidence)
    ensures !IndicesMirror(r, confidence) ==> LowIndex(r, confidence) + HighIndex(r, confidence) == r - 2
  {
    IndicesByTail(r, confidence);
    var x := TailCount(r, confidence);
    assert x.Floor as real <= x < x.Floor as real + 1.0;
    assert (-x).Floor as real <= -x < (-x).Floor as real + 1.0;
  }

  /** The sorted resampled means. */
  ghost function SortedMeans(diffs: seq<real>, draws: seq<seq<nat>>): (s: seq<real>)
    requires diffs != [] && AreDraws(draws, |diffs|)
    ensures |s| == |draws|
  {
    Sort(Means(diffs, draws), RealLe)
  }

  lemma BoundsAt(diffs: seq<real>, draws: seq<seq<nat>>, confidence: real)
    requires diffs != [] && AreDraws(draws, |diffs|) && IsSetting(|draws|, confidence)
    ensures var low, high := LowIndex(|draws|, confidence), HighIndex(|draws|, confidence);
            && 0 <= low < |draws| && 0 <= high < |draws|
            && Bootstrap(diffs, draws, confidence).low == SortedMeans(diffs, draws)[low]
            && Bootstrap(diffs, draws, confidence).high == SortedMeans(diffs, draws)[high]
  {
    IndicesInRange(|draws|, confidence);
  }

  lemma NegatedMean(diffs: seq<real>, draws: seq<seq<nat>>, confidence: real)
    requires diffs != [] && AreDraws(draws, |diffs|) && IsSetting(|draws|, confidence)
    ensures Bootstrap(Negated(diffs), draws, confidence).mean == -Bootstrap(diffs, draws, confidence).mean
  {
    NegatedSum(diffs);
    NegatedQuotient(Sum(diffs, Value), |diffs| as real);
  }

  lemma NegatedSortedMeans(diffs: seq<real>, draws: seq<seq<nat>>)
    requires diffs != [] && AreDraws(draws, |diffs|)
    ensures SortedMeans(Negated(diffs), draws) == Mirrored(SortedMeans(diffs, draws))
  {
    NegatedMeans(diffs, draws);
    SortNegated(Means(diffs, draws));
  }

  ghost predicate Mirrors(ci: Interval, ci': Interval) {
    ci'.mean == -ci.mean && ci'.low == -ci.high && ci'.high == -ci.low
  }

  ghost predicate AlwaysMirrors(r: nat, confidence: real)
    requires IsSetting(r, confidence)
  {
    forall diffs: seq<real>, draws: seq<seq<nat>> | diffs != [] && |draws| == r && AreDraws(draws, |diffs|) ::
      Mirrors(Bootstrap(diffs, draws, confidence), Bootstrap(Negated(diffs), draws, confidence))
  }

  lemma MirrorsAt(diffs: seq<real>, draws: seq<seq<nat>>, confidence: real)
    requires diffs != [] && AreDraws(draws, |diffs|) && IsSetting(|draws|, confidence)
    requires IndicesMirror(|draws|, confidence)
    ensures Mirrors(Bootstrap(diffs, draws, confidence), Bootstrap(Negated(diffs), draws, confidence))
  {
    IndicesMirrorIff(|draws|, confidence);
    BoundsAt(diffs, draws, confidence);
    BoundsAt(Negated(diffs), draws, confidence);
    NegatedMean(diffs, draws, confidence);
    NegatedSortedMeans(diffs, draws);
  }

  lemma DoesNotMirror(r: nat, confidence: real) returns (draws: seq<seq<nat>>)
    requires IsSetting(r, confidence) && !IndicesMirror(r, confidence)
    ensures |draws| == r && AreDraws(draws, 2)
    ensures !Mirrors(Bootstrap([0.0, 1.0], draws, confidence), Bootstrap(Negated([0.0, 1.0]), draws, confidence))
  {
    IndicesMirrorIff(r, confidence);
    IndicesInRange(r, confidence);
    var z := HighIndex(r, confidence) + 1;
    draws := StepDraws(r, z);
    StepMeans(r, z);
    BoundsAt([0.0, 1.0], draws, confidence);
    BoundsAt(Negated([0.0, 1.0]), draws, confidence);
    NegatedSortedMeans([0.0, 1.0], draws);
    assert r - 1 - LowIndex(r, confidence) == z;
  }

  /** Main result: for the same draws, exchanging the arms turns `[low, high]`
      into `[-high, -low]` for every sample exactly when the tail is a whole
      number of resamples (or there is a single one). */
  lemma AlwaysMirrorsIff(r: nat, confidence: real)
    requires IsSetting(r, confidence)
    ensures AlwaysMirrors(r, confidence) <==> IndicesMirror(r, confidence)
  {
    if IndicesMirror(r, confidence) {
      forall diffs: seq<real>, draws: seq<seq<nat>> | diffs != [] && |draws| == r && AreDraws(draws, |diffs|)
        ensures Mirrors(Bootstrap(diffs, draws, confidence), Bootstrap(Negated(diffs), draws, confidence))
      {
        MirrorsAt(diffs, draws, confidence);
      }
    } else {
      var draws := DoesNotMirror(r, confidence);
    }
  }

  // ----- discordance and verdict -----

  datatype Verdict = NoEvidence | Underpowered | NotSignificant | CandidateBetter | BaselineBetter

  function Opposite(v: Verdict): Verdict {
    match v
    case CandidateBetter => BaselineBetter
    case BaselineBetter => CandidateBetter
    case _ => v
  }

  function Judge(candidateOnly: nat, baselineOnly: nat, p: real, alpha: real, floor: nat): Verdict {
    var total := candidateOnly + baselineOnly;
    if total == 0 then NoEvidence
    else if total < floor then Underpowered
    else if p > alpha then NotSignificant
    else if candidateOnly > baselineOnly then CandidateBetter
    else BaselineBetter
  }

  /** The pairs in which the second value is strictly greater. */
  function Wins(losing: seq<real>, winning: seq<real>): (n: nat)
    requires |losing| == |winning|
  {
    if losing == [] then 0 else
      var i := |losing| - 1;
      Wins(losing[..i], winning[..i]) + if winning[i] > losing[i] then 1 else 0
  }

  function Differences(baseline: seq<real>, candidate: seq<real>): (d: seq<real>)
    requires |baseline| == |candidate|
    ensures |d| == |baseline| && forall i | 0 <= i < |d| :: d[i] == candidate[i] - baseline[i]
  {
    seq(|baseline|, i requires 0 <= i < |baseline| => candidate[i] - baseline[i])
  }

  datatype Comparison = Comparison(
    candidateOnly: nat, baselineOnly: nat, concordant: int, p: real, verdict: Verdict, ci: Interval)

  /** The exact binomial test, taken as given. */
  ghost predicate IsPairedTest(mcnemar: (nat, nat) -> real) {
    && (forall a, b :: mcnemar(a, b) == mcnemar(b, a))
    && (forall a, b :: 0.0 <= mcnemar(a, b) <= 1.0)
    && (forall a :: mcnemar(a, a) == 1.0)
  }

  ghost function Compare(baseline: seq<real>, candidate: seq<real>, mcnemar: (nat, nat) -> real,
                         alpha: real, floor: nat, draws: seq<seq<nat>>, confidence: real): Comparison
    requires |baseline| == |candidate| && baseline != [] && draws != [] && AreDraws(draws, |baseline|)
  {
    var candidateOnly, baselineOnly := Wins(baseline, candidate), Wins(candidate, baseline);
    var p := mcnemar(candidateOnly, baselineOnly);
    Comparison(candidateOnly, baselineOnly, |baseline| - candidateOnly - baselineOnly, p,
               Judge(candidateOnly, baselineOnly, p, alpha, floor),
               Bootstrap(Differences(baseline, candidate), draws, confidence))
  }

  // ----- the comparison on the two vectors -----

  ghost function Greater(losing: seq<real>, winning: seq<real>): set<nat>
    requires |losing| == |winning|
  {
    set i: nat | i < |losing| && winning[i] > losing[i]
  }

  ghost function Differing(a: seq<real>, b: seq<real>): set<nat>
    requires |a| == |b|
  {
    set i: nat | i < |a| && a[i] != b[i]
  }

  ghost function Agreeing(a: seq<real>, b: seq<real>): set<nat>
    requires |a| == |b|
  {
    set i: nat | i < |a| && a[i] == b[i]
  }

  lemma {:induction false} WinsCount(losing: seq<real>, winning: seq<real>)
    requires |losing| == |winning|
    ensures Wins(losing, winning) == |Greater(losing, winning)|
  {
    if losing != [] {
      var i := |losing| - 1;
      WinsCount(losing[..i], winning[..i]);
      var before := Greater(losing[..i], winning[..i]);
      assert Greater(losing, winning) == if winning[i] > losing[i] then before + {i} else before;
    }
  }

  lemma {:induction false} AgreeOrDiffer(a: seq<real>, b: seq<real>)
    requires |a| == |b|
    ensures |Agreeing(a, b)| + |Differing(a, b)| == |a|
  {
    if a != [] {
      var i := |a| - 1;
      AgreeOrDiffer(a[..i], b[..i]);
      var same, other := Agreeing(a[..i], b[..i]), Differing(a[..i], b[..i]);
      if a[i] == b[i] {
        assert Agreeing(a, b) == same + {i} && Differing(a, b) == other;
      } else {
        assert Agreeing(a, b) == same && Differing(a, b) == other + {i};
      }
    }
  }

  lemma DiffersUpOrDown(a: seq<real>, b: seq<real>)
    requires |a| == |b|
    ensures |Differing(a, b)| == |Greater(a, b)| + |Greater(b, a)|
    ensures |Agreeing(a, b)| == |a| - |Greater(a, b)| - |Greater(b, a)|
  {
    assert Differing(a, b) == Greater(a, b) + Greater(b, a) && Greater(a, b) !! Greater(b, a);
    AgreeOrDiffer(a, b);
  }

  lemma {:induction false} SumOfDifferences(baseline: seq<real>, candidate: seq<real>)
    requires |baseline| == |candidate|
    ensures Sum(Differences(baseline, candidate), Value) == Sum(candidate, Value) - Sum(baseline, Value)
  {
    if baseline != [] {
      var i := |baseline| - 1;
      SumOfDifferences(baseline[..i], candidate[..i]);
      assert Differences(baseline, candidate)[..i] == Differences(baseline[..i], candidate[..i]);
    }
  }

  lemma MeanDifference(baseline: seq<real>, candidate: seq<real>)
    requires |baseline| == |candidate| && baseline != []
    ensures Sum(Differences(baseline, candidate), Value) / |Differences(baseline, candidate)| as real
         == (Sum(candidate, Value) - Sum(baseline, Value)) / |baseline| as real
  {
    SumOfDifferences(baseline, candidate);
  }

  lemma BootstrapMean(diffs: seq<real>, draws: seq<seq<nat>>, confidence: real)
    requires diffs != [] && draws != [] && AreDraws(draws, |diffs|)
    ensures Bootstrap(diffs, draws, confidence).mean == Sum(diffs, Value) / |diffs| as real
  {
  }

  /** Main result: the counts are the numbers of questions on which the one arm,
      the other, or neither is greater, and the mean difference is that of the sums. */
  lemma ComparisonCounts(baseline: seq<real>, candidate: seq<real>, mcnemar: (nat, nat) -> real,
                         alpha: real, floor: nat, draws: seq<seq<nat>>, confidence: real)
    requires |baseline| == |candidate| && baseline != [] && draws != [] && AreDraws(draws, |baseline|)
    ensures var c := Compare(baseline, candidate, mcnemar, alpha, floor, draws, confidence);
            && c.candidateOnly == |Greater(baseline, candidate)|
            && c.baselineOnly == |Greater(candidate, baseline)|
            && c.concordant == |Agreeing(baseline, candidate)|
            && c.p == mcnemar(|Greater(baseline, candidate)|, |Greater(candidate, baseline)|)
            && c.ci.mean == (Sum(candidate, Value) - Sum(baseline, Value)) / |baseline| as real
  {
    WinsCount(baseline, candidate);
    WinsCount(candidate, baseline);
    DiffersUpOrDown(baseline, candidate);
    MeanDifference(baseline, candidate);
    BootstrapMean(Differences(baseline, candidate), draws, confidence);
  }

  /** Main result: which verdict is given, and in whose favour. A tie that passes
      for significant goes to the baseline. */
  lemma VerdictIs(baseline: seq<real>, candidate: seq<real>, mcnemar: (nat, nat) -> real,
                  alpha: real, floor: nat, draws: seq<seq<nat>>, confidence: real)
    requires |baseline| == |candidate| && baseline != [] && draws != [] && AreDraws(draws, |baseline|)
    ensures var verdict := Compare(baseline, candidate, mcnemar, alpha, floor, draws, confidence).verdict;
            var up, down := |Greater(baseline, candidate)|, |Greater(candidate, baseline)|;
            var differ := |Differing(baseline, candidate)|;
            var enough := 1 <= differ && floor <= differ;
            && (verdict == NoEvidence <==> baseline == candidate)
            && (verdict == Underpowered <==> 1 <= differ < floor)
            && (verdict == NotSignificant <==> enough && mcnemar(up, down) > alpha)
            && (verdict == CandidateBetter <==> enough && mcnemar(up, down) <= alpha && up > down)
            && (verdict == BaselineBetter <==> enough && mcnemar(up, down) <= alpha && up <= down)
  {
    WinsCount(baseline, candidate);
    WinsCount(candidate, baseline);
    DiffersUpOrDown(baseline, candidate);
    WinsBounds(baseline, candidate);
  }

  lemma SwappedInterval(baseline: seq<real>, candidate: seq<real>, draws: seq<seq<nat>>, confidence: real)
    requires |baseline| == |candidate| && baseline != [] && AreDraws(draws, |baseline|)
    requires IsSetting(|draws|, confidence)
    ensures var ci := Bootstrap(Differences(baseline, candidate), draws, confidence);
            var ci' := Bootstrap(Differences(candidate, baseline), draws, confidence);
            ci'.mean == -ci.mean && (IndicesMirror(|draws|, confidence) ==> Mirrors(ci, ci'))
  {
    var diffs := Differences(baseline, candidate);
    assert Differences(candidate, baseline) == Negated(diffs);
    NegatedMean(diffs, draws, confidence);
    if IndicesMirror(|draws|, confidence) {
      MirrorsAt(diffs, draws, confidence);
    }
  }

  /** Main result: exchanging the arms exchanges the discordant counts, keeps the
      concordant one and the p-value, turns the verdict round, and mirrors the interval. */
  lemma {:induction false} SwappedComparison(baseline: seq<real>, candidate: seq<real>, mcnemar: (nat, nat) -> real,
                          alpha: real, floor: nat, draws: seq<seq<nat>>, confidence: real)
    requires |baseline| == |candidate| && baseline != [] && AreDraws(draws, |baseline|)
    requires IsSetting(|draws|, confidence) && IsPairedTest(mcnemar) && alpha < 1.0
    ensures var c := Compare(baseline, candidate, mcnemar, alpha, floor, draws, confidence);
            var c' := Compare(candidate, baseline, mcnemar, alpha, floor, draws, confidence);
            && c'.candidateOnly == c.baselineOnly && c'.baselineOnly == c.candidateOnly
            && c'.concordant == c.concordant && c'.p == c.p
            && c'.verdict == Opposite(c.verdict)
            && c'.ci.mean == -c.ci.mean
            && (IndicesMirror(|draws|, confidence) ==> Mirrors(c.ci, c'.ci))
  {
    SwappedInterval(baseline, candidate, draws, confidence);
    VerdictSwapsIff(Wins(baseline, candidate), Wins(candidate, baseline), mcnemar, alpha, floor);
  }

  /** Two comparisons whose generators start alike make the same draws, so they are
      exchanged as above although each drew for itself. */
  lemma SwappedRuns(baseline: seq<real>, candidate: seq<real>, mcnemar: (nat, nat) -> real, alpha: real, floor: nat,
                    bits: (nat, nat) -> nat, draws: seq<seq<nat>>, to: nat, draws': seq<seq<nat>>, to': nat, confidence: real)
    requires |baseline| == |candidate| && baseline != []
    requires AreDraws(draws, |baseline|) && AreDraws(draws', |baseline|) && |draws| == |draws'|
    requires AllDrawn(bits, |baseline|, 0, draws, to) && AllDrawn(bits, |baseline|, 0, draws', to')
    requires IsSetting(|draws|, confidence) && IsPairedTest(mcnemar) && alpha < 1.0
    ensures draws == draws'
    ensures var c := Compare(baseline, candidate, mcnemar, alpha, floor, draws, confidence);
            var c' := Compare(candidate, baseline, mcnemar, alpha, floor, draws', confidence);
            && c'.candidateOnly == c.baselineOnly && c'.baselineOnly == c.candidateOnly
            && c'.concordant == c.concordant && c'.p == c.p
            && c'.verdict == Opposite(c.verdict) && c'.ci.mean == -c.ci.mean
            && (IndicesMirror(|draws|, confidence) ==> Mirrors(c.ci, c'.ci))
  {
    assert forall i | 0 <= i < |draws| :: draws[i] in draws && draws'[i] in draws';
    SameBitsSameDraws(bits, |baseline|, 0, draws, to, draws', to');
    SwappedComparison(baseline, candidate, mcnemar, alpha, floor, draws, confidence);
  }

  /** At a level of one or more, a tie passes for significant and always goes to
      the baseline: the verdict of an exchange is the opposite one unless that happens. */
  lemma VerdictSwapsIff(a: nat, b: nat, mcnemar: (nat, nat) -> real, alpha: real, floor: nat)
    requires IsPairedTest(mcnemar)
    ensures Judge(b, a, mcnemar(b, a), alpha, floor) == Opposite(Judge(a, b, mcnemar(a, b), alpha, floor))
            <==> !(a == b && 0 < a + b && floor <= a + b && 1.0 <= alpha)
  {
  }

  // ----- agreement -----

  lemma {:induction false} WinsBounds(a: seq<real>, b: seq<real>)
    requires |a| == |b|
    ensures Wins(a, b) + Wins(b, a) <= |a|
    ensures Wins(a, b) + Wins(b, a) == 0 <==> a == b
  {
    if a != [] {
      var i := |a| - 1;
      WinsBounds(a[..i], b[..i]);
      assert a == a[..i] + [a[i]] && b == b[..i] + [b[i]];
    }
  }

  /** The values of one metric in the two arms, question by question. */
  datatype Arms = Arms(baseline: seq<real>, candidate: seq<real>)

  /** `Scorecard.identical`: no metric has a discordant question in either direction. */
  predicate Identical(metrics: seq<Arms>)
    requires forall m :: m in metrics ==> |m.baseline| == |m.candidate|
  {
    forall m :: m in metrics ==> Wins(m.baseline, m.candidate) + Wins(m.candidate, m.baseline) == 0
  }

  /** Main result: the runs count as identical exactly when every paired value of every tested metric is equal. */
  lemma IdenticalMeansEqual(metrics: seq<Arms>)
    requires forall m :: m in metrics ==> |m.baseline| == |m.candidate|
    ensures Identical(metrics) <==> forall m :: m in metrics ==> m.baseline == m.candidate
  {
    forall m | m in metrics
      ensures Wins(m.baseline, m.candidate) + Wins(m.candidate, m.baseline) == 0 <==> m.baseline == m.candidate
    {
      WinsBounds(m.baseline, m.candidate);
    }
  }

  /** A net of zero is not enough. */
  lemma NetZeroIsNotIdentical()
    ensures var m := Arms([0.0, 1.0], [1.0, 0.0]);
            Wins(m.baseline, m.candidate) == Wins(m.candidate, m.baseline) && !Identical([m])
  {
    var m := Arms([0.0, 1.0], [1.0, 0.0]);
    assert [0.0, 1.0][..1] == [0.0] && [1.0, 0.0][..1] == [1.0] && [0.0][..0] == [] == [1.0][..0];
    assert m in [m];
  }
}
