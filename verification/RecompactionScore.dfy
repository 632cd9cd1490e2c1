/** How the recompaction benchmark turns the outcomes of its clusters into one score.
 */
module RecompactionScore {
  import opened Common
  import opened FactProbes
  import opened Regex
  import opened Sorting

  /** What `recompact_cluster` did with the text of one cluster: the three exceptions it may raise, or its result. */
  datatype Outcome =
    | NonConvergence(bound: nat)
    | RetentionFloor
    | CompressorFault
    | Result(text: string, fixpoint: bool, passes: nat, edited: bool)

  datatype Record = Record(converged: bool, iterations: nat, changed: bool, retention: real, compression: real)

  datatype Trial = Trial(source: string, outcome: Outcome)

  function Failed(iterations: nat): Record {
    Record(false, iterations, false, 0.0, 0.0)
  }

  function RecordOf(u: Alphabet, trial: Trial): Record {
    match trial.outcome
    case NonConvergence(bound) => Failed(bound)
    case RetentionFloor => Failed(0)
    case CompressorFault => Failed(0)
    case Result(text, fixpoint, passes, edited) =>
      Record(fixpoint, passes, edited, Retention(u, Probes(u, trial.source), text),
             if trial.source == "" then 1.0 else |text| as real / |trial.source| as real)
  }

  function RecordsOf(u: Alphabet, trials: seq<Trial>): (records: seq<Record>)
    ensures |records| == |trials| && forall i | 0 <= i < |trials| :: records[i] == RecordOf(u, trials[i])
  {
    seq(|trials|, i requires 0 <= i < |trials| => RecordOf(u, trials[i]))
  }

  // ----- aggregation -----

  datatype Bench = Bench(clusters: nat, failures: nat, convergenceRate: real,
                         meanIterations: real, retention: real, compression: real)

  function Converged(records: seq<Record>): seq<Record> {
    if records == [] then [] else
      var front, last := records[..|records| - 1], records[|records| - 1];
      Converged(front) + if last.converged then [last] else []
  }

  function Iterations(r: Record): real { r.iterations as real }
  function RetentionOf(r: Record): real { r.retention }
  function CompressionOf(r: Record): real { r.compression }

  function Evaluate(records: seq<Record>): Bench {
    if records == [] then Bench(0, 0, 0.0, 0.0, 0.0, 0.0) else
      var good := Converged(records);
      ConvergedAreFewer(records);
      Bench(|records|, |records| - |good|, |good| as real / |records| as real,
            Mean(good, Iterations), Mean(good, RetentionOf), Mean(good, CompressionOf))
  }

  /** The reported number. */
  function Score(b: Bench): real {
    b.retention * b.convergenceRate
  }

  // ----- what the score means -----

  lemma {:induction false} ConvergedAreFewer(records: seq<Record>)
    ensures |Converged(records)| <= |records|
  {
    if records != [] {
      ConvergedAreFewer(records[..|records| - 1]);
    }
  }

  /** What a cluster contributes: its retention if it converged, and nothing otherwise. */
  function Share(r: Record): real {
    if r.converged then r.retention else 0.0
  }

  lemma {:induction false} SumOfShares(records: seq<Record>)
    ensures Sum(records, Share) == Sum(Converged(records), RetentionOf)
  {
    if records != [] {
      var front, last := records[..|records| - 1], records[|records| - 1];
      SumOfShares(front);
      assert (Converged(front) + [last])[..|Converged(front)|] == Converged(front);
      assert Converged(front) + [] == Converged(front);
    }
  }

  lemma MeanTimesRate(sum: real, good: real, all: real)
    requires 0.0 < good && 0.0 < all
    ensures (sum / good) * (good / all) == sum / all
  {
    var m := sum / good;
    assert m * good == sum;
    assert m * (good / all) == (m * good) / all;
  }

  /** Main result: retention times convergence rate is the mean share over all clusters. */
  lemma ScoreIsMeanShare(records: seq<Record>)
    ensures Score(Evaluate(records)) == Mean(records, Share)
  {
    if records != [] {
      var good := Converged(records);
      SumOfShares(records);
      if good != [] {
        MeanTimesRate(Sum(good, RetentionOf), |good| as real, |records| as real);
      }
    }
  }

  ghost predicate UnitShares(records: seq<Record>) {
    forall i | 0 <= i < |records| :: 0.0 <= Share(records[i]) <= 1.0
  }

  lemma {:induction false} SharesBound(records: seq<Record>)
    requires UnitShares(records)
    ensures 0.0 <= Sum(records, Share) <= |records| as real
    ensures Sum(records, Share) == |records| as real <==> forall i | 0 <= i < |records| :: Share(records[i]) == 1.0
  {
    if records != [] {
      SharesBound(records[..|records| - 1]);
    }
  }

  lemma Quotient(a: real, b: real)
    requires 0.0 < b && 0.0 <= a <= b
    ensures 0.0 <= a / b <= 1.0 && (a / b == 1.0 <==> a == b)
  {
    var q := a / b;
    assert q * b == a;
  }

  lemma RecordsHaveUnitShares(u: Alphabet, trials: seq<Trial>)
    requires Lawful(u)
    ensures UnitShares(RecordsOf(u, trials))
  {
    forall i | 0 <= i < |trials|
      ensures 0.0 <= Share(RecordsOf(u, trials)[i]) <= 1.0
    {
      var t := trials[i];
      if t.outcome.Result? {
        RetentionIsConservative(u, Probes(u, t.source), t.outcome.text);
      }
    }
  }

  /** There are clusters, and every one of them converged with all its probes. */
  ghost predicate Perfect(records: seq<Record>) {
    records != [] && forall i | 0 <= i < |records| :: records[i].converged && records[i].retention == 1.0
  }

  lemma UnitMean(records: seq<Record>, score: real)
    requires UnitShares(records) && score == Mean(records, Share)
    ensures 0.0 <= score <= 1.0 && (score == 1.0 <==> Perfect(records))
  {
    if records != [] {
      SharesBound(records);
      Quotient(Sum(records, Share), |records| as real);
      assert forall i | 0 <= i < |records| :: Share(records[i]) == 1.0 <==> records[i].converged && records[i].retention == 1.0;
    }
  }

  /** The rewrite reached a fixpoint and holds every fact of its source. */
  ghost predicate LostNothing(u: Alphabet, t: Trial) {
    && t.outcome.Result? && t.outcome.fixpoint
    && forall p :: p in Probes(u, t.source) ==> Credited(u, p, t.outcome.text)
  }

  lemma PerfectRecord(u: Alphabet, t: Trial)
    ensures RecordOf(u, t).converged && RecordOf(u, t).retention == 1.0 <==> LostNothing(u, t)
  {
    if t.outcome.Result? {
      NothingLostIff(u, Probes(u, t.source), t.outcome.text);
    }
  }

  /** Main result: a run scores 1 exactly when there are clusters, every rewrite
      reached a fixpoint, and none lost a fact of its own source. */
  lemma ScoreIsOneIff(u: Alphabet, trials: seq<Trial>)
    requires Lawful(u)
    ensures Score(Evaluate(RecordsOf(u, trials))) == 1.0 <==>
            trials != [] && forall i | 0 <= i < |trials| :: LostNothing(u, trials[i])
  {
    ScoreIsPerfectIff(u, trials);
    forall i | 0 <= i < |trials|
      ensures RecordsOf(u, trials)[i].converged && RecordsOf(u, trials)[i].retention == 1.0 <==> LostNothing(u, trials[i])
    {
      PerfectRecord(u, trials[i]);
    }
  }

  /** What is recorded of a trial: the bound that was not met, nothing for the
      other exceptions, and for a result its passes and the length it was cut to. */
  lemma RecordIs(u: Alphabet, t: Trial)
    ensures var r := RecordOf(u, t);
            && (r.converged <==> t.outcome.Result? && t.outcome.fixpoint)
            && (t.outcome.Result? ==>
                  && r.iterations == t.outcome.passes && r.changed == t.outcome.edited
                  && (t.source != "" ==> r.compression * |t.source| as real == |t.outcome.text| as real)
                  && (t.source == "" ==> r.compression == 1.0))
            && (!t.outcome.Result? ==>
                  && !r.changed && r.retention == 0.0 == r.compression
                  && r.iterations == if t.outcome.NonConvergence? then t.outcome.bound else 0)
  {
    if t.outcome.Result? && t.source != "" {
      var q := |t.outcome.text| as real / |t.source| as real;
      assert q * |t.source| as real == |t.outcome.text| as real;
    }
  }

  lemma {:induction false} ConvergedCount(records: seq<Record>)
    ensures |Converged(records)| == |Places(records, (r: Record) => r.converged)|
    ensures |records| - |Converged(records)| == |Places(records, (r: Record) => !r.converged)|
  {
    if records == [] {
      assert Places(records, (r: Record) => r.converged) == {} == Places(records, (r: Record) => !r.converged);
    } else {
      var n := |records| - 1;
      ConvergedCount(records[..n]);
      PlacesOneMore(records, (r: Record) => r.converged);
      PlacesOneMore(records, (r: Record) => !r.converged);
    }
  }

  /** The counts of the benchmark. */
  lemma BenchCounts(records: seq<Record>)
    ensures var b := Evaluate(records);
            && b.clusters == |records|
            && b.failures == |Places(records, (r: Record) => !r.converged)|
            && (records != [] ==>
                  b.convergenceRate == |Places(records, (r: Record) => r.converged)| as real / |records| as real)
  {
    ConvergedCount(records);
  }

  /** The score of any run lies in the unit interval, and is 1 exactly when the run was perfect. */
  lemma ScoreIsPerfectIff(u: Alphabet, trials: seq<Trial>)
    requires Lawful(u)
    ensures 0.0 <= Score(Evaluate(RecordsOf(u, trials))) <= 1.0
    ensures Score(Evaluate(RecordsOf(u, trials))) == 1.0 <==> Perfect(RecordsOf(u, trials))
  {
    RecordsHaveUnitShares(u, trials);
    ScoreIsMeanShare(RecordsOf(u, trials));
    UnitMean(RecordsOf(u, trials), Score(Evaluate(RecordsOf(u, trials))));
  }

  /** A compressor that gives every text back unchanged scores exactly 1. */
  lemma EchoCompressorIsPerfect(u: Alphabet, trials: seq<Trial>)
    requires Lawful(u) && trials != []
    requires forall i | 0 <= i < |trials| ::
               trials[i].outcome.Result? && trials[i].outcome.fixpoint && trials[i].outcome.text == trials[i].source
    ensures Score(Evaluate(RecordsOf(u, trials))) == 1.0
  {
    forall i | 0 <= i < |trials|
      ensures RecordsOf(u, trials)[i].converged && RecordsOf(u, trials)[i].retention == 1.0
    {
      EchoScoresOne(u, trials[i].source);
    }
    ScoreIsPerfectIff(u, trials);
  }

  lemma {:induction false} ConvergedOfConverged(records: seq<Record>)
    ensures Converged(Converged(records)) == Converged(records)
  {
    if records != [] {
      var front, last := records[..|records| - 1], records[|records| - 1];
      ConvergedOfConverged(front);
      assert (Converged(front) + [last])[..|Converged(front)|] == Converged(front);
      assert Converged(front) + [] == Converged(front);
    }
  }

  /** Failed clusters never colour the means: the means are those of the converged clusters alone. */
  lemma MeansIgnoreFailures(records: seq<Record>)
    ensures var all, good := Evaluate(records), Evaluate(Converged(records));
            && all.meanIterations == good.meanIterations
            && all.retention == good.retention
            && all.compression == good.compression
            && good.failures == 0
  {
    ConvergedOfConverged(records);
  }
}
