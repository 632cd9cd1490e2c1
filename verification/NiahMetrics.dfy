/** The needle-in-a-haystack metrics, recomputed from raw rows and nothing else.
 */
module NiahMetrics {
  import opened Common
  import opened Ndjson
  import opened Sorting

  datatype Hit = Hit(id: string, excerpt: string)

  datatype Row = Row(
    unitId: string, needleId: string, keywords: seq<string>, retrieved: seq<Hit>,
    found: bool, ok: bool, size: string, depth: string, latency: real)

  // ----- the hit rule -----

  predicate HasKeywords(lower: string -> string, row: Row, hit: Hit) {
    row.keywords != [] && forall k :: k in row.keywords ==> IsSubstring(lower(k), lower(hit.excerpt))
  }

  /** The needle is among the results, or some excerpt holds every keyword. */
  predicate IsHit(lower: string -> string, row: Row) {
    exists h :: h in row.retrieved && (h.id == row.needleId || HasKeywords(lower, row, h))
  }

  method NiahHit(lower: string -> string, row: Row) returns (found: bool)
    ensures found == IsHit(lower, row)
  {
    for i := 0 to |row.retrieved|
      invariant forall j | 0 <= j < i :: row.retrieved[j].id != row.needleId && !HasKeywords(lower, row, row.retrieved[j])
    {
      var hit := row.retrieved[i];
      assert hit in row.retrieved;
      if hit.id == row.needleId {
        return true;
      }
      var excerpt := lower(hit.excerpt);
      if row.keywords != [] && forall k :: k in row.keywords ==> IsSubstring(lower(k), excerpt) {
        assert HasKeywords(lower, row, hit);
        return true;
      }
    }
    found := false;
  }

  // ----- the metrics as a function of the rows -----

  datatype Cell = Cell(passed: nat, total: nat)

  datatype Decision = Decision(unit: string, ids: seq<string>)

  /** The published timing, before rounding. */
  datatype Timing = NoTiming | Timing(n: nat, p50: real, p90: real, p95: real, p99: real, most: real, mean: real)

  /** `rate` is the headline value before rounding, and `payload` the text that the
      decision fingerprint hashes. */
  datatype Metrics = Metrics(
    passed: nat, total: nat, rate: real, bySize: map<string, Cell>, byDepth: map<string, Cell>,
    killed: nat, disagreements: seq<string>, payload: string, timing: Timing)

  function Passes(lower: string -> string): Row -> bool {
    row => IsHit(lower, row)
  }

  function Under(key: Row -> string, k: string): Row -> bool {
    row => key(row) == k
  }

  function PassesUnder(lower: string -> string, key: Row -> string, k: string): Row -> bool {
    row => key(row) == k && IsHit(lower, row)
  }

  function Disagrees(lower: string -> string): Row -> bool {
    row => IsHit(lower, row) != row.found
  }

  predicate WasKilled(row: Row) {
    !row.ok
  }

  predicate Finished(row: Row) {
    row.ok
  }

  predicate Every(row: Row) {
    true
  }

  function SizeOf(row: Row): string {
    row.size
  }

  function DepthOf(row: Row): string {
    row.depth
  }

  function UnitOf(row: Row): string {
    row.unitId
  }

  function LatencyOf(row: Row): real {
    row.latency
  }

  function DecisionOf(row: Row): Decision {
    Decision(row.unitId, seq(|row.retrieved|, i requires 0 <= i < |row.retrieved| => row.retrieved[i].id))
  }

  function KeysOf(rows: seq<Row>, key: Row -> string): set<string> {
    set row | row in rows :: key(row)
  }

  function Breakdown(lower: string -> string, rows: seq<Row>, key: Row -> string): map<string, Cell> {
    map k | k in KeysOf(rows, key) :: CellOf(lower, rows, key, k)
  }

  predicate IdListLe(a: seq<string>, b: seq<string>) {
    Lex(StringLe, a, b)
  }

  /** Python's order on `(unit id, ranked ids)` pairs. */
  predicate DecisionLe(a: Decision, b: Decision) {
    if a.unit == b.unit then IdListLe(a.ids, b.ids) else StringLe(a.unit, b.unit)
  }

  /** The decisions of a run in their sorted order. */
  function Decisions(rows: seq<Row>): seq<Decision> {
    Sort(Collect(rows, Every, DecisionOf), DecisionLe)
  }

  function IdList(ids: seq<string>): (items: seq<Json>)
    ensures |items| == |ids| && forall i | 0 <= i < |ids| :: items[i] == Str(ids[i])
  {
    seq(|ids|, i requires 0 <= i < |ids| => Str(ids[i]))
  }

  /** A pair is printed as a list of two. */
  function DecisionJson(d: Decision): Json {
    Arr([Str(d.unit), Arr(IdList(d.ids))])
  }

  function DecisionList(decisions: seq<Decision>): (items: seq<Json>)
    ensures |items| == |decisions| && forall i | 0 <= i < |decisions| :: items[i] == DecisionJson(decisions[i])
  {
    seq(|decisions|, i requires 0 <= i < |decisions| => DecisionJson(decisions[i]))
  }

  /** The text that the decision fingerprint hashes. */
  function PayloadText(rows: seq<Row>): string {
    Print(Arr(DecisionList(Decisions(rows))))
  }

  function Rate(passed: nat, total: nat): real {
    if total == 0 then 0.0 else passed as real / total as real
  }

  function TimingOf(values: seq<real>): Timing {
    if values == [] then NoTiming else
      var ordered := Sort(values, RealLe);
      Timing(|ordered|, Percentile(values, 0.5), Percentile(values, 0.9), Percentile(values, 0.95), Percentile(values, 0.99),
             ordered[|ordered| - 1], Mean(ordered, Value))
  }

  function MetricsOf(lower: string -> string, rows: seq<Row>): Metrics {
    var passed := Count(rows, Passes(lower));
    Metrics(
      passed, |rows|, Rate(passed, |rows|), Breakdown(lower, rows, SizeOf), Breakdown(lower, rows, DepthOf),
      Count(rows, WasKilled), Sort(Collect(rows, Disagrees(lower), UnitOf), StringLe), PayloadText(rows),
      TimingOf(Collect(rows, Finished, LatencyOf)))
  }

  function Bump(m: map<string, Cell>, k: string, hit: bool): map<string, Cell> {
    var cell := if k in m then m[k] else Cell(0, 0);
    m[k := Cell(cell.passed + if hit then 1 else 0, cell.total + 1)]
  }

  lemma CollectOneMore<T, U>(s: seq<T>, x: T, keep: T -> bool, get: T -> U)
    ensures Collect(s + [x], keep, get) == Collect(s, keep, get) + if keep(x) then [get(x)] else []
  {
    CollectAppend(s, [x], keep, get);
    assert [x][1..] == [];
  }

  lemma KeyAbsent(rows: seq<Row>, key: Row -> string, k: string)
    requires k !in KeysOf(rows, key)
    ensures Count(rows, Under(key, k)) == 0
    ensures forall lower :: Count(rows, PassesUnder(lower, key, k)) == 0
  {
    forall row | row in rows
      ensures key(row) != k
    {
      assert key(row) in KeysOf(rows, key);
    }
    CountAll(rows, Under(key, k));
    forall lower
      ensures Count(rows, PassesUnder(lower, key, k)) == 0
    {
      CountAll(rows, PassesUnder(lower, key, k));
    }
  }

  /** The cell of a key, empty when no row has it. */
  function CellOf(lower: string -> string, rows: seq<Row>, key: Row -> string, k: string): Cell {
    Cell(Count(rows, PassesUnder(lower, key, k)), Count(rows, Under(key, k)))
  }

  lemma CellOneMore(lower: string -> string, rows: seq<Row>, row: Row, key: Row -> string, k: string)
    ensures var cell := CellOf(lower, rows, key, k);
            CellOf(lower, rows + [row], key, k) ==
            if key(row) == k then Cell(cell.passed + if IsHit(lower, row) then 1 else 0, cell.total + 1) else cell
  {
    CountOneMore(rows, row, Under(key, k));
    CountOneMore(rows, row, PassesUnder(lower, key, k));
  }

  lemma BreakdownOneMore(lower: string -> string, rows: seq<Row>, row: Row, key: Row -> string)
    ensures Breakdown(lower, rows + [row], key) == Bump(Breakdown(lower, rows, key), key(row), IsHit(lower, row))
  {
    assert KeysOf(rows + [row], key) == KeysOf(rows, key) + {key(row)} by {
      assert forall x :: x in rows + [row] <==> x in rows || x == row;
    }
    forall k | k in KeysOf(rows + [row], key)
      ensures CellOf(lower, rows + [row], key, k) == Bump(Breakdown(lower, rows, key), key(row), IsHit(lower, row))[k]
    {
      CellOneMore(lower, rows, row, key, k);
      if k !in KeysOf(rows, key) {
        KeyAbsent(rows, key, k);
      }
    }
  }

  method NiahMetricsOf(lower: string -> string, rows: seq<Row>) returns (m: Metrics)
    ensures m == MetricsOf(lower, rows)
  {
    var bySize: map<string, Cell>, byDepth: map<string, Cell> := map[], map[];
    var passed, killed := 0, 0;
    var disagreements: seq<string> := [];
    var latencies: seq<real> := [];
    for i := 0 to |rows|
      invariant passed == Count(rows[..i], Passes(lower)) && killed == Count(rows[..i], WasKilled)
      invariant bySize == Breakdown(lower, rows[..i], SizeOf) && byDepth == Breakdown(lower, rows[..i], DepthOf)
      invariant disagreements == Collect(rows[..i], Disagrees(lower), UnitOf)
      invariant latencies == Collect(rows[..i], Finished, LatencyOf)
    {
      var row := rows[i];
      ghost var before := rows[..i];
      assert rows[..i + 1] == before + [row];
      CountOneMore(before, row, Passes(lower));
      CountOneMore(before, row, WasKilled);
      BreakdownOneMore(lower, before, row, SizeOf);
      BreakdownOneMore(lower, before, row, DepthOf);
      CollectOneMore(before, row, Disagrees(lower), UnitOf);
      CollectOneMore(before, row, Finished, LatencyOf);
      var recomputed := NiahHit(lower, row);
      if recomputed != row.found {
        disagreements := disagreements + [row.unitId];
      }
      if !row.ok {
        killed := killed + 1;
      } else {
        latencies := latencies + [row.latency];
      }
      if recomputed {
        passed := passed + 1;
      }
      bySize := Bump(bySize, row.size, recomputed);
      byDepth := Bump(byDepth, row.depth, recomputed);
    }
    assert rows[..|rows|] == rows;
    m := Metrics(passed, |rows|, Rate(passed, |rows|), bySize, byDepth, killed, Sort(disagreements, StringLe),
                 PayloadText(rows), TimingOf(latencies));
  }

  // ----- order of the rows -----

  lemma DecisionOrder()
    ensures TotalPreorder(DecisionLe) && AntiSymmetric(DecisionLe)
  {
    StringOrder();
    forall a, b
      ensures (IdListLe(a, b) || IdListLe(b, a)) && (IdListLe(a, b) && IdListLe(b, a) ==> a == b)
    {
      LexTotal(StringLe, a, b);
    }
    forall a, b, c | IdListLe(a, b) && IdListLe(b, c)
      ensures IdListLe(a, c)
    {
      LexTransitive(StringLe, a, b, c);
    }
  }

  lemma BreakdownPermutation(lower: string -> string, a: seq<Row>, b: seq<Row>, key: Row -> string)
    requires multiset(a) == multiset(b)
    ensures Breakdown(lower, a, key) == Breakdown(lower, b, key)
  {
    SameElements(a, b);
    assert KeysOf(a, key) == KeysOf(b, key);
    forall k | k in KeysOf(a, key)
      ensures Breakdown(lower, a, key)[k] == Breakdown(lower, b, key)[k]
    {
      CountPermutation(a, b, Under(key, k));
      CountPermutation(a, b, PassesUnder(lower, key, k));
    }
  }

  lemma PercentilePermutation(a: seq<real>, b: seq<real>, p: real)
    requires a != [] && b != [] && |a| == |b| && Sort(a, RealLe) == Sort(b, RealLe)
    ensures Percentile(a, p) == Percentile(b, p)
  {
    var x, _ := ScaledPair(p, p, |a|);
    PercentileIsAtRank(a, p, x);
    PercentileIsAtRank(b, p, x);
    AtRankPermutation(a, b, x);
  }

  lemma AtRankPermutation(a: seq<real>, b: seq<real>, x: real)
    requires a != [] && |a| == |b| && Sort(a, RealLe) == Sort(b, RealLe)
    ensures AtRank(a, x) == AtRank(b, x)
  {
  }

  lemma SameOrderSameTiming(a: seq<real>, b: seq<real>)
    requires |a| == |b| && Sort(a, RealLe) == Sort(b, RealLe)
    ensures TimingOf(a) == TimingOf(b)
  {
    if a != [] {
      PercentilePermutation(a, b, 0.5);
      PercentilePermutation(a, b, 0.9);
      PercentilePermutation(a, b, 0.95);
      PercentilePermutation(a, b, 0.99);
    }
  }

  lemma TimingPermutation(a: seq<real>, b: seq<real>)
    requires multiset(a) == multiset(b)
    ensures TimingOf(a) == TimingOf(b)
  {
    RealOrder();
    SameElements(a, b);
    SortPermutation(a, b, RealLe);
    SameOrderSameTiming(a, b);
  }

  /** Main result: the metrics do not depend on the order of the rows. */
  lemma {:induction false} MetricsIgnoreOrder(lower: string -> string, a: seq<Row>, b: seq<Row>)
    requires multiset(a) == multiset(b)
    ensures MetricsOf(lower, a) == MetricsOf(lower, b)
  {
    SameElements(a, b);
    CountPermutation(a, b, Passes(lower));
    CountPermutation(a, b, WasKilled);
    BreakdownPermutation(lower, a, b, SizeOf);
    BreakdownPermutation(lower, a, b, DepthOf);
    CollectPermutation(a, b, Disagrees(lower), UnitOf);
    CollectPermutation(a, b, Finished, LatencyOf);
    CollectPermutation(a, b, Every, DecisionOf);
    StringOrder();
    RealOrder();
    DecisionOrder();
    SortPermutation(Collect(a, Disagrees(lower), UnitOf), Collect(b, Disagrees(lower), UnitOf), StringLe);
    TimingPermutation(Collect(a, Finished, LatencyOf), Collect(b, Finished, LatencyOf));
    SortPermutation(Collect(a, Every, DecisionOf), Collect(b, Every, DecisionOf), DecisionLe);
  }

  lemma DecisionJsonInjective(a: Decision, b: Decision)
    requires DecisionJson(a) == DecisionJson(b)
    ensures a == b
  {
    var x, y := DecisionJson(a).items, DecisionJson(b).items;
    assert x[0] == y[0] && x[1] == y[1];
    forall i | 0 <= i < |a.ids|
      ensures a.ids[i] == b.ids[i]
    {
      assert IdList(a.ids)[i] == IdList(b.ids)[i];
    }
  }

  lemma PayloadTextInjective(a: seq<Row>, b: seq<Row>)
    requires PayloadText(a) == PayloadText(b)
    ensures Decisions(a) == Decisions(b)
  {
    var x, y := Decisions(a), Decisions(b);
    PrintUnique(Arr(DecisionList(x)), "", Arr(DecisionList(y)), "");
    forall i | 0 <= i < |x|
      ensures x[i] == y[i]
    {
      assert DecisionList(x)[i] == DecisionList(y)[i];
      DecisionJsonInjective(x[i], y[i]);
    }
  }

  /** Main result: the text that is hashed is the same for two runs exactly when
      they made the same decisions, each as often, whatever else their rows say. */
  lemma {:induction false} PayloadNamesDecisions(a: seq<Row>, b: seq<Row>)
    ensures PayloadText(a) == PayloadText(b)
            <==> multiset(Collect(a, Every, DecisionOf)) == multiset(Collect(b, Every, DecisionOf))
  {
    var x, y := Collect(a, Every, DecisionOf), Collect(b, Every, DecisionOf);
    if PayloadText(a) == PayloadText(b) {
      PayloadTextInjective(a, b);
    }
    if multiset(x) == multiset(y) {
      DecisionOrder();
      SortPermutation(x, y, DecisionLe);
    }
  }

  // ----- conservation -----

  function SumPassed(keys: seq<string>, m: map<string, Cell>): nat
    requires forall k :: k in keys ==> k in m
  {
    if keys == [] then 0 else
      assert keys[0] in keys && forall k :: k in keys[1..] ==> k in keys;
      m[keys[0]].passed + SumPassed(keys[1..], m)
  }

  function SumTotal(keys: seq<string>, m: map<string, Cell>): nat
    requires forall k :: k in keys ==> k in m
  {
    if keys == [] then 0 else
      assert keys[0] in keys && forall k :: k in keys[1..] ==> k in keys;
      m[keys[0]].total + SumTotal(keys[1..], m)
  }

  ghost predicate Enumerates(keys: seq<string>, all: set<string>) {
    Distinct(keys) && forall k :: k in keys <==> k in all
  }

  function UnderAny(key: Row -> string, keys: seq<string>): Row -> bool {
    row => key(row) in keys
  }

  function PassesUnderAny(lower: string -> string, key: Row -> string, keys: seq<string>): Row -> bool {
    row => key(row) in keys && IsHit(lower, row)
  }

  lemma {:induction false} SumsOver(lower: string -> string, rows: seq<Row>, key: Row -> string, keys: seq<string>, m: map<string, Cell>)
    requires Distinct(keys)
    requires forall k :: k in keys ==> k in m && m[k] == CellOf(lower, rows, key, k)
    ensures SumPassed(keys, m) == Count(rows, PassesUnderAny(lower, key, keys))
    ensures SumTotal(keys, m) == Count(rows, UnderAny(key, keys))
    decreases |keys|
  {
    if keys == [] {
      CountAll(rows, PassesUnderAny(lower, key, []));
      CountAll(rows, UnderAny(key, []));
    } else {
      var k, rest := keys[0], keys[1..];
      assert keys == [k] + rest && k !in rest;
      SumsOver(lower, rows, key, rest, m);
      CountDisjoint(rows, PassesUnder(lower, key, k), PassesUnderAny(lower, key, rest), PassesUnderAny(lower, key, keys));
      CountDisjoint(rows, Under(key, k), UnderAny(key, rest), UnderAny(key, keys));
    }
  }

  /** Main result: a breakdown loses and doubles nothing. Summed over its keys in
      any order, it gives the passed rows and all the rows. */
  lemma BreakdownAddsUp(lower: string -> string, rows: seq<Row>, key: Row -> string, keys: seq<string>)
    requires Enumerates(keys, Breakdown(lower, rows, key).Keys)
    ensures SumPassed(keys, Breakdown(lower, rows, key)) == Count(rows, Passes(lower))
    ensures SumTotal(keys, Breakdown(lower, rows, key)) == |rows|
  {
    var m := Breakdown(lower, rows, key);
    forall row | row in rows
      ensures key(row) in keys
    {
      assert key(row) in KeysOf(rows, key);
    }
    SumsOver(lower, rows, key, keys, m);
    CountSame(rows, PassesUnderAny(lower, key, keys), Passes(lower));
    CountAll(rows, UnderAny(key, keys));
  }

  function Timed(t: Timing): nat {
    if t.NoTiming? then 0 else t.n
  }

  /** Every row is either timed or counted as killed. */
  lemma TimedPlusKilled(lower: string -> string, rows: seq<Row>)
    ensures Timed(MetricsOf(lower, rows).timing) + MetricsOf(lower, rows).killed == |rows|
  {
    CollectLength(rows, Finished, LatencyOf);
    FinishedPlusKilled(rows);
  }

  lemma {:induction false} FinishedPlusKilled(rows: seq<Row>)
    ensures Count(rows, Finished) + Count(rows, WasKilled) == |rows|
  {
    if rows != [] {
      FinishedPlusKilled(rows[1..]);
    }
  }

  // ----- nearest-rank percentiles -----

  function ClampRank(c: int, n: nat): int {
    var most := if c < n then c else n;
    if 1 < most then most else 1
  }

  /** The value at rank `x`, rounded up. */
  function AtRank(values: seq<real>, x: real): real
    requires values != []
  {
    var ordered := Sort(values, RealLe);
    ordered[ClampRank(Ceiling(x), |values|) - 1]
  }

  /** The value at rank `max(1, min(n, ceil(p * n)))`, counted from one. */
  function Percentile(values: seq<real>, p: real): real
    requires values != []
  {
    AtRank(values, p * |values| as real)
  }

  function AtMost(v: real): real -> bool {
    x => x <= v
  }

  function Below(v: real): real -> bool {
    x => x < v
  }

  lemma Scale(p: real, q: real, n: real)
    requires p <= q && 0.0 <= n
    ensures p * n <= q * n
  {
  }

  lemma CeilingInRange(x: real, n: nat)
    requires 0.0 < x <= n as real
    ensures 1 <= Ceiling(x) <= n
  {
    CeilingBounds(x);
  }

  lemma UpToRank(ordered: seq<real>, i: nat)
    requires Sorted(ordered, RealLe) && 1 <= i <= |ordered|
    ensures Count(ordered, AtMost(ordered[i - 1])) >= i
  {
    var v := ordered[i - 1];
    forall j | 0 <= j < i
      ensures AtMost(v)(ordered[j])
    {
      assert j < i - 1 ==> RealLe(ordered[j], ordered[i - 1]);
    }
    CountLeading(ordered, i, AtMost(v));
  }

  lemma FromRank(ordered: seq<real>, i: nat)
    requires Sorted(ordered, RealLe) && 1 <= i <= |ordered|
    ensures Count(ordered, Below(ordered[i - 1])) <= i - 1
  {
    var v := ordered[i - 1];
    forall j | i - 1 <= j < |ordered|
      ensures !Below(v)(ordered[j])
    {
      assert i - 1 < j ==> RealLe(ordered[i - 1], ordered[j]);
    }
    CountTrailing(ordered, i - 1, Below(v));
  }

  lemma SortedValues(values: seq<real>)
    ensures Sorted(Sort(values, RealLe), RealLe)
  {
    RealOrder();
    SortSorted(values, RealLe);
  }

  lemma CountsOfSorted(values: seq<real>, i: nat)
    requires 1 <= i <= |values|
    ensures var v := Sort(values, RealLe)[i - 1];
            v in values && Count(values, AtMost(v)) >= i && Count(values, Below(v)) <= i - 1
  {
    var ordered := Sort(values, RealLe);
    SortedValues(values);
    SameElements(values, ordered);
    var v := ordered[i - 1];
    assert v in ordered;
    UpToRank(ordered, i);
    FromRank(ordered, i);
    CountPermutation(values, ordered, AtMost(v));
    CountPermutation(values, ordered, Below(v));
  }

  /** The rank that `x` rounds up to. */
  lemma RankOf(values: seq<real>, x: real) returns (c: nat)
    requires 0.0 < x <= |values| as real
    ensures 1 <= c <= |values| && (c - 1) as real < x <= c as real
    ensures AtRank(values, x) == Sort(values, RealLe)[c - 1]
  {
    CeilingInRange(x, |values|);
    CeilingBounds(x);
    c := Ceiling(x);
  }

  lemma CountsCover(atMost: nat, below: nat, c: nat, x: real)
    requires below <= c - 1 < c <= atMost && (c - 1) as real < x <= c as real
    ensures below as real < x <= atMost as real
  {
  }

  lemma AtRankCounts(values: seq<real>, x: real) returns (v: real)
    requires 0.0 < x <= |values| as real
    ensures v == AtRank(values, x)
    ensures v in values && Count(values, Below(v)) as real < x <= Count(values, AtMost(v)) as real
  {
    var c := RankOf(values, x);
    v := Sort(values, RealLe)[c - 1];
    CountsOfSorted(values, c);
    CountsCover(Count(values, AtMost(v)), Count(values, Below(v)), c, x);
  }

  /** Stands for the product in what follows. */
  ghost predicate IsProduct(x: real, p: real, n: nat) {
    x == p * n as real
  }

  lemma PercentileIsAtRank(values: seq<real>, p: real, x: real)
    requires values != [] && IsProduct(x, p, |values|)
    ensures Percentile(values, p) == AtRank(values, x)
  {
  }

  lemma ProductInRange(p: real, n: nat) returns (x: real)
    requires 0 < n && 0.0 < p <= 1.0
    ensures IsProduct(x, p, n) && 0.0 < x <= n as real
  {
    x := p * n as real;
    Scale(p, 1.0, n as real);
  }

  lemma ScaledPair(p: real, q: real, n: nat) returns (x: real, y: real)
    requires p <= q
    ensures IsProduct(x, p, n) && IsProduct(y, q, n) && x <= y
  {
    x, y := p * n as real, q * n as real;
    Scale(p, q, n as real);
  }

  /** Main result: the nearest-rank percentile is a sample value with at least
      `p * n` values up to it and fewer than `p * n` below it. */
  lemma PercentileIsNearestRank(values: seq<real>, p: real) returns (x: real)
    requires values != [] && 0.0 < p <= 1.0
    ensures x == p * |values| as real
    ensures Percentile(values, p) in values
    ensures Count(values, Below(Percentile(values, p))) as real < x <= Count(values, AtMost(Percentile(values, p))) as real
  {
    x := ProductInRange(p, |values|);
    PercentileIsAtRank(values, p, x);
    var v := AtRankCounts(values, x);
  }

  lemma SortedAt(values: seq<real>, i: nat, j: nat)
    requires i <= j < |values|
    ensures Sort(values, RealLe)[i] <= Sort(values, RealLe)[j]
  {
    SortedValues(values);
    var ordered := Sort(values, RealLe);
    assert i < j ==> RealLe(ordered[i], ordered[j]);
  }

  lemma CeilingMonotone(x: real, y: real)
    requires x <= y
    ensures Ceiling(x) <= Ceiling(y)
  {
    assert (-x).Floor as real <= -x && -y < (-y).Floor as real + 1.0;
  }

  lemma AtRankMonotone(values: seq<real>, x: real, y: real)
    requires values != [] && x <= y
    ensures AtRank(values, x) <= AtRank(values, y)
  {
    CeilingMonotone(x, y);
    var n := |values|;
    SortedAt(values, ClampRank(Ceiling(x), n) - 1, ClampRank(Ceiling(y), n) - 1);
  }

  lemma {:induction false} PercentileMonotone(values: seq<real>, p: real, q: real)
    requires values != [] && p <= q
    ensures Percentile(values, p) <= Percentile(values, q)
  {
    var x, y := ScaledPair(p, q, |values|);
    PercentileIsAtRank(values, p, x);
    PercentileIsAtRank(values, q, y);
    AtRankMonotone(values, x, y);
  }

  lemma LastOfSorted(ordered: seq<real>, x: real)
    requires Sorted(ordered, RealLe) && x in ordered
    ensures x <= ordered[|ordered| - 1]
  {
    var j :| 0 <= j < |ordered| && ordered[j] == x;
    assert j < |ordered| - 1 ==> RealLe(ordered[j], ordered[|ordered| - 1]);
  }

  lemma LastIsGreatest(values: seq<real>, x: real)
    requires x in values
    ensures x <= Sort(values, RealLe)[|values| - 1]
  {
    SortedValues(values);
    SortKeeps(values, RealLe, x);
    LastOfSorted(Sort(values, RealLe), x);
  }

  /** The published percentiles are in order, and nothing exceeds the published maximum. */
  lemma {:induction false} PublishedPercentilesInOrder(values: seq<real>)
    requires values != []
    ensures Percentile(values, 0.5) <= Percentile(values, 0.9) <= Percentile(values, 0.95) <= Percentile(values, 0.99)
    ensures Percentile(values, 0.99) <= Sort(values, RealLe)[|values| - 1]
    ensures forall x :: x in values ==> x <= Sort(values, RealLe)[|values| - 1]
  {
    PercentileMonotone(values, 0.5, 0.9);
    PercentileMonotone(values, 0.9, 0.95);
    PercentileMonotone(values, 0.95, 0.99);
    var x := PercentileIsNearestRank(values, 0.99);
    forall v | v in values
      ensures v <= Sort(values, RealLe)[|values| - 1]
    {
      LastIsGreatest(values, v);
    }
  }

  /** So it is on the timing that is published. */
  lemma TimingInOrder(values: seq<real>)
    requires values != []
    ensures var t := TimingOf(values);
            && t.Timing? && t.n == |values|
            && t.p50 <= t.p90 <= t.p95 <= t.p99 <= t.most
            && t.most in values && forall x :: x in values ==> x <= t.most
  {
    PublishedPercentilesInOrder(values);
    SameElements(values, Sort(values, RealLe));
    assert Sort(values, RealLe)[|values| - 1] in Sort(values, RealLe);
  }

  lemma FinishedCount(rows: seq<Row>)
    ensures |Collect(rows, Finished, LatencyOf)| == |Places(rows, (row: Row) => row.ok)|
    ensures Collect(rows, Finished, LatencyOf) == [] <==> forall row :: row in rows ==> !row.ok
  {
    CollectLength(rows, Finished, LatencyOf);
    CountAll(rows, Finished);
    CountIsAs(rows, Finished, (row: Row) => row.ok);
  }

  lemma TimingOfMetrics(lower: string -> string, rows: seq<Row>)
    ensures MetricsOf(lower, rows).timing == TimingOf(Collect(rows, Finished, LatencyOf))
  {
  }

  /** Main result: the published timing covers the rows that finished, its
      percentiles are in order, and its maximum is the largest of their latencies. */
  lemma PublishedTimingInOrder(lower: string -> string, rows: seq<Row>)
    ensures var t := MetricsOf(lower, rows).timing;
            && (t.NoTiming? <==> forall row :: row in rows ==> !row.ok)
            && (t.Timing? ==>
                  && t.n == |Places(rows, (row: Row) => row.ok)|
                  && t.p50 <= t.p90 <= t.p95 <= t.p99 <= t.most
                  && (forall row :: row in rows && row.ok ==> row.latency <= t.most)
                  && (exists row :: row in rows && row.ok && row.latency == t.most))
  {
    TimingOfMetrics(lower, rows);
    FinishedCount(rows);
    LatenciesAre(rows);
    var values := Collect(rows, Finished, LatencyOf);
    if values == [] {
      assert TimingOf(values) == NoTiming;
    } else {
      TimingInOrder(values);
    }
  }

  lemma {:induction false} LatenciesAre(rows: seq<Row>)
    ensures forall row :: row in rows && row.ok ==> row.latency in Collect(rows, Finished, LatencyOf)
    ensures forall x :: x in Collect(rows, Finished, LatencyOf) ==> exists row :: row in rows && row.ok && row.latency == x
  {
    if rows != [] {
      LatenciesAre(rows[1..]);
      assert rows == [rows[0]] + rows[1..];
    }
  }

  // ----- the published counts -----

  /** The cell counts the rows with such a key, and those among them that are hits. */
  ghost predicate IsCell(cell: Cell, lower: string -> string, rows: seq<Row>, such: Row -> bool) {
    && cell.passed == |Places(rows, (row: Row) => such(row) && IsHit(lower, row))|
    && cell.total == |Places(rows, such)|
  }

  lemma CellIs(lower: string -> string, rows: seq<Row>, key: Row -> string, k: string, such: Row -> bool)
    requires forall row :: such(row) <==> key(row) == k
    ensures IsCell(CellOf(lower, rows, key, k), lower, rows, such)
  {
    CountIsAs(rows, Under(key, k), such);
    CountIsAs(rows, PassesUnder(lower, key, k), (row: Row) => such(row) && IsHit(lower, row));
  }

  lemma HeadlineCounts(lower: string -> string, rows: seq<Row>)
    ensures Count(rows, Passes(lower)) == |Places(rows, (row: Row) => IsHit(lower, row))|
    ensures Count(rows, WasKilled) == |Places(rows, (row: Row) => !row.ok)|
  {
    CountIsAs(rows, Passes(lower), (row: Row) => IsHit(lower, row));
    CountIsAs(rows, WasKilled, (row: Row) => !row.ok);
  }

  lemma HeadlineOfMetrics(lower: string -> string, rows: seq<Row>)
    ensures var m := MetricsOf(lower, rows);
            && m.total == |rows| && m.passed == Count(rows, Passes(lower)) && m.killed == Count(rows, WasKilled)
            && (rows == [] ==> m.rate == 0.0) && (rows != [] ==> m.rate == m.passed as real / |rows| as real)
  {
  }

  /** Main result: the headline counts the rows that are hits, and the killed
      counter those that did not finish. */
  lemma PublishedCounts(lower: string -> string, rows: seq<Row>)
    ensures var m := MetricsOf(lower, rows);
            && m.total == |rows|
            && m.passed == |Places(rows, (row: Row) => IsHit(lower, row))|
            && (rows == [] ==> m.rate == 0.0) && (rows != [] ==> m.rate == m.passed as real / |rows| as real)
            && m.killed == |Places(rows, (row: Row) => !row.ok)|
  {
    HeadlineOfMetrics(lower, rows);
    HeadlineCounts(lower, rows);
  }

  /** The table by size has a cell for each size that occurs, of the rows of that size. */
  lemma SizeTable(lower: string -> string, rows: seq<Row>)
    ensures var m := MetricsOf(lower, rows);
            && (forall k :: k in m.bySize <==> exists row :: row in rows && row.size == k)
            && (forall k :: k in m.bySize ==> IsCell(m.bySize[k], lower, rows, (row: Row) => row.size == k))
  {
    forall k
      ensures IsCell(CellOf(lower, rows, SizeOf, k), lower, rows, (row: Row) => row.size == k)
    {
      CellIs(lower, rows, SizeOf, k, (row: Row) => row.size == k);
    }
    assert forall k :: k in KeysOf(rows, SizeOf) <==> exists row :: row in rows && SizeOf(row) == k;
  }

  /** The table by depth likewise. */
  lemma DepthTable(lower: string -> string, rows: seq<Row>)
    ensures var m := MetricsOf(lower, rows);
            && (forall k :: k in m.byDepth <==> exists row :: row in rows && row.depth == k)
            && (forall k :: k in m.byDepth ==> IsCell(m.byDepth[k], lower, rows, (row: Row) => row.depth == k))
  {
    forall k
      ensures IsCell(CellOf(lower, rows, DepthOf, k), lower, rows, (row: Row) => row.depth == k)
    {
      CellIs(lower, rows, DepthOf, k, (row: Row) => row.depth == k);
    }
    assert forall k :: k in KeysOf(rows, DepthOf) <==> exists row :: row in rows && DepthOf(row) == k;
  }

  /** The integrity list names, in order, the units of the rows whose stored
      verdict their own results contradict, one entry for each. */
  lemma DisagreementsAre(lower: string -> string, rows: seq<Row>)
    ensures var listed := MetricsOf(lower, rows).disagreements;
            && Sorted(listed, StringLe)
            && |listed| == |Places(rows, (row: Row) => IsHit(lower, row) != row.found)|
            && (forall id :: id in listed <==> exists row :: row in rows && IsHit(lower, row) != row.found && row.unitId == id)
  {
    var unsorted := Collect(rows, Disagrees(lower), UnitOf);
    StringOrder();
    SortSorted(unsorted, StringLe);
    SameElements(unsorted, Sort(unsorted, StringLe));
    CollectLength(rows, Disagrees(lower), UnitOf);
    CountIsAs(rows, Disagrees(lower), (row: Row) => IsHit(lower, row) != row.found);
    forall id
      ensures id in unsorted <==> exists row :: row in rows && IsHit(lower, row) != row.found && row.unitId == id
    {
      CollectIs(rows, Disagrees(lower), UnitOf, id);
    }
  }
}
