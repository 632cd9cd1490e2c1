/** The per-question records of the recall benchmark, averaged overall and by question type.
 */
module RecallAggregate {
  import opened Common
  import opened Sorting

  /** One question: its type and its marks, the reciprocal rank followed by the recall flags. */
  datatype Record = Record(kind: string, marks: int -> real)

  /** `x[key]` for one of the marks. */
  type Measure = Record -> real

  function Mark(m: nat): Measure {
    (r: Record) => r.marks(m)
  }

  /** The items of one type, in order. */
  function OfKind(items: seq<Record>, kind: string): seq<Record> {
    if items == [] then [] else
      var front, last := items[..|items| - 1], items[|items| - 1];
      OfKind(front, kind) + if last.kind == kind then [last] else []
  }

  function Kinds(items: seq<Record>): set<string> {
    set i | 0 <= i < |items| :: items[i].kind
  }

  ghost predicate IsGrouping(groups: map<string, seq<Record>>, items: seq<Record>) {
    groups.Keys == Kinds(items) && forall k | k in groups :: groups[k] == OfKind(items, k)
  }

  method GroupByKind(items: seq<Record>) returns (groups: map<string, seq<Record>>)
    ensures IsGrouping(groups, items)
  {
    groups := map[];
    for i := 0 to |items|
      invariant IsGrouping(groups, items[..i])
    {
      var x := items[i];
      OneMore(groups, items[..i], x);
      assert items[..i + 1] == items[..i] + [x];
      if x.kind !in groups {
        groups := groups[x.kind := []];
      }
      groups := groups[x.kind := groups[x.kind] + [x]];
    }
    assert items[..|items|] == items;
  }

  lemma {:induction false} NoneOfKind(items: seq<Record>, kind: string)
    requires kind !in Kinds(items)
    ensures OfKind(items, kind) == []
  {
    if items != [] {
      var n := |items| - 1;
      assert items[n].kind in Kinds(items);
      assert forall i | 0 <= i < n :: items[..n][i].kind == items[i].kind && items[i].kind in Kinds(items);
      NoneOfKind(items[..n], kind);
    }
  }

  lemma OneMore(groups: map<string, seq<Record>>, items: seq<Record>, x: Record)
    requires IsGrouping(groups, items)
    ensures IsGrouping(groups[x.kind := (if x.kind in groups then groups[x.kind] else []) + [x]], items + [x])
  {
    var more := items + [x];
    assert more[..|items|] == items;
    if x.kind !in groups {
      NoneOfKind(items, x.kind);
    }
    assert Kinds(more) == Kinds(items) + {x.kind} by {
      forall k | k in Kinds(items) + {x.kind}
        ensures k in Kinds(more)
      {
        if k == x.kind {
          assert more[|items|].kind == k;
        } else {
          var i :| 0 <= i < |items| && items[i].kind == k;
          assert more[i].kind == k;
        }
      }
    }
  }

  // ----- the report -----

  datatype Metric = Metric(n: nat, means: seq<real>)

  function MetricOf(items: seq<Record>, marks: nat): Metric {
    Metric(|items|, seq(marks, m requires 0 <= m => Mean(items, Mark(m))))
  }

  datatype Report = Empty | Report(overall: Metric, byKind: seq<(string, Metric)>)

  /** The table by type lists every type once, in order, with the metric of its own items. */
  ghost predicate IsTable(table: seq<(string, Metric)>, items: seq<Record>, marks: nat) {
    && (forall i, j | 0 <= i < j < |table| :: table[i].0 != table[j].0 && StringLe(table[i].0, table[j].0))
    && (forall k :: k in Kinds(items) <==> exists i | 0 <= i < |table| :: table[i].0 == k)
    && (forall i | 0 <= i < |table| :: table[i].1 == MetricOf(OfKind(items, table[i].0), marks))
  }

  method Aggregate(items: seq<Record>, marks: nat) returns (r: Report)
    ensures r.Empty? <==> items == []
    ensures r.Report? ==> r.overall == MetricOf(items, marks) && IsTable(r.byKind, items, marks)
  {
    if items == [] {
      return Empty;
    }
    var groups := GroupByKind(items);
    var keys := SortedKeys(groups.Keys);
    var table := seq(|keys|, i requires 0 <= i < |keys| && keys[i] in groups => (keys[i], MetricOf(groups[keys[i]], marks)));
    forall k
      ensures k in Kinds(items) <==> exists i | 0 <= i < |table| :: table[i].0 == k
    {
      if k in Kinds(items) {
        var i :| 0 <= i < |keys| && keys[i] == k;
        assert table[i].0 == k;
      }
    }
    r := Report(MetricOf(items, marks), table);
  }

  /** Main result: a metric holds the number of its items and, for each mark, the
      mean: as often as there are items, it is the sum of that mark over them. */
  lemma MeansAreMeans(items: seq<Record>, marks: nat, m: nat)
    requires m < marks
    ensures MetricOf(items, marks).n == |items| && |MetricOf(items, marks).means| == marks
    ensures MetricOf(items, marks).means[m] * |items| as real == Sum(items, (r: Record) => r.marks(m))
    ensures items == [] ==> MetricOf(items, marks).means[m] == 0.0
  {
    MeanTimesCount(items, Mark(m));
    SumSame(items, Mark(m), (r: Record) => r.marks(m));
  }

  lemma {:induction false} SumSame(items: seq<Record>, f: Measure, g: Measure)
    requires forall r :: f(r) == g(r)
    ensures Sum(items, f) == Sum(items, g)
  {
    if items != [] {
      SumSame(items[..|items| - 1], f, g);
    }
  }

  // ----- the overall mean is the weighted mean of the types -----

  function SumOver(items: seq<Record>, f: Measure, kinds: seq<string>): real {
    if kinds == [] then 0.0 else Sum(OfKind(items, kinds[0]), f) + SumOver(items, f, kinds[1..])
  }

  /** The means of the types, each as often as it has items. */
  function Weighted(items: seq<Record>, f: Measure, kinds: seq<string>): real {
    if kinds == [] then 0.0 else
      var group := OfKind(items, kinds[0]);
      Mean(group, f) * |group| as real + Weighted(items, f, kinds[1..])
  }

  lemma MeanTimesCount(items: seq<Record>, f: Measure)
    ensures Mean(items, f) * |items| as real == Sum(items, f)
  {
  }

  lemma {:induction false} WeightedIsSum(items: seq<Record>, f: Measure, kinds: seq<string>)
    ensures Weighted(items, f, kinds) == SumOver(items, f, kinds)
  {
    if kinds != [] {
      MeanTimesCount(OfKind(items, kinds[0]), f);
      WeightedIsSum(items, f, kinds[1..]);
    }
  }

  lemma SumOneMore(items: seq<Record>, f: Measure, x: Record)
    ensures Sum(items + [x], f) == Sum(items, f) + f(x)
  {
    assert (items + [x])[..|items|] == items;
  }

  lemma {:induction false} SumOverOneMore(items: seq<Record>, x: Record, f: Measure, kinds: seq<string>)
    requires Distinct(kinds)
    ensures SumOver(items + [x], f, kinds) == SumOver(items, f, kinds) + if x.kind in kinds then f(x) else 0.0
  {
    if kinds != [] {
      var k, rest := kinds[0], kinds[1..];
      SumOverOneMore(items, x, f, rest);
      assert (items + [x])[..|items|] == items;
      assert x.kind in kinds <==> x.kind == k || x.kind in rest;
      if x.kind == k {
        SumOneMore(OfKind(items, k), f, x);
      } else {
        assert OfKind(items + [x], k) == OfKind(items, k);
      }
    }
  }

  lemma {:induction false} NothingToSum(f: Measure, kinds: seq<string>)
    ensures SumOver([], f, kinds) == 0.0
  {
    if kinds != [] {
      NothingToSum(f, kinds[1..]);
    }
  }

  ghost predicate AllOf(items: seq<Record>, kinds: seq<string>) {
    forall x :: x in items ==> x.kind in kinds
  }

  lemma {:induction false} SumsOfKindsAddUp(items: seq<Record>, f: Measure, kinds: seq<string>)
    requires Distinct(kinds) && AllOf(items, kinds)
    ensures SumOver(items, f, kinds) == Sum(items, f)
  {
    if items == [] {
      NothingToSum(f, kinds);
    } else {
      var front, last := items[..|items| - 1], items[|items| - 1];
      assert items == front + [last] && last in items;
      SumsOfKindsAddUp(front, f, kinds);
      SumOverOneMore(front, last, f, kinds);
    }
  }

  /** Main result: every overall mean is the mean of the type means weighted by their counts,
      whatever is measured and however the types are listed. */
  lemma OverallIsWeightedMean(items: seq<Record>, f: Measure, kinds: seq<string>)
    requires items != [] && Distinct(kinds) && AllOf(items, kinds)
    ensures Mean(items, f) == Weighted(items, f, kinds) / |items| as real
  {
    SumsOfKindsAddUp(items, f, kinds);
    WeightedIsSum(items, f, kinds);
  }
}
