/** Aligning two runs question by question, or refusing to.
 */
module Pairing {
  import opened Sorting

  /** A row of a run: its question id, if it has a usable one, whether its unit completed, and its values. */
  datatype Row = Row(id: string, ok: bool, values: map<string, real>)

  datatype Refusal = UnusableId | RepeatedId | DifferentQuestions | Incomplete | NothingLeft

  datatype Result<T> = Accepted(value: T) | Refused(reason: Refusal)

  /** A Python dict: its keys in insertion order, and what they map to. */
  datatype Index = Index(ids: seq<string>, rows: map<string, Row>)

  function Ids(rows: seq<Row>): (ids: seq<string>)
    ensures |ids| == |rows| && forall i | 0 <= i < |rows| :: ids[i] == rows[i].id
  {
    seq(|rows|, i requires 0 <= i < |rows| => rows[i].id)
  }

  /** Every id is usable and none is repeated. */
  predicate Indexable(rows: seq<Row>) {
    "" !in Ids(rows) && Distinct(Ids(rows))
  }

  /** Row `i` is the first that cannot be indexed, and why. */
  ghost predicate FirstFault(rows: seq<Row>, i: nat, reason: Refusal)
    requires i < |rows|
  {
    && Indexable(rows[..i]) && !Indexable(rows[..i + 1])
    && reason == if rows[i].id == "" then UnusableId else RepeatedId
  }

  ghost predicate IsIndexOf(index: Index, rows: seq<Row>) {
    && index.ids == Ids(rows)
    && index.rows.Keys == (set i | 0 <= i < |rows| :: rows[i].id)
    && forall i | 0 <= i < |rows| :: index.rows[rows[i].id] == rows[i]
  }

  method IndexByQuestion(rows: seq<Row>) returns (r: Result<Index>)
    ensures r.Accepted? <==> Indexable(rows)
    ensures r.Accepted? ==> IsIndexOf(r.value, rows)
    ensures r.Refused? ==> exists i | 0 <= i < |rows| :: FirstFault(rows, i, r.reason)
  {
    var index := Index([], map[]);
    for i := 0 to |rows|
      invariant IsIndexOf(index, rows[..i]) && Indexable(rows[..i])
    {
      var row := rows[i];
      var before, upTo := rows[..i], rows[..i + 1];
      assert upTo == before + [row] && Ids(upTo) == Ids(before) + [row.id];
      if row.id == "" {
        NotIndexable(rows, i);
        assert FirstFault(rows, i, UnusableId);
        return Refused(UnusableId);
      }
      if row.id in index.rows {
        NotIndexable(rows, i);
        assert FirstFault(rows, i, RepeatedId);
        return Refused(RepeatedId);
      }
      index := Index(index.ids + [row.id], index.rows[row.id := row]);
    }
    assert rows[..|rows|] == rows;
    r := Accepted(index);
  }

  lemma NotIndexable(rows: seq<Row>, i: nat)
    requires i < |rows| && (rows[i].id == "" || rows[i].id in Ids(rows[..i]))
    ensures !Indexable(rows) && !Indexable(rows[..i + 1])
  {
    var ids := Ids(rows);
    assert ids[i] == rows[i].id && Ids(rows[..i + 1])[i] == rows[i].id;
    if rows[i].id != "" {
      var j :| 0 <= j < i && Ids(rows[..i])[j] == rows[i].id;
      assert ids[j] == ids[i] && Ids(rows[..i + 1])[j] == Ids(rows[..i + 1])[i];
    }
  }

  /** Two runs over the same questions, in the order of the baseline. */
  datatype Paired = Paired(kept: seq<string>, dropped: seq<string>, baseline: map<string, Row>, candidate: map<string, Row>)

  predicate Complete(baseline: map<string, Row>, candidate: map<string, Row>, id: string)
    requires id in baseline && id in candidate
  {
    baseline[id].ok && candidate[id].ok
  }

  /** The ids whose units completed in both arms, or did not. */
  function Select(ids: seq<string>, baseline: map<string, Row>, candidate: map<string, Row>, complete: bool): seq<string>
    requires forall id :: id in ids ==> id in baseline && id in candidate
  {
    if ids == [] then [] else
      assert ids[0] in ids && forall id :: id in ids[1..] ==> id in ids;
      (if Complete(baseline, candidate, ids[0]) == complete then [ids[0]] else [])
        + Select(ids[1..], baseline, candidate, complete)
  }

  function PairIndexed(base: Index, cand: Index, dropNonOk: bool): Result<Paired>
    requires forall id :: id in base.ids <==> id in base.rows
  {
    if base.rows.Keys != cand.rows.Keys then Refused(DifferentQuestions)
    else
      var nonOk := Select(base.ids, base.rows, cand.rows, false);
      var kept := Select(base.ids, base.rows, cand.rows, true);
      if nonOk != [] && !dropNonOk then Refused(Incomplete)
      else if kept == [] then Refused(NothingLeft)
      else Accepted(Paired(kept, nonOk, base.rows, cand.rows))
  }

  method PairRuns(baseline: seq<Row>, candidate: seq<Row>, dropNonOk: bool) returns (r: Result<Paired>)
    ensures !Indexable(baseline) || !Indexable(candidate) ==> r.Refused? && r.reason in {UnusableId, RepeatedId}
    ensures Indexable(baseline) && Indexable(candidate) ==> r == PairSpec(baseline, candidate, dropNonOk)
  {
    var base := IndexByQuestion(baseline);
    if base.Refused? {
      return Refused(base.reason);
    }
    var cand := IndexByQuestion(candidate);
    if cand.Refused? {
      return Refused(cand.reason);
    }
    IndexIsUnique(base.value, baseline);
    IndexIsUnique(cand.value, candidate);
    r := PairIndexed(base.value, cand.value, dropNonOk);
  }

  /** The row with the id. */
  function RowOf(rows: seq<Row>, id: string): (row: Row)
    requires id in Ids(rows)
    ensures row in rows && row.id == id
  {
    if rows[0].id == id then rows[0] else
      assert Ids(rows)[1..] == Ids(rows[1..]);
      RowOf(rows[1..], id)
  }

  function TheIndex(rows: seq<Row>): Index {
    Index(Ids(rows), map id | id in Ids(rows) :: RowOf(rows, id))
  }

  lemma SameIdSameRow(rows: seq<Row>)
    requires Indexable(rows)
    ensures forall a, b | a in rows && b in rows && a.id == b.id :: a == b
  {
    forall a, b | a in rows && b in rows && a.id == b.id
      ensures a == b
    {
      var i :| 0 <= i < |rows| && rows[i] == a;
      var j :| 0 <= j < |rows| && rows[j] == b;
      assert Ids(rows)[i] == Ids(rows)[j];
    }
  }

  lemma IndexKeys(index: Index, rows: seq<Row>)
    requires IsIndexOf(index, rows)
    ensures forall id :: id in index.ids <==> id in index.rows
  {
    forall id | id in index.ids
      ensures id in index.rows
    {
      var i :| 0 <= i < |rows| && index.ids[i] == id;
      assert rows[i].id == id;
    }
    forall id | id in index.rows
      ensures id in index.ids
    {
      var i :| 0 <= i < |rows| && rows[i].id == id;
      assert index.ids[i] == id;
    }
  }

  lemma IndexIsUnique(index: Index, rows: seq<Row>)
    requires Indexable(rows) && IsIndexOf(index, rows)
    ensures index == TheIndex(rows)
    ensures forall id :: id in index.ids <==> id in index.rows
  {
    IndexKeys(index, rows);
    var m := TheIndex(rows).rows;
    assert index.rows.Keys == m.Keys;
    forall id | id in m
      ensures index.rows[id] == m[id]
    {
      var row := RowOf(rows, id);
      var i :| 0 <= i < |rows| && rows[i] == row;
      assert index.rows[rows[i].id] == rows[i];
    }
  }

  function PairSpec(baseline: seq<Row>, candidate: seq<Row>, dropNonOk: bool): Result<Paired>
    requires Indexable(baseline) && Indexable(candidate)
  {
    KeysAreIds(baseline);
    PairIndexed(TheIndex(baseline), TheIndex(candidate), dropNonOk)
  }

  lemma KeysAreIds(rows: seq<Row>)
    ensures forall id :: id in TheIndex(rows).ids <==> id in TheIndex(rows).rows
  {
  }

  // ----- when two runs pair, and what is kept -----

  function SetOf(rows: seq<Row>): set<Row> {
    set row | row in rows
  }

  function At(rows: seq<Row>, id: string): Row
    requires Indexable(rows) && id in Ids(rows)
  {
    KeysAreIds(rows);
    TheIndex(rows).rows[id]
  }

  lemma AtIsTheRow(rows: seq<Row>, i: nat)
    requires Indexable(rows) && i < |rows|
    ensures rows[i].id in Ids(rows) && At(rows, rows[i].id) == rows[i]
  {
    assert Ids(rows)[i] == rows[i].id;
    SameIdSameRow(rows);
  }

  predicate SameQuestions(baseline: seq<Row>, candidate: seq<Row>) {
    forall id :: id in Ids(baseline) + Ids(candidate) ==> id in Ids(baseline) && id in Ids(candidate)
  }

  /** Both runs hold a completed row for the question. */
  ghost predicate BothOk(baseline: seq<Row>, candidate: seq<Row>, id: string) {
    exists i, j | 0 <= i < |baseline| && 0 <= j < |candidate| ::
      baseline[i].id == candidate[j].id == id && baseline[i].ok && candidate[j].ok
  }

  /** The index gives the rows as they stand in the runs. */
  lemma CompleteMeansBothOk(baseline: seq<Row>, candidate: seq<Row>, id: string)
    requires Indexable(baseline) && Indexable(candidate)
    requires id in Ids(baseline) && id in Ids(candidate)
    ensures id in TheIndex(baseline).rows && id in TheIndex(candidate).rows
    ensures Complete(TheIndex(baseline).rows, TheIndex(candidate).rows, id) <==> BothOk(baseline, candidate, id)
  {
    KeysAreIds(baseline);
    KeysAreIds(candidate);
    var i :| 0 <= i < |baseline| && Ids(baseline)[i] == id;
    var j :| 0 <= j < |candidate| && Ids(candidate)[j] == id;
    AtIsTheRow(baseline, i);
    AtIsTheRow(candidate, j);
    if BothOk(baseline, candidate, id) {
      var i', j' :| 0 <= i' < |baseline| && 0 <= j' < |candidate|
        && baseline[i'].id == candidate[j'].id == id && baseline[i'].ok && candidate[j'].ok;
      AtIsTheRow(baseline, i');
      AtIsTheRow(candidate, j');
    }
  }

  lemma {:induction false} SelectIs(ids: seq<string>, baseline: map<string, Row>, candidate: map<string, Row>, complete: bool)
    requires forall id :: id in ids ==> id in baseline && id in candidate
    ensures forall id :: id in Select(ids, baseline, candidate, complete) <==>
                         id in ids && Complete(baseline, candidate, id) == complete
  {
    if ids != [] {
      assert ids == [ids[0]] + ids[1..];
      SelectIs(ids[1..], baseline, candidate, complete);
    }
  }

  lemma SelectStep(ids: seq<string>, baseline: map<string, Row>, candidate: map<string, Row>, complete: bool)
    requires ids != [] && forall id :: id in ids ==> id in baseline && id in candidate
    ensures forall id :: id in ids[1..] ==> id in ids
    ensures ids[0] in ids
    ensures var rest := Select(ids[1..], baseline, candidate, complete);
            Select(ids, baseline, candidate, complete) ==
            if Complete(baseline, candidate, ids[0]) == complete then [ids[0]] + rest else rest
  {
  }

  lemma FirstAndRest(x: string, rest: seq<string>)
    ensures multiset([x] + rest) == multiset{x} + multiset(rest)
  {
  }

  lemma OneMoreOnEither(x: string, a: seq<string>, b: seq<string>, c: seq<string>)
    requires multiset(a) + multiset(b) == multiset(c)
    ensures multiset([x] + a) + multiset(b) == multiset([x] + c)
    ensures multiset(a) + multiset([x] + b) == multiset([x] + c)
  {
    FirstAndRest(x, a);
    FirstAndRest(x, b);
    FirstAndRest(x, c);
  }

  lemma FirstGoesEitherWay(ids: seq<string>, keeps: bool, kept: seq<string>, dropped: seq<string>, kept': seq<string>, dropped': seq<string>)
    requires ids != [] && multiset(kept) + multiset(dropped) == multiset(ids[1..])
    requires kept' == if keeps then [ids[0]] + kept else kept
    requires dropped' == if keeps then dropped else [ids[0]] + dropped
    ensures multiset(kept') + multiset(dropped') == multiset(ids)
  {
    OneMoreOnEither(ids[0], kept, dropped, ids[1..]);
    assert ids == [ids[0]] + ids[1..];
  }

  lemma {:induction false} SelectSplits(ids: seq<string>, baseline: map<string, Row>, candidate: map<string, Row>)
    requires forall id :: id in ids ==> id in baseline && id in candidate
    ensures multiset(Select(ids, baseline, candidate, true)) + multiset(Select(ids, baseline, candidate, false)) == multiset(ids)
  {
    if ids != [] {
      var rest := ids[1..];
      SelectStep(ids, baseline, candidate, true);
      SelectStep(ids, baseline, candidate, false);
      SelectSplits(rest, baseline, candidate);
      FirstGoesEitherWay(ids, Complete(baseline, candidate, ids[0]),
        Select(rest, baseline, candidate, true), Select(rest, baseline, candidate, false),
        Select(ids, baseline, candidate, true), Select(ids, baseline, candidate, false));
    }
  }

  /** `a` is `b` with some elements left out. */
  predicate Subsequence(a: seq<string>, b: seq<string>) {
    if a == [] then true
    else if b == [] then false
    else if a[0] == b[0] then Subsequence(a[1..], b[1..])
    else Subsequence(a, b[1..])
  }

  lemma {:induction false} SelectKeepsOrder(ids: seq<string>, baseline: map<string, Row>, candidate: map<string, Row>, complete: bool)
    requires forall id :: id in ids ==> id in baseline && id in candidate
    requires Distinct(ids)
    ensures Subsequence(Select(ids, baseline, candidate, complete), ids)
  {
    if ids != [] {
      assert ids == [ids[0]] + ids[1..];
      SelectKeepsOrder(ids[1..], baseline, candidate, complete);
      SelectIs(ids[1..], baseline, candidate, complete);
      var s := Select(ids[1..], baseline, candidate, complete);
      assert Select(ids, baseline, candidate, complete) ==
             if Complete(baseline, candidate, ids[0]) == complete then [ids[0]] + s else s;
      if Complete(baseline, candidate, ids[0]) == complete {
        assert ([ids[0]] + s)[1..] == s;
      } else if s != [] {
        assert s[0] in s && s[0] in ids[1..];
        var j :| 0 <= j < |ids[1..]| && ids[1..][j] == s[0];
        assert ids[0] != ids[j + 1] == s[0];
      }
    }
  }

  lemma SameKeys(baseline: seq<Row>, candidate: seq<Row>)
    requires Indexable(baseline) && Indexable(candidate)
    ensures TheIndex(baseline).rows.Keys == TheIndex(candidate).rows.Keys <==> SameQuestions(baseline, candidate)
  {
    KeysAreIds(baseline);
    KeysAreIds(candidate);
    var a, b := TheIndex(baseline).rows.Keys, TheIndex(candidate).rows.Keys;
    assert forall id :: id in a <==> id in Ids(baseline);
    assert forall id :: id in b <==> id in Ids(candidate);
  }

  /** The map takes each id of the run to the run's own row for it, and knows no other id. */
  ghost predicate HoldsRows(arm: map<string, Row>, rows: seq<Row>) {
    && (forall i | 0 <= i < |rows| :: rows[i].id in arm && arm[rows[i].id] == rows[i])
    && (forall id :: id in arm ==> id in Ids(rows))
  }

  lemma IndexHoldsRows(rows: seq<Row>)
    requires Indexable(rows)
    ensures HoldsRows(TheIndex(rows).rows, rows)
  {
    KeysAreIds(rows);
    forall i | 0 <= i < |rows|
      ensures rows[i].id in TheIndex(rows).rows && TheIndex(rows).rows[rows[i].id] == rows[i]
    {
      AtIsTheRow(rows, i);
    }
  }

  /** Main result: each arm of a pairing holds that arm's own row for every
      question, so for every kept one. */
  lemma ArmsHoldTheirRows(baseline: seq<Row>, candidate: seq<Row>, dropNonOk: bool)
    requires Indexable(baseline) && Indexable(candidate)
    requires PairSpec(baseline, candidate, dropNonOk).Accepted?
    ensures var r := PairSpec(baseline, candidate, dropNonOk).value;
            && HoldsRows(r.baseline, baseline) && HoldsRows(r.candidate, candidate)
            && (forall id :: id in r.kept ==> id in r.baseline && id in r.candidate)
  {
    IndexHoldsRows(baseline);
    IndexHoldsRows(candidate);
    KeysAreIds(baseline);
    KeysAreIds(candidate);
    var base, cand := TheIndex(baseline), TheIndex(candidate);
    SelectIs(base.ids, base.rows, cand.rows, true);
  }

  /** Main result: two indexable runs are paired exactly when they cover the same
      questions, at least one completed in both, and either all did or dropping
      was asked for. Then the kept ids are those that completed in both arms, in
      the baseline's order, and together with the dropped ones they are all the
      questions, each once. */
  lemma {:induction false} PairingIsExact(baseline: seq<Row>, candidate: seq<Row>, dropNonOk: bool)
    requires Indexable(baseline) && Indexable(candidate)
    ensures var r := PairSpec(baseline, candidate, dropNonOk);
            && (r.Accepted? <==>
                  && SameQuestions(baseline, candidate)
                  && (exists id :: id in Ids(baseline) && id in Ids(candidate) && BothOk(baseline, candidate, id))
                  && (dropNonOk || forall id :: id in Ids(baseline) && id in Ids(candidate) ==> BothOk(baseline, candidate, id)))
            && (r.Accepted? ==>
                  && (forall id :: id in r.value.kept <==> id in Ids(baseline) && id in Ids(candidate) && BothOk(baseline, candidate, id))
                  && Subsequence(r.value.kept, Ids(baseline))
                  && multiset(r.value.kept) + multiset(r.value.dropped) == multiset(Ids(baseline)))
  {
    var base, cand := TheIndex(baseline), TheIndex(candidate);
    SameKeys(baseline, candidate);
    KeysAreIds(baseline);
    KeysAreIds(candidate);
    if base.rows.Keys == cand.rows.Keys {
      SelectIs(base.ids, base.rows, cand.rows, true);
      SelectIs(base.ids, base.rows, cand.rows, false);
      SelectSplits(base.ids, base.rows, cand.rows);
      SelectKeepsOrder(base.ids, base.rows, cand.rows, true);
      forall id | id in base.ids
        ensures Complete(base.rows, cand.rows, id) <==> BothOk(baseline, candidate, id)
      {
        CompleteMeansBothOk(baseline, candidate, id);
      }
      var kept, nonOk := Select(base.ids, base.rows, cand.rows, true), Select(base.ids, base.rows, cand.rows, false);
      assert kept != [] ==> kept[0] in kept;
      assert nonOk != [] ==> nonOk[0] in nonOk;
    }
  }

  lemma SameRowsSameIds(a: seq<Row>, b: seq<Row>)
    requires forall row :: row in a <==> row in b
    ensures forall id :: id in Ids(a) <==> id in Ids(b)
  {
    forall id
      ensures id in Ids(a) <==> id in Ids(b)
    {
      if id in Ids(a) {
        var row := RowOf(a, id);
        var i :| 0 <= i < |b| && b[i] == row;
        assert Ids(b)[i] == id;
      }
      if id in Ids(b) {
        var row := RowOf(b, id);
        var i :| 0 <= i < |a| && a[i] == row;
        assert Ids(a)[i] == id;
      }
    }
  }

  lemma SameIndex(a: seq<Row>, b: seq<Row>)
    requires Indexable(a) && Indexable(b) && SetOf(a) == SetOf(b)
    ensures TheIndex(a).rows == TheIndex(b).rows
  {
    SameIdSameRow(b);
    forall row
      ensures row in a <==> row in b
    {
      assert row in SetOf(a) <==> row in SetOf(b);
    }
    SameRowsSameIds(a, b);
    forall id | id in Ids(a)
      ensures RowOf(a, id) == RowOf(b, id)
    {
      assert RowOf(a, id) in b;
    }
  }

  /** The order in which the candidate's rows were written does not matter. */
  lemma CandidateOrderIrrelevant(baseline: seq<Row>, candidate: seq<Row>, candidate': seq<Row>, dropNonOk: bool)
    requires Indexable(baseline) && Indexable(candidate) && Indexable(candidate')
    requires SetOf(candidate) == SetOf(candidate')
    ensures PairSpec(baseline, candidate, dropNonOk) == PairSpec(baseline, candidate', dropNonOk)
  {
    SameIndex(candidate, candidate');
  }
}
