/** The resumable driver of the full benchmark run: an append-only journal of
    scored questions, and passes that skip what is already in it.
 */
module Journal {
  import opened Common
  import opened Decimals
  import opened HardTimeout
  import opened Sorting

  datatype Question = Question(id: Option<string>, query: string, gold: set<string>)

  // ----- which questions are scored -----

  predicate EndsWith(s: string, suffix: string) {
    |suffix| <= |s| && s[|s| - |suffix|..] == suffix
  }

  predicate IsAbstention(q: Question) {
    q.id.Some? && EndsWith(q.id.value, "_abs")
  }

  predicate HasNoGold(q: Question) {
    !IsAbstention(q) && q.gold == {}
  }

  predicate IsEligible(q: Question) {
    !IsAbstention(q) && q.gold != {}
  }

  function Eligible(dataset: seq<Question>): seq<Question> {
    if dataset == [] then [] else
      var n := |dataset| - 1;
      Eligible(dataset[..n]) + if IsEligible(dataset[n]) then [dataset[n]] else []
  }

  /** The pool and the two exclusion counts, which add up to the dataset. */
  method EligibleQuestions(dataset: seq<Question>)
    returns (pool: seq<Question>, excludedAbstention: nat, excludedNoGold: nat)
    ensures pool == Eligible(dataset)
    ensures excludedAbstention == Count(dataset, IsAbstention)
    ensures excludedNoGold == Count(dataset, HasNoGold)
    ensures |pool| + excludedAbstention + excludedNoGold == |dataset|
  {
    pool, excludedAbstention, excludedNoGold := [], 0, 0;
    for i := 0 to |dataset|
      invariant pool == Eligible(dataset[..i])
      invariant excludedAbstention == Count(dataset[..i], IsAbstention)
      invariant excludedNoGold == Count(dataset[..i], HasNoGold)
      invariant |pool| + excludedAbstention + excludedNoGold == i
    {
      var q := dataset[i];
      assert dataset[..i + 1][..i] == dataset[..i];
      TakeOneMore(dataset, i);
      CountOneMore(dataset[..i], q, IsAbstention);
      CountOneMore(dataset[..i], q, HasNoGold);
      if q.id.Some? && EndsWith(q.id.value, "_abs") {
        excludedAbstention := excludedAbstention + 1;
        continue;
      }
      if q.gold == {} {
        excludedNoGold := excludedNoGold + 1;
        continue;
      }
      pool := pool + [q];
    }
    assert dataset[..|dataset|] == dataset;
  }

  /** The pool holds the questions with gold that are no abstentions, and no other. */
  lemma {:induction false} EligibleAre(dataset: seq<Question>)
    ensures forall q :: q in Eligible(dataset) <==>
              q in dataset && q.gold != {} && (q.id.None? || !EndsWith(q.id.value, "_abs"))
  {
    if dataset != [] {
      var n := |dataset| - 1;
      EligibleAre(dataset[..n]);
      assert dataset == dataset[..n] + [dataset[n]];
    }
  }

  /** `pool[::stride]` when the stride exceeds one. */
  function Strided(pool: seq<Question>, stride: int): seq<Question>
    decreases |pool|
  {
    if stride <= 1 || pool == [] then pool
    else [pool[0]] + if stride < |pool| then Strided(pool[stride..], stride) else []
  }

  /** `pool[:limit]` unless the limit is zero; a negative limit counts from the end. */
  function Limited(pool: seq<Question>, limit: int): seq<Question> {
    if limit == 0 || |pool| <= limit then pool
    else if 0 < limit then pool[..limit]
    else if 0 <= |pool| + limit then pool[..|pool| + limit]
    else []
  }

  /** A limit keeps a prefix: of that length, or without that many at the end. */
  lemma LimitedIs(pool: seq<Question>, limit: int)
    ensures Limited(pool, limit) <= pool
    ensures limit == 0 || |pool| <= limit ==> |Limited(pool, limit)| == |pool|
    ensures 0 < limit <= |pool| ==> |Limited(pool, limit)| == limit
    ensures -|pool| <= limit < 0 ==> |pool| - |Limited(pool, limit)| == -limit
    ensures limit < -|pool| ==> Limited(pool, limit) == []
  {
  }

  datatype Item = Item(id: string, question: Question)

  /** The units of work of a pool: questions without a query are passed over,
      and a question without an id is named after its place. */
  function Units(pool: seq<Question>, i: nat): seq<Item>
    requires i <= |pool|
    decreases |pool| - i
  {
    if i == |pool| then []
    else if pool[i].query == "" then Units(pool, i + 1)
    else [Item(NameOf(pool[i], i), pool[i])] + Units(pool, i + 1)
  }

  function NameOf(q: Question, i: nat): string {
    match q.id
    case Some(id) => id
    case None => "q" + Decimal(i)
  }

  /** Questions without an id get names of their own. */
  lemma UnnamedDiffer(a: Question, i: nat, b: Question, j: nat)
    requires a.id.None? && b.id.None? && i != j
    ensures NameOf(a, i) != NameOf(b, j)
  {
    assert NameOf(a, i)[1..] == Decimal(i) && NameOf(b, j)[1..] == Decimal(j);
    if Decimal(i) == Decimal(j) {
      DecimalInjective(i, j);
    }
  }

  function WorkOf(dataset: seq<Question>, stride: int, limit: int): seq<Item> {
    Units(Limited(Strided(Eligible(dataset), stride), limit), 0)
  }

  // ----- what the pool of work is -----

  /** A stride takes every `stride`-th question, from the first on. */
  lemma {:induction false} StridedAt(pool: seq<Question>, stride: int, i: nat)
    requires 1 < stride
    ensures i < |Strided(pool, stride)| <==> i * stride < |pool|
    ensures i < |Strided(pool, stride)| ==> Strided(pool, stride)[i] == pool[i * stride]
    decreases |pool|
  {
    if pool != [] && 0 < i {
      assert i * stride == stride + (i - 1) * stride;
      if stride < |pool| {
        StridedAt(pool[stride..], stride, i - 1);
      } else {
        Multiple(i - 1, stride);
      }
    }
  }

  lemma Multiple(i: nat, stride: int)
    requires 0 < stride
    ensures 0 <= i * stride
  {
  }

  ghost predicate DistinctNames(items: seq<Item>) {
    forall i, j | 0 <= i < j < |items| :: items[i].id != items[j].id
  }

  /** Every question has an id of its own. */
  ghost predicate OwnIds(pool: seq<Question>) {
    && (forall i | 0 <= i < |pool| :: pool[i].id.Some?)
    && (forall i, j | 0 <= i < j < |pool| :: pool[i].id != pool[j].id)
  }

  lemma {:induction false} EligibleFrom(dataset: seq<Question>)
    requires OwnIds(dataset)
    ensures OwnIds(Eligible(dataset)) && forall q :: q in Eligible(dataset) ==> q in dataset
  {
    if dataset != [] {
      var n := |dataset| - 1;
      EligibleFrom(dataset[..n]);
      assert dataset == dataset[..n] + [dataset[n]];
      forall q | q in Eligible(dataset[..n])
        ensures q.id != dataset[n].id
      {
        var i :| 0 <= i < n && dataset[i] == q;
      }
    }
  }

  lemma {:induction false} StridedFrom(pool: seq<Question>, stride: int)
    requires OwnIds(pool)
    ensures OwnIds(Strided(pool, stride)) && forall q :: q in Strided(pool, stride) ==> q in pool
    decreases |pool|
  {
    if 1 < stride < |pool| {
      var rest := pool[stride..];
      StridedFrom(rest, stride);
      assert forall q :: q in rest ==> q in pool;
      forall q | q in Strided(rest, stride)
        ensures q.id != pool[0].id
      {
        var i :| 0 <= i < |rest| && rest[i] == q;
        assert pool[stride + i] == q;
      }
    }
  }

  lemma {:induction false} UnitsFrom(pool: seq<Question>, i: nat)
    requires OwnIds(pool) && i <= |pool|
    ensures DistinctNames(Units(pool, i))
    ensures forall x :: x in Units(pool, i) ==> exists j | i <= j < |pool| :: pool[j] == x.question && pool[j].id == Some(x.id)
    decreases |pool| - i
  {
    if i < |pool| {
      UnitsFrom(pool, i + 1);
      forall x | x in Units(pool, i + 1)
        ensures Some(x.id) != pool[i].id
      {
        var j :| i + 1 <= j < |pool| && pool[j] == x.question && pool[j].id == Some(x.id);
      }
    }
  }

  /** When every question has an id of its own, the units of work have names of
      their own, for every stride and limit: resuming is then transparent. */
  lemma OwnIdsGiveOwnNames(dataset: seq<Question>, stride: int, limit: int)
    requires OwnIds(dataset)
    ensures DistinctNames(WorkOf(dataset, stride, limit))
  {
    EligibleFrom(dataset);
    StridedFrom(Eligible(dataset), stride);
    UnitsFrom(Limited(Strided(Eligible(dataset), stride), limit), 0);
  }

  /** The questions that have a query, in order. */
  function Queried(pool: seq<Question>, i: nat): seq<Question>
    requires i <= |pool|
    decreases |pool| - i
  {
    if i == |pool| then []
    else if pool[i].query == "" then Queried(pool, i + 1)
    else [pool[i]] + Queried(pool, i + 1)
  }

  function QuestionsOf(items: seq<Item>): seq<Question> {
    if items == [] then [] else [items[0].question] + QuestionsOf(items[1..])
  }

  /** There is one unit for each question with a query, in order, and none for another. */
  lemma {:induction false} UnitsAreQueried(pool: seq<Question>, i: nat)
    requires i <= |pool|
    ensures QuestionsOf(Units(pool, i)) == Queried(pool, i)
    decreases |pool| - i
  {
    if i < |pool| {
      UnitsAreQueried(pool, i + 1);
      if pool[i].query != "" {
        assert Units(pool, i)[1..] == Units(pool, i + 1);
      }
    }
  }

  // ----- one pass -----

  /** What the child returns: the served ranking, its latency and a note on the pipeline. */
  datatype Served = Served(retrieved: seq<string>, latency: real, probe: string)

  /** What became of one unit: the status of the isolated process, what it returned,
      its error text and the time it took, in seconds. */
  datatype Attempt = Attempt(status: Status, value: Option<Served>, error: string, elapsed: real)

  datatype Pipeline = Probe(text: string) | Note(status: Status, error: string)

  datatype Row = Row(id: string, retrieved: seq<string>, gold: set<string>, latency: real, pipeline: Pipeline, status: Status, elapsed: real)

  /** At most the first 400 characters. */
  function Clipped(s: string): string {
    if |s| <= 400 then s else s[..400]
  }

  /** A unit that was killed, crashed or raised is scored as a miss, and labelled. */
  function Scored(item: Item, a: Attempt): Row {
    match (a.status, a.value)
    case (OK, Some(v)) => Row(item.id, v.retrieved, item.question.gold, v.latency, Probe(v.probe), a.status, a.elapsed)
    case _ => Row(item.id, [], item.question.gold, a.elapsed * 1000.0, Note(a.status, Clipped(a.error)), a.status, a.elapsed)
  }

  function Ids(rows: seq<Row>): seq<string> {
    seq(|rows|, i requires 0 <= i < |rows| => rows[i].id)
  }

  function Names(items: seq<Item>): seq<string> {
    seq(|items|, i requires 0 <= i < |items| => items[i].id)
  }

  function Missing(items: seq<Item>, done: set<string>): seq<Item> {
    if items == [] then []
    else if items[0].id in done then Missing(items[1..], done)
    else [items[0]] + Missing(items[1..], done)
  }

  function SetOf(ids: seq<string>): set<string> {
    set x | x in ids
  }

  /** One row per item, the `n`-th attempt deciding the `n`-th row. */
  function ScoredAll(items: seq<Item>, attempts: nat -> Attempt): (rows: seq<Row>)
    ensures |rows| == |items|
  {
    if items == [] then []
    else
      var n := |items| - 1;
      ScoredAll(items[..n], attempts) + [Scored(items[n], attempts(n))]
  }

  lemma {:induction false} ScoredAt(items: seq<Item>, attempts: nat -> Attempt, i: nat)
    requires i < |items|
    ensures ScoredAll(items, attempts)[i] == Scored(items[i], attempts(i))
  {
    if i < |items| - 1 {
      ScoredAt(items[..|items| - 1], attempts, i);
    }
  }

  lemma ScoredOneMore(items: seq<Item>, item: Item, attempts: nat -> Attempt)
    ensures ScoredAll(items + [item], attempts) == ScoredAll(items, attempts) + [Scored(item, attempts(|items|))]
  {
    var all := items + [item];
    assert all[..|items|] == items && all[|items|] == item;
    LastScored(all, attempts);
  }

  lemma LastScored(items: seq<Item>, attempts: nat -> Attempt)
    requires items != []
    ensures var n := |items| - 1;
            ScoredAll(items, attempts) == ScoredAll(items[..n], attempts) + [Scored(items[n], attempts(n))]
  {
  }

  lemma MissingStep(work: seq<Item>, i: nat, done: set<string>, missing: seq<Item>, n: nat)
    requires i < |work| && n <= |missing| && Missing(work[i..], done) == missing[n..]
    ensures work[i].id in done ==> Missing(work[i + 1..], done) == missing[n..]
    ensures work[i].id !in done ==>
              && n < |missing| && missing[n] == work[i]
              && Missing(work[i + 1..], done) == missing[n + 1..]
  {
    assert work[i..][0] == work[i] && work[i..][1..] == work[i + 1..];
    if work[i].id !in done {
      assert missing[n..][0] == work[i];
      assert missing[n..][1..] == missing[n + 1..];
    }
  }

  lemma RowsStep(before: seq<Row>, missing: seq<Item>, n: nat, attempts: nat -> Attempt, row: Row)
    requires n < |missing| && row == Scored(missing[n], attempts(n))
    ensures before + ScoredAll(missing[..n + 1], attempts) == (before + ScoredAll(missing[..n], attempts)) + [row]
  {
    assert missing[..n + 1] == missing[..n] + [missing[n]];
    ScoredOneMore(missing[..n], missing[n], attempts);
  }

  function Cap(n: nat, most: nat): nat {
    if n < most then n else most
  }

  /** A pass that is interrupted after `stop` appends, or ends before. */
  datatype Pass = Pass(attempts: nat -> Attempt, stop: nat)

  function After(work: seq<Item>, rows: seq<Row>, pass: Pass): seq<Row> {
    var missing := Missing(work, SetOf(Ids(rows)));
    rows + ScoredAll(missing[..Cap(pass.stop, |missing|)], pass.attempts)
  }

  /** The artifact on disk. */
  class Log {
    var rows: seq<Row>

    constructor ()
      ensures rows == []
    {
      rows := [];
    }

    method LoadDone() returns (done: set<string>)
      ensures done == SetOf(Ids(rows))
    {
      done := {};
      for i := 0 to |rows|
        invariant done == SetOf(Ids(rows[..i]))
      {
        assert rows[..i + 1] == rows[..i] + [rows[i]];
        assert Ids(rows[..i + 1]) == Ids(rows[..i]) + [rows[i].id];
        done := done + {rows[i].id};
      }
      assert rows[..|rows|] == rows;
    }

    method Append(row: Row)
      modifies this
      ensures rows == old(rows) + [row]
    {
      rows := rows + [row];
    }

    /** One pass over the work. It appends a row per question that was not there
        when it began, until it is interrupted. */
    method Run(work: seq<Item>, pass: Pass) returns (attempted: nat)
      modifies this
      ensures rows == After(work, old(rows), pass)
      ensures attempted == |rows| - |old(rows)|
    {
      var done := LoadDone();
      attempted := 0;
      ghost var before, missing := rows, Missing(work, done);
      assert work[0..] == work;
      assert missing[..0] == [];
      var i := 0;
      while i < |work| && attempted < pass.stop
        invariant 0 <= i <= |work| && attempted <= |missing| && attempted <= pass.stop
        invariant Missing(work[i..], done) == missing[attempted..]
        invariant rows == before + ScoredAll(missing[..attempted], pass.attempts)
      {
        var item := work[i];
        MissingStep(work, i, done, missing, attempted);
        if item.id !in done {
          var row := Scored(item, pass.attempts(attempted));
          RowsStep(before, missing, attempted, pass.attempts, row);
          Append(row);
          attempted := attempted + 1;
        }
        i := i + 1;
      }
    }
  }

  // ----- any number of passes -----

  /** What the journal still lacks. */
  function Pending(work: seq<Item>, rows: seq<Row>): seq<Item> {
    Missing(work, SetOf(Ids(rows)))
  }

  function AfterAll(work: seq<Item>, rows: seq<Row>, passes: seq<Pass>): seq<Row>
    decreases |passes|
  {
    if passes == [] then rows else AfterAll(work, After(work, rows, passes[0]), passes[1..])
  }

  ghost predicate IsFull(pass: Pass, work: seq<Item>) {
    |work| <= pass.stop
  }

  lemma {:induction false} MissingAre(items: seq<Item>, done: set<string>)
    ensures |Missing(items, done)| <= |items|
    ensures forall x :: x in Missing(items, done) <==> x in items && x.id !in done
    ensures DistinctNames(items) ==> DistinctNames(Missing(items, done))
  {
    if items != [] {
      MissingAre(items[1..], done);
      assert items == [items[0]] + items[1..];
    }
  }

  lemma {:induction false} MissingTwice(items: seq<Item>, a: set<string>, b: set<string>)
    ensures Missing(items, a + b) == Missing(Missing(items, a), b)
  {
    if items != [] {
      MissingTwice(items[1..], a, b);
      if items[0].id !in a {
        assert Missing(items, a) == [items[0]] + Missing(items[1..], a);
        assert Missing(items, a)[1..] == Missing(items[1..], a);
      }
      assert items[0].id in a + b <==> items[0].id in a || items[0].id in b;
    }
  }

  lemma {:induction false} MissingAppend(x: seq<Item>, y: seq<Item>, done: set<string>)
    ensures Missing(x + y, done) == Missing(x, done) + Missing(y, done)
  {
    if x == [] {
      assert x + y == y;
    } else {
      assert (x + y)[1..] == x[1..] + y;
      MissingAppend(x[1..], y, done);
    }
  }

  lemma {:induction false} MissingAll(items: seq<Item>, done: set<string>)
    requires forall x :: x in items ==> x.id in done
    ensures Missing(items, done) == []
  {
    if items != [] {
      assert items == [items[0]] + items[1..];
      MissingAll(items[1..], done);
    }
  }

  lemma {:induction false} MissingNone(items: seq<Item>, done: set<string>)
    requires forall x :: x in items ==> x.id !in done
    ensures Missing(items, done) == items
  {
    if items != [] {
      assert items == [items[0]] + items[1..];
      MissingNone(items[1..], done);
    }
  }

  lemma IdsAppend(a: seq<Row>, b: seq<Row>)
    ensures Ids(a + b) == Ids(a) + Ids(b)
  {
  }

  lemma IdsOfScored(items: seq<Item>, attempts: nat -> Attempt)
    ensures Ids(ScoredAll(items, attempts)) == Names(items)
  {
    forall i | 0 <= i < |items|
      ensures ScoredAll(items, attempts)[i].id == items[i].id
    {
      ScoredAt(items, attempts, i);
    }
  }

  lemma IdsAfter(work: seq<Item>, rows: seq<Row>, pass: Pass)
    ensures var missing := Pending(work, rows);
            Ids(After(work, rows, pass)) == Ids(rows) + Names(missing[..Cap(pass.stop, |missing|)])
  {
    var missing := Pending(work, rows);
    var added := missing[..Cap(pass.stop, |missing|)];
    IdsAppend(rows, ScoredAll(added, pass.attempts));
    IdsOfScored(added, pass.attempts);
  }

  /** After a pass that appended the first `n` missing units, what is missing is
      what follows them, less any unit that bears one of their names. */
  lemma PendingAfter(work: seq<Item>, rows: seq<Row>, pass: Pass)
    ensures var missing := Pending(work, rows);
            var n := Cap(pass.stop, |missing|);
            Pending(work, After(work, rows, pass)) == Missing(missing[n..], SetOf(Names(missing[..n])))
  {
    var missing := Pending(work, rows);
    var n := Cap(pass.stop, |missing|);
    var added := SetOf(Names(missing[..n]));
    IdsAfter(work, rows, pass);
    assert SetOf(Ids(After(work, rows, pass))) == SetOf(Ids(rows)) + added;
    MissingTwice(work, SetOf(Ids(rows)), added);
    MissingAppend(missing[..n], missing[n..], added);
    assert missing == missing[..n] + missing[n..];
    forall x | x in missing[..n]
      ensures x.id in added
    {
      var i :| 0 <= i < n && missing[i] == x;
      assert Names(missing[..n])[i] == x.id;
    }
    MissingAll(missing[..n], added);
  }

  lemma PendingIsRest(work: seq<Item>, rows: seq<Row>, pass: Pass)
    requires DistinctNames(Pending(work, rows))
    ensures var missing := Pending(work, rows);
            Pending(work, After(work, rows, pass)) == missing[Cap(pass.stop, |missing|)..]
  {
    PendingAfter(work, rows, pass);
    RestIsMissing(Pending(work, rows), Cap(pass.stop, |Pending(work, rows)|));
  }

  lemma SplitNames(missing: seq<Item>, n: nat)
    requires n <= |missing|
    ensures Names(missing[..n]) + Names(missing[n..]) == Names(missing)
  {
  }

  /** A pass only moves names from the pending list to the journal. */
  lemma PassMovesNames(work: seq<Item>, rows: seq<Row>, pass: Pass)
    requires DistinctNames(Pending(work, rows))
    ensures Ids(After(work, rows, pass)) + Names(Pending(work, After(work, rows, pass)))
         == Ids(rows) + Names(Pending(work, rows))
  {
    var missing := Pending(work, rows);
    var n := Cap(pass.stop, |missing|);
    PendingIsRest(work, rows, pass);
    IdsAfter(work, rows, pass);
    SplitNames(missing, n);
    Associative(Ids(rows), Names(missing[..n]), Names(missing[n..]));
  }

  lemma PassKeepsDistinct(work: seq<Item>, rows: seq<Row>, pass: Pass)
    requires DistinctNames(Pending(work, rows))
    ensures DistinctNames(Pending(work, After(work, rows, pass)))
    ensures IsFull(pass, work) ==> Pending(work, After(work, rows, pass)) == []
  {
    PendingIsRest(work, rows, pass);
    MissingAre(work, SetOf(Ids(rows)));
  }

  lemma RestIsMissing(missing: seq<Item>, n: nat)
    requires DistinctNames(missing) && n <= |missing|
    ensures Missing(missing[n..], SetOf(Names(missing[..n]))) == missing[n..]
  {
    MissingNone(missing[n..], SetOf(Names(missing[..n])));
  }

  /** Main result: with distinct names, any series of interrupted passes followed
      by a full one leaves the journal that a single full pass would have left:
      the same ids in the same order. */
  lemma {:induction false} InterruptionsDoNotMatter(work: seq<Item>, rows: seq<Row>, passes: seq<Pass>, last: Pass)
    requires DistinctNames(Pending(work, rows)) && IsFull(last, work)
    ensures Ids(After(work, AfterAll(work, rows, passes), last)) == Ids(rows) + Names(Pending(work, rows))
    ensures Pending(work, After(work, AfterAll(work, rows, passes), last)) == []
    decreases |passes|
  {
    if passes == [] {
      PassMovesNames(work, rows, last);
      PassKeepsDistinct(work, rows, last);
    } else {
      PassMovesNames(work, rows, passes[0]);
      PassKeepsDistinct(work, rows, passes[0]);
      InterruptionsDoNotMatter(work, After(work, rows, passes[0]), passes[1..], last);
    }
  }

  /** From an empty journal: exactly one row per unit of work, killed units included. */
  lemma ExactlyOnce(work: seq<Item>, passes: seq<Pass>, last: Pass)
    requires DistinctNames(work) && IsFull(last, work)
    ensures Ids(After(work, AfterAll(work, [], passes), last)) == Names(work)
  {
    MissingNone(work, SetOf(Ids([])));
    InterruptionsDoNotMatter(work, [], passes, last);
  }

  lemma FullPass(work: seq<Item>, rows: seq<Row>, last: Pass)
    requires IsFull(last, work)
    ensures Ids(After(work, rows, last)) == Ids(rows) + Names(Pending(work, rows))
  {
    var missing := Pending(work, rows);
    IdsAfter(work, rows, last);
    MissingAre(work, SetOf(Ids(rows)));
    assert missing[..Cap(last.stop, |missing|)] == missing;
  }

  /** Without distinct names an interruption loses a row, so the condition is exact. */
  lemma RepeatedNameLosesARow(work: seq<Item>, rows: seq<Row>, attempts: nat -> Attempt, last: Pass)
    returns (pass: Pass)
    requires !DistinctNames(Pending(work, rows)) && IsFull(last, work)
    ensures |Ids(After(work, AfterAll(work, rows, [pass]), last))| < |Ids(After(work, rows, last))|
  {
    var missing := Pending(work, rows);
    var i, j :| 0 <= i < j < |missing| && missing[i].id == missing[j].id;
    pass := Pass(attempts, i + 1);
    var middle := After(work, rows, pass);
    assert [pass][1..] == [];
    assert AfterAll(work, rows, [pass]) == middle;
    FullPass(work, rows, last);
    FullPass(work, middle, last);
    PassLosesName(work, rows, pass, i, j);
  }

  lemma PassLosesName(work: seq<Item>, rows: seq<Row>, pass: Pass, i: nat, j: nat)
    requires var missing := Pending(work, rows);
             i < j < |missing| && missing[i].id == missing[j].id && pass.stop == i + 1
    ensures |After(work, rows, pass)| + |Pending(work, After(work, rows, pass))| < |rows| + |Pending(work, rows)|
  {
    var missing := Pending(work, rows);
    var added := SetOf(Names(missing[..i + 1]));
    PendingAfter(work, rows, pass);
    assert Names(missing[..i + 1])[i] == missing[i].id;
    MissingDrops(missing[i + 1..], j - i - 1, added);
  }

  lemma {:induction false} MissingDrops(items: seq<Item>, j: nat, done: set<string>)
    requires j < |items| && items[j].id in done
    ensures |Missing(items, done)| < |items|
  {
    if j == 0 {
      MissingAre(items[1..], done);
    } else {
      MissingDrops(items[1..], j - 1, done);
    }
  }

  /** Any interruptions before the full pass leave the ids that it alone would have left. */
  ghost predicate Transparent(work: seq<Item>, rows: seq<Row>, last: Pass) {
    forall passes: seq<Pass> ::
      Ids(After(work, AfterAll(work, rows, passes), last)) == Ids(After(work, rows, last))
  }

  /** Resuming is transparent exactly when no two pending units share a name. */
  lemma ResumptionIsTransparentIff(work: seq<Item>, rows: seq<Row>, last: Pass)
    requires IsFull(last, work)
    ensures Transparent(work, rows, last) <==> DistinctNames(Pending(work, rows))
  {
    FullPass(work, rows, last);
    if DistinctNames(Pending(work, rows)) {
      forall passes: seq<Pass>
        ensures Ids(After(work, AfterAll(work, rows, passes), last)) == Ids(After(work, rows, last))
      {
        InterruptionsDoNotMatter(work, rows, passes, last);
      }
    } else {
      var pass := RepeatedNameLosesARow(work, rows, last.attempts, last);
      assert Ids(After(work, AfterAll(work, rows, [pass]), last)) != Ids(After(work, rows, last));
    }
  }

  // ----- the rows of a pass -----

  /** Row `r` reports attempt `a` on the item. */
  ghost predicate Reports(r: Row, item: Item, a: Attempt) {
    && r.id == item.id && r.gold == item.question.gold && r.status == a.status && r.elapsed == a.elapsed
    && (if a.status == OK && a.value.Some? then
          && r.retrieved == a.value.value.retrieved && r.latency == a.value.value.latency
          && r.pipeline == Probe(a.value.value.probe)
        else
          && r.retrieved == [] && r.latency == 1000.0 * a.elapsed
          && r.pipeline.Note? && r.pipeline.status == a.status && r.pipeline.error <= a.error
          && (|a.error| <= 400 ==> r.pipeline.error == a.error)
          && (|a.error| > 400 ==> |r.pipeline.error| == 400))
  }

  /** Main result: a pass leaves the rows that were there, and its `n`-th new row
      reports the `n`-th attempt on the `n`-th pending unit: the served ranking
      with its latency when the unit finished, an empty miss when it did not. */
  lemma NewRowsReportAttempts(work: seq<Item>, rows: seq<Row>, pass: Pass, n: nat)
    requires n < Cap(pass.stop, |Pending(work, rows)|)
    ensures rows <= After(work, rows, pass) && |rows| + n < |After(work, rows, pass)|
    ensures Reports(After(work, rows, pass)[|rows| + n], Pending(work, rows)[n], pass.attempts(n))
  {
    ScoredAt(Pending(work, rows)[..Cap(pass.stop, |Pending(work, rows)|)], pass.attempts, n);
  }

  // ----- killed units -----

  ghost predicate MissesAreEmpty(rows: seq<Row>) {
    forall r :: r in rows && r.status != OK ==> r.retrieved == []
  }

  /** A unit that did not finish stays in the journal as a miss, through any passes. */
  lemma {:induction false} KilledUnitsAreMisses(work: seq<Item>, rows: seq<Row>, passes: seq<Pass>)
    requires MissesAreEmpty(rows)
    ensures rows <= AfterAll(work, rows, passes) && MissesAreEmpty(AfterAll(work, rows, passes))
    decreases |passes|
  {
    if passes != [] {
      var missing, pass := Pending(work, rows), passes[0];
      var taken := missing[..Cap(pass.stop, |missing|)];
      forall r | r in ScoredAll(taken, pass.attempts) && r.status != OK
        ensures r.retrieved == []
      {
        var i :| 0 <= i < |taken| && ScoredAll(taken, pass.attempts)[i] == r;
        ScoredAt(taken, pass.attempts, i);
      }
      KilledUnitsAreMisses(work, After(work, rows, pass), passes[1..]);
    }
  }
}
