/** The greedy clustering sweeps of the recompaction benchmark: anchors in id
    order, each free anchor taking free neighbours, clusters that stay too small
    being dropped.
 */
module Clusters {
  import opened Sorting

  type Id = string
  type Token = string

  /** A row of the `blocks` table; no tokens when its blob is unusable. */
  datatype Row = Row(id: Id, tokens: set<Token>)

  // ----- the sweep, whatever picks the members -----

  function Assigned(clusters: seq<seq<Id>>): set<Id> {
    set i, j | 0 <= i < |clusters| && 0 <= j < |clusters[i]| :: clusters[i][j]
  }

  lemma AssignedAppend(clusters: seq<seq<Id>>, c: seq<Id>)
    ensures Assigned(clusters + [c]) == Assigned(clusters) + set x | x in c
  {
    var all := clusters + [c];
    forall x | x in Assigned(clusters)
      ensures x in Assigned(all)
    {
      var i, j :| 0 <= i < |clusters| && 0 <= j < |clusters[i]| && clusters[i][j] == x;
      assert all[i][j] == x;
    }
    forall x | x in c
      ensures x in Assigned(all)
    {
      var j :| 0 <= j < |c| && c[j] == x;
      assert all[|clusters|][j] == x;
    }
  }

  /** The members an anchor would take, given the ids already assigned. */
  type Pick = (Id, set<Id>) -> seq<Id>

  function Sweep(todo: seq<Id>, done: seq<seq<Id>>, pick: Pick, minSize: int): seq<seq<Id>> {
    if todo == [] then done
    else if todo[0] in Assigned(done) then Sweep(todo[1..], done, pick, minSize)
    else
      var c := pick(todo[0], Assigned(done));
      Sweep(todo[1..], if |c| >= minSize then done + [c] else done, pick, minSize)
  }

  lemma SweepStep(todo: seq<Id>, done: seq<seq<Id>>, pick: Pick, minSize: int, i: nat)
    requires i < |todo|
    ensures var a := todo[i];
            var c := pick(a, Assigned(done));
            Sweep(todo[i..], done, pick, minSize) ==
            Sweep(todo[i + 1..], if a in Assigned(done) || |c| < minSize then done else done + [c], pick, minSize)
  {
    assert todo[i..][0] == todo[i] && todo[i..][1..] == todo[i + 1..];
  }

  /** Every cluster is legal with respect to the ids assigned before it, and large enough. */
  ghost predicate AllLegal(clusters: seq<seq<Id>>, legal: (seq<Id>, set<Id>) -> bool, minSize: int) {
    forall i | 0 <= i < |clusters| :: legal(clusters[i], Assigned(clusters[..i])) && |clusters[i]| >= minSize
  }

  lemma {:induction false} SweepKeeps(todo: seq<Id>, done: seq<seq<Id>>, pick: Pick, minSize: int)
    ensures done <= Sweep(todo, done, pick, minSize)
    decreases |todo|
  {
    if todo != [] {
      if todo[0] in Assigned(done) {
        SweepKeeps(todo[1..], done, pick, minSize);
      } else {
        var c := pick(todo[0], Assigned(done));
        SweepKeeps(todo[1..], if |c| >= minSize then done + [c] else done, pick, minSize);
      }
    }
  }

  lemma {:induction false} SweepLegal(todo: seq<Id>, done: seq<seq<Id>>, pick: Pick, minSize: int,
                                      legal: (seq<Id>, set<Id>) -> bool)
    requires AllLegal(done, legal, minSize)
    requires forall a, s :: a in todo && a !in s ==> legal(pick(a, s), s)
    ensures AllLegal(Sweep(todo, done, pick, minSize), legal, minSize)
    decreases |todo|
  {
    if todo != [] {
      assert forall a :: a in todo[1..] ==> a in todo;
      if todo[0] in Assigned(done) {
        SweepLegal(todo[1..], done, pick, minSize, legal);
      } else {
        var c := pick(todo[0], Assigned(done));
        var next := if |c| >= minSize then done + [c] else done;
        assert (done + [c])[..|done|] == done;
        assert forall i | 0 <= i < |done| :: (done + [c])[..i] == done[..i];
        SweepLegal(todo[1..], next, pick, minSize, legal);
      }
    }
  }

  lemma {:induction false} AssignedMonotone(a: seq<seq<Id>>, b: seq<seq<Id>>)
    requires a <= b
    ensures Assigned(a) <= Assigned(b)
  {
    forall x | x in Assigned(a)
      ensures x in Assigned(b)
    {
      var i, j :| 0 <= i < |a| && 0 <= j < |a[i]| && a[i][j] == x;
      assert b[i][j] == x;
    }
  }

  ghost predicate LegalPick(c: seq<Id>, taken: set<Id>) {
    c != [] && Distinct(c) && forall x :: x in c ==> x !in taken
  }

  /** No id stands twice, in one cluster or in two. */
  ghost predicate PairwiseDisjoint(clusters: seq<seq<Id>>) {
    && (forall i | 0 <= i < |clusters| :: Distinct(clusters[i]))
    && (forall i, j, x | 0 <= i < j < |clusters| && x in clusters[i] :: x !in clusters[j])
  }

  lemma LegalIsDisjoint(clusters: seq<seq<Id>>, legal: (seq<Id>, set<Id>) -> bool, minSize: int)
    requires AllLegal(clusters, legal, minSize)
    requires forall c, s :: legal(c, s) ==> LegalPick(c, s)
    ensures PairwiseDisjoint(clusters)
  {
    forall i, j, x | 0 <= i < j < |clusters| && x in clusters[i]
      ensures x !in clusters[j]
    {
      assert legal(clusters[j], Assigned(clusters[..j]));
      var y :| 0 <= y < |clusters[i]| && clusters[i][y] == x;
      assert clusters[..j][i][y] == x;
    }
    forall i | 0 <= i < |clusters|
      ensures Distinct(clusters[i])
    {
      assert legal(clusters[i], Assigned(clusters[..i]));
    }
  }

  /** An anchor left over at the end had too few candidates when its turn came,
      with no more ids assigned than at the end. */
  lemma {:induction false} LeftoverWasSmall(todo: seq<Id>, done: seq<seq<Id>>, pick: Pick, minSize: int, b: Id)
    returns (taken: set<Id>)
    requires b in todo && b !in Assigned(Sweep(todo, done, pick, minSize))
    requires forall a, s :: a !in s ==> a in pick(a, s)
    ensures taken <= Assigned(Sweep(todo, done, pick, minSize))
    ensures b !in taken && |pick(b, taken)| < minSize
    decreases |todo|
  {
    var a, result := todo[0], Sweep(todo, done, pick, minSize);
    SweepKeeps(todo, done, pick, minSize);
    AssignedMonotone(done, result);
    if a in Assigned(done) {
      taken := LeftoverWasSmall(todo[1..], done, pick, minSize, b);
    } else {
      var c := pick(a, Assigned(done));
      var next := if |c| >= minSize then done + [c] else done;
      SweepKeeps(todo[1..], next, pick, minSize);
      AssignedMonotone(next, result);
      if a == b {
        AssignedAppend(done, c);
        taken := Assigned(done);
      } else {
        taken := LeftoverWasSmall(todo[1..], next, pick, minSize, b);
      }
    }
  }

  // ----- lexical overlap -----

  /** Jaccard similarity. */
  function Overlap(a: set<Token>, b: set<Token>): real {
    if a + b == {} then 0.0 else |a * b| as real / |a + b| as real
  }

  lemma OverlapPositive(a: set<Token>, b: set<Token>)
    ensures Overlap(a, b) > 0.0 <==> a * b != {}
  {
    if a * b != {} {
      var x :| x in a * b;
      assert x in a + b;
      assert |a * b| > 0 && |a + b| > 0;
    }
  }

  datatype Scored = Scored(score: real, id: Id)

  /** The sort key: best score first, then the smaller id. */
  predicate Before(x: Scored, y: Scored) {
    x.score > y.score || (x.score == y.score && StringLe(x.id, y.id))
  }

  lemma BeforeOrder()
    ensures TotalPreorder(Before) && AntiSymmetric(Before)
  {
    StringOrder();
  }

  /** The blocks that have tokens, in id order. */
  datatype Corpus = Corpus(ids: seq<Id>, tokens: map<Id, set<Token>>) {
    ghost predicate Valid() {
      && Distinct(ids)
      && (forall x :: x in ids ==> x in tokens)
    }

    function Score(a: Id, x: Id): real
      requires a in tokens && x in tokens
    {
      Overlap(tokens[a], tokens[x])
    }
  }

  /** The free blocks among `pool` that overlap with the anchor. */
  function Candidates(corpus: Corpus, pool: seq<Id>, anchor: Id, taken: set<Id>): (r: seq<Scored>)
    requires anchor in corpus.tokens && forall x :: x in pool ==> x in corpus.tokens
  {
    if pool == [] then []
    else
      var n := |pool| - 1;
      var x := pool[n];
      Candidates(corpus, pool[..n], anchor, taken) +
      if x != anchor && x !in taken && corpus.Score(anchor, x) > 0.0
      then [Scored(corpus.Score(anchor, x), x)] else []
  }

  function FirstIds(ranked: seq<Scored>, k: nat): (r: seq<Id>)
    ensures |r| == if k < |ranked| then k else |ranked|
    ensures forall j :: 0 <= j < |r| ==> r[j] == ranked[j].id
  {
    seq(if k < |ranked| then k else |ranked|, j requires 0 <= j < |ranked| => ranked[j].id)
  }

  /** The anchor and its `k` best candidates. */
  function Members(corpus: Corpus, anchor: Id, taken: set<Id>, k: nat): seq<Id>
    requires anchor in corpus.tokens && forall x :: x in corpus.ids ==> x in corpus.tokens
  {
    [anchor] + FirstIds(Sort(Candidates(corpus, corpus.ids, anchor, taken), Before), k)
  }

  function LexicalPick(corpus: Corpus, k: nat): Pick
    requires corpus.Valid()
  {
    (a, taken) => if a in corpus.tokens then Members(corpus, a, taken, k) else [a]
  }

  function LexicalClusters(corpus: Corpus, k: nat, minSize: int): seq<seq<Id>>
    requires corpus.Valid()
  {
    Sweep(corpus.ids, [], LexicalPick(corpus, k), minSize)
  }

  method ScoreCandidates(corpus: Corpus, anchor: Id, taken: set<Id>) returns (scored: seq<Scored>)
    requires corpus.Valid() && anchor in corpus.ids
    ensures scored == Candidates(corpus, corpus.ids, anchor, taken)
  {
    scored := [];
    var ids := corpus.ids;
    for j := 0 to |ids|
      invariant scored == Candidates(corpus, ids[..j], anchor, taken)
    {
      var other := ids[j];
      assert ids[..j + 1][..j] == ids[..j];
      if other != anchor && other !in taken {
        var jaccard := Overlap(corpus.tokens[anchor], corpus.tokens[other]);
        if jaccard > 0.0 {
          scored := scored + [Scored(jaccard, other)];
        }
      }
    }
    assert ids[..|ids|] == ids;
  }

  /** The anchor with its best free neighbours: one turn of the sweep. */
  method GatherMembers(corpus: Corpus, anchor: Id, taken: set<Id>, k: nat) returns (members: seq<Id>)
    requires corpus.Valid() && anchor in corpus.ids
    ensures members == LexicalPick(corpus, k)(anchor, taken)
  {
    var scored := ScoreCandidates(corpus, anchor, taken);
    members := [anchor] + FirstIds(Sort(scored, Before), k);
  }

  method ClusterByOverlap(corpus: Corpus, k: nat, minSize: int) returns (clusters: seq<seq<Id>>)
    requires corpus.Valid()
    ensures clusters == LexicalClusters(corpus, k, minSize)
  {
    var taken: set<Id> := {};
    clusters := [];
    var ids := corpus.ids;
    ghost var pick := LexicalPick(corpus, k);
    assert ids[0..] == ids;
    for i := 0 to |ids|
      invariant taken == Assigned(clusters)
      invariant Sweep(ids[i..], clusters, pick, minSize) == LexicalClusters(corpus, k, minSize)
    {
      var anchor := ids[i];
      SweepStep(ids, clusters, pick, minSize, i);
      if anchor in taken {
        continue;
      }
      var members := GatherMembers(corpus, anchor, taken, k);
      if |members| >= minSize {
        AssignedAppend(clusters, members);
        clusters := clusters + [members];
        taken := taken + set x | x in members;
      }
    }
  }

  // ----- what a lexical cluster is -----

  /** Free of the ids assigned so far, of size at most `k + 1`, made of an
      anchor and blocks overlapping with it, best first; no free overlapping
      block that was left out comes before a chosen one, and none is left out
      while there is room. */
  ghost predicate BestFree(corpus: Corpus, k: nat, c: seq<Id>, taken: set<Id>) {
    && LegalPick(c, taken)
    && |c| <= k + 1
    && (forall x :: x in c ==> x in corpus.tokens)
    && (forall j | 1 <= j < |c| :: corpus.Score(c[0], c[j]) > 0.0)
    && (forall i, j | 1 <= i < j < |c| ::
          Before(Scored(corpus.Score(c[0], c[i]), c[i]), Scored(corpus.Score(c[0], c[j]), c[j])))
    && (forall x | x in corpus.ids && x in corpus.tokens && x !in taken && x !in c && corpus.Score(c[0], x) > 0.0 ::
          |c| == k + 1
          && forall j | 1 <= j < |c| :: Before(Entry(corpus, c[0], c[j]), Entry(corpus, c[0], x)))
  }

  ghost predicate IsCandidate(corpus: Corpus, pool: seq<Id>, anchor: Id, taken: set<Id>, s: Scored)
    requires anchor in corpus.tokens
  {
    && s.id in pool && s.id in corpus.tokens && s.id != anchor && s.id !in taken
    && s.score == corpus.Score(anchor, s.id) > 0.0
  }

  lemma {:induction false} CandidatesAre(corpus: Corpus, pool: seq<Id>, anchor: Id, taken: set<Id>)
    requires anchor in corpus.tokens && forall x :: x in pool ==> x in corpus.tokens
    requires Distinct(pool)
    ensures var r := Candidates(corpus, pool, anchor, taken);
            && (forall s :: s in r <==> IsCandidate(corpus, pool, anchor, taken, s))
            && Distinct(r)
  {
    if pool != [] {
      var n := |pool| - 1;
      CandidatesAre(corpus, pool[..n], anchor, taken);
      assert pool == pool[..n] + [pool[n]] && pool[n] !in pool[..n];
      assert forall s :: s in Candidates(corpus, pool[..n], anchor, taken) ==> s.id in pool[..n];
    }
  }

  function Ranked(corpus: Corpus, anchor: Id, taken: set<Id>): seq<Scored>
    requires anchor in corpus.tokens && forall x :: x in corpus.ids ==> x in corpus.tokens
  {
    Sort(Candidates(corpus, corpus.ids, anchor, taken), Before)
  }

  /** The score an id would get as a candidate of the anchor. */
  function Entry(corpus: Corpus, anchor: Id, x: Id): Scored
    requires anchor in corpus.tokens && x in corpus.tokens
  {
    Scored(corpus.Score(anchor, x), x)
  }

  lemma RankedAre(corpus: Corpus, anchor: Id, taken: set<Id>)
    requires corpus.Valid() && anchor in corpus.tokens
    ensures var ranked := Ranked(corpus, anchor, taken);
            && Sorted(ranked, Before)
            && (forall s :: s in ranked <==> IsCandidate(corpus, corpus.ids, anchor, taken, s))
            && (forall i, j | 0 <= i < j < |ranked| :: ranked[i].id != ranked[j].id)
  {
    var found, ranked := Candidates(corpus, corpus.ids, anchor, taken), Ranked(corpus, anchor, taken);
    CandidatesAre(corpus, corpus.ids, anchor, taken);
    BeforeOrder();
    SortSorted(found, Before);
    SameElements(found, ranked);
    DistinctPermutation(found, ranked);
    forall i, j | 0 <= i < j < |ranked|
      ensures ranked[i].id != ranked[j].id
    {
      assert ranked[i] in ranked && ranked[j] in ranked && ranked[i] != ranked[j];
    }
  }

  lemma MemberEntry(corpus: Corpus, anchor: Id, taken: set<Id>, k: nat, j: nat)
    requires corpus.Valid() && anchor in corpus.tokens && 1 <= j < |Members(corpus, anchor, taken, k)|
    ensures var x := Members(corpus, anchor, taken, k)[j];
            && x in corpus.ids && x != anchor && x !in taken && corpus.Score(anchor, x) > 0.0
            && j - 1 < |Ranked(corpus, anchor, taken)|
            && Ranked(corpus, anchor, taken)[j - 1] == Entry(corpus, anchor, x)
  {
    RankedAre(corpus, anchor, taken);
    assert Ranked(corpus, anchor, taken)[j - 1] in Ranked(corpus, anchor, taken);
  }

  lemma MembersAreRanked(corpus: Corpus, anchor: Id, taken: set<Id>, k: nat)
    requires corpus.Valid() && anchor in corpus.tokens && anchor !in taken
    ensures var c := Members(corpus, anchor, taken, k);
            && LegalPick(c, taken)
            && (forall x :: x in c ==> x in corpus.tokens)
            && (forall j | 1 <= j < |c| :: corpus.Score(anchor, c[j]) > 0.0)
            && (forall i, j | 1 <= i < j < |c| :: Before(Entry(corpus, anchor, c[i]), Entry(corpus, anchor, c[j])))
  {
    var ranked, c := Ranked(corpus, anchor, taken), Members(corpus, anchor, taken, k);
    RankedAre(corpus, anchor, taken);
    forall j | 1 <= j < |c|
      ensures c[j] in corpus.ids && c[j] != anchor && c[j] !in taken && corpus.Score(anchor, c[j]) > 0.0
      ensures ranked[j - 1] == Entry(corpus, anchor, c[j])
    {
      MemberEntry(corpus, anchor, taken, k, j);
    }
    forall i, j | 1 <= i < j < |c|
      ensures c[i] != c[j] && Before(Entry(corpus, anchor, c[i]), Entry(corpus, anchor, c[j]))
    {
      assert ranked[i - 1].id != ranked[j - 1].id && Before(ranked[i - 1], ranked[j - 1]);
    }
  }

  lemma MembersAreBest(corpus: Corpus, anchor: Id, taken: set<Id>, k: nat)
    requires corpus.Valid() && anchor in corpus.tokens && anchor !in taken
    ensures BestFree(corpus, k, Members(corpus, anchor, taken, k), taken)
  {
    var c := Members(corpus, anchor, taken, k);
    MembersAreRanked(corpus, anchor, taken, k);
    forall x | x in corpus.ids && x !in taken && x !in c && corpus.Score(anchor, x) > 0.0
      ensures |c| == k + 1
      ensures forall j | 1 <= j < |c| :: Before(Entry(corpus, anchor, c[j]), Entry(corpus, anchor, x))
    {
      LeftOutComesAfter(corpus, anchor, taken, k, x);
      forall j | 1 <= j < |c|
        ensures Before(Entry(corpus, anchor, c[j]), Entry(corpus, anchor, x))
      {
        MemberEntry(corpus, anchor, taken, k, j);
        assert Before(Ranked(corpus, anchor, taken)[j - 1], Entry(corpus, anchor, x));
      }
    }
  }

  lemma LeftOutComesAfter(corpus: Corpus, anchor: Id, taken: set<Id>, k: nat, x: Id)
    requires corpus.Valid() && anchor in corpus.tokens
    requires x in corpus.ids && x !in taken && x !in Members(corpus, anchor, taken, k)
    requires corpus.Score(anchor, x) > 0.0
    ensures var ranked := Ranked(corpus, anchor, taken);
            k < |ranked| && forall q | 0 <= q < k :: Before(ranked[q], Entry(corpus, anchor, x))
  {
    var ranked, c := Ranked(corpus, anchor, taken), Members(corpus, anchor, taken, k);
    var s := Entry(corpus, anchor, x);
    assert x != c[0];
    RankedAre(corpus, anchor, taken);
    assert IsCandidate(corpus, corpus.ids, anchor, taken, s);
    var p :| 0 <= p < |ranked| && ranked[p] == s;
    forall q | 0 <= q < |c| - 1
      ensures ranked[q].id != x
    {
      assert c[q + 1] in c;
    }
  }

  /** Main result: every lexical cluster is the best choice that was free when
      it was made, has at least `minSize` and at most `k + 1` members, and no
      block is in two of them. */
  lemma {:induction false} LexicalClustersAreBest(corpus: Corpus, k: nat, minSize: int)
    requires corpus.Valid()
    ensures AllLegal(LexicalClusters(corpus, k, minSize), (c, s) => BestFree(corpus, k, c, s), minSize)
    ensures PairwiseDisjoint(LexicalClusters(corpus, k, minSize))
  {
    var legal := (c, s) => BestFree(corpus, k, c, s);
    var pick := LexicalPick(corpus, k);
    forall a, s | a in corpus.ids && a !in s
      ensures legal(pick(a, s), s)
    {
      MembersAreBest(corpus, a, s, k);
    }
    SweepLegal(corpus.ids, [], pick, minSize, legal);
    LegalIsDisjoint(LexicalClusters(corpus, k, minSize), legal, minSize);
  }

  // ----- the same on token sets -----

  /** Of the overlapping blocks `c` and `x`, `c` shares the larger part of the
      tokens with `a`, or the same part and has the smaller id. */
  ghost predicate ComesFirst(tokens: map<Id, set<Token>>, a: Id, c: Id, x: Id)
    requires a in tokens && c in tokens && x in tokens
  {
    var of_c := |tokens[a] * tokens[c]| * |tokens[a] + tokens[x]|;
    var of_x := |tokens[a] * tokens[x]| * |tokens[a] + tokens[c]|;
    of_c > of_x || (of_c == of_x && c != x && StringLe(c, x))
  }

  lemma CompareFractions(p: nat, q: nat, r: nat, s: nat)
    requires 0 < q && 0 < s
    ensures p as real / q as real > r as real / s as real <==> p * s > r * q
    ensures p as real / q as real == r as real / s as real <==> p * s == r * q
  {
    var x, y := p as real / q as real, r as real / s as real;
    assert x * q as real == p as real && y * s as real == r as real;
    ScaleBoth(x, y, q as real * s as real);
    assert x * (q as real * s as real) == (x * q as real) * s as real == (p * s) as real;
    assert y * (q as real * s as real) == (y * s as real) * q as real == (r * q) as real;
  }

  lemma ScaleBoth(x: real, y: real, f: real)
    requires f > 0.0
    ensures x > y <==> x * f > y * f
    ensures x == y <==> x * f == y * f
  {
  }

  lemma BeforeComesFirst(corpus: Corpus, a: Id, c: Id, x: Id)
    requires a in corpus.tokens && c in corpus.tokens && x in corpus.tokens && c != x
    requires corpus.tokens[a] != {} && Before(Entry(corpus, a, c), Entry(corpus, a, x))
    ensures ComesFirst(corpus.tokens, a, c, x)
  {
    var A, C, X := corpus.tokens[a], corpus.tokens[c], corpus.tokens[x];
    var y :| y in A;
    assert y in A + C && y in A + X;
    assert |A + C| > 0 && |A + X| > 0;
    CompareFractions(|A * C|, |A + C|, |A * X|, |A + X|);
  }

  /** What `c` is to the blocks that were free when it was made. */
  ghost predicate ClosestFree(corpus: Corpus, k: nat, c: seq<Id>, taken: set<Id>) {
    && c != [] && (forall x :: x in c ==> x in corpus.tokens)
    && (forall j | 1 <= j < |c| :: corpus.tokens[c[0]] * corpus.tokens[c[j]] != {})
    && (forall i, j | 1 <= i < j < |c| :: ComesFirst(corpus.tokens, c[0], c[i], c[j]))
    && (forall x | x in corpus.ids && x in corpus.tokens && x !in taken && x !in c
                   && corpus.tokens[c[0]] * corpus.tokens[x] != {} ::
          |c| == k + 1 && forall j | 1 <= j < |c| :: ComesFirst(corpus.tokens, c[0], c[j], x))
  }

  lemma BestIsClosest(corpus: Corpus, k: nat, c: seq<Id>, taken: set<Id>)
    requires BestFree(corpus, k, c, taken)
    ensures ClosestFree(corpus, k, c, taken)
  {
    var a := c[0];
    forall j | 1 <= j < |c|
      ensures corpus.tokens[a] * corpus.tokens[c[j]] != {}
    {
      OverlapPositive(corpus.tokens[a], corpus.tokens[c[j]]);
    }
    forall i, j | 1 <= i < j < |c|
      ensures ComesFirst(corpus.tokens, a, c[i], c[j])
    {
      OverlapPositive(corpus.tokens[a], corpus.tokens[c[i]]);
      BeforeComesFirst(corpus, a, c[i], c[j]);
    }
    forall x | x in corpus.ids && x in corpus.tokens && x !in taken && x !in c
               && corpus.tokens[a] * corpus.tokens[x] != {}
      ensures |c| == k + 1 && forall j | 1 <= j < |c| :: ComesFirst(corpus.tokens, a, c[j], x)
    {
      OverlapPositive(corpus.tokens[a], corpus.tokens[x]);
      forall j | 1 <= j < |c|
        ensures ComesFirst(corpus.tokens, a, c[j], x)
      {
        BeforeComesFirst(corpus, a, c[j], x);
      }
    }
  }

  /** Main result: every member shares at least as large a part of its tokens
      with the anchor as any overlapping block that was free and left out, and
      as any later member; ids break ties. */
  lemma LexicalClustersAreClosest(corpus: Corpus, k: nat, minSize: int, i: nat)
    requires corpus.Valid() && i < |LexicalClusters(corpus, k, minSize)|
    ensures var clusters := LexicalClusters(corpus, k, minSize);
            ClosestFree(corpus, k, clusters[i], Assigned(clusters[..i]))
  {
    LexicalClustersAreBest(corpus, k, minSize);
    var clusters := LexicalClusters(corpus, k, minSize);
    assert ((c, s) => BestFree(corpus, k, c, s))(clusters[i], Assigned(clusters[..i]));
    BestIsClosest(corpus, k, clusters[i], Assigned(clusters[..i]));
  }

  ghost predicate AnchorsInOrder(clusters: seq<seq<Id>>, from: nat) {
    && (forall i | from <= i < |clusters| :: clusters[i] != [])
    && (forall i, j | from <= i < j < |clusters| ::
          clusters[i][0] != clusters[j][0] && StringLe(clusters[i][0], clusters[j][0]))
  }

  lemma {:induction false} SweepAnchors(todo: seq<Id>, done: seq<seq<Id>>, pick: Pick, minSize: int)
    requires Distinct(todo) && Sorted(todo, StringLe)
    requires forall a, s :: pick(a, s) != [] && pick(a, s)[0] == a
    ensures AnchorsInOrder(Sweep(todo, done, pick, minSize), |done|)
    ensures forall i | |done| <= i < |Sweep(todo, done, pick, minSize)| :: Sweep(todo, done, pick, minSize)[i][0] in todo
    decreases |todo|
  {
    if todo != [] {
      var a, rest := todo[0], todo[1..];
      assert forall x :: x in rest ==> x in todo && x != a && StringLe(a, x);
      if a in Assigned(done) {
        SweepAnchors(rest, done, pick, minSize);
      } else {
        var c := pick(a, Assigned(done));
        var next := if |c| >= minSize then done + [c] else done;
        SweepAnchors(rest, next, pick, minSize);
        SweepKeeps(rest, next, pick, minSize);
        var all := Sweep(rest, next, pick, minSize);
        if |c| >= minSize {
          assert all[|done|] == next[|done|] == c;
        }
      }
    }
  }

  /** The clusters come in the order of their anchors' ids, however the rows were stored. */
  lemma ClustersInAnchorOrder(rows: seq<Row>, k: nat, minSize: int)
    requires DistinctIds(rows)
    ensures CorpusOf(rows).Valid() && AnchorsInOrder(LexicalClusters(CorpusOf(rows), k, minSize), 0)
  {
    CorpusOfRows(rows);
    SweepAnchors(CorpusOf(rows).ids, [], LexicalPick(CorpusOf(rows), k), minSize);
  }

  // ----- maximality -----

  function Leftovers(corpus: Corpus, clusters: seq<seq<Id>>): set<Id> {
    (set x | x in corpus.ids) - Assigned(clusters)
  }

  ghost function OverlappingLeftovers(corpus: Corpus, clusters: seq<seq<Id>>, b: Id): set<Id>
    requires corpus.Valid() && b in corpus.ids
  {
    set x | x in Leftovers(corpus, clusters) && x != b && corpus.tokens[b] * corpus.tokens[x] != {}
  }

  lemma {:induction false} SetOfSeq(s: seq<Scored>)
    ensures |set i | 0 <= i < |s| :: s[i].id| <= |s|
  {
    if s != [] {
      var n := |s| - 1;
      SetOfSeq(s[..n]);
      var all := set i | 0 <= i < |s| :: s[i].id;
      var front := set i | 0 <= i < n :: s[..n][i].id;
      assert all == front + {s[n].id};
    }
  }

  lemma LeftoversAreCandidates(corpus: Corpus, clusters: seq<seq<Id>>, b: Id, taken: set<Id>)
    requires corpus.Valid() && b in corpus.ids && taken <= Assigned(clusters)
    ensures |OverlappingLeftovers(corpus, clusters, b)| <= |Candidates(corpus, corpus.ids, b, taken)|
  {
    var found := Candidates(corpus, corpus.ids, b, taken);
    CandidatesAre(corpus, corpus.ids, b, taken);
    var near, foundIds := OverlappingLeftovers(corpus, clusters, b), set i | 0 <= i < |found| :: found[i].id;
    forall x | x in near
      ensures x in foundIds
    {
      OverlapPositive(corpus.tokens[b], corpus.tokens[x]);
      var s := Scored(corpus.Score(b, x), x);
      assert IsCandidate(corpus, corpus.ids, b, taken, s);
      var i :| 0 <= i < |found| && found[i] == s;
    }
    SetOfSeq(found);
    assert foundIds == near + (foundIds - near);
  }

  /** Main result: the sweep is maximal. When clusters of the demanded size can
      be formed at all, a block left over has fewer than `minSize - 1` overlapping
      blocks among the other leftovers. */
  lemma {:induction false} SweepIsMaximal(corpus: Corpus, k: nat, minSize: int, b: Id)
    requires corpus.Valid() && k >= minSize - 1
    requires b in Leftovers(corpus, LexicalClusters(corpus, k, minSize))
    ensures |OverlappingLeftovers(corpus, LexicalClusters(corpus, k, minSize), b)| < minSize - 1
  {
    var taken := LeftoverWasSmall(corpus.ids, [], LexicalPick(corpus, k), minSize, b);
    LeftoversAreCandidates(corpus, LexicalClusters(corpus, k, minSize), b, taken);
  }

  /** At the default minimum of two, no two leftovers share a token. */
  lemma LeftoversAreDisjoint(corpus: Corpus, k: nat, a: Id, b: Id)
    requires corpus.Valid() && k >= 1 && a != b
    requires a in Leftovers(corpus, LexicalClusters(corpus, k, 2))
    requires b in Leftovers(corpus, LexicalClusters(corpus, k, 2))
    ensures corpus.tokens[a] * corpus.tokens[b] == {}
  {
    SweepIsMaximal(corpus, k, 2, a);
    assert b !in OverlappingLeftovers(corpus, LexicalClusters(corpus, k, 2), a);
  }

  lemma ClusterSizes(corpus: Corpus, k: nat, minSize: int)
    requires corpus.Valid()
    ensures forall c :: c in LexicalClusters(corpus, k, minSize) ==> c != [] && minSize <= |c| <= k + 1
    ensures LexicalClusters(corpus, k, minSize) != [] ==> minSize <= k + 1
  {
    LexicalClustersAreBest(corpus, k, minSize);
    var clusters := LexicalClusters(corpus, k, minSize);
    forall i | 0 <= i < |clusters|
      ensures clusters[i] != [] && minSize <= |clusters[i]| <= k + 1
    {
      assert ((c, s) => BestFree(corpus, k, c, s))(clusters[i], Assigned(clusters[..i]));
    }
    if clusters != [] {
      assert clusters[0] in clusters;
    }
  }

  /** When `k` is too small for the demanded size, nothing is clustered at all. */
  lemma TooFewNeighbours(corpus: Corpus, k: nat, minSize: int)
    requires corpus.Valid() && k < minSize - 1
    ensures LexicalClusters(corpus, k, minSize) == []
  {
    ClusterSizes(corpus, k, minSize);
  }

  // ----- reading the rows -----

  predicate RowLe(a: Row, b: Row) {
    StringLe(a.id, b.id)
  }

  ghost predicate DistinctIds(rows: seq<Row>) {
    forall i, j | 0 <= i < j < |rows| :: rows[i].id != rows[j].id
  }

  /** The ids of the rows that have tokens, in the order of the rows. */
  function UsableIds(rows: seq<Row>): seq<Id> {
    if rows == [] then [] else (if rows[0].tokens != {} then [rows[0].id] else []) + UsableIds(rows[1..])
  }

  /** The ids of the blocks whose blob can be used. */
  function Usable(rows: seq<Row>): set<Id> {
    set r | r in rows && r.tokens != {} :: r.id
  }

  function TokensIn(rows: seq<Row>, id: Id): (tokens: set<Token>)
    requires id in Usable(rows)
    ensures exists r :: r in rows && r.id == id && r.tokens == tokens && tokens != {}
  {
    assert rows == [rows[0]] + rows[1..];
    if rows[0].id == id && rows[0].tokens != {} then rows[0].tokens else TokensIn(rows[1..], id)
  }

  function TokensOf(rows: seq<Row>): map<Id, set<Token>> {
    map id | id in Usable(rows) :: TokensIn(rows, id)
  }

  /** `SELECT ... ORDER BY id`, then the loop that keeps the blocks with tokens. */
  function CorpusOf(rows: seq<Row>): Corpus
    requires DistinctIds(rows)
  {
    Corpus(UsableIds(Sort(rows, RowLe)), TokensOf(rows))
  }

  lemma SameId(rows: seq<Row>)
    requires DistinctIds(rows)
    ensures forall a, b | a in rows && b in rows :: a.id == b.id ==> a == b
  {
  }

  /** The map takes the id of each usable row to that row's tokens, and knows no other id. */
  lemma TokensAreTheRows(rows: seq<Row>)
    requires DistinctIds(rows)
    ensures forall r :: r in rows && r.tokens != {} ==> r.id in TokensOf(rows) && TokensOf(rows)[r.id] == r.tokens
    ensures forall id :: id in TokensOf(rows) ==> exists r :: r in rows && r.tokens != {} && r.id == id
  {
    SameId(rows);
  }

  lemma {:induction false} UsableIdsAre(rows: seq<Row>)
    ensures forall x :: x in UsableIds(rows) <==> exists r :: r in rows && r.id == x && r.tokens != {}
  {
    if rows != [] {
      assert rows == [rows[0]] + rows[1..];
      UsableIdsAre(rows[1..]);
    }
  }

  lemma LaterIdsComeAfter(rows: seq<Row>, x: Id)
    requires DistinctIds(rows) && Sorted(rows, RowLe) && rows != [] && x in UsableIds(rows[1..])
    ensures x != rows[0].id && StringLe(rows[0].id, x)
  {
    UsableIdsAre(rows[1..]);
    var r :| r in rows[1..] && r.id == x;
    var j :| 0 <= j < |rows[1..]| && rows[1..][j] == r;
    assert rows[j + 1] == r && RowLe(rows[0], rows[j + 1]);
  }

  lemma FirstBeforeRest(first: Id, rest: seq<Id>)
    requires Distinct(rest) && Sorted(rest, StringLe)
    requires forall x :: x in rest ==> x != first && StringLe(first, x)
    ensures Distinct([first] + rest) && Sorted([first] + rest, StringLe)
  {
    assert forall i | 0 < i <= |rest| :: ([first] + rest)[i] == rest[i - 1] && rest[i - 1] in rest;
  }

  lemma {:induction false} UsableIdsInOrder(rows: seq<Row>)
    requires DistinctIds(rows) && Sorted(rows, RowLe)
    ensures Distinct(UsableIds(rows)) && Sorted(UsableIds(rows), StringLe)
    decreases |rows|
  {
    if rows != [] {
      UsableIdsInOrder(rows[1..]);
      forall x | x in UsableIds(rows[1..])
        ensures x != rows[0].id && StringLe(rows[0].id, x)
      {
        LaterIdsComeAfter(rows, x);
      }
      FirstBeforeRest(rows[0].id, UsableIds(rows[1..]));
    }
  }

  lemma CorpusOfRows(rows: seq<Row>)
    requires DistinctIds(rows)
    ensures var c := CorpusOf(rows);
            c.Valid() && Sorted(c.ids, StringLe) && forall x :: x in c.ids <==> x in c.tokens
  {
    StringOrder();
    var sorted := Sort(rows, RowLe);
    SortSorted(rows, RowLe);
    SameElements(rows, sorted);
    SameId(rows);
    DistinctRows(rows);
    DistinctPermutation(rows, sorted);
    UsableIdsAre(sorted);
    UsableIdsInOrder(sorted);
  }

  lemma DistinctRows(rows: seq<Row>)
    requires DistinctIds(rows)
    ensures Distinct(rows)
  {
  }

  lemma SameSetSameMultiset(a: seq<Id>, b: seq<Id>)
    requires Distinct(a) && Distinct(b) && forall x :: x in a <==> x in b
    ensures multiset(a) == multiset(b)
  {
    DistinctMultiset(a);
    DistinctMultiset(b);
    forall x
      ensures multiset(a)[x] == multiset(b)[x]
    {
      assert x in a <==> x in multiset(a);
      assert x in b <==> x in multiset(b);
    }
  }

  /** Main result: only the map from ids to tokens decides the clusters; the
      order in which the rows were stored does not. */
  lemma ClustersDependOnTokensOnly(rows: seq<Row>, rows': seq<Row>, k: nat, minSize: int)
    requires DistinctIds(rows) && DistinctIds(rows') && TokensOf(rows) == TokensOf(rows')
    ensures CorpusOf(rows).Valid() && CorpusOf(rows').Valid()
    ensures LexicalClusters(CorpusOf(rows), k, minSize) == LexicalClusters(CorpusOf(rows'), k, minSize)
  {
    CorpusOfRows(rows);
    CorpusOfRows(rows');
    var a, b := CorpusOf(rows), CorpusOf(rows');
    SameSetSameMultiset(a.ids, b.ids);
    StringOrder();
    SortedUnique(a.ids, b.ids, StringLe);
  }

  // ----- nearest neighbours -----

  /** Neighbours that the anchor may take. */
  function Free(anchor: Id, taken: set<Id>, close: (Id, Id) -> bool): Id -> bool {
    x => x != anchor && x !in taken && close(anchor, x)
  }

  /** The vector path: the anchor, then those of its ranked neighbours that are
      free and above the similarity floor. */
  function VectorPick(neighbours: map<Id, seq<Id>>, close: (Id, Id) -> bool): Pick {
    (a, taken) =>
      [a] + if a in neighbours then Filter(neighbours[a], Free(a, taken, close)) else []
  }

  function VectorClusters(ids: seq<Id>, neighbours: map<Id, seq<Id>>, close: (Id, Id) -> bool, minSize: int): seq<seq<Id>> {
    Sweep(ids, [], VectorPick(neighbours, close), minSize)
  }

  method ClusterByVectors(ids: seq<Id>, neighbours: map<Id, seq<Id>>, close: (Id, Id) -> bool, minSize: int)
    returns (clusters: seq<seq<Id>>)
    requires forall x :: x in ids ==> x in neighbours
    ensures clusters == VectorClusters(ids, neighbours, close, minSize)
  {
    var taken: set<Id> := {};
    clusters := [];
    ghost var pick := VectorPick(neighbours, close);
    assert ids[0..] == ids;
    for i := 0 to |ids|
      invariant taken == Assigned(clusters)
      invariant Sweep(ids[i..], clusters, pick, minSize) == Sweep(ids, [], pick, minSize)
    {
      var anchor := ids[i];
      assert ids[i..][0] == anchor && ids[i..][1..] == ids[i + 1..];
      if anchor in taken {
        continue;
      }
      var members := NearMembers(anchor, neighbours[anchor], taken, close);
      assert members == pick(anchor, taken);
      if |members| >= minSize {
        AssignedAppend(clusters, members);
        clusters := clusters + [members];
        taken := taken + set x | x in members;
      }
    }
  }

  method NearMembers(anchor: Id, near: seq<Id>, taken: set<Id>, close: (Id, Id) -> bool) returns (members: seq<Id>)
    ensures members == [anchor] + Filter(near, Free(anchor, taken, close))
  {
    members := [anchor];
    ghost var p := Free(anchor, taken, close);
    assert near[0..] == near;
    for j := 0 to |near|
      invariant members + Filter(near[j..], p) == [anchor] + Filter(near, p)
    {
      var other := near[j];
      assert near[j..][0] == other && near[j..][1..] == near[j + 1..];
      if other == anchor || other in taken {
        continue;
      }
      if close(anchor, other) {
        members := members + [other];
      }
    }
  }

  /** Its members are free, close to the anchor and in neighbour order. */
  ghost predicate NearPick(neighbours: map<Id, seq<Id>>, close: (Id, Id) -> bool, k: nat, c: seq<Id>, taken: set<Id>) {
    && LegalPick(c, taken)
    && (forall j | 1 <= j < |c| :: close(c[0], c[j]) && c[0] in neighbours && c[j] in neighbours[c[0]])
    && |c| <= k + 2
    && (c[0] in neighbours && AnswersWithin(neighbours, k, c[0]) ==> |c| <= k + 1)
  }

  /** The index returns the anchor among its own neighbours, or fewer than it was asked for. */
  predicate AnswersWithin(neighbours: map<Id, seq<Id>>, k: nat, a: Id)
    requires a in neighbours
  {
    a in neighbours[a] || |neighbours[a]| <= k
  }

  /** Vector clusters are disjoint too. With `k + 1` neighbours per query they have
      at most `k + 1` members when the anchor is its own neighbour; an index that
      answers a tie without it can make one of `k + 2`. */
  lemma VectorClustersAreNear(ids: seq<Id>, neighbours: map<Id, seq<Id>>, close: (Id, Id) -> bool, k: nat, minSize: int)
    requires forall x :: x in neighbours ==> Distinct(neighbours[x]) && |neighbours[x]| <= k + 1
    ensures var clusters := Sweep(ids, [], VectorPick(neighbours, close), minSize);
            && AllLegal(clusters, (c, s) => NearPick(neighbours, close, k, c, s), minSize)
            && PairwiseDisjoint(clusters)
  {
    var legal := (c, s) => NearPick(neighbours, close, k, c, s);
    var pick := VectorPick(neighbours, close);
    forall a, s | a in ids && a !in s
      ensures legal(pick(a, s), s)
    {
      if a in neighbours {
        VectorPickIsNear(neighbours, close, k, a, s);
      }
    }
    SweepLegal(ids, [], pick, minSize, legal);
    LegalIsDisjoint(Sweep(ids, [], pick, minSize), legal, minSize);
  }

  lemma VectorPickIsNear(neighbours: map<Id, seq<Id>>, close: (Id, Id) -> bool, k: nat, a: Id, taken: set<Id>)
    requires a in neighbours && Distinct(neighbours[a]) && |neighbours[a]| <= k + 1 && a !in taken
    ensures NearPick(neighbours, close, k, VectorPick(neighbours, close)(a, taken), taken)
  {
    var p := Free(a, taken, close);
    var near := Filter(neighbours[a], p);
    FilterIs(neighbours[a], p);
    var c := VectorPick(neighbours, close)(a, taken);
    assert c == [a] + near;
    forall j | 1 <= j < |c|
      ensures c[j] in near
    {
      assert c[j] == near[j - 1];
    }
    if a in neighbours[a] {
      assert !p(a);
    }
  }
}
