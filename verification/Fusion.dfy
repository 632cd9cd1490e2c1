/** Reciprocal-rank fusion, the session roll-up that feeds it, and the recall
    metrics read off the fused ranking.
 */
module Fusion {
  import opened Common
  import opened Sorting

  type Id = string

  // ----- first occurrences -----

  /** The elements in the order of their first occurrence, each once. */
  function FirstSeen(s: seq<Id>): seq<Id> {
    if s == [] then [] else
      var n := |s| - 1;
      var seen := FirstSeen(s[..n]);
      if s[n] in seen then seen else seen + [s[n]]
  }

  lemma {:induction false} FirstSeenIs(s: seq<Id>)
    ensures Distinct(FirstSeen(s))
    ensures forall x :: x in FirstSeen(s) <==> x in s
  {
    if s != [] {
      var n := |s| - 1;
      FirstSeenIs(s[..n]);
      assert s == s[..n] + [s[n]];
    }
  }

  /** Where `x` first stands. */
  function FirstIndex(s: seq<Id>, x: Id): (i: nat)
    requires x in s
    ensures i < |s| && s[i] == x && x !in s[..i]
  {
    if s[0] == x then 0 else
      assert s == [s[0]] + s[1..];
      var i := FirstIndex(s[1..], x);
      assert s[..i + 1] == [s[0]] + s[1..][..i];
      1 + i
  }

  lemma FirstIndexOfAppend(s: seq<Id>, y: Id, x: Id)
    requires x in s
    ensures x in s + [y] && FirstIndex(s + [y], x) == FirstIndex(s, x)
  {
    var i, j := FirstIndex(s, x), FirstIndex(s + [y], x);
    assert (s + [y])[i] == x;
    assert forall q | 0 <= q < i :: s[q] == s[..i][q] != x;
    assert forall q | 0 <= q < j :: (s + [y])[q] == (s + [y])[..j][q] != x;
  }

  lemma FirstSeenOneMore(s: seq<Id>, x: Id)
    ensures FirstSeen(s + [x]) == if x in FirstSeen(s) then FirstSeen(s) else FirstSeen(s) + [x]
  {
    assert (s + [x])[..|s|] == s;
  }

  /** `a` stands before `b`. */
  ghost predicate Precedes(lst: seq<Id>, a: Id, b: Id) {
    exists i, j | 0 <= i < j < |lst| :: lst[i] == a && lst[j] == b
  }

  lemma PrecedesAppend(lst: seq<Id>, y: Id, a: Id, b: Id)
    requires Precedes(lst, a, b) || (a in lst && b == y)
    ensures Precedes(lst + [y], a, b)
  {
    var all := lst + [y];
    if Precedes(lst, a, b) {
      var i, j :| 0 <= i < j < |lst| && lst[i] == a && lst[j] == b;
      assert all[i] == a && all[j] == b;
    } else {
      var i :| 0 <= i < |lst| && lst[i] == a;
      assert all[i] == a && all[|lst|] == b;
    }
  }

  /** An id that occurs first is listed first. */
  lemma {:induction false} FirstSeenOrder(s: seq<Id>, a: Id, b: Id)
    requires a in s && b in s && FirstIndex(s, a) < FirstIndex(s, b)
    ensures Precedes(FirstSeen(s), a, b)
  {
    var n := |s| - 1;
    var front, y := s[..n], s[n];
    assert s == front + [y];
    FirstSeenIs(front);
    FirstSeenOneMore(front, y);
    assert a in front by {
      assert s[FirstIndex(s, a)] == a && front[FirstIndex(s, a)] == a;
    }
    FirstIndexOfAppend(front, y, a);
    if b in front {
      FirstIndexOfAppend(front, y, b);
      FirstSeenOrder(front, a, b);
      PrecedesAppend(FirstSeen(front), y, a, b);
    } else {
      PrecedesAppend(FirstSeen(front), y, a, b);
    }
  }

  // ----- the roll-up of turn hits to sessions -----

  predicate StartsWith(s: string, prefix: string) {
    |prefix| <= |s| && s[..|prefix|] == prefix
  }

  /** `s.split(sep)[0]` */
  function UpTo(s: string, sep: string): string {
    if s == "" || StartsWith(s, sep) then "" else [s[0]] + UpTo(s[1..], sep)
  }

  function SessionOf(blockId: string): (r: seq<Id>) {
    if StartsWith(blockId, "SESSION-") then [UpTo(UpTo(blockId[8..], "::"), "__t")] else []
  }

  lemma {:induction false} UpToIs(t: string, sep: string, n: nat)
    requires n <= |t| && (forall i | 0 <= i < n :: !StartsWith(t[i..], sep))
    requires n == |t| || StartsWith(t[n..], sep)
    ensures UpTo(t, sep) == t[..n]
    decreases n
  {
    assert t[0..] == t;
    if n != 0 {
      var rest := t[1..];
      forall i | 0 <= i < n - 1
        ensures !StartsWith(rest[i..], sep)
      {
        assert rest[i..] == t[i + 1..];
      }
      assert n < |t| ==> rest[n - 1..] == t[n..];
      UpToIs(rest, sep, n - 1);
      assert t[..n] == [t[0]] + rest[..n - 1];
    }
  }

  /** The separators, character by character. */
  predicate ColonsAt(t: string, i: int) {
    0 <= i < |t| - 1 && t[i] == ':' && t[i + 1] == ':'
  }

  predicate TurnMarkAt(t: string, i: int) {
    0 <= i < |t| - 2 && t[i] == '_' && t[i + 1] == '_' && t[i + 2] == 't'
  }

  lemma ColonsStart(t: string, i: nat)
    requires i <= |t|
    ensures StartsWith(t[i..], "::") <==> ColonsAt(t, i)
  {
    if ColonsAt(t, i) {
      assert t[i..][..2] == [t[i], t[i + 1]];
    }
    if StartsWith(t[i..], "::") {
      assert t[i..][..2][0] == t[i] && t[i..][..2][1] == t[i + 1];
    }
  }

  lemma TurnMarkStarts(t: string, i: nat)
    requires i <= |t|
    ensures StartsWith(t[i..], "__t") <==> TurnMarkAt(t, i)
  {
    if TurnMarkAt(t, i) {
      assert t[i..][..3] == [t[i], t[i + 1], t[i + 2]];
    }
    if StartsWith(t[i..], "__t") {
      assert t[i..][..3][0] == t[i] && t[i..][..3][1] == t[i + 1] && t[i..][..3][2] == t[i + 2];
    }
  }

  /** Main result: the block of a turn names its session, when the session's id
      holds neither separator and the turn's number no colon. */
  lemma SessionOfTurn(s: string, turn: string)
    requires forall i :: !ColonsAt(s, i) && !TurnMarkAt(s, i)
    requires ':' !in turn
    ensures SessionOf("SESSION-" + s + "__t" + turn) == [s]
  {
    var prefix, t := "SESSION-", s + "__t" + turn;
    var id := "SESSION-" + s + "__t" + turn;
    assert id == prefix + t && id[..8] == prefix && id[8..] == t;
    NoColons(s, turn);
    forall i | 0 <= i < |t|
      ensures !StartsWith(t[i..], "::")
    {
      ColonsStart(t, i);
    }
    UpToIs(t, "::", |t|);
    assert t[..|t|] == t;
    FirstTurnMark(s, turn);
    forall i | 0 <= i <= |s|
      ensures StartsWith(t[i..], "__t") <==> i == |s|
    {
      TurnMarkStarts(t, i);
    }
    UpToIs(t, "__t", |s|);
    assert UpTo(t, "__t") == t[..|s|] == s;
    assert UpTo(id[8..], "::") == t && StartsWith(id, prefix);
  }

  lemma NoColons(s: string, turn: string)
    requires forall i :: !ColonsAt(s, i)
    requires ':' !in turn
    ensures forall i :: !ColonsAt(s + "__t" + turn, i)
  {
    var t := s + "__t" + turn;
    forall i | 0 <= i < |t| - 1
      ensures !ColonsAt(t, i)
    {
      assert i < |s| - 1 ==> !ColonsAt(s, i);
      assert |s| + 3 <= i ==> t[i] == turn[i - |s| - 3];
    }
  }

  lemma FirstTurnMark(s: string, turn: string)
    requires forall i :: !TurnMarkAt(s, i)
    ensures forall i | 0 <= i <= |s| :: TurnMarkAt(s + "__t" + turn, i) <==> i == |s|
  {
    forall i | 0 <= i <= |s|
      ensures TurnMarkAt(s + "__t" + turn, i) <==> i == |s|
    {
      assert i < |s| - 2 ==> !TurnMarkAt(s, i);
    }
  }

  /** A block that is no session's names none. */
  lemma OtherBlocksNameNone(blockId: string)
    ensures SessionOf(blockId) == [] <==> !StartsWith(blockId, "SESSION-")
  {
  }

  function SessionsOf(hits: seq<string>): seq<Id> {
    if hits == [] then [] else SessionsOf(hits[..|hits| - 1]) + SessionOf(hits[|hits| - 1])
  }

  /** The sessions of the hits, each once, in the order in which they first appear. */
  method RollUp(hits: seq<string>) returns (seen: seq<Id>)
    ensures seen == FirstSeen(SessionsOf(hits))
    ensures Distinct(seen) && forall x :: x in seen <==> x in SessionsOf(hits)
  {
    seen := [];
    for i := 0 to |hits|
      invariant seen == FirstSeen(SessionsOf(hits[..i]))
    {
      var bid := hits[i];
      SessionsOneMore(hits, i);
      if StartsWith(bid, "SESSION-") {
        var s := UpTo(UpTo(bid[8..], "::"), "__t");
        FirstSeenOneMore(SessionsOf(hits[..i]), s);
        if s !in seen {
          seen := seen + [s];
        }
      }
    }
    assert hits[..|hits|] == hits;
    FirstSeenIs(SessionsOf(hits));
  }

  lemma SessionsOneMore(hits: seq<string>, i: nat)
    requires i < |hits|
    ensures SessionsOf(hits[..i + 1]) ==
            if SessionOf(hits[i]) == [] then SessionsOf(hits[..i]) else SessionsOf(hits[..i]) + SessionOf(hits[i])
  {
    assert hits[..i + 1][..i] == hits[..i];
  }

  // ----- the score -----

  /** What one list contributes to an id: a reciprocal per place it stands at. */
  function ListScore(lst: seq<Id>, k: nat, x: Id): real {
    if lst == [] then 0.0 else
      var n := |lst| - 1;
      ListScore(lst[..n], k, x) + if lst[n] == x then 1.0 / (k + n + 1) as real else 0.0
  }

  function Score(lists: seq<seq<Id>>, k: nat, x: Id): real {
    if lists == [] then 0.0 else
      var n := |lists| - 1;
      Score(lists[..n], k, x) + ListScore(lists[n], k, x)
  }

  function Joined(lists: seq<seq<Id>>): seq<Id> {
    if lists == [] then [] else Joined(lists[..|lists| - 1]) + lists[|lists| - 1]
  }

  function ByScore(lists: seq<seq<Id>>, k: nat): (Id, Id) -> bool {
    (x, y) => Score(lists, k, x) >= Score(lists, k, y)
  }

  /** The ids in the order the score table got them, sorted by falling score. */
  function Fused(lists: seq<seq<Id>>, k: nat): seq<Id> {
    Sort(FirstSeen(Joined(lists)), ByScore(lists, k))
  }

  /** A score table: its keys in insertion order, and their values. */
  datatype Table = Table(keys: seq<Id>, score: map<Id, real>)

  /** The table holds the scores of the lists before, and of the first `r` places of the list at hand. */
  ghost predicate Holds(t: Table, before: seq<seq<Id>>, lst: seq<Id>, r: nat, k: nat)
    requires r <= |lst|
  {
    && t.keys == FirstSeen(Joined(before) + lst[..r])
    && (forall x :: x in t.keys <==> x in t.score)
    && (forall x :: x in t.score ==> t.score[x] == Score(before, k, x) + ListScore(lst[..r], k, x))
  }

  lemma {:induction false} AbsentScoresZero(lst: seq<Id>, k: nat, x: Id)
    requires x !in lst
    ensures ListScore(lst, k, x) == 0.0
  {
    if lst != [] {
      assert lst == lst[..|lst| - 1] + [lst[|lst| - 1]];
      AbsentScoresZero(lst[..|lst| - 1], k, x);
    }
  }

  lemma {:induction false} AbsentEverywhere(lists: seq<seq<Id>>, k: nat, x: Id)
    requires x !in Joined(lists)
    ensures Score(lists, k, x) == 0.0
  {
    if lists != [] {
      var n := |lists| - 1;
      AbsentEverywhere(lists[..n], k, x);
      AbsentScoresZero(lists[n], k, x);
    }
  }

  function Bumped(t: Table, x: Id, amount: real): Table {
    if x in t.score then Table(t.keys, t.score[x := t.score[x] + amount]) else Table(t.keys + [x], t.score[x := 0.0 + amount])
  }

  lemma ListScoreStep(lst: seq<Id>, r: nat, k: nat, x: Id)
    requires r < |lst|
    ensures ListScore(lst[..r + 1], k, x) == ListScore(lst[..r], k, x) + if lst[r] == x then 1.0 / (k + r + 1) as real else 0.0
  {
    assert lst[..r + 1][..r] == lst[..r];
  }

  lemma BumpKeepsKeys(t: Table, before: seq<seq<Id>>, lst: seq<Id>, r: nat, k: nat, amount: real)
    requires r < |lst| && Holds(t, before, lst, r, k)
    ensures Bumped(t, lst[r], amount).keys == FirstSeen(Joined(before) + lst[..r + 1])
  {
    assert lst[..r + 1] == lst[..r] + [lst[r]];
    Associative(Joined(before), lst[..r], [lst[r]]);
    FirstSeenOneMore(Joined(before) + lst[..r], lst[r]);
  }

  lemma AbsentSoFar(t: Table, before: seq<seq<Id>>, lst: seq<Id>, r: nat, k: nat, x: Id)
    requires r <= |lst| && Holds(t, before, lst, r, k) && x !in t.score
    ensures Score(before, k, x) == 0.0 && ListScore(lst[..r], k, x) == 0.0
  {
    FirstSeenIs(Joined(before) + lst[..r]);
    assert x !in Joined(before) + lst[..r];
    AbsentEverywhere(before, k, x);
    AbsentScoresZero(lst[..r], k, x);
  }

  lemma BumpKeepsHolding(t: Table, before: seq<seq<Id>>, lst: seq<Id>, r: nat, k: nat)
    requires r < |lst| && Holds(t, before, lst, r, k)
    ensures Holds(Bumped(t, lst[r], 1.0 / (k + r + 1) as real), before, lst, r + 1, k)
  {
    var amount := 1.0 / (k + r + 1) as real;
    var t' := Bumped(t, lst[r], amount);
    BumpKeepsKeys(t, before, lst, r, k, amount);
    forall x | x in t'.score
      ensures t'.score[x] == Score(before, k, x) + ListScore(lst[..r + 1], k, x)
    {
      ListScoreStep(lst, r, k, x);
      if x !in t.score {
        AbsentSoFar(t, before, lst, r, k, x);
      }
    }
  }

  method RrfFuse(lists: seq<seq<Id>>, k: nat) returns (fused: seq<Id>)
    ensures fused == Fused(lists, k)
  {
    var t := Table([], map[]);
    for i := 0 to |lists|
      invariant Holds(t, lists[..i], [], 0, k)
    {
      var lst := lists[i];
      assert lst[..0] == [];
      for r := 0 to |lst|
        invariant Holds(t, lists[..i], lst, r, k)
      {
        BumpKeepsHolding(t, lists[..i], lst, r, k);
        t := Bumped(t, lst[r], 1.0 / (k + r + 1) as real);
      }
      NextList(t, lists, i, k);
    }
    assert lists[..|lists|] == lists;
    assert Joined(lists) + [] == Joined(lists);
    var score := t.score;
    var le := (x, y) => x in score && y in score && score[x] >= score[y];
    SortAgrees(t.keys, le, ByScore(lists, k));
    fused := Sort(t.keys, le);
  }

  lemma NextList(t: Table, lists: seq<seq<Id>>, i: nat, k: nat)
    requires i < |lists| && Holds(t, lists[..i], lists[i], |lists[i]|, k)
    ensures Holds(t, lists[..i + 1], [], 0, k)
  {
    var lst := lists[i];
    assert lists[..i + 1][..i] == lists[..i];
    assert lst[..|lst|] == lst;
    assert Joined(lists[..i + 1]) + [] == Joined(lists[..i]) + lst;
  }

  // ----- what fusion promises -----

  lemma ByScoreOrder(lists: seq<seq<Id>>, k: nat)
    ensures TotalPreorder(ByScore(lists, k))
  {
  }

  lemma {:induction false} InJoined(lists: seq<seq<Id>>, x: Id)
    ensures x in Joined(lists) <==> exists lst :: lst in lists && x in lst
  {
    if lists != [] {
      var n := |lists| - 1;
      InJoined(lists[..n], x);
      assert lists == lists[..n] + [lists[n]];
    }
  }

  /** Main result: fusion returns every id of the lists, each once, in
      non-increasing order of score. */
  lemma FusedIsRanking(lists: seq<seq<Id>>, k: nat)
    ensures Distinct(Fused(lists, k))
    ensures forall x :: x in Fused(lists, k) <==> exists lst :: lst in lists && x in lst
    ensures forall i, j | 0 <= i < j < |Fused(lists, k)| ::
              Score(lists, k, Fused(lists, k)[i]) >= Score(lists, k, Fused(lists, k)[j])
  {
    var keys, fused := FirstSeen(Joined(lists)), Fused(lists, k);
    FirstSeenIs(Joined(lists));
    ByScoreOrder(lists, k);
    SortSorted(keys, ByScore(lists, k));
    SameElements(keys, fused);
    DistinctPermutation(keys, fused);
    forall x
      ensures x in fused <==> exists lst :: lst in lists && x in lst
    {
      InJoined(lists, x);
    }
    forall i, j | 0 <= i < j < |fused|
      ensures Score(lists, k, fused[i]) >= Score(lists, k, fused[j])
    {
      assert ByScore(lists, k)(fused[i], fused[j]);
    }
  }

  /** What a place contributes: nothing when there is none. */
  function PlaceValue(k: nat): int -> real {
    (p: int) => if p < 0 then 0.0 else 1.0 / (k + p + 1) as real
  }

  /** `places` says where `x` stands in each list, `-1` where it does not. */
  ghost predicate PlacesOf(lists: seq<seq<Id>>, x: Id, places: seq<int>) {
    && |places| == |lists|
    && forall i | 0 <= i < |lists| ::
         if places[i] < 0 then x !in lists[i] else places[i] < |lists[i]| && lists[i][places[i]] == x
  }

  /** Main result: a score is the sum of the reciprocals `1 / (k + rank)` over the
      lists that hold the id, ranks counted from one. */
  lemma {:induction false} ScoreIsSumOfReciprocals(lists: seq<seq<Id>>, k: nat, x: Id, places: seq<int>)
    requires PlacesOf(lists, x, places) && forall lst :: lst in lists ==> Distinct(lst)
    ensures Score(lists, k, x) == Sum(places, PlaceValue(k))
  {
    if lists != [] {
      var n := |lists| - 1;
      assert lists[n] in lists && forall lst :: lst in lists[..n] ==> lst in lists;
      ScoreIsSumOfReciprocals(lists[..n], k, x, places[..n]);
      if places[n] < 0 {
        AbsentScoresZero(lists[n], k, x);
      } else {
        PlaceScore(lists[n], k, places[n]);
      }
    }
  }

  /** `a` scores more than `b`, or as much and was met before. */
  ghost predicate GoesFirst(lists: seq<seq<Id>>, k: nat, a: Id, b: Id)
    requires a in Joined(lists) && b in Joined(lists)
  {
    || Score(lists, k, a) > Score(lists, k, b)
    || (Score(lists, k, a) == Score(lists, k, b) && FirstIndex(Joined(lists), a) < FirstIndex(Joined(lists), b))
  }

  /** Main result: the fused order is decided by the scores, and between equal
      scores by which id was met first. */
  lemma FusedOrderIs(lists: seq<seq<Id>>, k: nat, a: Id, b: Id)
    requires a != b && a in Joined(lists) && b in Joined(lists)
    ensures Precedes(Fused(lists, k), a, b) <==> GoesFirst(lists, k, a, b)
  {
    assert FirstIndex(Joined(lists), a) != FirstIndex(Joined(lists), b);
    FusedIsRanking(lists, k);
    if GoesFirst(lists, k, a, b) {
      FusedInOrder(lists, k, a, b);
    } else {
      FusedInOrder(lists, k, b, a);
      NotBoth(Fused(lists, k), b, a);
    }
  }

  lemma NotBoth(lst: seq<Id>, a: Id, b: Id)
    requires Distinct(lst) && a != b && Precedes(lst, a, b)
    ensures !Precedes(lst, b, a)
  {
    var i, j :| 0 <= i < j < |lst| && lst[i] == a && lst[j] == b;
    forall p, q | 0 <= p < q < |lst|
      ensures !(lst[p] == b && lst[q] == a)
    {
    }
  }

  lemma FusedInOrder(lists: seq<seq<Id>>, k: nat, a: Id, b: Id)
    requires a != b && a in Joined(lists) && b in Joined(lists) && GoesFirst(lists, k, a, b)
    ensures Precedes(Fused(lists, k), a, b)
  {
    var keys, fused := FirstSeen(Joined(lists)), Fused(lists, k);
    if Score(lists, k, a) > Score(lists, k, b) {
      FirstSeenIs(Joined(lists));
      SameElements(keys, fused);
      FusedIsRanking(lists, k);
      var i :| 0 <= i < |fused| && fused[i] == a;
      var j :| 0 <= j < |fused| && fused[j] == b;
    } else {
      FirstSeenOrder(Joined(lists), a, b);
      var i, j :| 0 <= i < j < |keys| && keys[i] == a && keys[j] == b;
      var p, q := SortStable(keys, ByScore(lists, k), i, j);
    }
  }

  lemma {:induction false} PlaceScore(lst: seq<Id>, k: nat, p: nat)
    requires Distinct(lst) && p < |lst|
    ensures ListScore(lst, k, lst[p]) == 1.0 / (k + p + 1) as real
  {
    var n := |lst| - 1;
    if p == n {
      assert lst[n] !in lst[..n];
      AbsentScoresZero(lst[..n], k, lst[n]);
    } else {
      assert lst[..n][p] == lst[p];
      PlaceScore(lst[..n], k, p);
    }
  }

  lemma ReciprocalFalls(m: nat, n: nat)
    requires 0 < m < n
    ensures 1.0 / m as real > 1.0 / n as real > 0.0
  {
    var x, y := 1.0 / m as real, 1.0 / n as real;
    assert x * m as real == 1.0 && y * n as real == 1.0;
  }

  lemma {:induction false} ListScoreNonNegative(lst: seq<Id>, k: nat, x: Id)
    ensures ListScore(lst, k, x) >= 0.0
  {
    if lst != [] {
      ListScoreNonNegative(lst[..|lst| - 1], k, x);
      ReciprocalFalls(k + |lst|, k + |lst| + 1);
    }
  }

  ghost predicate Unanimous(lists: seq<seq<Id>>, a: Id, b: Id) {
    forall lst :: lst in lists && b in lst ==> Precedes(lst, a, b)
  }

  lemma {:induction false} UnanimousScore(lists: seq<seq<Id>>, k: nat, a: Id, b: Id)
    requires (forall lst :: lst in lists ==> Distinct(lst)) && Unanimous(lists, a, b)
    ensures Score(lists, k, a) >= Score(lists, k, b)
    ensures (exists lst :: lst in lists && b in lst) ==> Score(lists, k, a) > Score(lists, k, b)
  {
    if lists != [] {
      var n := |lists| - 1;
      var lst := lists[n];
      assert lists == lists[..n] + [lst];
      assert lst in lists && forall l :: l in lists[..n] ==> l in lists;
      UnanimousScore(lists[..n], k, a, b);
      if b in lst {
        var i, j :| 0 <= i < j < |lst| && lst[i] == a && lst[j] == b;
        PlaceScore(lst, k, i);
        PlaceScore(lst, k, j);
        ReciprocalFalls(k + i + 1, k + j + 1);
      } else {
        AbsentScoresZero(lst, k, b);
        ListScoreNonNegative(lst, k, a);
      }
    }
  }

  /** Main result: fusion respects unanimity. When `a` precedes `b` in every list
      that holds `b`, and one does, `a` is ranked strictly before `b`. */
  lemma FusionRespectsUnanimity(lists: seq<seq<Id>>, k: nat, a: Id, b: Id)
    requires (forall lst :: lst in lists ==> Distinct(lst)) && Unanimous(lists, a, b)
    requires exists lst :: lst in lists && b in lst
    ensures Precedes(Fused(lists, k), a, b)
  {
    var fused := Fused(lists, k);
    FusedIsRanking(lists, k);
    var lst :| lst in lists && b in lst;
    assert Precedes(lst, a, b);
    assert a in lst;
    assert a in fused && b in fused;
    var i :| 0 <= i < |fused| && fused[i] == a;
    var j :| 0 <= j < |fused| && fused[j] == b;
    assert j < i ==> Score(lists, k, fused[j]) >= Score(lists, k, fused[i]);
    UnanimousScore(lists, k, a, b);
  }

  lemma {:induction false} FirstSeenOfDistinct(s: seq<Id>)
    requires Distinct(s)
    ensures FirstSeen(s) == s
  {
    if s != [] {
      var n := |s| - 1;
      FirstSeenOfDistinct(s[..n]);
      assert s == s[..n] + [s[n]] && s[n] !in s[..n];
    }
  }

  lemma ScoreOfOne(lst: seq<Id>, k: nat, x: Id)
    ensures Score([lst], k, x) == ListScore(lst, k, x)
  {
    assert [lst][..0] == [];
  }

  lemma ScoreFalls(lst: seq<Id>, k: nat, i: nat, j: nat)
    requires Distinct(lst) && i < j < |lst|
    ensures Score([lst], k, lst[i]) > Score([lst], k, lst[j])
  {
    ScoreOfOne(lst, k, lst[i]);
    ScoreOfOne(lst, k, lst[j]);
    PlaceScore(lst, k, i);
    PlaceScore(lst, k, j);
    ReciprocalFalls(k + i + 1, k + j + 1);
  }

  /** The places of a list are told apart by its scores. */
  lemma OneListOrder(lst: seq<Id>, k: nat)
    requires Distinct(lst)
    ensures Sorted(lst, ByScore([lst], k)) && AntiSymmetricOn(ByScore([lst], k), lst)
  {
    var le := ByScore([lst], k);
    forall i, j | 0 <= i < j < |lst|
      ensures le(lst[i], lst[j]) && !le(lst[j], lst[i])
    {
      ScoreFalls(lst, k, i, j);
    }
    forall x, y | x in lst && y in lst && le(x, y) && le(y, x)
      ensures x == y
    {
      var i :| 0 <= i < |lst| && lst[i] == x;
      var j :| 0 <= j < |lst| && lst[j] == y;
    }
  }

  /** Main result: fusing one list without repetitions gives that list back. */
  lemma FusionOfOne(lst: seq<Id>, k: nat)
    requires Distinct(lst)
    ensures Fused([lst], k) == lst
  {
    assert [lst][..0] == [];
    assert Joined([lst]) == lst;
    FirstSeenOfDistinct(lst);
    ByScoreOrder([lst], k);
    OneListOrder(lst, k);
    SortOfSorted(lst, ByScore([lst], k));
  }

  /** The harness fuses only when there are several lists. */
  function FusedForQuestion(lists: seq<seq<Id>>, k: nat): seq<Id> {
    if |lists| > 1 then Fused(lists, k) else if lists != [] then lists[0] else []
  }

  /** The shortcut is the general form. */
  lemma {:induction false} ShortcutAgrees(lists: seq<seq<Id>>, k: nat)
    requires forall lst :: lst in lists ==> Distinct(lst)
    ensures FusedForQuestion(lists, k) == Fused(lists, k)
  {
    if |lists| == 1 {
      assert lists == [lists[0]];
      FusionOfOne(lists[0], k);
    }
  }

  // ----- recall and reciprocal rank -----

  function Top(ranking: seq<Id>, k: nat): set<Id> {
    set i | 0 <= i < |ranking| && i < k :: ranking[i]
  }

  predicate AnyAt(ranking: seq<Id>, gold: set<Id>, k: nat) {
    gold * Top(ranking, k) != {}
  }

  predicate AllAt(ranking: seq<Id>, gold: set<Id>, k: nat) {
    gold <= Top(ranking, k)
  }

  /** The reciprocal of the first gold rank, zero when there is none. */
  method ReciprocalRank(ranking: seq<Id>, gold: set<Id>) returns (rr: real)
    ensures (rr == 0.0 && forall i | 0 <= i < |ranking| :: ranking[i] !in gold) || exists r | 0 <= r < |ranking| :: IsFirstGold(ranking, gold, r) && rr == 1.0 / (r + 1) as real
    ensures forall k: nat | 0 < k :: AnyAt(ranking, gold, k) <==> rr >= 1.0 / k as real
  {
    for i := 0 to |ranking|
      invariant forall j | 0 <= j < i :: ranking[j] !in gold
    {
      if ranking[i] in gold {
        rr := 1.0 / (i + 1) as real;
        assert IsFirstGold(ranking, gold, i);
        forall k: nat | 0 < k
          ensures AnyAt(ranking, gold, k) <==> rr >= 1.0 / k as real
        {
          AnyAtIffRank(ranking, gold, i, k);
        }
        return;
      }
    }
    rr := 0.0;
    forall k: nat | 0 < k
      ensures !AnyAt(ranking, gold, k) && rr < 1.0 / k as real
    {
      ReciprocalFalls(k, k + 1);
    }
  }

  ghost predicate IsFirstGold(ranking: seq<Id>, gold: set<Id>, r: nat) {
    r < |ranking| && ranking[r] in gold && forall j | 0 <= j < r :: ranking[j] !in gold
  }

  lemma AnyAtIffRank(ranking: seq<Id>, gold: set<Id>, r: nat, k: nat)
    requires IsFirstGold(ranking, gold, r) && 0 < k
    ensures AnyAt(ranking, gold, k) <==> 1.0 / (r + 1) as real >= 1.0 / k as real
  {
    if r < k {
      assert ranking[r] in gold * Top(ranking, k);
      if r + 1 < k {
        ReciprocalFalls(r + 1, k);
      }
    } else {
      ReciprocalFalls(k, r + 1);
    }
  }

  lemma TopGrows(ranking: seq<Id>, k: nat, k': nat)
    requires k <= k'
    ensures Top(ranking, k) <= Top(ranking, k')
  {
  }

  lemma {:induction false} TopSize(ranking: seq<Id>, k: nat)
    ensures |Top(ranking, k)| <= k
  {
    if 0 < k {
      TopSize(ranking, k - 1);
      if k - 1 < |ranking| {
        assert Top(ranking, k) == Top(ranking, k - 1) + {ranking[k - 1]};
      } else {
        assert Top(ranking, k) == Top(ranking, k - 1);
      }
    }
  }

  /** Both recalls only grow with the cut-off; all of a non-empty gold set within
      `k` implies any of it, and that it has at most `k` members. */
  lemma RecallLaws(ranking: seq<Id>, gold: set<Id>, k: nat, k': nat)
    requires gold != {} && k <= k'
    ensures AnyAt(ranking, gold, k) ==> AnyAt(ranking, gold, k')
    ensures AllAt(ranking, gold, k) ==> AllAt(ranking, gold, k')
    ensures AllAt(ranking, gold, k) ==> AnyAt(ranking, gold, k) && |gold| <= k
  {
    TopGrows(ranking, k, k');
    if AllAt(ranking, gold, k) {
      TopSize(ranking, k);
      SubsetSize(gold, Top(ranking, k));
      assert gold * Top(ranking, k) == gold;
    }
  }
}
