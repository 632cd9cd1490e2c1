/** How large the clusters of the vector sweep can grow over a whole table.
 */
module VectorSizes {
  import opened Clusters
  import opened Sorting

  /** Every block of the table, once, and the answer of the index for each: at
      most `k + 1` different blocks of the table. */
  ghost predicate IsTable(ids: seq<Id>, neighbours: map<Id, seq<Id>>, k: nat) {
    && Distinct(ids)
    && forall x :: x in ids ==>
         && x in neighbours && Distinct(neighbours[x]) && |neighbours[x]| <= k + 1
         && forall y :: y in neighbours[x] ==> y in ids
  }

  ghost predicate Symmetric(close: (Id, Id) -> bool) {
    forall x, y :: close(x, y) == close(y, x)
  }

  /** Whatever is close to what, the sweep over the table makes no cluster of more than `k + 1`. */
  ghost predicate AlwaysWithin(ids: seq<Id>, neighbours: map<Id, seq<Id>>, k: nat, minSize: int) {
    forall close: (Id, Id) -> bool, c: seq<Id> |
      Symmetric(close) && c in VectorClusters(ids, neighbours, close, minSize) :: |c| <= k + 1
  }

  // ----- the sweep, one anchor at a time -----

  /** What one anchor adds. */
  function Turn(done: seq<seq<Id>>, pick: Pick, minSize: int, a: Id): seq<seq<Id>> {
    if a in Assigned(done) || |pick(a, Assigned(done))| < minSize then done else done + [pick(a, Assigned(done))]
  }

  /** The clusters after the first `i` anchors. */
  function Upto(ids: seq<Id>, pick: Pick, minSize: int, i: nat): seq<seq<Id>>
    requires i <= |ids|
  {
    if i == 0 then [] else Turn(Upto(ids, pick, minSize, i - 1), pick, minSize, ids[i - 1])
  }

  lemma {:induction false} SweepFrom(ids: seq<Id>, pick: Pick, minSize: int, i: nat)
    requires i <= |ids|
    ensures Sweep(ids[i..], Upto(ids, pick, minSize, i), pick, minSize) == Upto(ids, pick, minSize, |ids|)
    decreases |ids| - i
  {
    if i < |ids| {
      SweepStep(ids, Upto(ids, pick, minSize, i), pick, minSize, i);
      SweepFrom(ids, pick, minSize, i + 1);
    }
  }

  lemma SweepIsUpto(ids: seq<Id>, neighbours: map<Id, seq<Id>>, close: (Id, Id) -> bool, minSize: int)
    ensures VectorClusters(ids, neighbours, close, minSize) == Upto(ids, VectorPick(neighbours, close), minSize, |ids|)
  {
    assert ids[0..] == ids;
    SweepFrom(ids, VectorPick(neighbours, close), minSize, 0);
  }

  lemma {:induction false} UptoGrows(ids: seq<Id>, pick: Pick, minSize: int, i: nat, j: nat)
    requires i <= j <= |ids|
    ensures Upto(ids, pick, minSize, i) <= Upto(ids, pick, minSize, j)
    ensures Assigned(Upto(ids, pick, minSize, i)) <= Assigned(Upto(ids, pick, minSize, j))
  {
    if i < j {
      UptoGrows(ids, pick, minSize, i, j - 1);
    }
    AssignedMonotone(Upto(ids, pick, minSize, i), Upto(ids, pick, minSize, j));
  }

  /** Every cluster was picked at the turn of a free anchor. */
  lemma {:induction false} ClusterOrigin(ids: seq<Id>, pick: Pick, minSize: int, n: nat, c: seq<Id>) returns (i: nat)
    requires n <= |ids| && c in Upto(ids, pick, minSize, n)
    ensures i < n
    ensures var taken := Assigned(Upto(ids, pick, minSize, i));
            ids[i] !in taken && c == pick(ids[i], taken) && minSize <= |c|
  {
    var before := Upto(ids, pick, minSize, n - 1);
    if c in before {
      i := ClusterOrigin(ids, pick, minSize, n - 1, c);
    } else {
      i := n - 1;
    }
  }

  // ----- the condition -----

  /** The index gave a full answer to anchor `a` and left `a` itself out. */
  predicate LeftOut(neighbours: map<Id, seq<Id>>, k: nat, a: Id) {
    a in neighbours && |neighbours[a]| == k + 1 && a !in neighbours[a]
  }

  /** Some block of the answer had its turn before, and cannot still be free with the whole answer. */
  ghost predicate Shielded(ids: seq<Id>, neighbours: map<Id, seq<Id>>, minSize: int, n: nat)
    requires n < |ids| && forall x :: x in ids ==> x in neighbours
  {
    exists m | 0 <= m < n ::
      ids[m] in neighbours[ids[n]] && (minSize <= 1 || (minSize == 2 && ids[n] in neighbours[ids[m]]))
  }

  ghost predicate AllShielded(ids: seq<Id>, neighbours: map<Id, seq<Id>>, k: nat, minSize: int)
    requires forall x :: x in ids ==> x in neighbours
  {
    forall n | 0 <= n < |ids| && LeftOut(neighbours, k, ids[n]) :: Shielded(ids, neighbours, minSize, n)
  }

  // ----- shielded tables keep their clusters small -----

  /** A cluster that is too large took a full answer without its anchor, all of it free and close. */
  lemma TooLargeTookAll(neighbours: map<Id, seq<Id>>, close: (Id, Id) -> bool, k: nat, a: Id, taken: set<Id>)
    requires a in neighbours ==> |neighbours[a]| <= k + 1
    requires k + 1 < |VectorPick(neighbours, close)(a, taken)|
    ensures LeftOut(neighbours, k, a) && |VectorPick(neighbours, close)(a, taken)| == k + 2
    ensures forall x :: x in neighbours[a] ==> x !in taken && close(a, x)
  {
    var p := Free(a, taken, close);
    FilterIs(neighbours[a], p);
    assert forall x :: x in neighbours[a] ==> p(x);
  }

  /** An anchor with a free close neighbour makes a cluster of two at least. */
  lemma TakesAtLeast(neighbours: map<Id, seq<Id>>, close: (Id, Id) -> bool, b: Id, taken: set<Id>, a: Id)
    ensures |VectorPick(neighbours, close)(b, taken)| >= 1
    ensures VectorPick(neighbours, close)(b, taken)[0] == b
    ensures b in neighbours && a in neighbours[b] && a != b && a !in taken && close(b, a) ==>
            |VectorPick(neighbours, close)(b, taken)| >= 2
  {
    if b in neighbours {
      FilterIs(neighbours[b], Free(b, taken, close));
    }
  }

  lemma TurnAssigns(done: seq<seq<Id>>, pick: Pick, minSize: int, b: Id)
    requires minSize <= |pick(b, Assigned(done))| && 1 <= |pick(b, Assigned(done))| && pick(b, Assigned(done))[0] == b
    ensures b in Assigned(Turn(done, pick, minSize, b))
  {
    AssignedAppend(done, pick(b, Assigned(done)));
  }

  /** A free anchor whose cluster is large enough is assigned from its turn on. */
  lemma TakenFromItsTurn(ids: seq<Id>, pick: Pick, minSize: int, m: nat, n: nat)
    requires m < n <= |ids|
    requires var c := pick(ids[m], Assigned(Upto(ids, pick, minSize, m)));
             minSize <= |c| && 1 <= |c| && c[0] == ids[m]
    ensures ids[m] in Assigned(Upto(ids, pick, minSize, n))
  {
    TurnAssigns(Upto(ids, pick, minSize, m), pick, minSize, ids[m]);
    UptoGrows(ids, pick, minSize, m + 1, n);
  }

  lemma ShieldIsTaken(ids: seq<Id>, neighbours: map<Id, seq<Id>>, close: (Id, Id) -> bool, minSize: int, m: nat, n: nat)
    requires m < n < |ids| && ids[m] != ids[n] && close(ids[m], ids[n])
    requires minSize <= 1 || (minSize == 2 && ids[m] in neighbours && ids[n] in neighbours[ids[m]])
    requires ids[n] !in Assigned(Upto(ids, VectorPick(neighbours, close), minSize, n))
    ensures ids[m] in Assigned(Upto(ids, VectorPick(neighbours, close), minSize, n))
  {
    var pick := VectorPick(neighbours, close);
    UptoGrows(ids, pick, minSize, m, n);
    TakesAtLeast(neighbours, close, ids[m], Assigned(Upto(ids, pick, minSize, m)), ids[n]);
    TakenFromItsTurn(ids, pick, minSize, m, n);
  }

  lemma ShieldHolds(ids: seq<Id>, neighbours: map<Id, seq<Id>>, close: (Id, Id) -> bool, k: nat, minSize: int, n: nat)
    requires IsTable(ids, neighbours, k) && Symmetric(close) && n < |ids| && Shielded(ids, neighbours, minSize, n)
    requires ids[n] in ids && ids[n] !in Assigned(Upto(ids, VectorPick(neighbours, close), minSize, n))
    ensures exists x :: x in neighbours[ids[n]]
              && (x in Assigned(Upto(ids, VectorPick(neighbours, close), minSize, n)) || !close(ids[n], x))
  {
    var m :| 0 <= m < n && ids[m] in neighbours[ids[n]] && (minSize <= 1 || (minSize == 2 && ids[n] in neighbours[ids[m]]));
    assert ids[m] in ids && close(ids[m], ids[n]) == close(ids[n], ids[m]);
    if close(ids[n], ids[m]) {
      ShieldIsTaken(ids, neighbours, close, minSize, m, n);
    }
  }

  lemma ShieldedIsWithin(ids: seq<Id>, neighbours: map<Id, seq<Id>>, close: (Id, Id) -> bool, k: nat, minSize: int, c: seq<Id>)
    requires IsTable(ids, neighbours, k) && Symmetric(close) && AllShielded(ids, neighbours, k, minSize)
    requires c in VectorClusters(ids, neighbours, close, minSize)
    ensures |c| <= k + 1
  {
    var pick := VectorPick(neighbours, close);
    SweepIsUpto(ids, neighbours, close, minSize);
    var n := ClusterOrigin(ids, pick, minSize, |ids|, c);
    assert ids[n] in ids;
    if k + 1 < |c| {
      TooLargeTookAll(neighbours, close, k, ids[n], Assigned(Upto(ids, pick, minSize, n)));
      assert Shielded(ids, neighbours, minSize, n);
      ShieldHolds(ids, neighbours, close, k, minSize, n);
    }
  }

  lemma NeverMoreThanTwoOver(ids: seq<Id>, neighbours: map<Id, seq<Id>>, close: (Id, Id) -> bool, k: nat, minSize: int, c: seq<Id>)
    requires IsTable(ids, neighbours, k) && k + 2 < minSize
    ensures c !in VectorClusters(ids, neighbours, close, minSize)
  {
    if c in VectorClusters(ids, neighbours, close, minSize) {
      SweepIsUpto(ids, neighbours, close, minSize);
      var n := ClusterOrigin(ids, VectorPick(neighbours, close), minSize, |ids|, c);
      assert ids[n] in ids;
      TooLargeTookAll(neighbours, close, k, ids[n], Assigned(Upto(ids, VectorPick(neighbours, close), minSize, n)));
    }
  }

  // ----- and only they do -----

  /** Only `a` and its neighbours are close, and only to each other. */
  function Star(a: Id, near: seq<Id>): (Id, Id) -> bool {
    (x, y) => (x == a && y in near) || (y == a && x in near)
  }

  lemma FirstTwoDiffer(f: seq<Id>)
    requires Distinct(f) && 1 < |f|
    ensures f[0] != f[1]
  {
  }

  /** What an earlier anchor can take of the star. */
  lemma EarlierTakesLittle(neighbours: map<Id, seq<Id>>, a: Id, b: Id, taken: set<Id>)
    requires a in neighbours && b in neighbours && Distinct(neighbours[b]) && a != b
    ensures var c := VectorPick(neighbours, Star(a, neighbours[a]))(b, taken);
            && (c == [b] || (c == [b, a] && b in neighbours[a] && a in neighbours[b]))
  {
    var p := Free(b, taken, Star(a, neighbours[a]));
    var f := Filter(neighbours[b], p);
    FilterIs(neighbours[b], p);
    if 1 < |f| {
      FirstTwoDiffer(f);
    }
    assert forall x :: x in f ==> x == a && b in neighbours[a];
    forall i | 0 <= i < |f|
      ensures f[i] == a
    {
      assert f[i] in f;
    }
    assert |f| < 2;
    assert f == [] || (f == [a] && a in f);
  }

  lemma {:induction false} StarStaysFree(ids: seq<Id>, neighbours: map<Id, seq<Id>>, k: nat, minSize: int, n: nat, i: nat)
    requires IsTable(ids, neighbours, k) && i <= n < |ids| && ids[n] in ids
    requires !Shielded(ids, neighbours, minSize, n)
    ensures var a := ids[n];
            var taken := Assigned(Upto(ids, VectorPick(neighbours, Star(a, neighbours[a])), minSize, i));
            a !in taken && forall x :: x in neighbours[a] ==> x !in taken
  {
    var a := ids[n];
    var pick := VectorPick(neighbours, Star(a, neighbours[a]));
    if i == 0 {
      assert Assigned([]) == {};
    } else {
      StarStaysFree(ids, neighbours, k, minSize, n, i - 1);
      var b, done := ids[i - 1], Upto(ids, pick, minSize, i - 1);
      assert b in ids && b != a;
      EarlierTakesLittle(neighbours, a, b, Assigned(done));
      var c := pick(b, Assigned(done));
      AssignedAppend(done, c);
      NotShieldedBy(ids, neighbours, minSize, n, i - 1);
    }
  }

  lemma NotShieldedBy(ids: seq<Id>, neighbours: map<Id, seq<Id>>, minSize: int, n: nat, m: nat)
    requires m < n < |ids| && (forall x :: x in ids ==> x in neighbours) && !Shielded(ids, neighbours, minSize, n)
    ensures ids[m] in ids && ids[n] in ids
    ensures ids[m] in neighbours[ids[n]] ==> 1 < minSize && (minSize == 2 ==> ids[n] !in neighbours[ids[m]])
  {
  }

  /** When the whole answer is free, the star takes all of it. */
  lemma StarTakesAll(neighbours: map<Id, seq<Id>>, a: Id, taken: set<Id>)
    requires a in neighbours && a !in neighbours[a] && forall x :: x in neighbours[a] ==> x !in taken
    ensures VectorPick(neighbours, Star(a, neighbours[a]))(a, taken) == [a] + neighbours[a]
  {
    FilterOfAll(neighbours[a], Free(a, taken, Star(a, neighbours[a])));
  }

  lemma FreeTurnIsKept(ids: seq<Id>, pick: Pick, minSize: int, n: nat)
    requires n < |ids| && ids[n] !in Assigned(Upto(ids, pick, minSize, n))
    requires minSize <= |pick(ids[n], Assigned(Upto(ids, pick, minSize, n)))|
    ensures pick(ids[n], Assigned(Upto(ids, pick, minSize, n))) in Upto(ids, pick, minSize, |ids|)
  {
    var done := Upto(ids, pick, minSize, n);
    var c := pick(ids[n], Assigned(done));
    UptoGrows(ids, pick, minSize, n + 1, |ids|);
    assert Upto(ids, pick, minSize, n + 1)[|done|] == c;
    assert Upto(ids, pick, minSize, |ids|)[|done|] == c;
  }

  lemma UnshieldedGrowsTooLarge(ids: seq<Id>, neighbours: map<Id, seq<Id>>, k: nat, minSize: int, n: nat) returns (c: seq<Id>)
    requires IsTable(ids, neighbours, k) && minSize <= k + 2
    requires n < |ids| && ids[n] in ids && LeftOut(neighbours, k, ids[n]) && !Shielded(ids, neighbours, minSize, n)
    ensures Symmetric(Star(ids[n], neighbours[ids[n]])) && |c| == k + 2
    ensures c in VectorClusters(ids, neighbours, Star(ids[n], neighbours[ids[n]]), minSize)
  {
    var a := ids[n];
    var pick := VectorPick(neighbours, Star(a, neighbours[a]));
    var taken := Assigned(Upto(ids, pick, minSize, n));
    StarStaysFree(ids, neighbours, k, minSize, n, n);
    StarTakesAll(neighbours, a, taken);
    c := pick(a, taken);
    FreeTurnIsKept(ids, pick, minSize, n);
    SweepIsUpto(ids, neighbours, Star(a, neighbours[a]), minSize);
  }

  /** Main result: over a whole table, the documented size of `k + 1` is guaranteed
      exactly when every anchor that is missing from its own full answer is
      shielded by an earlier block of that answer. At the default minimum of two,
      that block must have the anchor in its answer in turn; larger minimums drop
      the pair the two would make, and then nothing shields. A minimum beyond
      `k + 2` leaves no clusters at all. */
  lemma VectorSizeIff(ids: seq<Id>, neighbours: map<Id, seq<Id>>, k: nat, minSize: int)
    requires IsTable(ids, neighbours, k)
    ensures AlwaysWithin(ids, neighbours, k, minSize) <==> k + 2 < minSize || AllShielded(ids, neighbours, k, minSize)
  {
    if k + 2 < minSize || AllShielded(ids, neighbours, k, minSize) {
      forall close: (Id, Id) -> bool, c: seq<Id> | Symmetric(close) && c in VectorClusters(ids, neighbours, close, minSize)
        ensures |c| <= k + 1
      {
        if k + 2 < minSize {
          NeverMoreThanTwoOver(ids, neighbours, close, k, minSize, c);
        } else {
          ShieldedIsWithin(ids, neighbours, close, k, minSize, c);
        }
      }
    } else {
      var n :| 0 <= n < |ids| && LeftOut(neighbours, k, ids[n]) && !Shielded(ids, neighbours, minSize, n);
      var c := UnshieldedGrowsTooLarge(ids, neighbours, k, minSize, n);
    }
  }

  /** Three blocks with the same embedding, two neighbours per query, and the first
      block answered with the two others: they make one cluster of three. */
  lemma ThreeTwins(ids: seq<Id>, neighbours: map<Id, seq<Id>>, close: (Id, Id) -> bool)
    requires |ids| == 3 && ids[0] == "a" && ids[1] == "b" && ids[2] == "c"
    requires neighbours == map[ids[0] := [ids[1], ids[2]], ids[1] := [ids[0], ids[1]], ids[2] := [ids[0], ids[2]]]
    requires forall x, y :: close(x, y)
    ensures IsTable(ids, neighbours, 1) && Symmetric(close)
    ensures ids in VectorClusters(ids, neighbours, close, 2)
  {
    var a, pick := ids[0], VectorPick(neighbours, close);
    TwinsAreATable(ids, neighbours);
    assert Assigned([]) == {};
    FilterOfAll(neighbours[a], Free(a, {}, close));
    assert pick(a, {}) == [a] + neighbours[a] == ids;
    FreeTurnIsKept(ids, pick, 2, 0);
    SweepIsUpto(ids, neighbours, close, 2);
  }

  lemma TwinsAreATable(ids: seq<Id>, neighbours: map<Id, seq<Id>>)
    requires |ids| == 3 && Distinct(ids)
    requires neighbours == map[ids[0] := [ids[1], ids[2]], ids[1] := [ids[0], ids[1]], ids[2] := [ids[0], ids[2]]]
    ensures IsTable(ids, neighbours, 1) && neighbours[ids[0]] == [ids[1], ids[2]]
  {
    assert neighbours[ids[1]] == [ids[0], ids[1]] && neighbours[ids[2]] == [ids[0], ids[2]];
  }
}
