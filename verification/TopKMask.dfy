/** The boolean mask of the `k` best scores, ties taken from the left.
 */
module TopKMask {
  import opened Sorting

  predicate RealGe(x: real, y: real) {
    x >= y
  }

  function AtLeast(v: real): real -> bool {
    x => x >= v
  }

  function Above(v: real): real -> bool {
    x => x > v
  }

  /** The last score of the `k` best; for `k` zero, Python's index -1 takes the least one. */
  function Threshold(scores: seq<real>, k: nat): real
    requires k < |scores|
  {
    Sort(scores, RealGe)[if k == 0 then |scores| - 1 else k - 1]
  }

  /** Marked: everything when `k` covers the list, otherwise the first `k` scores that reach the threshold. */
  predicate Marked(scores: seq<real>, k: nat, i: nat)
    requires i < |scores|
  {
    |scores| <= k || Reaches(scores, k, Threshold(scores, k), i)
  }

  /** Score `i` reaches the threshold, and fewer than `k` did before it. */
  predicate Reaches(scores: seq<real>, k: nat, threshold: real, i: nat)
    requires i < |scores|
  {
    scores[i] >= threshold && Count(scores[..i], AtLeast(threshold)) < k
  }

  function Trues(mask: seq<bool>): nat {
    if mask == [] then 0 else Trues(mask[..|mask| - 1]) + if mask[|mask| - 1] then 1 else 0
  }

  function Min(a: nat, b: nat): nat {
    if a < b then a else b
  }

  lemma CountNext(s: seq<real>, i: nat, p: real -> bool)
    requires i < |s|
    ensures Count(s[..i + 1], p) == Count(s[..i], p) + if p(s[i]) then 1 else 0
  {
    assert s[..i + 1] == s[..i] + [s[i]];
    CountOneMore(s[..i], s[i], p);
  }

  /** Exactly `min(k, n)` entries are marked, ties included. */
  method TopK(scores: seq<real>, k: nat) returns (mask: seq<bool>)
    ensures |mask| == |scores|
    ensures forall i | 0 <= i < |scores| :: mask[i] <==> Marked(scores, k, i)
    ensures Trues(mask) == Min(k, |scores|)
  {
    if k >= |scores| {
      mask := seq(|scores|, i => true);
      AllTrue(mask);
      return;
    }
    var threshold := Threshold(scores, k);
    mask := FirstReaching(scores, k, threshold);
    ThresholdCounts(scores, k);
  }

  lemma TruesOneMore(mask: seq<bool>)
    ensures Trues(mask + [true]) == Trues(mask) + 1 && Trues(mask + [false]) == Trues(mask)
  {
    assert (mask + [true])[..|mask|] == mask && (mask + [false])[..|mask|] == mask;
  }

  /** Marks the scores that reach the threshold until `k` of them are marked. */
  method FirstReaching(scores: seq<real>, k: nat, threshold: real) returns (mask: seq<bool>)
    ensures |mask| == |scores| && Trues(mask) == Min(k, Count(scores, AtLeast(threshold)))
    ensures forall i | 0 <= i < |scores| :: mask[i] <==> Reaches(scores, k, threshold, i)
  {
    var count := 0;
    mask := [];
    for i := 0 to |scores|
      invariant |mask| == i && count == Trues(mask)
      invariant count == Min(k, Count(scores[..i], AtLeast(threshold)))
      invariant forall j | 0 <= j < i :: mask[j] <==> Reaches(scores, k, threshold, j)
    {
      CountNext(scores, i, AtLeast(threshold));
      TruesOneMore(mask);
      var s := scores[i];
      assert Reaches(scores, k, threshold, i) <==> s >= threshold && count < k;
      if s >= threshold && count < k {
        mask := mask + [true];
        count := count + 1;
      } else {
        mask := mask + [false];
      }
    }
    assert scores[..|scores|] == scores;
  }

  lemma {:induction false} AllTrue(mask: seq<bool>)
    requires forall i | 0 <= i < |mask| :: mask[i]
    ensures Trues(mask) == |mask|
  {
    if mask != [] {
      AllTrue(mask[..|mask| - 1]);
    }
  }

  lemma GeOrder()
    ensures TotalPreorder(RealGe) && AntiSymmetric(RealGe)
  {
  }

  lemma FirstAtLeast(ranked: seq<real>, i: nat)
    requires Sorted(ranked, RealGe) && i < |ranked|
    ensures Count(ranked, AtLeast(ranked[i])) >= i + 1
  {
    var t := ranked[i];
    forall j | 0 <= j <= i
      ensures AtLeast(t)(ranked[j])
    {
      assert j < i ==> RealGe(ranked[j], ranked[i]);
    }
    CountLeading(ranked, i + 1, AtLeast(t));
  }

  lemma RestNotAbove(ranked: seq<real>, i: nat)
    requires Sorted(ranked, RealGe) && i < |ranked|
    ensures Count(ranked, Above(ranked[i])) <= i
  {
    var t := ranked[i];
    forall j | i <= j < |ranked|
      ensures !Above(t)(ranked[j])
    {
      assert i < j ==> RealGe(ranked[i], ranked[j]);
    }
    CountTrailing(ranked, i, Above(t));
  }

  /** At least `k` scores reach the threshold, and fewer than `k` exceed it. */
  lemma ThresholdCounts(scores: seq<real>, k: nat)
    requires k < |scores|
    ensures Count(scores, AtLeast(Threshold(scores, k))) >= k
    ensures 0 < k ==> Count(scores, Above(Threshold(scores, k))) < k
  {
    var ranked, i, t := Sort(scores, RealGe), if k == 0 then |scores| - 1 else k - 1, Threshold(scores, k);
    GeOrder();
    SortSorted(scores, RealGe);
    FirstAtLeast(ranked, i);
    RestNotAbove(ranked, i);
    CountPermutation(scores, ranked, AtLeast(t));
    CountPermutation(scores, ranked, Above(t));
  }

  // ----- dominance -----

  ghost predicate StrictlyDominates(scores: seq<real>, k: nat) {
    forall i, j | 0 <= i < |scores| && 0 <= j < |scores| && Marked(scores, k, i) && !Marked(scores, k, j) ::
      scores[i] > scores[j]
  }

  ghost predicate Dominates(scores: seq<real>, k: nat) {
    forall i, j | 0 <= i < |scores| && 0 <= j < |scores| && Marked(scores, k, i) && !Marked(scores, k, j) ::
      scores[i] >= scores[j]
  }

  lemma {:induction false} CountPrefix(s: seq<real>, i: nat, p: real -> bool)
    requires i < |s| && p(s[i])
    ensures Count(s[..i], p) < Count(s, p)
  {
    CountNext(s, i, p);
    CountAppend(s[..i + 1], s[i + 1..], p);
    assert s == s[..i + 1] + s[i + 1..];
  }

  /** The number of marks among the first `n` places. */
  ghost function Marks(scores: seq<real>, k: nat, n: nat): nat
    requires n <= |scores|
  {
    if n == 0 then 0 else Marks(scores, k, n - 1) + if Marked(scores, k, n - 1) then 1 else 0
  }

  lemma {:induction false} MarksAre(scores: seq<real>, k: nat, n: nat)
    requires n <= |scores| && k < |scores|
    ensures Marks(scores, k, n) == Min(k, Count(scores[..n], AtLeast(Threshold(scores, k))))
  {
    if n != 0 {
      MarksAre(scores, k, n - 1);
      CountNext(scores, n - 1, AtLeast(Threshold(scores, k)));
    }
  }

  /** When every mark is above `v`, there are no more marks than scores above `v`. */
  lemma {:induction false} MarksAbove(scores: seq<real>, k: nat, v: real, n: nat)
    requires n <= |scores|
    requires forall i | 0 <= i < n && Marked(scores, k, i) :: scores[i] > v
    ensures Marks(scores, k, n) <= Count(scores[..n], Above(v))
  {
    if n != 0 {
      MarksAbove(scores, k, v, n - 1);
      CountNext(scores, n - 1, Above(v));
    }
  }

  /** Some mark sits exactly at the threshold. */
  lemma MarkAtThreshold(scores: seq<real>, k: nat) returns (i: nat)
    requires 0 < k < |scores|
    ensures i < |scores| && Marked(scores, k, i) && scores[i] == Threshold(scores, k)
  {
    var n, t := |scores|, Threshold(scores, k);
    assert scores[..n] == scores;
    ThresholdCounts(scores, k);
    MarksAre(scores, k, n);
    if forall j | 0 <= j < n && Marked(scores, k, j) :: scores[j] > t {
      MarksAbove(scores, k, t, n);
    }
    i :| 0 <= i < n && Marked(scores, k, i) && !(scores[i] > t);
  }

  lemma {:induction false} AllReachingMarked(scores: seq<real>, k: nat, n: nat)
    requires n <= |scores| && k < |scores|
    requires forall i | 0 <= i < n && scores[i] >= Threshold(scores, k) :: Marked(scores, k, i)
    ensures Count(scores[..n], AtLeast(Threshold(scores, k))) <= Marks(scores, k, n)
  {
    if n != 0 {
      AllReachingMarked(scores, k, n - 1);
      CountNext(scores, n - 1, AtLeast(Threshold(scores, k)));
    }
  }

  lemma UnmarkedIsBelow(scores: seq<real>, k: nat, j: nat)
    requires k < |scores| && j < |scores| && !Marked(scores, k, j)
    requires Count(scores, AtLeast(Threshold(scores, k))) == k
    ensures scores[j] < Threshold(scores, k)
  {
    if scores[j] >= Threshold(scores, k) {
      CountPrefix(scores, j, AtLeast(Threshold(scores, k)));
    }
  }

  lemma UnmarkedReaches(scores: seq<real>, k: nat) returns (j: nat)
    requires k < |scores| && Count(scores, AtLeast(Threshold(scores, k))) > k
    ensures j < |scores| && scores[j] >= Threshold(scores, k) && !Marked(scores, k, j)
  {
    var n := |scores|;
    assert scores[..n] == scores;
    MarksAre(scores, k, n);
    if forall i | 0 <= i < n && scores[i] >= Threshold(scores, k) :: Marked(scores, k, i) {
      AllReachingMarked(scores, k, n);
    }
    j :| 0 <= j < n && scores[j] >= Threshold(scores, k) && !Marked(scores, k, j);
  }

  /** Main result: every marked score exceeds every unmarked one exactly when
      exactly `k` scores reach the threshold. */
  lemma {:induction false} StrictDominanceIff(scores: seq<real>, k: nat)
    requires 0 < k < |scores|
    ensures StrictlyDominates(scores, k) <==> Count(scores, AtLeast(Threshold(scores, k))) == k
  {
    ThresholdCounts(scores, k);
    if Count(scores, AtLeast(Threshold(scores, k))) == k {
      forall j | 0 <= j < |scores| && !Marked(scores, k, j)
        ensures scores[j] < Threshold(scores, k)
      {
        UnmarkedIsBelow(scores, k, j);
      }
    } else {
      var i := MarkAtThreshold(scores, k);
      var j := UnmarkedReaches(scores, k);
      assert !(scores[i] > scores[j]);
    }
  }

  /** No marked score is below an unmarked one exactly when every score above the
      threshold stands among the first `k` that reach it. */
  lemma DominanceIff(scores: seq<real>, k: nat)
    requires 0 < k < |scores|
    ensures Dominates(scores, k) <==>
            forall i | 0 <= i < |scores| && scores[i] > Threshold(scores, k) ::
              Count(scores[..i], AtLeast(Threshold(scores, k))) < k
  {
    var t := Threshold(scores, k);
    var m := MarkAtThreshold(scores, k);
    if Dominates(scores, k) {
      forall i | 0 <= i < |scores| && scores[i] > t
        ensures Marked(scores, k, i)
      {
        assert Marked(scores, k, m);
      }
    }
  }

  lemma ThresholdOfTies(scores: seq<real>)
    requires |scores| == 3 && scores[0] == scores[1] == 1.0 && scores[2] == 2.0
    ensures Threshold(scores, 2) == 1.0
  {
    var t := Threshold(scores, 2);
    SameElements(scores, Sort(scores, RealGe));
    assert t in Sort(scores, RealGe);
    ThresholdCounts(scores, 2);
  }

  /** With scores 1, 1, 2 and two places, the best score is left out. */
  lemma TiesCanShutOutTheBest(scores: seq<real>)
    requires |scores| == 3 && scores[0] == scores[1] == 1.0 && scores[2] == 2.0
    ensures !Marked(scores, 2, 2) && !Dominates(scores, 2)
  {
    ThresholdOfTies(scores);
    CountNext(scores, 0, AtLeast(1.0));
    CountNext(scores, 1, AtLeast(1.0));
    assert Count(scores[..2], AtLeast(1.0)) == 2;
    var m := MarkAtThreshold(scores, 2);
  }
}
