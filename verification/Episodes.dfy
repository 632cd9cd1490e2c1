/** The synthetic episode grid of the feedback benchmark: six families of hits and
    the independent labeller that says which of them cover what was needed.
 */
module Episodes {
  import opened Common
  import opened Decimals
  import opened Texts

  datatype Hit = Hit(excerpt: string, lifecycle: string, status: string, validity: real, fact: Option<string>)

  // ----- building blocks -----

  const MARKER := "topicmarker"

  function TopicText(id: nat): string {
    MARKER + Padded(id, 5)
  }

  function Fact(i: nat): string {
    "F" + Decimal(i)
  }

  function Facts(n: nat): (facts: seq<string>)
    ensures |facts| == n && forall i | 0 <= i < n :: facts[i] == Fact(i)
  {
    seq(n, i requires 0 <= i => Fact(i))
  }

  /** A durable, active hit with the excerpt of topic `id`. */
  function Kept(id: nat, fact: Option<string>, validity: real): Hit {
    Hit(TopicText(id), "durable", "active", validity, fact)
  }

  /** A hit that was pruned from the durable record. */
  function Pruned(id: nat, fact: Option<string>): Hit {
    Hit(TopicText(id), "ephemeral", "superseded", 1.0, fact)
  }

  // ----- the families, from the next free topic id on -----

  function S1(from: nat, n: nat): seq<Hit> {
    seq(n, i requires 0 <= i => Kept(from + i, Some(Fact(i)), 1.0))
  }

  function S2(from: nat, n: nat): seq<Hit> {
    S1(from, n) + seq(3, i requires 0 <= i => Kept(from + n + i, None, 1.0))
  }

  function F1(from: nat, n: nat): seq<Hit> {
    seq(n / 3, i requires 0 <= i => Kept(from + i, Some(Fact(i)), 1.0))
  }

  function F2(from: nat, n: nat): seq<Hit> {
    [Kept(from, Some(Fact(0)), 0.9)] +
    (if n == 0 then [] else seq(n - 1, i requires 0 <= i => Kept(from, Some(Fact(i + 1)), 0.9)))
  }

  function F3Hit(from: nat, n: nat, i: nat): Hit {
    Kept(from + i, Some(Fact(i)), if i < n / 3 then 1.0 else 0.0)
  }

  function F3(from: nat, n: nat): seq<Hit> {
    seq(n, i requires 0 <= i => F3Hit(from, n, i))
  }

  function F4Hit(from: nat, n: nat, i: nat): Hit {
    if i < n / 3 then Kept(from + i, Some(Fact(i)), 1.0) else Pruned(from + i, Some(Fact(i)))
  }

  function F4(from: nat, n: nat): seq<Hit> {
    seq(n, i requires 0 <= i => F4Hit(from, n, i))
  }

  /** The shared `itertools.count`. */
  class Topics {
    var next: nat

    constructor (start: nat)
      ensures next == start
    {
      next := start;
    }

    method Take() returns (id: nat)
      modifies this
      ensures id == old(next) && next == old(next) + 1
    {
      id := next;
      next := next + 1;
    }

    method FreshHit(fact: Option<string>, validity: real) returns (h: Hit)
      modifies this
      ensures h == Kept(old(next), fact, validity) && next == old(next) + 1
    {
      var id := Take();
      h := Kept(id, fact, validity);
    }

    method FreshPrunedHit(fact: Option<string>) returns (h: Hit)
      modifies this
      ensures h == Pruned(old(next), fact) && next == old(next) + 1
    {
      var id := Take();
      h := Pruned(id, fact);
    }

    method BuildS1(n: nat) returns (hits: seq<Hit>, facts: seq<string>)
      modifies this
      ensures hits == S1(old(next), n) && facts == Facts(n) && next == old(next) + n
    {
      facts := Facts(n);
      hits := [];
      for i := 0 to n
        invariant hits == S1(old(next), i) && next == old(next) + i
      {
        var h := FreshHit(Some(facts[i]), 1.0);
        hits := hits + [h];
      }
    }

    method BuildS2(n: nat) returns (hits: seq<Hit>, facts: seq<string>)
      modifies this
      ensures hits == S2(old(next), n) && facts == Facts(n) && next == old(next) + n + 3
    {
      hits, facts := BuildS1(n);
      var junk: seq<Hit> := [];
      for i := 0 to 3
        invariant next == old(next) + n + i
        invariant junk == seq(i, j requires 0 <= j => Kept(old(next) + n + j, None, 1.0))
      {
        var h := FreshHit(None, 1.0);
        junk := junk + [h];
      }
      hits := hits + junk;
    }

    method BuildF1(n: nat) returns (hits: seq<Hit>, facts: seq<string>)
      modifies this
      ensures hits == F1(old(next), n) && facts == Facts(n) && next == old(next) + n / 3
    {
      facts := Facts(n);
      hits := [];
      for i := 0 to n / 3
        invariant hits == S1(old(next), i) && next == old(next) + i
      {
        var h := FreshHit(Some(facts[i]), 1.0);
        hits := hits + [h];
      }
    }

    /** The duplicates use up topic ids but repeat the first excerpt. */
    method BuildF2(n: nat) returns (hits: seq<Hit>, facts: seq<string>)
      requires 0 < n
      modifies this
      ensures hits == F2(old(next), n) && facts == Facts(n) && next == old(next) + n
    {
      facts := Facts(n);
      var baseId := Take();
      hits := [Kept(baseId, Some(facts[0]), 0.9)];
      for i := 1 to n
        invariant hits == F2(baseId, i) && next == baseId + i
      {
        var _ := Take();
        hits := hits + [Kept(baseId, Some(facts[i]), 0.9)];
      }
    }

    method BuildF3(n: nat) returns (hits: seq<Hit>, facts: seq<string>)
      modifies this
      ensures hits == F3(old(next), n) && facts == Facts(n) && next == old(next) + n
    {
      facts := Facts(n);
      hits := [];
      ghost var start, all := next, F3(next, n);
      for i := 0 to n
        invariant hits == all[..i] && next == start + i
      {
        var validity := if i < n / 3 then 1.0 else 0.0;
        var h := FreshHit(Some(facts[i]), validity);
        assert h == F3Hit(start, n, i) == all[i];
        TakeOneMore(all, i);
        hits := hits + [h];
      }
    }

    method BuildF4(n: nat) returns (hits: seq<Hit>, facts: seq<string>)
      modifies this
      ensures hits == F4(old(next), n) && facts == Facts(n) && next == old(next) + n
    {
      facts := Facts(n);
      hits := [];
      ghost var start, all := next, F4(next, n);
      for i := 0 to n
        invariant hits == all[..i] && next == start + i
      {
        assert all[i] == F4Hit(start, n, i);
        var h;
        if i < n / 3 {
          h := FreshHit(Some(facts[i]), 1.0);
        } else {
          h := FreshPrunedHit(Some(facts[i]));
        }
        assert h == all[i];
        TakeOneMore(all, i);
        hits := hits + [h];
      }
    }
  }

  // ----- the labeller -----

  type Tokens = set<string>

  function LabelTokens(text: string): Tokens {
    set w | w in Words(Lower(text))
  }

  predicate TooSimilar(a: Tokens, b: Tokens) {
    a + b != {} && 10 * |a * b| >= 6 * |a + b|
  }

  predicate NearDuplicate(tokens: Tokens, counted: seq<Tokens>) {
    tokens != {} && exists prior :: prior in counted && TooSimilar(tokens, prior)
  }

  method IsNearDuplicate(tokens: Tokens, counted: seq<Tokens>) returns (r: bool)
    ensures r == NearDuplicate(tokens, counted)
  {
    if tokens == {} {
      return false;
    }
    for i := 0 to |counted|
      invariant forall j | 0 <= j < i :: !TooSimilar(tokens, counted[j])
    {
      var all := tokens + counted[i];
      if all == {} {
        continue;
      }
      if |tokens * counted[i]| as real / |all| as real >= 0.6 {
        ShareIsRatio(|tokens * counted[i]|, |all|);
        assert counted[i] in counted;
        return true;
      }
      ShareIsRatio(|tokens * counted[i]|, |all|);
    }
    r := false;
  }

  lemma QuotientAtLeast(a: real, b: real, c: real)
    requires 0.0 < b
    ensures a / b >= c <==> a >= c * b
  {
    var q := a / b;
    assert q * b == a;
    if q >= c {
      assert (q - c) * b >= 0.0;
    } else {
      assert (c - q) * b > 0.0;
    }
  }

  lemma ShareIsRatio(a: nat, b: nat)
    requires 0 < b
    ensures a as real / b as real >= 0.6 <==> 10 * a >= 6 * b
  {
    QuotientAtLeast(a as real, b as real, 0.6);
  }

  /** Two token sets are too similar when at most two in five of their tokens are not shared. */
  lemma SimilarIff(a: Tokens, b: Tokens)
    ensures TooSimilar(a, b) <==> a + b != {} && 3 * |(a - b) + (b - a)| <= 2 * |a * b|
  {
    assert a + b == a * b + ((a - b) + (b - a)) && a * b !! ((a - b) + (b - a));
  }

  predicate Sound(h: Hit) {
    Lower(Strip(h.lifecycle)) == "durable" && Lower(Strip(h.status)) == "active" && h.validity >= 0.5
  }

  /** All that the labeller reads of a hit. */
  datatype View = View(fact: Option<string>, tokens: Tokens, sound: bool)

  function Seen(h: Hit): View {
    View(h.fact, LabelTokens(h.excerpt), Sound(h))
  }

  function Views(hits: seq<Hit>): (views: seq<View>)
    ensures |views| == |hits| && forall i | 0 <= i < |hits| :: views[i] == Seen(hits[i])
  {
    seq(|hits|, i requires 0 <= i < |hits| => Seen(hits[i]))
  }

  datatype State = State(covered: set<string>, counted: seq<Tokens>)

  function Step(s: State, v: View): State {
    if v.fact.None? || NearDuplicate(v.tokens, s.counted) || !v.sound then s
    else State(s.covered + {v.fact.value}, s.counted + [v.tokens])
  }

  function Run(views: seq<View>): State {
    if views == [] then State({}, []) else Step(Run(views[..|views| - 1]), views[|views| - 1])
  }

  predicate Covers(views: seq<View>, needed: seq<string>) {
    forall f :: f in needed ==> f in Run(views).covered
  }

  predicate Label(hits: seq<Hit>, needed: seq<string>) {
    Covers(Views(hits), needed)
  }

  method GroundTruthLabel(hits: seq<Hit>, needed: seq<string>) returns (sufficient: bool)
    ensures sufficient == Label(hits, needed)
  {
    ghost var views := Views(hits);
    var covered: set<string>, counted: seq<Tokens> := {}, [];
    for i := 0 to |hits|
      invariant State(covered, counted) == Run(views[..i])
    {
      assert views[..i + 1][..i] == views[..i];
      var hit := hits[i];
      if hit.fact.None? {
        continue;
      }
      var tokens := LabelTokens(hit.excerpt);
      var duplicate := IsNearDuplicate(tokens, counted);
      if duplicate {
        continue;
      }
      if Sound(hit) {
        covered := covered + {hit.fact.value};
        counted := counted + [tokens];
      }
    }
    assert views[..|hits|] == views;
    sufficient := forall f :: f in needed ==> f in covered;
  }

  /** Hit `i` counts: it is sound, carries a fact, and no earlier hit that
      counts is too similar to it. A hit without tokens is similar to none. */
  ghost predicate Counts(views: seq<View>, i: nat)
    decreases i
  {
    && i < |views| && views[i].sound && views[i].fact.Some?
    && (views[i].tokens == {} || forall j: nat | j < i && Counts(views, j) :: !TooSimilar(views[i].tokens, views[j].tokens))
  }

  lemma {:induction false} CountsInPrefix(views: seq<View>, n: nat, i: nat)
    requires i < n <= |views|
    ensures Counts(views[..n], i) <==> Counts(views, i)
    decreases i
  {
    forall j: nat | j < i
      ensures Counts(views[..n], j) <==> Counts(views, j)
    {
      CountsInPrefix(views, n, j);
    }
  }

  /** Hit `i` counts and carries fact `f`. */
  ghost predicate Carries(views: seq<View>, i: nat, f: string) {
    Counts(views, i) && views[i].fact == Some(f)
  }

  ghost predicate Says(views: seq<View>, i: nat, t: Tokens) {
    Counts(views, i) && views[i].tokens == t
  }

  lemma CarriesOneMore(views: seq<View>, front: seq<View>, f: string)
    requires views != [] && front == views[..|views| - 1]
    ensures (exists i: nat :: Carries(views, i, f)) <==> (exists i: nat :: Carries(front, i, f)) || Carries(views, |front|, f)
  {
    var n := |views| - 1;
    if i: nat :| Carries(views, i, f) {
      if i < n {
        CountsInPrefix(views, n, i);
        assert Carries(front, i, f);
      }
    }
    if i: nat :| Carries(front, i, f) {
      CountsInPrefix(views, n, i);
      assert Carries(views, i, f);
    }
  }

  lemma SaysOneMore(views: seq<View>, front: seq<View>, t: Tokens)
    requires views != [] && front == views[..|views| - 1]
    ensures (exists i: nat :: Says(views, i, t)) <==> (exists i: nat :: Says(front, i, t)) || Says(views, |front|, t)
  {
    var n := |views| - 1;
    if i: nat :| Says(views, i, t) {
      if i < n {
        CountsInPrefix(views, n, i);
        assert Says(front, i, t);
      }
    }
    if i: nat :| Says(front, i, t) {
      CountsInPrefix(views, n, i);
      assert Says(views, i, t);
    }
  }

  /** What has been covered and counted comes from the hits that count. */
  ghost predicate RunIs(s: State, views: seq<View>) {
    && (forall f :: f in s.covered <==> exists i: nat :: Carries(views, i, f))
    && (forall t :: t in s.counted <==> exists i: nat :: Says(views, i, t))
  }

  lemma LastCounts(views: seq<View>, s: State)
    requires views != [] && RunIs(s, views[..|views| - 1])
    ensures var v := views[|views| - 1];
            Counts(views, |views| - 1) <==> v.fact.Some? && !NearDuplicate(v.tokens, s.counted) && v.sound
  {
    var n := |views| - 1;
    var v := views[n];
    if prior :| prior in s.counted && TooSimilar(v.tokens, prior) {
      var j: nat :| Says(views[..n], j, prior);
      CountsInPrefix(views, n, j);
    }
    forall j: nat | j < n && Counts(views, j)
      ensures views[j].tokens in s.counted
    {
      CountsInPrefix(views, n, j);
      assert Says(views[..n], j, views[j].tokens);
    }
  }

  lemma RunOneMore(views: seq<View>, s: State)
    requires views != [] && RunIs(s, views[..|views| - 1])
    ensures RunIs(Step(s, views[|views| - 1]), views)
  {
    LastCounts(views, s);
    var s' := Step(s, views[|views| - 1]);
    forall f
      ensures f in s'.covered <==> exists i: nat :: Carries(views, i, f)
    {
      CarriesOneMore(views, views[..|views| - 1], f);
    }
    forall t
      ensures t in s'.counted <==> exists i: nat :: Says(views, i, t)
    {
      SaysOneMore(views, views[..|views| - 1], t);
    }
  }

  lemma {:induction false} RunIsItsCounts(views: seq<View>)
    ensures RunIs(Run(views), views)
    decreases |views|
  {
    if views != [] {
      RunIsItsCounts(views[..|views| - 1]);
      RunOneMore(views, Run(views[..|views| - 1]));
    }
  }

  /** Main result: an episode is sufficient exactly when every needed fact is
      carried by a hit that counts. A pruned or invalid hit neither covers its
      fact nor makes a later one a duplicate. */
  lemma LabelIff(hits: seq<Hit>, needed: seq<string>)
    ensures Label(hits, needed) <==>
            forall f :: f in needed ==> exists i: nat :: Carries(Views(hits), i, f)
  {
    RunIsItsCounts(Views(hits));
  }

  // ----- topics never collide -----

  lemma TopicIsPlain(id: nat)
    ensures PlainWord(TopicText(id))
  {
    assert forall i | 0 <= i < |MARKER| :: 'a' <= MARKER[i] <= 'z';
    assert forall i | 0 <= i < |TopicText(id)| :: 'a' <= TopicText(id)[i] <= 'z' || '0' <= TopicText(id)[i] <= '9';
  }

  lemma TopicTokens(id: nat)
    ensures LabelTokens(TopicText(id)) == {TopicText(id)}
  {
    TopicIsPlain(id);
    PlainWordIsItself(TopicText(id));
    PlainWordIsOneWord(TopicText(id));
  }

  /** Two topics have the same text only when they are the same topic, however large the ids grow. */
  lemma TopicTextInjective(a: nat, b: nat)
    requires TopicText(a) == TopicText(b)
    ensures a == b
  {
    assert TopicText(a)[|MARKER|..] == Padded(a, 5) && TopicText(b)[|MARKER|..] == Padded(b, 5);
    PaddedInjective(a, b, 5);
  }

  lemma FactInjective(i: nat, j: nat)
    requires Fact(i) == Fact(j)
    ensures i == j
  {
    assert Fact(i)[1..] == Decimal(i) && Fact(j)[1..] == Decimal(j);
    DecimalInjective(i, j);
  }

  /** Two excerpts of one word each are near-duplicates exactly when the words are the same. */
  lemma SingleWordsSimilarIff(a: string, b: string)
    ensures TooSimilar({a}, {b}) <==> a == b
  {
    var x, y := {a}, {b};
    if a == b {
      assert x * y == x && x + y == x;
    } else {
      assert x * y == {};
    }
  }

  lemma PlainFieldsAreReadAsTheyAre(h: Hit)
    requires PlainWord(h.lifecycle) && PlainWord(h.status)
    ensures Sound(h) <==> h.lifecycle == "durable" && h.status == "active" && h.validity >= 0.5
  {
    PlainWordIsItself(h.lifecycle);
    PlainWordIsItself(h.status);
  }

  lemma SeenKept(id: nat, fact: Option<string>, validity: real)
    ensures Seen(Kept(id, fact, validity)) == View(fact, {TopicText(id)}, validity >= 0.5)
  {
    TopicTokens(id);
    PlainFieldsAreReadAsTheyAre(Kept(id, fact, validity));
  }

  lemma PrunedIsNotSound(id: nat, fact: Option<string>)
    ensures Seen(Pruned(id, fact)).fact == fact && !Seen(Pruned(id, fact)).sound
  {
    PlainFieldsAreReadAsTheyAre(Pruned(id, fact));
  }

  // ----- what the labeller makes of a list of hits -----

  lemma NewWordIsNoDuplicate(word: string, words: seq<string>, counted: seq<Tokens>)
    requires |counted| == |words| && forall i | 0 <= i < |words| :: words[i] != word && counted[i] == {words[i]}
    ensures !NearDuplicate({word}, counted)
  {
    forall prior | prior in counted
      ensures !TooSimilar({word}, prior)
    {
      var i :| 0 <= i < |counted| && counted[i] == prior;
      SingleWordsSimilarIff(word, words[i]);
    }
  }

  /** Sound hits on pairwise different words are all counted. */
  lemma {:induction false} DistinctWordsCover(views: seq<View>, words: seq<string>, facts: seq<string>)
    requires |views| == |words| == |facts|
    requires forall i, j | 0 <= i < j < |words| :: words[i] != words[j]
    requires forall i | 0 <= i < |views| :: views[i] == View(Some(facts[i]), {words[i]}, true)
    ensures Run(views).covered == (set f | f in facts)
    ensures |Run(views).counted| == |words| && forall i | 0 <= i < |words| :: Run(views).counted[i] == {words[i]}
    decreases |views|
  {
    if views != [] {
      var m := |views| - 1;
      DistinctWordsCover(views[..m], words[..m], facts[..m]);
      NewWordIsNoDuplicate(words[m], words[..m], Run(views[..m]).counted);
      assert facts == facts[..m] + [facts[m]];
    }
  }

  /** Sound hits that all say the same word cover the first fact alone. */
  lemma {:induction false} RepeatedWordCoversOne(views: seq<View>, word: string, facts: seq<string>)
    requires 0 < |views| == |facts|
    requires forall i | 0 <= i < |views| :: views[i] == View(Some(facts[i]), {word}, true)
    ensures Run(views) == State({facts[0]}, [{word}])
    decreases |views|
  {
    var m := |views| - 1;
    if m == 0 {
      assert Run(views[..0]) == State({}, []);
    } else {
      RepeatedWordCoversOne(views[..m], word, facts[..m]);
      SingleWordsSimilarIff(word, word);
      assert {word} in Run(views[..m]).counted;
    }
  }

  /** Hits without a fact change nothing. */
  lemma {:induction false} JunkChangesNothing(views: seq<View>, junk: seq<View>)
    requires forall i | 0 <= i < |junk| :: junk[i].fact.None?
    ensures Run(views + junk) == Run(views)
    decreases |junk|
  {
    if junk == [] {
      assert views + junk == views;
    } else {
      var n := |junk| - 1;
      JunkChangesNothing(views, junk[..n]);
      assert (views + junk)[..|views| + n] == views + junk[..n];
    }
  }

  /** Only a sound hit covers its fact. */
  lemma {:induction false} CoveredHasSoundHit(views: seq<View>, fact: string) returns (i: nat)
    requires fact in Run(views).covered
    ensures i < |views| && views[i].fact == Some(fact) && views[i].sound
    decreases |views|
  {
    var n := |views| - 1;
    if fact in Run(views[..n]).covered {
      i := CoveredHasSoundHit(views[..n], fact);
    } else {
      i := n;
    }
  }

  // ----- what it says of each family, for every demand and every start of the topic counter -----

  lemma SeenS1(from: nat, n: nat, i: nat)
    requires i < n
    ensures Views(S1(from, n))[i] == View(Some(Fact(i)), {TopicText(from + i)}, true)
  {
    SeenKept(from + i, Some(Fact(i)), 1.0);
  }

  function TopicsFrom(from: nat, n: nat): (words: seq<string>)
    ensures |words| == n && forall i | 0 <= i < n :: words[i] == TopicText(from + i)
  {
    seq(n, i requires 0 <= i => TopicText(from + i))
  }

  lemma TopicsDiffer(from: nat, n: nat, i: nat, j: nat)
    requires i < j < n
    ensures TopicsFrom(from, n)[i] != TopicsFrom(from, n)[j]
  {
    if TopicText(from + i) == TopicText(from + j) {
      TopicTextInjective(from + i, from + j);
    }
  }

  lemma S1CoversItsFacts(from: nat, n: nat, views: seq<View>, facts: seq<string>)
    requires views == Views(S1(from, n)) && facts == Facts(n)
    ensures Covers(views, facts)
  {
    var words := TopicsFrom(from, n);
    forall i, j | 0 <= i < j < n
      ensures words[i] != words[j]
    {
      TopicsDiffer(from, n, i, j);
    }
    forall i | 0 <= i < n
      ensures views[i] == View(Some(facts[i]), {words[i]}, true)
    {
      SeenS1(from, n, i);
    }
    DistinctWordsCover(views, words, facts);
  }

  lemma NoiseIsNotSeen(from: nat, n: nat)
    ensures Run(Views(S2(from, n))) == Run(Views(S1(from, n)))
  {
    var clean, noisy := Views(S1(from, n)), Views(S2(from, n));
    var junk := noisy[n..];
    forall i | 0 <= i < n
      ensures noisy[i] == clean[i]
    {
      assert S2(from, n)[i] == S1(from, n)[i];
    }
    forall i | 0 <= i < 3
      ensures junk[i].fact.None?
    {
      assert S2(from, n)[n + i] == Kept(from + n + i, None, 1.0);
    }
    assert noisy == clean + junk;
    JunkChangesNothing(clean, junk);
  }

  /** Sufficient episodes are labelled so, with or without noise. */
  lemma {:induction false} SufficientIsTrue(from: nat, n: nat)
    ensures Label(S1(from, n), Facts(n)) && Label(S2(from, n), Facts(n))
  {
    S1CoversItsFacts(from, n, Views(S1(from, n)), Facts(n));
    NoiseIsNotSeen(from, n);
  }

  /** When only the first third carries its own fact soundly, the last fact is missing. */
  lemma FewSoundHitsFail(views: seq<View>, n: nat)
    requires 0 < n
    requires forall i | 0 <= i < |views| && views[i].sound :: i < n / 3 && views[i].fact == Some(Fact(i))
    ensures !Covers(views, Facts(n))
  {
    var last := Fact(n - 1);
    assert Facts(n)[n - 1] == last;
    if last in Run(views).covered {
      var i := CoveredHasSoundHit(views, last);
      FactInjective(n - 1, i);
    }
  }

  lemma SeenF1(from: nat, n: nat, i: nat)
    requires i < n / 3
    ensures Views(F1(from, n))[i].fact == Some(Fact(i))
  {
  }

  lemma SeenF3(from: nat, n: nat, i: nat)
    requires i < n
    ensures Views(F3(from, n))[i].fact == Some(Fact(i)) && (Views(F3(from, n))[i].sound ==> i < n / 3)
  {
    if n / 3 <= i {
      assert F3(from, n)[i] == Kept(from + i, Some(Fact(i)), 0.0);
      SeenKept(from + i, Some(Fact(i)), 0.0);
    }
  }

  lemma SeenF4(from: nat, n: nat, i: nat)
    requires i < n
    ensures Views(F4(from, n))[i].fact == Some(Fact(i)) && (Views(F4(from, n))[i].sound ==> i < n / 3)
  {
    if n / 3 <= i {
      assert F4(from, n)[i] == Pruned(from + i, Some(Fact(i)));
      PrunedIsNotSound(from + i, Some(Fact(i)));
    }
  }

  lemma StarvedIsFalse(from: nat, n: nat, views: seq<View>)
    requires 0 < n && views == Views(F1(from, n))
    ensures !Covers(views, Facts(n))
  {
    forall i | 0 <= i < n / 3
      ensures views[i].fact == Some(Fact(i))
    {
      SeenF1(from, n, i);
    }
    FewSoundHitsFail(views, n);
  }

  lemma ContradictedIsFalse(from: nat, n: nat, views: seq<View>)
    requires 0 < n && views == Views(F3(from, n))
    ensures !Covers(views, Facts(n))
  {
    forall i | 0 <= i < n
      ensures views[i].fact == Some(Fact(i)) && (views[i].sound ==> i < n / 3)
    {
      SeenF3(from, n, i);
    }
    FewSoundHitsFail(views, n);
  }

  lemma PrunedIsFalse(from: nat, n: nat, views: seq<View>)
    requires 0 < n && views == Views(F4(from, n))
    ensures !Covers(views, Facts(n))
  {
    forall i | 0 <= i < n
      ensures views[i].fact == Some(Fact(i)) && (views[i].sound ==> i < n / 3)
    {
      SeenF4(from, n, i);
    }
    FewSoundHitsFail(views, n);
  }

  /** Starved, contradicted and pruned episodes are labelled failures. */
  lemma {:induction false} DeficientIsFalse(from: nat, n: nat)
    requires 0 < n
    ensures !Label(F1(from, n), Facts(n)) && !Label(F3(from, n), Facts(n)) && !Label(F4(from, n), Facts(n))
  {
    StarvedIsFalse(from, n, Views(F1(from, n)));
    ContradictedIsFalse(from, n, Views(F3(from, n)));
    PrunedIsFalse(from, n, Views(F4(from, n)));
  }

  lemma SeenF2(from: nat, n: nat, i: nat)
    requires i < n
    ensures |F2(from, n)| == n && Views(F2(from, n))[i] == View(Some(Fact(i)), {TopicText(from)}, true)
  {
    assert F2(from, n)[i] == Kept(from, Some(Fact(i)), 0.9);
    SeenKept(from, Some(Fact(i)), 0.9);
  }

  lemma OneFactIsEnoughIff(views: seq<View>, n: nat)
    requires 0 < n && Run(views).covered == {Fact(0)}
    ensures Covers(views, Facts(n)) <==> n == 1
  {
    if n == 1 {
      assert Facts(n) == [Fact(0)];
    } else {
      assert Facts(n)[1] == Fact(1) && Fact(1) in Facts(n);
      if Fact(1) == Fact(0) {
        FactInjective(1, 0);
      }
    }
  }

  lemma RedundantCoversOne(from: nat, n: nat, views: seq<View>, facts: seq<string>)
    requires 0 < n && views == Views(F2(from, n)) && facts == Facts(n)
    ensures Run(views).covered == {Fact(0)}
  {
    SeenF2(from, n, 0);
    forall i | 0 <= i < n
      ensures views[i] == View(Some(facts[i]), {TopicText(from)}, true)
    {
      SeenF2(from, n, i);
    }
    RepeatedWordCoversOne(views, TopicText(from), facts);
  }

  /** A redundant episode succeeds exactly when a single fact was needed. */
  lemma RedundantIff(from: nat, n: nat)
    requires 0 < n
    ensures Label(F2(from, n), Facts(n)) <==> n == 1
  {
    RedundantCoversOne(from, n, Views(F2(from, n)), Facts(n));
    OneFactIsEnoughIff(Views(F2(from, n)), n);
  }
}
