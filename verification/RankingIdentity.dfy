/** The byte-identity gate on served rankings: fingerprints, their framing, the
    diff of two of them, and the battery assertion.
 */
module RankingIdentity {
  import opened Common
  import opened Decimals

  // ----- score tokens -----

  /** The bits of a double. */
  type Bits = n: nat | n < 0x1_0000_0000_0000_0000

  /** Exponent all ones, fraction not zero: section 3.4 of IEEE 754. */
  predicate IsNan(bits: Bits) {
    bits / 0x10_0000_0000_0000 % 2048 == 2047 && bits % 0x10_0000_0000_0000 != 0
  }

  /** A value in the score field. A float is given by its bits. */
  datatype Score = IntScore(n: int) | FloatScore(bits: Bits) | NotANumber

  /** What `float.hex` promises: the text is exact, signed zeros included, but
      every NaN is `nan`. */
  ghost predicate IsFloatHex(hex: Bits -> string) {
    forall x: Bits, y: Bits :: hex(x) == hex(y) <==> x == y || (IsNan(x) && IsNan(y))
  }

  function IntText(n: int): string {
    if n < 0 then "-" + Decimal(-n) else Decimal(n)
  }

  /** The canonical text of a score; none for a bool or anything else that is no number. */
  function ScoreToken(hex: Bits -> string, s: Score): Option<string> {
    match s
    case IntScore(n) => Some("i:" + IntText(n))
    case FloatScore(bits) => Some("f:" + hex(bits))
    case NotANumber => None
  }

  predicate BothNan(a: Score, b: Score) {
    a.FloatScore? && b.FloatScore? && IsNan(a.bits) && IsNan(b.bits)
  }

  /** Two scores share a token exactly when they are the same value, bit for bit,
      or are both NaN. */
  lemma ScoreTokensInjective(hex: Bits -> string, a: Score, b: Score)
    requires IsFloatHex(hex) && !a.NotANumber? && !b.NotANumber?
    ensures ScoreToken(hex, a) == ScoreToken(hex, b) <==> a == b || BothNan(a, b)
  {
    var s, t := ScoreToken(hex, a).value, ScoreToken(hex, b).value;
    if s == t {
      assert s[0] == t[0] && s[2..] == t[2..];
      if a.IntScore? {
        IntTextInjective(a.n, b.n);
      }
    }
  }

  /** The quiet NaN and its negative differ in their bits and share a token; the two zeros do not. */
  lemma NansShareAToken(hex: Bits -> string)
    requires IsFloatHex(hex)
    ensures var plus, minus := FloatScore(0x7FF8_0000_0000_0000), FloatScore(0xFFF8_0000_0000_0000);
            plus != minus && ScoreToken(hex, plus) == ScoreToken(hex, minus)
    ensures ScoreToken(hex, FloatScore(0)) != ScoreToken(hex, FloatScore(0x8000_0000_0000_0000))
  {
    var plus, minus := FloatScore(0x7FF8_0000_0000_0000), FloatScore(0xFFF8_0000_0000_0000);
    assert BothNan(plus, minus);
    ScoreTokensInjective(hex, plus, minus);
    ScoreTokensInjective(hex, FloatScore(0), FloatScore(0x8000_0000_0000_0000));
  }

  lemma IntTextInjective(m: int, n: int)
    requires IntText(m) == IntText(n)
    ensures m == n
  {
    assert IntText(m)[0] == '-' <==> m < 0;
    assert IntText(n)[0] == '-' <==> n < 0;
    if m < 0 && n < 0 {
      assert IntText(m)[1..] == Decimal(-m) && IntText(n)[1..] == Decimal(-n);
      DecimalInjective(-m, -n);
    } else if 0 <= m && 0 <= n {
      DecimalInjective(m, n);
    }
  }

  /** A hit as served; its id or its score may be missing. */
  datatype Hit = Hit(id: Option<string>, score: Option<Score>)

  predicate Complete(hex: Bits -> string, h: Hit) {
    h.id.Some? && h.score.Some? && ScoreToken(hex, h.score.value).Some?
  }

  /** The served list in rank order, or nothing when a hit lacks its id or its
      score: no field is ever defaulted. */
  method RankingFingerprint(hex: Bits -> string, hits: seq<Hit>) returns (f: Option<Fingerprint>)
    ensures f.Some? <==> forall h :: h in hits ==> Complete(hex, h)
    ensures f.Some? ==> |f.value| == |hits|
    ensures f.Some? ==> forall i | 0 <= i < |hits| ::
              Complete(hex, hits[i]) && f.value[i] == Entry(hits[i].id.value, ScoreToken(hex, hits[i].score.value).value)
  {
    var out: Fingerprint := [];
    for i := 0 to |hits|
      invariant |out| == i
      invariant forall j | 0 <= j < i ::
        Complete(hex, hits[j]) && out[j] == Entry(hits[j].id.value, ScoreToken(hex, hits[j].score.value).value)
    {
      var hit := hits[i];
      assert hit in hits;
      if hit.id.None? || hit.score.None? {
        assert !Complete(hex, hit);
        return None;
      }
      var token := ScoreToken(hex, hit.score.value);
      if token.None? {
        assert !Complete(hex, hit);
        return None;
      }
      out := out + [Entry(hit.id.value, token.value)];
    }
    f := Some(out);
  }

  /** A served hit: a block id and the exact text of its score. */
  datatype Entry = Entry(id: string, score: string)

  type Fingerprint = seq<Entry>

  // ----- the digest's framing -----

  /** `id, score, id, score, ...` */
  function Flatten(f: Fingerprint): (flat: seq<string>)
    ensures |flat| == 2 * |f|
  {
    if f == [] then [] else Flatten(f[..|f| - 1]) + [f[|f| - 1].id, f[|f| - 1].score]
  }

  function Codes(s: string): (c: seq<nat>)
    ensures |c| == |s| && forall i | 0 <= i < |s| :: c[i] == s[i] as int
  {
    seq(|s|, i requires 0 <= i < |s| => s[i] as int)
  }

  /** Each string behind its length. */
  function Frame(strings: seq<string>): seq<nat> {
    if strings == [] then [] else [|strings[0]|] + Codes(strings[0]) + Frame(strings[1..])
  }

  lemma {:induction false} FrameInjective(a: seq<string>, b: seq<string>)
    requires Frame(a) == Frame(b)
    ensures a == b
  {
    if a == [] || b == [] {
      assert a == b;
    } else {
      var fa, fb := Frame(a), Frame(b);
      var n := |a[0]|;
      assert fa[0] == n && fb[0] == |b[0]|;
      assert fa[1..1 + n] == Codes(a[0]) && fb[1..1 + n] == Codes(b[0]);
      assert forall i | 0 <= i < n :: a[0][i] as int == Codes(a[0])[i] == Codes(b[0])[i] == b[0][i] as int;
      assert a[0] == b[0];
      assert fa[1 + n..] == Frame(a[1..]) && fb[1 + n..] == Frame(b[1..]);
      FrameInjective(a[1..], b[1..]);
      assert a == [a[0]] + a[1..] && b == [b[0]] + b[1..];
    }
  }

  lemma {:induction false} FlattenInjective(a: Fingerprint, b: Fingerprint)
    requires Flatten(a) == Flatten(b)
    ensures a == b
  {
    if a != [] {
      var n := |a| - 1;
      var flat := Flatten(a);
      assert flat[..2 * n] == Flatten(a[..n]) && flat[..2 * n] == Flatten(b[..n]);
      assert flat[2 * n] == a[n].id == b[n].id && flat[2 * n + 1] == a[n].score == b[n].score;
      FlattenInjective(a[..n], b[..n]);
      assert a == a[..n] + [a[n]] && b == b[..n] + [b[n]];
    }
  }

  function Digest(hash: seq<nat> -> string, f: Fingerprint): string {
    hash(Frame(Flatten(f)))
  }

  method FingerprintDigest(hash: seq<nat> -> string, f: Fingerprint) returns (digest: string)
    ensures digest == Digest(hash, f)
  {
    var flat: seq<string> := [];
    for i := 0 to |f|
      invariant flat == Flatten(f[..i])
    {
      assert f[..i + 1][..i] == f[..i];
      flat := flat + [f[i].id];
      flat := flat + [f[i].score];
    }
    assert f[..|f|] == f;
    digest := hash(Frame(flat));
  }

  /** Main result: a digest names one served ranking. No id or score can be
      split or merged into another answer with the same framing. */
  lemma DigestNamesRanking(hash: seq<nat> -> string, a: Fingerprint, b: Fingerprint)
    requires CollisionFree(hash)
    ensures Digest(hash, a) == Digest(hash, b) <==> a == b
  {
    if Digest(hash, a) == Digest(hash, b) {
      FrameInjective(Flatten(a), Flatten(b));
      FlattenInjective(a, b);
    }
  }

  // ----- the diff -----

  datatype Diff = Diff(
    moved: bool, nBefore: nat, nAfter: nat, first: Option<nat>, beforeAt: Option<Entry>, afterAt: Option<Entry>)

  function Shorter(a: Fingerprint, b: Fingerprint): nat {
    if |a| < |b| then |a| else |b|
  }

  function EntryAt(f: Fingerprint, i: Option<nat>): Option<Entry> {
    if i.Some? && i.value < |f| then Some(f[i.value]) else None
  }

  /** The rankings agree up to `i` and no further. */
  ghost predicate DivergeAt(a: Fingerprint, b: Fingerprint, i: nat) {
    && i <= Shorter(a, b)
    && a[..i] == b[..i]
    && (i < Shorter(a, b) ==> a[i] != b[i])
    && (i == Shorter(a, b) ==> |a| != |b|)
  }

  /** The diff reports a divergence exactly when there is one, and it is the
      first: the least position at which they differ, or the end of the shorter. */
  method CompareRankings(before: Fingerprint, after: Fingerprint) returns (d: Diff)
    ensures d.moved <==> before != after
    ensures d.moved <==> d.first.Some?
    ensures d.first.Some? ==> DivergeAt(before, after, d.first.value)
    ensures d.nBefore == |before| && d.nAfter == |after|
    ensures d.beforeAt == EntryAt(before, d.first) && d.afterAt == EntryAt(after, d.first)
  {
    var first: Option<nat> := None;
    var n := Shorter(before, after);
    var position := 0;
    while position < n
      invariant 0 <= position <= n && before[..position] == after[..position]
      invariant first == None
    {
      if before[position] != after[position] {
        first := Some(position);
        break;
      }
      assert before[..position + 1] == before[..position] + [before[position]];
      assert after[..position + 1] == after[..position] + [after[position]];
      position := position + 1;
    }
    if first == None && |before| != |after| {
      first := Some(n);
    }
    if first == None {
      assert before[..n] == before && after[..n] == after;
    } else {
      DivergenceMeansDifferent(before, after, first.value);
    }
    d := Diff(before != after, |before|, |after|, first, EntryAt(before, first), EntryAt(after, first));
  }

  /** The divergence is unique, so the reported position is the least differing one. */
  lemma DivergenceIsFirst(a: Fingerprint, b: Fingerprint, i: nat, j: nat)
    requires DivergeAt(a, b, i) && j < |a| && j < |b| && a[j] != b[j]
    ensures i <= j
  {
    assert forall k | 0 <= k < i :: a[k] == a[..i][k] == b[..i][k] == b[k];
  }

  lemma DivergenceMeansDifferent(a: Fingerprint, b: Fingerprint, i: nat)
    requires DivergeAt(a, b, i)
    ensures a != b
  {
  }

  // ----- the assertions -----

  datatype Verdict<T> = Unchanged(value: T) | Vacuous | Moved

  predicate TooThin(before: Fingerprint, after: Fingerprint, minResults: int) {
    minResults > 0 && (|before| < minResults || |after| < minResults)
  }

  method AssertRankingUnchanged(before: Fingerprint, after: Fingerprint, minResults: int) returns (v: Verdict<Diff>)
    ensures v.Vacuous? <==> TooThin(before, after, minResults)
    ensures v.Unchanged? <==> !TooThin(before, after, minResults) && before == after
    ensures v.Unchanged? ==> !v.value.moved
  {
    if minResults > 0 && (|before| < minResults || |after| < minResults) {
      return Vacuous;
    }
    var diff := CompareRankings(before, after);
    if diff.moved {
      return Moved;
    }
    v := Unchanged(diff);
  }

  type Battery = map<string, Fingerprint>

  /** The queries that could not have failed, and those that moved. */
  predicate SomeTooThin(before: Battery, after: Battery, minResults: int) {
    exists q :: q in before && q in after && TooThin(before[q], after[q], minResults)
  }

  /** A battery passes, is refused as vacuous, or is reported as moved with the
      set of all the queries that moved. */
  method AssertBatteryUnchanged(before: Battery, after: Battery, minResults: int)
    returns (v: Verdict<map<string, Diff>>, moved: set<string>)
    ensures v.Vacuous? <==>
              before == map[] || after == map[] || before.Keys != after.Keys || SomeTooThin(before, after, minResults)
    ensures v.Unchanged? <==> !v.Vacuous? && before == after
    ensures v.Unchanged? ==> v.value.Keys == before.Keys && forall q :: q in v.value ==> !v.value[q].moved
    ensures v.Moved? ==> moved == set q | q in before && q in after && before[q] != after[q]
  {
    moved := {};
    if before == map[] || after == map[] {
      return Vacuous, moved;
    }
    if before.Keys != after.Keys {
      return Vacuous, moved;
    }
    var diffs: map<string, Diff> := map[];
    var todo := before.Keys;
    while todo != {}
      invariant todo <= before.Keys
      invariant forall q :: q in before && q !in todo ==> !TooThin(before[q], after[q], minResults)
      invariant diffs.Keys == before.Keys - todo
      invariant forall q :: q in diffs ==> (diffs[q].moved <==> before[q] != after[q])
      invariant moved == set q | q in before && q !in todo && before[q] != after[q]
    {
      var query :| query in todo;
      todo := todo - {query};
      if minResults > 0 && (|before[query]| < minResults || |after[query]| < minResults) {
        assert TooThin(before[query], after[query], minResults);
        return Vacuous, {};
      }
      var diff := CompareRankings(before[query], after[query]);
      diffs := diffs[query := diff];
      if diff.moved {
        moved := moved + {query};
      }
    }
    if moved != {} {
      var q :| q in moved;
      assert before[q] != after[q];
      return Moved, moved;
    }
    forall q | q in before
      ensures before[q] == after[q]
    {
      assert q !in moved;
    }
    v := Unchanged(diffs);
  }

  /** With `min_results` at least one, a pass means exactly that: something was
      asked, the same on both sides, everything was answered, and nothing moved. */
  lemma PassMeansIdentical(before: Battery, after: Battery, minResults: int)
    requires minResults >= 1
    ensures (before != map[] && after != map[] && before.Keys == after.Keys
             && !SomeTooThin(before, after, minResults) && before == after)
            <==> before != map[] && before == after && forall q :: q in before ==> minResults <= |before[q]|
  {
    if before == after && !SomeTooThin(before, after, minResults) {
      forall q | q in before
        ensures minResults <= |before[q]|
      {
        assert !TooThin(before[q], after[q], minResults);
      }
    }
  }
}
