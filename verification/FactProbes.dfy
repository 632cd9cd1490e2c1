/** The fact-retention proxy of the recompaction benchmark: salient facts are
    pulled out of a text by four patterns, and a rewrite is credited for those
    that it still holds as whole tokens.
 */
module FactProbes {
  import opened Common
  import opened Regex

  // ----- the four patterns -----

  const NUMBER_BODY :=
    Then(Char(Digit), Then(Star(Char(DigitOrComma)), Optional(Then(Char(Literal('.')), Plus(Char(Digit))))))

  const DATE_CLASSES :=
    [Digit, Digit, Digit, Digit, Literal('-'), Digit, Digit, Literal('-'), Digit, Digit]

  const ENTITY_SUFFIXES := Star(Then(Char(Literal('-')), Plus(Char(Alnum))))

  const ENTITY_BODY :=
    Or(Then(Char(Upper), Then(Star(Char(Alnum)), ENTITY_SUFFIXES)),
       Then(Char(Upper), Then(Plus(Char(Upper)), ENTITY_SUFFIXES)))

  const QUOTE := Char(Literal('"'))

  const QUOTED_BODY := Then(Char(NotQuote), Then(Char(NotQuote), UpTo(Char(NotQuote), 78)))

  const NUMBER := Word(NUMBER_BODY)
  const DATE := Word(Chain(DATE_CLASSES))
  const ENTITY := Word(ENTITY_BODY)
  const QUOTED := Then(QUOTE, Then(QUOTED_BODY, QUOTE))

  const STOPWORDS := {"The", "A", "An", "This", "That", "It", "In", "On", "At", "For", "With", "Is", "Was", "Are"}

  // ----- extraction -----

  function Found(u: Alphabet, re: Re, t: string): set<string> {
    set s | s in FindAll(u, re, t, 0) :: t[s.0..s.1]
  }

  /** The quoted texts, without their marks: group 1 of the pattern. */
  function FoundQuoted(u: Alphabet, t: string): set<string> {
    set s | s in FindAll(u, QUOTED, t, 0) && s.0 + 2 <= s.1 :: t[s.0 + 1..s.1 - 1]
  }

  predicate Salient(m: string) {
    m !in STOPWORDS && 1 < |m|
  }

  function Probes(u: Alphabet, t: string): set<string> {
    Found(u, NUMBER, t) + FoundQuoted(u, t) + Found(u, DATE, t) + set m | m in Found(u, ENTITY, t) && Salient(m)
  }

  method ExtractProbes(u: Alphabet, t: string) returns (probes: set<string>)
    ensures probes == Probes(u, t)
  {
    probes := Found(u, NUMBER, t);
    probes := probes + FoundQuoted(u, t);
    probes := probes + Found(u, DATE, t);
    var entities := Found(u, ENTITY, t);
    probes := AddSalient(probes, entities);
  }

  method AddSalient(start: set<string>, entities: set<string>) returns (probes: set<string>)
    ensures probes == start + set m | m in entities && Salient(m)
  {
    probes := start;
    var todo := entities;
    while todo != {}
      invariant todo <= entities
      invariant probes == start + set m | m in entities - todo && Salient(m)
    {
      var m :| m in todo;
      todo := todo - {m};
      if m !in STOPWORDS && 1 < |m| {
        probes := probes + {m};
      }
    }
  }

  // ----- presence -----

  predicate IsNumeric(u: Alphabet, p: string) {
    FullMatch(u, NUMBER, p) || FullMatch(u, DATE, p)
  }

  function NumericTokens(u: Alphabet, t: string): set<string> {
    Found(u, NUMBER, t) + Found(u, DATE, t)
  }

  /** The matcher for a word-shaped probe: a guard on each edge that is itself
      an ASCII word character, around the escaped text. */
  function ProbePattern(p: string): Re {
    var left := if p != "" && AsciiWord(p[0]) then NoWordBefore else Empty;
    var right := if p != "" && AsciiWord(p[|p| - 1]) then NoWordAfter else Empty;
    Then(left, Then(Chain(Literals(p)), right))
  }

  predicate Search(u: Alphabet, re: Re, t: string) {
    exists i :: 0 <= i <= |t| && Matches(u, re, t, i)
  }

  /** What the matcher grants to one probe: a number must come back as a number,
      anything else must be found by its pattern. */
  predicate Credited(u: Alphabet, p: string, t: string) {
    if IsNumeric(u, p) then p in NumericTokens(u, t) else Search(u, ProbePattern(p), t)
  }

  function Fraction(part: set<string>, whole: set<string>): real {
    if whole == {} then 1.0 else |part| as real / |whole| as real
  }

  function Retention(u: Alphabet, probes: set<string>, t: string): real {
    Fraction((set p | p in probes && Credited(u, p, t)), probes)
  }

  /** What bare substring containment would have granted. */
  function SubstringRetention(probes: set<string>, t: string): real {
    Fraction((set p | p in probes && IsSubstring(p, t)), probes)
  }

  method ProbesPresent(u: Alphabet, probes: set<string>, t: string) returns (r: real)
    ensures r == Retention(u, probes, t)
  {
    if probes == {} {
      return 1.0;
    }
    var numeric := set p | p in probes && IsNumeric(u, p);
    var tokens := if numeric != {} then NumericTokens(u, t) else {};
    var hits := 0;
    var todo := probes;
    ghost var credited := set p | p in probes && Credited(u, p, t);
    while todo != {}
      invariant todo <= probes
      invariant hits == |credited - todo|
    {
      var probe :| probe in todo;
      TakeOne(credited, todo, probe);
      CreditedIs(u, probes, probe, t);
      todo := todo - {probe};
      if probe in numeric {
        if probe in tokens {
          hits := hits + 1;
        }
      } else if Search(u, ProbePattern(probe), t) {
        hits := hits + 1;
      }
    }
    assert credited - todo == credited;
    r := hits as real / |probes| as real;
  }

  lemma CreditedIs(u: Alphabet, probes: set<string>, p: string, t: string)
    requires p in probes
    ensures p in (set p | p in probes && Credited(u, p, t)) <==>
            if p in (set p | p in probes && IsNumeric(u, p)) then p in NumericTokens(u, t) else Search(u, ProbePattern(p), t)
  {
  }

  lemma TakeOne(credited: set<string>, todo: set<string>, x: string)
    requires x in todo
    ensures |credited - (todo - {x})| == |credited - todo| + if x in credited then 1 else 0
  {
    if x in credited {
      assert credited - (todo - {x}) == (credited - todo) + {x};
    } else {
      assert credited - (todo - {x}) == credited - todo;
    }
  }

  // ----- tokens -----

  /** `p` stands at `i`, and no word character at its edge touches another one. */
  predicate TokenAt(p: string, t: string, i: int) {
    && Holds(t, i, p)
    && (p != "" ==> !(AsciiWordAt(t, i - 1) && AsciiWordAt(t, i)))
    && (p != "" ==> !(AsciiWordAt(t, i + |p| - 1) && AsciiWordAt(t, i + |p|)))
  }

  predicate IsToken(p: string, t: string) {
    exists i :: 0 <= i <= |t| && TokenAt(p, t, i)
  }

  lemma TokenEdges(p: string, t: string, i: nat)
    requires i <= |t| && Holds(t, i, p) && p != ""
    ensures p[0] == t[i] && p[|p| - 1] == t[i + |p| - 1]
  {
    assert t[i..i + |p|][0] == t[i] && t[i..i + |p|][|p| - 1] == t[i + |p| - 1];
  }

  lemma MatchIsToken(u: Alphabet, p: string, t: string, i: nat, e: nat)
    requires i <= |t| && e in Ends(u, ProbePattern(p), t, i)
    ensures TokenAt(p, t, i)
  {
    var left, right := ProbePattern(p).first, ProbePattern(p).second.second;
    var literal := Chain(Literals(p));
    LiteralEnds(u, p, t, i);
    var a := ThenInverse(u, left, Then(literal, right), t, i, e);
    assert a == i;
    var b := ThenInverse(u, literal, right, t, a, e);
    if p != "" {
      TokenEdges(p, t, i);
    }
  }

  lemma GuardedMatch(u: Alphabet, left: Re, body: Re, right: Re, t: string, i: nat, e: nat)
    requires i <= e <= |t| && Ends(u, left, t, i) == [i] && Ends(u, body, t, i) == [e] && Ends(u, right, t, e) == [e]
    ensures Matches(u, Then(left, Then(body, right)), t, i)
  {
    ThenHead(u, body, right, t, i);
    ThenHead(u, left, Then(body, right), t, i);
  }

  lemma TokenMatches(u: Alphabet, p: string, t: string, i: nat)
    requires i <= |t| && TokenAt(p, t, i)
    ensures Matches(u, ProbePattern(p), t, i)
  {
    LiteralEnds(u, p, t, i);
    if p != "" {
      TokenEdges(p, t, i);
    }
    var left, right := ProbePattern(p).first, ProbePattern(p).second.second;
    GuardedMatch(u, left, Chain(Literals(p)), right, t, i, i + |p|);
  }

  lemma PatternMatchesToken(u: Alphabet, p: string, t: string, i: nat)
    requires i <= |t|
    ensures Matches(u, ProbePattern(p), t, i) <==> TokenAt(p, t, i)
  {
    if Matches(u, ProbePattern(p), t, i) {
      MatchIsToken(u, p, t, i, Ends(u, ProbePattern(p), t, i)[0]);
    }
    if TokenAt(p, t, i) {
      TokenMatches(u, p, t, i);
    }
  }

  /** The search for a probe's pattern succeeds exactly when the text holds the probe as a token. */
  lemma SearchFindsTokens(u: Alphabet, p: string, t: string)
    ensures Search(u, ProbePattern(p), t) <==> IsToken(p, t)
  {
    forall i: nat | i <= |t|
      ensures Matches(u, ProbePattern(p), t, i) <==> TokenAt(p, t, i)
    {
      PatternMatchesToken(u, p, t, i);
    }
  }

  // ----- every probe is found again -----

  lemma NumberAvoidsQuote()
    ensures AvoidsQuote(NUMBER)
  {
  }

  lemma DateAvoidsQuote()
    ensures AvoidsQuote(DATE)
  {
    ChainAvoidsQuote(DATE_CLASSES);
    WordAvoidsQuote(Chain(DATE_CLASSES));
  }

  lemma WordAvoidsQuote(mid: Re)
    requires AvoidsQuote(mid)
    ensures AvoidsQuote(Word(mid))
  {
  }

  lemma {:induction false} ChainAvoidsQuote(cs: seq<CharClass>)
    requires Literal('"') !in cs
    ensures AvoidsQuote(Chain(cs))
  {
    if cs != [] {
      ChainAvoidsQuote(cs[1..]);
    }
  }

  /** Whatever a word-anchored pattern finds is a token of its own text. */
  lemma WordSpanIsToken(u: Alphabet, body: Re, t: string, p: string)
    requires Lawful(u) && p in Found(u, Word(body), t)
    ensures IsToken(p, t)
  {
    var s :| s in FindAll(u, Word(body), t, 0) && p == t[s.0..s.1];
    FoundSpan(u, Word(body), t, 0, s);
    WordInverse(u, body, t, s.0, s.1);
    assert TokenAt(p, t, s.0);
  }

  /** A quoted probe stands between its two marks. */
  lemma QuotedSpan(u: Alphabet, t: string, p: string) returns (o: nat)
    requires p in FoundQuoted(u, t)
    ensures IsQuoted(t, o, p)
  {
    var s :| s in FindAll(u, QUOTED, t, 0) && s.0 + 2 <= s.1 && p == t[s.0 + 1..s.1 - 1];
    FoundSpan(u, QUOTED, t, 0, s);
    var a := ThenInverse(u, QUOTE, Then(QUOTED_BODY, QUOTE), t, s.0, s.1);
    var b := ThenInverse(u, QUOTED_BODY, QUOTE, t, a, s.1);
    o := s.0 + 1;
  }

  /** When a number pattern can match the whole of `p`, it chooses to. */
  lemma NumberFirstChoice(u: Alphabet, p: string)
    requires Lawful(u) && FullMatch(u, NUMBER, p)
    ensures p != "" && Ends(u, NUMBER, p, 0) != [] && Ends(u, NUMBER, p, 0)[0] == |p|
  {
    var digit, commas := Char(Digit), Star(Char(DigitOrComma));
    var fraction := Then(Char(Literal('.')), Plus(Char(Digit)));
    WordInverse(u, NUMBER_BODY, p, 0, |p|);
    var a := ThenInverse(u, digit, Then(commas, Optional(fraction)), p, 0, |p|);
    var b := ThenInverse(u, commas, Optional(fraction), p, a, |p|);
    StarRun(u, DigitOrComma, p, 1);
    var r := Ends(u, commas, p, 1)[0];
    assert r in Ends(u, commas, p, 1);
    if b == |p| {
      assert r == |p|;
      assert Ends(u, fraction, p, r) == [];
    } else {
      assert |p| in Ends(u, fraction, p, b);
      var c := ThenInverse(u, Char(Literal('.')), Plus(Char(Digit)), p, b, |p|);
      assert p[b] == '.';
      assert r == b;
      FractionFirstChoice(u, p, b);
    }
    ThenHead(u, commas, Optional(fraction), p, 1);
    ThenHead(u, digit, Then(commas, Optional(fraction)), p, 0);
    ThenHead(u, NUMBER_BODY, Boundary, p, 0);
    ThenHead(u, Boundary, Then(NUMBER_BODY, Boundary), p, 0);
  }

  lemma FractionFirstChoice(u: Alphabet, p: string, b: nat)
    requires b <= |p|
    requires |p| in Ends(u, Then(Char(Literal('.')), Plus(Char(Digit))), p, b)
    ensures Ends(u, Then(Char(Literal('.')), Plus(Char(Digit))), p, b) != []
    ensures Ends(u, Then(Char(Literal('.')), Plus(Char(Digit))), p, b)[0] == |p|
  {
    var c := ThenInverse(u, Char(Literal('.')), Plus(Char(Digit)), p, b, |p|);
    var d := ThenInverse(u, Char(Digit), Star(Char(Digit)), p, c, |p|);
    StarRun(u, Digit, p, d);
    ThenHead(u, Char(Digit), Star(Char(Digit)), p, c);
    ThenHead(u, Char(Literal('.')), Plus(Char(Digit)), p, b);
  }

  lemma DateFirstChoice(u: Alphabet, p: string)
    requires FullMatch(u, DATE, p)
    ensures p != "" && Ends(u, DATE, p, 0) != [] && Ends(u, DATE, p, 0)[0] == |p|
  {
    var e := Ends(u, DATE, p, 0)[0];
    assert e in Ends(u, DATE, p, 0);
    WordInverse(u, Chain(DATE_CLASSES), p, 0, |p|);
    WordInverse(u, Chain(DATE_CLASSES), p, 0, e);
    ChainLength(u, DATE_CLASSES, p, 0, |p|);
    ChainLength(u, DATE_CLASSES, p, 0, e);
  }

  lemma QuotedTextIsFound(u: Alphabet, re: Re, t: string, o: nat, p: string)
    requires Lawful(u) && AvoidsQuote(re) && IsQuoted(t, o, p) && p != ""
    requires Matches(u, re, p, 0) && Ends(u, re, p, 0)[0] == |p|
    ensures p in Found(u, re, t)
  {
    Local(u, re, t, o, p, 0);
    QuotedTextFound(u, re, t, o, p);
    assert (o, o + |p|) in FindAll(u, re, t, 0);
  }

  /** A number or a date in quotation marks is also a number token of the text. */
  lemma QuotedNumberIsToken(u: Alphabet, t: string, p: string)
    requires Lawful(u) && p in FoundQuoted(u, t) && IsNumeric(u, p)
    ensures p in NumericTokens(u, t)
  {
    var o := QuotedSpan(u, t, p);
    if FullMatch(u, NUMBER, p) {
      NumberAvoidsQuote();
      NumberFirstChoice(u, p);
      QuotedTextIsFound(u, NUMBER, t, o, p);
    } else {
      DateAvoidsQuote();
      DateFirstChoice(u, p);
      QuotedTextIsFound(u, DATE, t, o, p);
    }
  }

  /** An entity starts with a capital letter, so it is never taken for a number. */
  lemma EntityIsNotNumeric(u: Alphabet, t: string, p: string)
    requires Lawful(u) && p in Found(u, ENTITY, t)
    ensures !IsNumeric(u, p)
  {
    var s :| s in FindAll(u, ENTITY, t, 0) && p == t[s.0..s.1];
    FoundSpan(u, ENTITY, t, 0, s);
    WordInverse(u, ENTITY_BODY, t, s.0, s.1);
    EntityStart(u, t, s.0, s.1);
    assert 'A' <= p[0] <= 'Z';
    if FullMatch(u, NUMBER, p) {
      WordInverse(u, NUMBER_BODY, p, 0, |p|);
      var a := ThenInverse(u, Char(Digit), NUMBER_BODY.second, p, 0, |p|);
      assert false;
    }
    if FullMatch(u, DATE, p) {
      WordInverse(u, Chain(DATE_CLASSES), p, 0, |p|);
      var a := ThenInverse(u, Char(Digit), Chain(DATE_CLASSES[1..]), p, 0, |p|);
      assert false;
    }
  }

  lemma EntityStart(u: Alphabet, t: string, i: nat, e: nat)
    requires i <= |t| && e in Ends(u, ENTITY_BODY, t, i)
    ensures i < |t| && 'A' <= t[i] <= 'Z'
  {
    if e in Ends(u, ENTITY_BODY.left, t, i) {
      var a := ThenInverse(u, Char(Upper), ENTITY_BODY.left.second, t, i, e);
    } else {
      var a := ThenInverse(u, Char(Upper), ENTITY_BODY.right.second, t, i, e);
    }
  }

  lemma TokenIsCredited(u: Alphabet, p: string, t: string)
    requires IsToken(p, t)
    requires IsNumeric(u, p) ==> p in NumericTokens(u, t)
    ensures Credited(u, p, t)
  {
    SearchFindsTokens(u, p, t);
  }

  lemma QuotedIsToken(t: string, o: nat, p: string)
    requires IsQuoted(t, o, p)
    ensures IsToken(p, t)
  {
    assert TokenAt(p, t, o);
  }

  lemma QuotedProbeIsToken(u: Alphabet, t: string, p: string)
    requires p in FoundQuoted(u, t)
    ensures IsToken(p, t)
  {
    var o := QuotedSpan(u, t, p);
    QuotedIsToken(t, o, p);
  }

  lemma OwnProbeIsToken(u: Alphabet, t: string, p: string)
    requires Lawful(u) && p in Probes(u, t)
    ensures IsToken(p, t)
  {
    if p in Found(u, NUMBER, t) {
      WordSpanIsToken(u, NUMBER_BODY, t, p);
    } else if p in Found(u, DATE, t) {
      WordSpanIsToken(u, Chain(DATE_CLASSES), t, p);
    } else if p in FoundQuoted(u, t) {
      QuotedProbeIsToken(u, t, p);
    } else {
      WordSpanIsToken(u, ENTITY_BODY, t, p);
    }
  }

  lemma OwnNumberIsToken(u: Alphabet, t: string, p: string)
    requires Lawful(u) && p in Probes(u, t) && IsNumeric(u, p)
    ensures p in NumericTokens(u, t)
  {
    if p in FoundQuoted(u, t) {
      QuotedNumberIsToken(u, t, p);
    } else if p in Found(u, ENTITY, t) {
      EntityIsNotNumeric(u, t, p);
    }
  }

  /** Main result: an unmodified rewrite is credited for each of its own probes. */
  lemma OwnProbesCredited(u: Alphabet, t: string, p: string)
    requires Lawful(u) && p in Probes(u, t)
    ensures Credited(u, p, t)
  {
    OwnProbeIsToken(u, t, p);
    if IsNumeric(u, p) {
      OwnNumberIsToken(u, t, p);
    }
    TokenIsCredited(u, p, t);
  }

  /** The echo control: extracting from a text and looking in the same text scores exactly 1. */
  lemma {:induction false} EchoScoresOne(u: Alphabet, t: string)
    requires Lawful(u)
    ensures Retention(u, Probes(u, t), t) == 1.0
  {
    var probes := Probes(u, t);
    forall p | p in probes
      ensures Credited(u, p, t)
    {
      OwnProbesCredited(u, t, p);
    }
    AllCreditedScoresOne(u, probes, t);
  }

  /** A score of 1 means that nothing was lost. */
  lemma NothingLostIff(u: Alphabet, probes: set<string>, t: string)
    ensures Retention(u, probes, t) == 1.0 <==> forall p :: p in probes ==> Credited(u, p, t)
  {
    var credited := set p | p in probes && Credited(u, p, t);
    if forall p :: p in probes ==> Credited(u, p, t) {
      AllCreditedScoresOne(u, probes, t);
    } else {
      var p :| p in probes && !Credited(u, p, t);
      SubsetSize(credited, probes - {p});
      FractionIsLess(|credited|, |probes|);
    }
  }

  lemma FractionIsLess(a: nat, n: nat)
    requires a < n
    ensures a as real / n as real < 1.0
  {
  }

  lemma AllCreditedScoresOne(u: Alphabet, probes: set<string>, t: string)
    requires forall p :: p in probes ==> Credited(u, p, t)
    ensures Retention(u, probes, t) == 1.0
  {
    assert (set p | p in probes && Credited(u, p, t)) == probes;
    if probes != {} {
      FractionMonotone(|probes|, |probes|, |probes|);
    }
  }

  // ----- the proxy never over-credits -----

  /** A credited probe stands in the text as a token, number or not. */
  lemma CreditedIsToken(u: Alphabet, p: string, t: string)
    requires Lawful(u) && Credited(u, p, t)
    ensures IsToken(p, t) && IsSubstring(p, t)
  {
    SearchFindsTokens(u, p, t);
    if IsNumeric(u, p) {
      if p in Found(u, NUMBER, t) {
        WordSpanIsToken(u, NUMBER_BODY, t, p);
      } else {
        WordSpanIsToken(u, Chain(DATE_CLASSES), t, p);
      }
    }
    var i :| 0 <= i <= |t| && TokenAt(p, t, i);
    assert Holds(t, i, p);
  }

  /** The conservative bias: at most what substring containment would grant. */
  lemma RetentionIsConservative(u: Alphabet, probes: set<string>, t: string)
    requires Lawful(u)
    ensures 0.0 <= Retention(u, probes, t) <= SubstringRetention(probes, t) <= 1.0
  {
    var credited := set p | p in probes && Credited(u, p, t);
    var present := set p | p in probes && IsSubstring(p, t);
    forall p | p in credited
      ensures p in present
    {
      CreditedIsToken(u, p, t);
    }
    SubsetSize(credited, present);
    SubsetSize(present, probes);
    if probes != {} {
      FractionMonotone(|credited|, |present|, |probes|);
      FractionMonotone(|present|, |probes|, |probes|);
    }
  }

  lemma FractionMonotone(a: nat, b: nat, n: nat)
    requires a <= b && 0 < n
    ensures 0.0 <= a as real / n as real <= b as real / n as real
    ensures n as real / n as real == 1.0
  {
  }
}
