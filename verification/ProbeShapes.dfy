/** Which probes a text has, said of its characters alone.
 */
module ProbeShapes {
  import opened Common
  import opened FactProbes
  import opened Regex

  // ----- a scan finds what stands free -----

  predicate IsAlnum(c: char) {
    'a' <= c <= 'z' || 'A' <= c <= 'Z' || '0' <= c <= '9'
  }

  predicate IsDigitRun(u: Alphabet, s: string) {
    s != "" && forall j | 0 <= j < |s| :: s[j] in u.digits
  }

  /** `before + p + after`, and where `p` stands in it. */
  lemma Placed(before: string, p: string, after: string)
    ensures var t := before + p + after; var i := |before|;
            && t[i..i + |p|] == p
            && (forall j | 0 <= j < |p| :: t[i + j] == p[j])
            && (before != "" ==> t[i - 1] == before[i - 1])
            && (i + |p| < |t| <==> after != "") && (after != "" ==> t[i + |p|] == after[0])
            && (1 < |after| ==> t[i + |p| + 1] == after[1])
  {
  }

  lemma FoundHere(u: Alphabet, re: Re, t: string, i: nat, e: nat)
    requires i < e <= |t| && Matches(u, re, t, i) && Ends(u, re, t, i)[0] == e
    requires NoneCrosses(u, re, t, 0, i)
    ensures t[i..e] in Found(u, re, t)
  {
    NotSkipped(u, re, t, 0, i);
    assert (i, e) in FindAll(u, re, t, 0);
  }

  /** A word-anchored pattern takes its first choice when that ends at a boundary. */
  lemma WordHead(u: Alphabet, mid: Re, t: string, i: nat, e: nat)
    requires i <= |t| && Ends(u, mid, t, i) != [] && Ends(u, mid, t, i)[0] == e <= |t|
    requires AtBoundary(u, t, i) && AtBoundary(u, t, e)
    ensures Matches(u, Word(mid), t, i) && Ends(u, Word(mid), t, i)[0] == e
  {
    ThenHead(u, mid, Boundary, t, i);
    ThenHead(u, Boundary, Then(mid, Boundary), t, i);
  }

  /** The first choice of a repeated class is the whole of a run that ends there. */
  lemma RunHead(u: Alphabet, cls: CharClass, t: string, i: nat, e: nat)
    requires Run(u, cls, t, i, e) && (e == |t| || !Accepts(u, cls, t[e]))
    ensures Ends(u, Star(Char(cls)), t, i) != [] && Ends(u, Star(Char(cls)), t, i)[0] == e
  {
    StarRun(u, cls, t, i);
  }

  // ----- numbers -----

  /** A digit, then digits and commas, then possibly decimals. */
  predicate IsNumberText(u: Alphabet, p: string) {
    exists w | 0 < w <= |p| :: SplitsAt(u, p, w)
  }

  predicate SplitsAt(u: Alphabet, p: string, w: nat) {
    && 0 < w <= |p| && p[0] in u.digits
    && (forall j | 0 < j < w :: p[j] in u.digits || p[j] == ',')
    && (w == |p| || (p[w] == '.' && IsDigitRun(u, p[w + 1..])))
  }

  /** Its last character is a digit. */
  predicate IsNumber(u: Alphabet, p: string) {
    IsNumberText(u, p) && p[|p| - 1] in u.digits
  }

  lemma FractionHead(u: Alphabet, t: string, w: nat, e: nat)
    requires w < |t| && t[w] == '.' && w + 1 < e && Run(u, Digit, t, w + 1, e) && (e == |t| || t[e] !in u.digits)
    ensures var fraction := Then(Char(Literal('.')), Plus(Char(Digit)));
            Ends(u, fraction, t, w) != [] && Ends(u, fraction, t, w)[0] == e
  {
    RunHead(u, Digit, t, w + 2, e);
    ThenHead(u, Char(Digit), Star(Char(Digit)), t, w + 1);
    ThenHead(u, Char(Literal('.')), Plus(Char(Digit)), t, w);
  }

  lemma OptionalHead(u: Alphabet, r: Re, t: string, i: nat)
    requires i <= |t|
    ensures Ends(u, Optional(r), t, i) != []
    ensures Ends(u, Optional(r), t, i)[0] == if Ends(u, r, t, i) == [] then i else Ends(u, r, t, i)[0]
  {
    assert Ends(u, Optional(r), t, i) == Ends(u, r, t, i) + [i];
  }

  lemma NumberHead(u: Alphabet, t: string, i: nat, w: nat, e: nat)
    requires i < w <= e <= |t| && t[i] in u.digits && Run(u, DigitOrComma, t, i + 1, w)
    requires w == |t| || !Accepts(u, DigitOrComma, t[w])
    requires if w == e then w == |t| || t[w] != '.'
             else t[w] == '.' && w + 1 < e && Run(u, Digit, t, w + 1, e) && (e == |t| || t[e] !in u.digits)
    ensures Ends(u, NUMBER_BODY, t, i) != [] && Ends(u, NUMBER_BODY, t, i)[0] == e
  {
    var digit, commas := Char(Digit), Star(Char(DigitOrComma));
    var fraction := Then(Char(Literal('.')), Plus(Char(Digit)));
    RunHead(u, DigitOrComma, t, i + 1, w);
    if w == e {
      assert Ends(u, fraction, t, w) == [];
    } else {
      FractionHead(u, t, w, e);
    }
    OptionalHead(u, fraction, t, w);
    ThenHead(u, commas, Optional(fraction), t, i + 1);
    assert Ends(u, digit, t, i) == [i + 1];
    ThenHead(u, digit, Then(commas, Optional(fraction)), t, i);
    assert NUMBER_BODY == Then(digit, Then(commas, Optional(fraction)));
  }

  /** What a number pattern cannot reach across. */
  predicate BarsNumber(u: Alphabet, c: char) {
    c !in u.words && c != ',' && c != '.'
  }

  lemma WordEats(u: Alphabet, mid: Re, c: char)
    requires !Eats(u, mid, c)
    ensures !Eats(u, Word(mid), c)
  {
  }

  lemma PlusEats(u: Alphabet, r: Re, c: char)
    requires !Eats(u, r, c)
    ensures !Eats(u, Plus(r), c)
  {
    assert !Eats(u, Star(r), c);
  }

  lemma ThenEats(u: Alphabet, a: Re, b: Re, c: char)
    requires !Eats(u, a, c) && !Eats(u, b, c)
    ensures !Eats(u, Then(a, b), c)
  {
  }

  lemma NumberEats(u: Alphabet, c: char)
    requires Lawful(u) && BarsNumber(u, c)
    ensures !Eats(u, NUMBER, c)
  {
    var digit, commas := Char(Digit), Star(Char(DigitOrComma));
    var fraction := Then(Char(Literal('.')), Plus(Char(Digit)));
    assert !Eats(u, digit, c) && !Eats(u, commas, c);
    PlusEats(u, digit, c);
    ThenEats(u, Char(Literal('.')), Plus(digit), c);
    assert !Eats(u, Optional(fraction), c);
    ThenEats(u, commas, Optional(fraction), c);
    ThenEats(u, digit, Then(commas, Optional(fraction)), c);
    assert NUMBER_BODY == Then(digit, Then(commas, Optional(fraction)));
    WordEats(u, NUMBER_BODY, c);
  }

  lemma SliceRun(u: Alphabet, cls: CharClass, t: string, i: nat, e: nat)
    requires i <= e <= |t| && forall j | 0 <= j < e - i :: Accepts(u, cls, t[i..e][j])
    ensures Run(u, cls, t, i, e)
  {
    forall j | i <= j < e
      ensures Accepts(u, cls, t[j])
    {
      assert t[i..e][j - i] == t[j];
    }
  }

  /** A number stands in `t` from `i` to `e`, its decimals from `w` on. */
  predicate NumberSpan(u: Alphabet, t: string, i: nat, w: nat, e: nat) {
    && i < w <= e <= |t| && t[i] in u.digits && t[e - 1] in u.digits
    && Run(u, DigitOrComma, t, i + 1, w)
    && (w == e || (w + 1 < e && t[w] == '.' && Run(u, Digit, t, w + 1, e)))
  }

  predicate StandsFree(u: Alphabet, t: string, i: nat, e: nat) {
    i <= e <= |t| && (i == 0 || BarsNumber(u, t[i - 1])) && (e == |t| || BarsNumber(u, t[e]))
  }

  lemma FreeNumberHead(u: Alphabet, t: string, i: nat, w: nat, e: nat)
    requires Lawful(u) && NumberSpan(u, t, i, w, e) && StandsFree(u, t, i, e)
    ensures Matches(u, NUMBER, t, i) && Ends(u, NUMBER, t, i)[0] == e
    ensures NoneCrosses(u, NUMBER, t, 0, i)
  {
    NumberHead(u, t, i, w, e);
    WordHead(u, NUMBER_BODY, t, i, e);
    if i != 0 {
      NumberEats(u, t[i - 1]);
    }
    NoneCrossesBarrier(u, NUMBER, t, i);
  }

  lemma NumberAt(u: Alphabet, t: string, i: nat, p: string) returns (w: nat)
    requires IsNumber(u, p) && Holds(t, i, p)
    ensures NumberSpan(u, t, i, w, i + |p|)
  {
    var v :| 0 < v <= |p| && SplitsAt(u, p, v);
    w := i + v;
    var e := i + |p|;
    assert t[i..e] == p && t[i] == p[0] && t[e - 1] == p[|p| - 1];
    forall j | i + 1 <= j < w
      ensures Accepts(u, DigitOrComma, t[j])
    {
      assert t[j] == p[j - i];
    }
    if v < |p| {
      assert t[w] == p[v];
      assert t[w + 1..e] == p[v + 1..];
      SliceRun(u, Digit, t, w + 1, e);
    }
  }

  lemma FreeNumberFound(u: Alphabet, t: string, i: nat, p: string)
    requires Lawful(u) && IsNumber(u, p) && Holds(t, i, p) && StandsFree(u, t, i, i + |p|)
    ensures p in Found(u, NUMBER, t)
  {
    var w := NumberAt(u, t, i, p);
    FreeNumberHead(u, t, i, w, i + |p|);
    FoundHere(u, NUMBER, t, i, i + |p|);
  }

  lemma PlacedFree(u: Alphabet, before: string, p: string, after: string)
    requires before == "" || BarsNumber(u, before[|before| - 1])
    requires after == "" || BarsNumber(u, after[0])
    ensures var t := before + p + after; var i := |before|;
            Holds(t, i, p) && StandsFree(u, t, i, i + |p|)
  {
    Placed(before, p, after);
  }

  /** Main result: a number that stands free is a probe of every text around it:
      digits, with or without commas between them, with or without decimals. */
  lemma NumbersAreProbes(u: Alphabet, before: string, p: string, after: string)
    requires Lawful(u) && IsNumber(u, p)
    requires before == "" || BarsNumber(u, before[|before| - 1])
    requires after == "" || BarsNumber(u, after[0])
    ensures p in Probes(u, before + p + after)
  {
    PlacedFree(u, before, p, after);
    FreeNumberFound(u, before + p + after, |before|, p);
  }

  /** In particular a run of digits is. */
  lemma DigitRunsAreProbes(u: Alphabet, before: string, p: string, after: string)
    requires Lawful(u) && IsDigitRun(u, p)
    requires before == "" || BarsNumber(u, before[|before| - 1])
    requires after == "" || BarsNumber(u, after[0])
    ensures p in Probes(u, before + p + after)
  {
    assert SplitsAt(u, p, |p|);
    NumbersAreProbes(u, before, p, after);
  }

  // ----- dates -----

  /** `dddd-dd-dd` */
  predicate IsDate(u: Alphabet, p: string) {
    |p| == 10 && p[4] == p[7] == '-' && forall j | 0 <= j < 10 && j != 4 && j != 7 :: p[j] in u.digits
  }

  lemma DateChain(u: Alphabet, t: string, i: nat)
    requires i + 10 <= |t|
    ensures ChainAt(u, DATE_CLASSES, t, i) <==> IsDate(u, t[i..i + 10])
  {
    var p := t[i..i + 10];
    assert forall j | 0 <= j < 10 :: p[j] == t[i + j];
    if ChainAt(u, DATE_CLASSES, t, i) {
      assert forall j | 0 <= j < 10 :: Accepts(u, DATE_CLASSES[j], t[i + j]);
      assert Accepts(u, DATE_CLASSES[4], t[i + 4]) && Accepts(u, DATE_CLASSES[7], t[i + 7]);
      forall j | 0 <= j < 10 && j != 4 && j != 7
        ensures p[j] in u.digits
      {
        assert Accepts(u, DATE_CLASSES[j], t[i + j]);
      }
    }
    if IsDate(u, p) {
      forall j | 0 <= j < 10
        ensures Accepts(u, DATE_CLASSES[j], t[i + j])
      {
        assert t[i + j] == p[j];
      }
    }
  }

  predicate DateAt(u: Alphabet, t: string, i: nat) {
    i + 10 <= |t| && IsDate(u, t[i..i + 10])
  }

  lemma DateEnds(u: Alphabet, t: string, i: nat)
    requires i <= |t|
    ensures Ends(u, Chain(DATE_CLASSES), t, i) == if DateAt(u, t, i) then [i + 10] else []
  {
    ChainEnds(u, DATE_CLASSES, t, i);
    if i + 10 <= |t| {
      DateChain(u, t, i);
    }
  }

  lemma DateMatch(u: Alphabet, t: string, f: nat, e: nat)
    requires f <= |t| && e in Ends(u, DATE, t, f)
    ensures e == f + 10 && DateAt(u, t, f) && AtBoundary(u, t, e)
  {
    WordInverse(u, Chain(DATE_CLASSES), t, f, e);
    DateEnds(u, t, f);
  }

  lemma DateChars(u: Alphabet, t: string, i: nat)
    ensures DateAt(u, t, i) ==>
              && t[i + 4] == t[i + 7] == '-'
              && forall j | i <= j < i + 10 && j != i + 4 && j != i + 7 :: t[j] in u.digits
  {
    if DateAt(u, t, i) {
      var p := t[i..i + 10];
      assert p[4] == t[i + 4] && p[7] == t[i + 7];
      forall j | i <= j < i + 10 && j != i + 4 && j != i + 7
        ensures t[j] in u.digits
      {
        assert p[j - i] == t[j];
      }
    }
  }

  /** A date that overlaps an earlier one starts within a word, or the earlier one ends within a word. */
  lemma DatesOverlap(u: Alphabet, t: string, f: nat, i: nat)
    requires Lawful(u) && DateAt(u, t, f) && DateAt(u, t, i) && f < i
    ensures f + 10 <= i || t[i - 1] in u.words || !AtBoundary(u, t, f + 10)
  {
    DateChars(u, t, f);
    DateChars(u, t, i);
    if i == f + 8 {
      assert t[i + 1] in u.digits && t[i + 2] in u.digits;
    }
  }

  lemma DateDoesNotCross(u: Alphabet, t: string, f: nat, i: nat, e: nat)
    requires Lawful(u) && f < i && DateAt(u, t, i) && t[i - 1] !in u.words
    requires e in Ends(u, DATE, t, f)
    ensures e <= i
  {
    DateMatch(u, t, f, e);
    DatesOverlap(u, t, f, i);
  }

  lemma FreeDateFound(u: Alphabet, t: string, i: nat)
    requires Lawful(u) && i + 10 <= |t| && IsDate(u, t[i..i + 10])
    requires i == 0 || t[i - 1] !in u.words
    requires i + 10 == |t| || t[i + 10] !in u.words
    ensures t[i..i + 10] in Found(u, DATE, t)
  {
    var p := t[i..i + 10];
    assert p[0] == t[i] && p[9] == t[i + 9];
    DateEnds(u, t, i);
    WordHead(u, Chain(DATE_CLASSES), t, i, i + 10);
    forall f | 0 <= f < i && Matches(u, DATE, t, f)
      ensures Ends(u, DATE, t, f)[0] <= i
    {
      assert Ends(u, DATE, t, f)[0] in Ends(u, DATE, t, f);
      DateDoesNotCross(u, t, f, i, Ends(u, DATE, t, f)[0]);
    }
    FoundHere(u, DATE, t, i, i + 10);
  }

  /** Main result: a date between no word characters is a probe of every text around it. */
  lemma DatesAreProbes(u: Alphabet, before: string, p: string, after: string)
    requires Lawful(u) && IsDate(u, p)
    requires before == "" || before[|before| - 1] !in u.words
    requires after == "" || after[0] !in u.words
    ensures p in Probes(u, before + p + after)
  {
    Placed(before, p, after);
    FreeDateFound(u, before + p + after, |before|);
  }

  // ----- quoted texts -----

  /** Two quotation marks with none between them. */
  predicate Consecutive(t: string, q: int, r: int) {
    0 <= q < r < |t| && t[q] == t[r] == '"' && forall j | q < j < r :: t[j] != '"'
  }

  /** They hold 2 to 80 characters. */
  predicate PairAt(t: string, q: int, r: int) {
    Consecutive(t, q, r) && 2 <= r - q - 1 <= 80
  }

  /** Pairing from the left: a mark opens a quotation unless it closes the one
      that the mark before it opened. */
  ghost predicate Opens(t: string, q: nat)
    decreases q
  {
    q < |t| && t[q] == '"' && forall r: nat | r < q && PairAt(t, r, q) :: !Opens(t, r)
  }

  ghost predicate QuotedFrom(t: string, q: nat, p: string) {
    Opens(t, q) && PairAt(t, q, q + 1 + |p|) && t[q + 1..q + 1 + |p|] == p
  }

  ghost predicate QuotedIn(t: string, p: string) {
    exists q: nat :: QuotedFrom(t, q, p)
  }

  lemma QuotedBodyEnds(u: Alphabet, t: string, i: nat, e: nat)
    requires i <= |t|
    ensures e in Ends(u, QUOTED_BODY, t, i) <==> Run(u, NotQuote, t, i, e) && 2 <= e - i <= 80
  {
    var one, most := Char(NotQuote), UpTo(Char(NotQuote), 78);
    if i + 2 <= |t| {
      UpToRuns(u, NotQuote, 78, t, i + 2, e);
    }
    if e in Ends(u, QUOTED_BODY, t, i) {
      var a := ThenInverse(u, one, Then(one, most), t, i, e);
      var b := ThenInverse(u, one, most, t, a, e);
      assert b == i + 2;
    }
    if Run(u, NotQuote, t, i, e) && 2 <= e - i <= 80 {
      ThenIntro(u, one, most, t, i + 1, i + 2, e);
      ThenIntro(u, one, Then(one, most), t, i, i + 1, e);
    }
  }

  lemma QuotedIsPair(u: Alphabet, t: string, q: nat, e: nat)
    requires q <= |t| && e in Ends(u, QUOTED, t, q)
    ensures PairAt(t, q, e - 1)
  {
    var a := ThenInverse(u, QUOTE, Then(QUOTED_BODY, QUOTE), t, q, e);
    var b := ThenInverse(u, QUOTED_BODY, QUOTE, t, a, e);
    assert a == q + 1 && b == e - 1;
    QuotedBodyEnds(u, t, a, b);
    RunHasNoQuote(u, t, a, b);
  }

  lemma PairIsQuoted(u: Alphabet, t: string, q: nat, r: nat)
    requires q <= |t| && PairAt(t, q, r)
    ensures r + 1 in Ends(u, QUOTED, t, q)
  {
    RunHasNoQuote(u, t, q + 1, r);
    QuotedBodyEnds(u, t, q + 1, r);
    ThenIntro(u, QUOTED_BODY, QUOTE, t, q + 1, r, r + 1);
    ThenIntro(u, QUOTE, Then(QUOTED_BODY, QUOTE), t, q, q + 1, r + 1);
  }

  /** The quoting pattern matches at `q` just the pair that starts there. */
  lemma QuotedEnds(u: Alphabet, t: string, q: nat, e: nat)
    requires q <= |t|
    ensures e in Ends(u, QUOTED, t, q) <==> PairAt(t, q, e - 1)
  {
    if e in Ends(u, QUOTED, t, q) {
      QuotedIsPair(u, t, q, e);
    }
    if PairAt(t, q, e - 1) {
      PairIsQuoted(u, t, q, e - 1);
    }
  }

  lemma RunHasNoQuote(u: Alphabet, t: string, i: nat, e: nat)
    requires i <= e <= |t|
    ensures Run(u, NotQuote, t, i, e) <==> forall j | i <= j < e :: t[j] != '"'
  {
  }

  /** No quotation that opens before `from` is still open there. */
  ghost predicate AllClosed(t: string, from: nat) {
    forall q: nat, r: nat | q < from && PairAt(t, q, r) && Opens(t, q) :: r < from
  }

  lemma ScanOpens(t: string, from: nat)
    requires AllClosed(t, from) && from < |t| && t[from] == '"'
    ensures Opens(t, from)
  {
  }

  lemma AfterPair(t: string, q: nat, r: nat)
    requires AllClosed(t, q) && PairAt(t, q, r)
    ensures Opens(t, q) && AllClosed(t, r + 1)
    ensures forall k: nat | q < k <= r :: !Opens(t, k)
  {
    ScanOpens(t, q);
  }

  /** The scan finds the pairs whose first mark opens, and no other. */
  lemma {:induction false} ScanPairs(u: Alphabet, t: string, from: nat, q: nat, e: nat)
    requires from <= |t| && AllClosed(t, from)
    ensures (q, e) in FindAll(u, QUOTED, t, from) <==> from <= q && Opens(t, q) && PairAt(t, q, e - 1)
    decreases |t| - from
  {
    if from < |t| {
      if Matches(u, QUOTED, t, from) {
        var end := Ends(u, QUOTED, t, from)[0];
        assert end in Ends(u, QUOTED, t, from);
        QuotedEnds(u, t, from, end);
        AfterPair(t, from, end - 1);
        ScanPairs(u, t, end, q, e);
        if q == from && PairAt(t, q, e - 1) {
          assert e == end;
        }
      } else {
        NoPairHere(u, t, from);
        ScanPairs(u, t, from + 1, q, e);
        assert !PairAt(t, from, e - 1) by {
          if PairAt(t, from, e - 1) {
            QuotedEnds(u, t, from, e);
          }
        }
      }
    }
  }

  lemma NoPairHere(u: Alphabet, t: string, from: nat)
    requires from < |t| && AllClosed(t, from) && !Matches(u, QUOTED, t, from)
    ensures AllClosed(t, from + 1)
  {
    forall r: nat
      ensures !PairAt(t, from, r)
    {
      QuotedEnds(u, t, from, r + 1);
    }
  }

  lemma FoundIsQuoted(u: Alphabet, t: string, p: string)
    requires p in FoundQuoted(u, t)
    ensures QuotedIn(t, p)
  {
    var s :| s in FindAll(u, QUOTED, t, 0) && s.0 + 2 <= s.1 && p == t[s.0 + 1..s.1 - 1];
    ScanPairs(u, t, 0, s.0, s.1);
    assert QuotedFrom(t, s.0, p);
  }

  lemma QuotedIsFound(u: Alphabet, t: string, p: string)
    requires QuotedIn(t, p)
    ensures p in FoundQuoted(u, t)
  {
    var q: nat :| QuotedFrom(t, q, p);
    ScanPairs(u, t, 0, q, q + 2 + |p|);
    assert (q, q + 2 + |p|) in FindAll(u, QUOTED, t, 0);
  }

  lemma QuotedFound(u: Alphabet, t: string, p: string)
    ensures p in FoundQuoted(u, t) <==> QuotedIn(t, p)
  {
    if p in FoundQuoted(u, t) {
      FoundIsQuoted(u, t, p);
    }
    if QuotedIn(t, p) {
      QuotedIsFound(u, t, p);
    }
  }

  /** Main result: a quoted text of 2 to 80 characters is a probe. */
  lemma QuotedTextsAreProbes(u: Alphabet, t: string, p: string)
    requires QuotedIn(t, p)
    ensures p in Probes(u, t)
  {
    QuotedFound(u, t, p);
  }

  // ----- entities -----

  /** From `i` to `e` letters and digits, and hyphens that one of these follows. */
  predicate Hyphenated(t: string, i: nat, e: nat) {
    i <= e <= |t| && forall j | i <= j < e :: IsAlnum(t[j]) || (t[j] == '-' && j + 1 < e && IsAlnum(t[j + 1]))
  }

  /** No letter, digit or further hyphenated part stands at `e`. */
  predicate PartsEnd(t: string, e: nat) {
    e < |t| ==> !IsAlnum(t[e]) && (t[e] == '-' ==> e + 1 == |t| || !IsAlnum(t[e + 1]))
  }

  /** A capital letter, then letters and digits, then any number of hyphenated parts. */
  predicate IsCapitalised(m: string) {
    m != "" && 'A' <= m[0] <= 'Z' && Hyphenated(m, 0, |m|)
  }

  predicate IsFunctionWord(m: string) {
    || m == "The" || m == "A" || m == "An" || m == "This" || m == "That" || m == "It" || m == "In"
    || m == "On" || m == "At" || m == "For" || m == "With" || m == "Is" || m == "Was" || m == "Are"
  }

  /** Where the letters and digits that start at `i` end. */
  function AlnumEnd(t: string, i: nat, e: nat): (v: nat)
    requires i <= e <= |t|
    ensures i <= v <= e && (v < e ==> !IsAlnum(t[v]))
    ensures forall j | i <= j < v :: IsAlnum(t[j])
    decreases e - i
  {
    if i < e && IsAlnum(t[i]) then AlnumEnd(t, i + 1, e) else i
  }

  lemma AlnumHead(u: Alphabet, t: string, i: nat, e: nat) returns (v: nat)
    requires Hyphenated(t, i, e) && PartsEnd(t, e)
    ensures i <= v <= e && (v == e || t[v] == '-') && (i < e && IsAlnum(t[i]) ==> i < v)
    ensures Ends(u, Star(Char(Alnum)), t, i) != [] && Ends(u, Star(Char(Alnum)), t, i)[0] == v
  {
    v := AlnumEnd(t, i, e);
    assert Run(u, Alnum, t, i, v);
    RunHead(u, Alnum, t, i, v);
  }

  lemma SuffixStops(u: Alphabet, t: string, e: nat)
    requires e <= |t| && PartsEnd(t, e)
    ensures Ends(u, ENTITY_SUFFIXES, t, e) == [e]
  {
    var suffix := Then(Char(Literal('-')), Plus(Char(Alnum)));
    if e < |t| && t[e] == '-' {
      assert Ends(u, Char(Alnum), t, e + 1) == [];
      assert Ends(u, Plus(Char(Alnum)), t, e + 1) == [];
      OneStart(u, Plus(Char(Alnum)), t, e + 1, e);
    }
    assert Ends(u, suffix, t, e) == [];
  }

  lemma {:induction false} SuffixHead(u: Alphabet, t: string, w: nat, e: nat)
    requires Hyphenated(t, w, e) && PartsEnd(t, e) && (w == e || t[w] == '-')
    ensures Ends(u, ENTITY_SUFFIXES, t, w) != [] && Ends(u, ENTITY_SUFFIXES, t, w)[0] == e
    decreases e - w
  {
    if w == e {
      SuffixStops(u, t, e);
    } else {
      var suffix := Then(Char(Literal('-')), Plus(Char(Alnum)));
      var v := AlnumHead(u, t, w + 2, e);
      ThenHead(u, Char(Alnum), Star(Char(Alnum)), t, w + 1);
      ThenHead(u, Char(Literal('-')), Plus(Char(Alnum)), t, w);
      StarHead(u, suffix, t, w);
      SuffixHead(u, t, v, e);
    }
  }

  lemma EntityHead(u: Alphabet, t: string, i: nat, e: nat)
    requires i < e && Hyphenated(t, i, e) && PartsEnd(t, e) && 'A' <= t[i] <= 'Z'
    ensures Ends(u, ENTITY_BODY, t, i) != [] && Ends(u, ENTITY_BODY, t, i)[0] == e
  {
    var alnums := Star(Char(Alnum));
    var v := AlnumHead(u, t, i + 1, e);
    SuffixHead(u, t, v, e);
    ThenHead(u, alnums, ENTITY_SUFFIXES, t, i + 1);
    ThenHead(u, Char(Upper), Then(alnums, ENTITY_SUFFIXES), t, i);
    assert ENTITY_BODY.left == Then(Char(Upper), Then(alnums, ENTITY_SUFFIXES));
    assert Ends(u, ENTITY_BODY, t, i) == Ends(u, ENTITY_BODY.left, t, i) + Ends(u, ENTITY_BODY.right, t, i);
  }

  lemma EntityEats(u: Alphabet, c: char)
    requires !IsAlnum(c) && c != '-'
    ensures !Eats(u, ENTITY, c)
  {
    var alnum, upper := Char(Alnum), Char(Upper);
    assert !Eats(u, alnum, c) && !Eats(u, upper, c) && !Eats(u, Star(alnum), c);
    PlusEats(u, alnum, c);
    PlusEats(u, upper, c);
    ThenEats(u, Char(Literal('-')), Plus(alnum), c);
    assert !Eats(u, ENTITY_SUFFIXES, c);
    ThenEats(u, Star(alnum), ENTITY_SUFFIXES, c);
    ThenEats(u, upper, Then(Star(alnum), ENTITY_SUFFIXES), c);
    ThenEats(u, Plus(upper), ENTITY_SUFFIXES, c);
    ThenEats(u, upper, Then(Plus(upper), ENTITY_SUFFIXES), c);
    assert !Eats(u, ENTITY_BODY, c);
    WordEats(u, ENTITY_BODY, c);
  }

  lemma SalientIff(m: string)
    ensures Salient(m) <==> !IsFunctionWord(m) && 1 < |m|
  {
  }

  lemma FreeEntityFound(u: Alphabet, t: string, i: nat, m: string)
    requires Lawful(u) && IsCapitalised(m) && Holds(t, i, m)
    requires i == 0 || (t[i - 1] !in u.words && t[i - 1] != '-')
    requires i + |m| == |t| || t[i + |m|] !in u.words
    requires PartsEnd(t, i + |m|)
    ensures m in Found(u, ENTITY, t)
  {
    var e := i + |m|;
    assert t[i..e] == m && forall j | 0 <= j < |m| :: t[i..e][j] == t[i + j];
    forall j | i <= j < e
      ensures IsAlnum(t[j]) || (t[j] == '-' && j + 1 < e && IsAlnum(t[j + 1]))
    {
      assert m[j - i] == t[j] && (j + 1 < e ==> m[j + 1 - i] == t[j + 1]);
    }
    assert t[i] == m[0] && t[e - 1] == m[|m| - 1] && IsAlnum(t[e - 1]);
    EntityHead(u, t, i, e);
    WordHead(u, ENTITY_BODY, t, i, e);
    if i != 0 {
      EntityEats(u, t[i - 1]);
    }
    NoneCrossesBarrier(u, ENTITY, t, i);
    FoundHere(u, ENTITY, t, i, e);
  }

  /** Main result: a capitalised word is a probe together with all its
      hyphenated parts, in every text around it where no more of it follows. */
  lemma EntitiesAreProbes(u: Alphabet, before: string, m: string, after: string)
    requires Lawful(u) && IsCapitalised(m) && 1 < |m| && !IsFunctionWord(m)
    requires before == "" || (before[|before| - 1] !in u.words && before[|before| - 1] != '-')
    requires after == "" || after[0] !in u.words
    requires |after| < 2 || after[0] != '-' || !IsAlnum(after[1])
    ensures m in Probes(u, before + m + after)
  {
    Placed(before, m, after);
    SalientIff(m);
    FreeEntityFound(u, before + m + after, |before|, m);
  }

  // ----- what is no probe -----

  lemma FoundNumberShape(u: Alphabet, t: string, p: string)
    requires p in Found(u, NUMBER, t)
    ensures IsNumberText(u, p)
  {
    var s :| s in FindAll(u, NUMBER, t, 0) && p == t[s.0..s.1];
    FoundSpan(u, NUMBER, t, 0, s);
    WordInverse(u, NUMBER_BODY, t, s.0, s.1);
    NumberShape(u, t, s.0, s.1);
  }

  lemma NumberShape(u: Alphabet, t: string, i: nat, e: nat)
    requires i <= |t| && e in Ends(u, NUMBER_BODY, t, i)
    ensures i <= e <= |t| && IsNumberText(u, t[i..e])
  {
    var digit, commas := Char(Digit), Star(Char(DigitOrComma));
    var fraction := Then(Char(Literal('.')), Plus(Char(Digit)));
    var a := ThenInverse(u, digit, Then(commas, Optional(fraction)), t, i, e);
    var b := ThenInverse(u, commas, Optional(fraction), t, a, e);
    StarRun(u, DigitOrComma, t, a);
    if b != e {
      FractionShape(u, t, b, e);
    }
    assert SplitsAt(u, t[i..e], b - i);
  }

  lemma FractionShape(u: Alphabet, t: string, b: nat, e: nat)
    requires b <= |t| && e in Ends(u, Then(Char(Literal('.')), Plus(Char(Digit))), t, b)
    ensures b + 1 < e <= |t| && t[b] == '.' && Run(u, Digit, t, b + 1, e)
  {
    var c := ThenInverse(u, Char(Literal('.')), Plus(Char(Digit)), t, b, e);
    var d := ThenInverse(u, Char(Digit), Star(Char(Digit)), t, c, e);
    StarRun(u, Digit, t, d);
  }

  lemma FoundDateShape(u: Alphabet, t: string, p: string)
    requires p in Found(u, DATE, t)
    ensures IsDate(u, p)
  {
    var s :| s in FindAll(u, DATE, t, 0) && p == t[s.0..s.1];
    FoundSpan(u, DATE, t, 0, s);
    DateMatch(u, t, s.0, s.1);
  }

  lemma HyphenatedJoins(t: string, i: nat, v: nat, e: nat)
    requires Hyphenated(t, i, v) && Hyphenated(t, v, e)
    ensures Hyphenated(t, i, e)
  {
  }

  lemma {:induction false} SuffixShape(u: Alphabet, t: string, w: nat, e: nat)
    requires w <= |t| && e in Ends(u, ENTITY_SUFFIXES, t, w)
    ensures Hyphenated(t, w, e)
    decreases |t| - w
  {
    var suffix := Then(Char(Literal('-')), Plus(Char(Alnum)));
    if e != w {
      var s := EachInverse(u, ENTITY_SUFFIXES, t, Beyond(Ends(u, suffix, t, w), w), w + 1, e);
      var a := ThenInverse(u, Char(Literal('-')), Plus(Char(Alnum)), t, w, s);
      var b := ThenInverse(u, Char(Alnum), Star(Char(Alnum)), t, a, s);
      StarRun(u, Alnum, t, b);
      SuffixShape(u, t, s, e);
      HyphenatedJoins(t, w, s, e);
    }
  }

  lemma EntityShape(u: Alphabet, t: string, i: nat, e: nat)
    requires i <= |t| && e in Ends(u, ENTITY_BODY, t, i)
    ensures i < e && Hyphenated(t, i, e) && 'A' <= t[i] <= 'Z'
  {
    if e in Ends(u, ENTITY_BODY.left, t, i) {
      var a := ThenInverse(u, Char(Upper), ENTITY_BODY.left.second, t, i, e);
      var v := ThenInverse(u, Star(Char(Alnum)), ENTITY_SUFFIXES, t, a, e);
      StarRun(u, Alnum, t, a);
      SuffixShape(u, t, v, e);
      HyphenatedJoins(t, i, v, e);
    } else {
      var a := ThenInverse(u, Char(Upper), ENTITY_BODY.right.second, t, i, e);
      var v := ThenInverse(u, Plus(Char(Upper)), ENTITY_SUFFIXES, t, a, e);
      var b := ThenInverse(u, Char(Upper), Star(Char(Upper)), t, a, v);
      StarRun(u, Upper, t, b);
      SuffixShape(u, t, v, e);
      HyphenatedJoins(t, i, v, e);
    }
  }

  lemma FoundEntityShape(u: Alphabet, t: string, m: string)
    requires m in Found(u, ENTITY, t)
    ensures IsCapitalised(m)
  {
    var s :| s in FindAll(u, ENTITY, t, 0) && m == t[s.0..s.1];
    FoundSpan(u, ENTITY, t, 0, s);
    WordInverse(u, ENTITY_BODY, t, s.0, s.1);
    EntityShape(u, t, s.0, s.1);
    assert forall j | 0 <= j < |m| :: m[j] == t[s.0 + j];
    forall j | 0 <= j < |m|
      ensures IsAlnum(m[j]) || (m[j] == '-' && j + 1 < |m| && IsAlnum(m[j + 1]))
    {
      assert m[j] == t[s.0 + j] && (j + 1 < |m| ==> m[j + 1] == t[s.0 + j + 1]);
    }
  }

  /** Main result: nothing else is a probe. */
  lemma ProbesHaveShapes(u: Alphabet, t: string, p: string)
    requires p in Probes(u, t)
    ensures IsNumberText(u, p) || IsDate(u, p) || QuotedIn(t, p)
            || (IsCapitalised(p) && 1 < |p| && !IsFunctionWord(p))
  {
    QuotedFound(u, t, p);
    SalientIff(p);
    if p in Found(u, NUMBER, t) {
      FoundNumberShape(u, t, p);
    } else if p in Found(u, DATE, t) {
      FoundDateShape(u, t, p);
    } else if p !in FoundQuoted(u, t) {
      FoundEntityShape(u, t, p);
    }
  }

  /** A function word or a single capital letter is a probe only as a quoted text. */
  lemma FunctionWordsAreNoProbes(u: Alphabet, t: string, m: string)
    requires Lawful(u) && (IsFunctionWord(m) || (|m| == 1 && 'A' <= m[0] <= 'Z'))
    ensures m in Probes(u, t) <==> QuotedIn(t, m)
  {
    QuotedFound(u, t, m);
    assert m != "" && 'A' <= m[0] <= 'Z' && m[0] !in u.digits;
    if m in Probes(u, t) {
      ProbesHaveShapes(u, t, m);
    }
  }

  // ----- the only number of a text -----

  ghost predicate NoMatch(u: Alphabet, re: Re, t: string, from: nat, end: nat) {
    end <= |t| && forall f: nat | from <= f < end :: Ends(u, re, t, f) == []
  }

  lemma NoMatchFirst(u: Alphabet, re: Re, t: string, from: nat, end: nat)
    requires from < end && NoMatch(u, re, t, from, end)
    ensures Ends(u, re, t, from) == [] && NoMatch(u, re, t, from + 1, end)
  {
  }

  /** The scan passes over a position where nothing matches. */
  lemma ScanSkipsOne(u: Alphabet, re: Re, t: string, from: nat, rest: seq<(nat, nat)>)
    requires from < |t| && Ends(u, re, t, from) == [] && FindAll(u, re, t, from + 1) == rest
    ensures FindAll(u, re, t, from) == rest
  {
  }

  /** And over any number of them. */
  lemma {:induction false} ScanSkips(u: Alphabet, re: Re, t: string, from: nat, end: nat, rest: seq<(nat, nat)>)
    requires from <= end && NoMatch(u, re, t, from, end) && FindAll(u, re, t, end) == rest
    ensures FindAll(u, re, t, from) == rest
    decreases end - from
  {
    if from < end {
      NoMatchFirst(u, re, t, from, end);
      ScanSkips(u, re, t, from + 1, end, rest);
      ScanSkipsOne(u, re, t, from, rest);
    }
  }

  predicate NoDigits(u: Alphabet, t: string, i: nat, e: nat) {
    i <= e <= |t| && forall j | i <= j < e :: t[j] !in u.digits
  }

  lemma NumberNeedsDigit(u: Alphabet, t: string, f: nat)
    requires f <= |t| && (f < |t| ==> t[f] !in u.digits)
    ensures Ends(u, NUMBER, t, f) == []
  {
    if Ends(u, NUMBER, t, f) != [] {
      var e := Ends(u, NUMBER, t, f)[0];
      assert e in Ends(u, NUMBER, t, f);
      WordInverse(u, NUMBER_BODY, t, f, e);
      var a := ThenInverse(u, Char(Digit), NUMBER_BODY.second, t, f, e);
    }
  }

  lemma OnlyNumberFound(u: Alphabet, t: string, i: nat, q: string)
    requires Lawful(u) && IsNumber(u, q) && Holds(t, i, q) && StandsFree(u, t, i, i + |q|)
    requires NoDigits(u, t, 0, i) && NoDigits(u, t, i + |q|, |t|)
    ensures FindAll(u, NUMBER, t, 0) == [(i, i + |q|)]
  {
    var e := i + |q|;
    var w := NumberAt(u, t, i, q);
    FreeNumberHead(u, t, i, w, e);
    forall f: nat | f < i || e <= f < |t|
      ensures Ends(u, NUMBER, t, f) == []
    {
      NumberNeedsDigit(u, t, f);
    }
    ScanSkips(u, NUMBER, t, e, |t|, []);
    ScanSkips(u, NUMBER, t, 0, i, [(i, e)]);
  }

  lemma NumberHasNoHyphen(u: Alphabet, t: string, i: nat, q: string)
    requires Lawful(u) && IsNumber(u, q) && Holds(t, i, q)
    ensures forall j | i <= j < i + |q| :: t[j] != '-'
  {
    var w := NumberAt(u, t, i, q);
    assert forall j | i + 1 <= j < w :: Accepts(u, DigitOrComma, t[j]);
    assert w < i + |q| ==> forall j | w + 1 <= j < i + |q| :: Accepts(u, Digit, t[j]);
  }

  /** A date has a hyphen between two of its digits. */
  lemma DateHyphen(u: Alphabet, t: string, f: nat)
    ensures DateAt(u, t, f) ==> f + 5 < |t| && t[f] in u.digits && t[f + 4] == '-' && t[f + 5] in u.digits
  {
    DateChars(u, t, f);
  }

  lemma NoDateThere(u: Alphabet, t: string, i: nat, q: string, f: nat)
    requires Lawful(u) && IsNumber(u, q) && Holds(t, i, q)
    requires NoDigits(u, t, 0, i) && NoDigits(u, t, i + |q|, |t|)
    ensures !DateAt(u, t, f)
  {
    NumberHasNoHyphen(u, t, i, q);
    DateHyphen(u, t, f);
  }

  lemma OnlyTokenIs(u: Alphabet, t: string, i: nat, q: string)
    requires Lawful(u) && IsNumber(u, q) && Holds(t, i, q) && StandsFree(u, t, i, i + |q|)
    requires NoDigits(u, t, 0, i) && NoDigits(u, t, i + |q|, |t|)
    ensures NumericTokens(u, t) == {q}
  {
    OnlyNumberFound(u, t, i, q);
    assert Found(u, NUMBER, t) == {q};
    forall x
      ensures x !in Found(u, DATE, t)
    {
      if x in Found(u, DATE, t) {
        var s :| s in FindAll(u, DATE, t, 0) && x == t[s.0..s.1];
        FoundSpan(u, DATE, t, 0, s);
        DateMatch(u, t, s.0, s.1);
        NoDateThere(u, t, i, q, s.0);
      }
    }
  }

  lemma NumberIsNumeric(u: Alphabet, p: string)
    requires Lawful(u) && IsNumber(u, p)
    ensures IsNumeric(u, p)
  {
    assert p[0..|p|] == p;
    var w := NumberAt(u, p, 0, p);
    FreeNumberHead(u, p, 0, w, |p|);
    assert |p| in Ends(u, NUMBER, p, 0);
  }

  predicate HasNoDigit(u: Alphabet, s: string) {
    forall j | 0 <= j < |s| :: s[j] !in u.digits
  }

  lemma DigitsInside(u: Alphabet, before: string, q: string, after: string)
    requires HasNoDigit(u, before) && HasNoDigit(u, after)
    ensures var t := before + q + after;
            NoDigits(u, t, 0, |before|) && NoDigits(u, t, |before| + |q|, |t|)
  {
  }

  lemma NumericCredit(u: Alphabet, p: string, t: string)
    requires IsNumeric(u, p)
    ensures Credited(u, p, t) <==> p in NumericTokens(u, t)
  {
  }

  /** Main result: a text whose only number is `q` credits no other number, so
      `469` is lost to a rewrite that mentions `1,469` alone. */
  lemma OnlyItsNumberIsCredited(u: Alphabet, before: string, q: string, after: string, p: string)
    requires Lawful(u) && IsNumber(u, q) && IsNumber(u, p)
    requires HasNoDigit(u, before) && HasNoDigit(u, after)
    requires before == "" || BarsNumber(u, before[|before| - 1])
    requires after == "" || BarsNumber(u, after[0])
    ensures Credited(u, p, before + q + after) <==> p == q
  {
    var t := before + q + after;
    PlacedFree(u, before, q, after);
    DigitsInside(u, before, q, after);
    OnlyTokenIs(u, t, |before|, q);
    NumberIsNumeric(u, p);
    NumericCredit(u, p, t);
  }
}
