/** Backtracking regular expressions, as Python's `re` module runs them.

    A pattern at a position yields the list of end positions it can reach, in
    the order in which the engine tries them; a match takes the first one.
    Greedy repetition is therefore visible in the order, and backtracking in
    the later elements of the list.
 */
module Regex {
  import opened Common

  /** The characters that `\d` and `\w` accept: the ASCII ones and, outside
      ASCII, whatever the Unicode tables say. */
  datatype Alphabet = Alphabet(digits: set<char>, words: set<char>)

  predicate AsciiDigit(c: char) {
    '0' <= c <= '9'
  }

  predicate AsciiWord(c: char) {
    'a' <= c <= 'z' || 'A' <= c <= 'Z' || AsciiDigit(c) || c == '_'
  }

  ghost predicate Lawful(u: Alphabet) {
    && u.digits <= u.words
    && (forall c :: AsciiDigit(c) ==> c in u.digits)
    && (forall c :: AsciiWord(c) ==> c in u.words)
    && (forall c :: c in u.digits && c < 128 as char ==> AsciiDigit(c))
    && (forall c :: c in u.words && c < 128 as char ==> AsciiWord(c))
  }

  datatype CharClass = Literal(c: char) | Digit | DigitOrComma | Upper | Alnum | NotQuote

  predicate Accepts(u: Alphabet, cls: CharClass, c: char) {
    match cls
    case Literal(x) => c == x
    case Digit => c in u.digits
    case DigitOrComma => c in u.digits || c == ','
    case Upper => 'A' <= c <= 'Z'
    case Alnum => 'a' <= c <= 'z' || 'A' <= c <= 'Z' || AsciiDigit(c)
    case NotQuote => c != '"'
  }

  datatype Re =
    | Char(cls: CharClass)
    | Boundary
    | NoWordBefore
    | NoWordAfter
    | Empty
    | Then(first: Re, second: Re)
    | Or(left: Re, right: Re)
    | Star(body: Re)

  // ----- derived forms -----

  function Plus(r: Re): Re {
    Then(r, Star(r))
  }

  function Optional(r: Re): Re {
    Or(r, Empty)
  }

  /** `r{0,n}` */
  function UpTo(r: Re, n: nat): Re {
    if n == 0 then Empty else Or(Then(r, UpTo(r, n - 1)), Empty)
  }

  /** One character after another. */
  function Chain(cs: seq<CharClass>): Re {
    if cs == [] then Empty else Then(Char(cs[0]), Chain(cs[1..]))
  }

  /** `\b mid \b` */
  function Word(mid: Re): Re {
    Then(Boundary, Then(mid, Boundary))
  }

  // ----- matching -----

  predicate IsWordAt(u: Alphabet, t: string, i: int) {
    0 <= i < |t| && t[i] in u.words
  }

  predicate AsciiWordAt(t: string, i: int) {
    0 <= i < |t| && AsciiWord(t[i])
  }

  predicate AtBoundary(u: Alphabet, t: string, i: nat) {
    IsWordAt(u, t, i - 1) != IsWordAt(u, t, i)
  }

  /** The ends `re` reaches from position `i`, in the order they are tried. */
  function Ends(u: Alphabet, re: Re, t: string, i: nat): (es: seq<nat>)
    requires i <= |t|
    ensures forall e :: e in es ==> i <= e <= |t|
    decreases re, |t| + 1 - i, 0
  {
    match re
    case Char(cls) => if i < |t| && Accepts(u, cls, t[i]) then [i + 1] else []
    case Boundary => if AtBoundary(u, t, i) then [i] else []
    case NoWordBefore => if AsciiWordAt(t, i - 1) then [] else [i]
    case NoWordAfter => if AsciiWordAt(t, i) then [] else [i]
    case Empty => [i]
    case Then(a, b) => EndsEach(u, b, t, Ends(u, a, t, i), i)
    case Or(a, b) => Ends(u, a, t, i) + Ends(u, b, t, i)
    case Star(r) => EndsEach(u, re, t, Beyond(Ends(u, r, t, i), i), i + 1) + [i]
  }

  /** The ends `re` reaches from each of `starts` in turn. */
  function EndsEach(u: Alphabet, re: Re, t: string, starts: seq<nat>, ghost lo: nat): (es: seq<nat>)
    requires lo <= |t| + 1
    requires forall s :: s in starts ==> lo <= s <= |t|
    ensures forall e :: e in es ==> lo <= e <= |t|
    decreases re, |t| + 1 - lo, 1 + |starts|
  {
    if starts == [] then []
    else
      assert forall s :: s in starts[1..] ==> s in starts;
      assert starts[0] in starts;
      Ends(u, re, t, starts[0]) + EndsEach(u, re, t, starts[1..], lo)
  }

  /** A repetition stops repeating when its body consumed nothing. */
  function Beyond(es: seq<nat>, i: nat): (r: seq<nat>)
    ensures forall e :: e in r <==> e in es && i < e
  {
    if es == [] then [] else (if i < es[0] then [es[0]] else []) + Beyond(es[1..], i)
  }

  predicate Matches(u: Alphabet, re: Re, t: string, i: nat)
    requires i <= |t|
  {
    Ends(u, re, t, i) != []
  }

  /** `re.fullmatch`: some way of matching consumes the whole of `p`. */
  predicate FullMatch(u: Alphabet, re: Re, p: string) {
    |p| in Ends(u, re, p, 0)
  }

  /** `re.findall` and `re.finditer` for a pattern that consumes something: the
      leftmost match first, the next search starting where it ended. */
  function FindAll(u: Alphabet, re: Re, t: string, i: nat): (spans: seq<(nat, nat)>)
    requires i <= |t|
    ensures forall s :: s in spans ==> i <= s.0 < s.1 <= |t|
    decreases |t| - i
  {
    if i == |t| then []
    else if Matches(u, re, t, i) && i < Ends(u, re, t, i)[0] then
      var e := Ends(u, re, t, i)[0];
      assert e in Ends(u, re, t, i);
      [(i, e)] + FindAll(u, re, t, e)
    else FindAll(u, re, t, i + 1)
  }

  // ----- how matches decompose -----

  lemma EachInverse(u: Alphabet, re: Re, t: string, starts: seq<nat>, lo: nat, e: nat) returns (s: nat)
    requires lo <= |t| + 1
    requires forall s :: s in starts ==> lo <= s <= |t|
    requires e in EndsEach(u, re, t, starts, lo)
    ensures s in starts && s <= |t| && e in Ends(u, re, t, s)
  {
    assert starts[0] in starts && forall s :: s in starts[1..] ==> s in starts;
    if e in Ends(u, re, t, starts[0]) {
      s := starts[0];
    } else {
      s := EachInverse(u, re, t, starts[1..], lo, e);
    }
  }

  /** A match of a sequence is a match of its first part followed by one of its second. */
  lemma ThenInverse(u: Alphabet, a: Re, b: Re, t: string, i: nat, e: nat) returns (s: nat)
    requires i <= |t| && e in Ends(u, Then(a, b), t, i)
    ensures s in Ends(u, a, t, i) && s <= |t| && e in Ends(u, b, t, s)
  {
    s := EachInverse(u, b, t, Ends(u, a, t, i), i, e);
  }

  /** The first choice of a sequence is the first choice of its parts, when that does not fail. */
  lemma ThenHead(u: Alphabet, a: Re, b: Re, t: string, i: nat)
    requires i <= |t| && Ends(u, a, t, i) != []
    ensures Ends(u, a, t, i)[0] <= |t|
    ensures var s := Ends(u, a, t, i)[0];
            Ends(u, b, t, s) != [] ==>
              Ends(u, Then(a, b), t, i) != [] && Ends(u, Then(a, b), t, i)[0] == Ends(u, b, t, s)[0]
  {
    assert Ends(u, a, t, i)[0] in Ends(u, a, t, i);
  }

  lemma {:induction false} EachIntro(u: Alphabet, re: Re, t: string, starts: seq<nat>, lo: nat, s: nat, e: nat)
    requires lo <= |t| + 1
    requires forall s :: s in starts ==> lo <= s <= |t|
    requires s in starts && s <= |t| && e in Ends(u, re, t, s)
    ensures e in EndsEach(u, re, t, starts, lo)
    decreases |starts|
  {
    assert starts[0] in starts && forall s :: s in starts[1..] ==> s in starts;
    if s != starts[0] {
      EachIntro(u, re, t, starts[1..], lo, s, e);
    }
  }

  lemma ThenIntro(u: Alphabet, a: Re, b: Re, t: string, i: nat, s: nat, e: nat)
    requires i <= |t| && s in Ends(u, a, t, i) && s <= |t| && e in Ends(u, b, t, s)
    ensures e in Ends(u, Then(a, b), t, i)
  {
    EachIntro(u, b, t, Ends(u, a, t, i), i, s, e);
  }

  /** A repetition that can go on goes on first. */
  lemma StarHead(u: Alphabet, r: Re, t: string, i: nat)
    requires i <= |t| && Ends(u, r, t, i) != [] && i < Ends(u, r, t, i)[0]
    ensures Ends(u, r, t, i)[0] <= |t|
    ensures var s := Ends(u, r, t, i)[0];
            Ends(u, Star(r), t, i) != [] && Ends(u, Star(r), t, s) != []
            && Ends(u, Star(r), t, i)[0] == Ends(u, Star(r), t, s)[0]
  {
    var es := Ends(u, r, t, i);
    assert es[0] in es;
    assert Beyond(es, i) == [es[0]] + Beyond(es[1..], i);
    StarNotEmpty(u, r, t, es[0]);
  }

  lemma StarNotEmpty(u: Alphabet, r: Re, t: string, i: nat)
    requires i <= |t|
    ensures Ends(u, Star(r), t, i) != []
  {
  }

  /** A word-anchored match has a boundary on either side. */
  lemma WordInverse(u: Alphabet, mid: Re, t: string, i: nat, e: nat)
    requires i <= |t| && e in Ends(u, Word(mid), t, i)
    ensures e <= |t| && AtBoundary(u, t, i) && AtBoundary(u, t, e) && e in Ends(u, mid, t, i)
  {
    var s := ThenInverse(u, Boundary, Then(mid, Boundary), t, i, e);
    var s' := ThenInverse(u, mid, Boundary, t, i, e);
  }

  /** A chain of character classes matches in one way only. */
  lemma {:induction false} ChainLength(u: Alphabet, cs: seq<CharClass>, t: string, i: nat, e: nat)
    requires i <= |t| && e in Ends(u, Chain(cs), t, i)
    ensures e == i + |cs|
    decreases |cs|
  {
    if cs != [] {
      var s := ThenInverse(u, Char(cs[0]), Chain(cs[1..]), t, i, e);
      ChainLength(u, cs[1..], t, s, e);
    }
  }

  predicate ChainAt(u: Alphabet, cs: seq<CharClass>, t: string, i: nat) {
    i + |cs| <= |t| && forall j | 0 <= j < |cs| :: Accepts(u, cs[j], t[i + j])
  }

  lemma ChainStep(u: Alphabet, cs: seq<CharClass>, t: string, i: nat)
    requires cs != []
    ensures ChainAt(u, cs, t, i) <==> i < |t| && Accepts(u, cs[0], t[i]) && ChainAt(u, cs[1..], t, i + 1)
  {
    var rest := cs[1..];
    if ChainAt(u, cs, t, i) {
      assert Accepts(u, cs[0], t[i + 0]);
      forall j | 0 <= j < |rest|
        ensures Accepts(u, rest[j], t[i + 1 + j])
      {
        assert Accepts(u, cs[j + 1], t[i + (j + 1)]);
      }
    }
    if i < |t| && Accepts(u, cs[0], t[i]) && ChainAt(u, rest, t, i + 1) {
      forall j | 0 <= j < |cs|
        ensures Accepts(u, cs[j], t[i + j])
      {
        assert 0 < j ==> cs[j] == rest[j - 1] && Accepts(u, rest[j - 1], t[i + 1 + (j - 1)]);
      }
    }
  }

  /** It matches where every class accepts its character, and nowhere else. */
  lemma {:induction false} ChainEnds(u: Alphabet, cs: seq<CharClass>, t: string, i: nat)
    requires i <= |t|
    ensures Ends(u, Chain(cs), t, i) == if ChainAt(u, cs, t, i) then [i + |cs|] else []
    decreases |cs|
  {
    if cs != [] {
      ChainStep(u, cs, t, i);
      if i < |t| && Accepts(u, cs[0], t[i]) {
        ChainEnds(u, cs[1..], t, i + 1);
        OneStart(u, Chain(cs[1..]), t, i + 1, i);
      }
    }
  }

  function Literals(p: string): (cs: seq<CharClass>)
    ensures |cs| == |p|
  {
    if p == "" then [] else [Literal(p[0])] + Literals(p[1..])
  }

  lemma HoldsStep(t: string, i: nat, p: string)
    requires p != ""
    ensures Holds(t, i, p) <==> i < |t| && t[i] == p[0] && Holds(t, i + 1, p[1..])
  {
    if i + |p| <= |t| {
      assert t[i..i + |p|] == [t[i]] + t[i + 1..i + |p|];
      assert p == [p[0]] + p[1..];
    }
  }

  lemma OneStart(u: Alphabet, re: Re, t: string, s: nat, lo: nat)
    requires lo <= s <= |t|
    ensures EndsEach(u, re, t, [s], lo) == Ends(u, re, t, s)
  {
    assert [s][1..] == [];
  }

  /** An escaped literal matches exactly where the text holds it. */
  lemma {:induction false} LiteralEnds(u: Alphabet, p: string, t: string, i: nat)
    requires i <= |t|
    ensures Ends(u, Chain(Literals(p)), t, i) == if Holds(t, i, p) then [i + |p|] else []
    decreases |p|
  {
    if p != "" {
      var rest := Chain(Literals(p[1..]));
      assert Literals(p)[1..] == Literals(p[1..]);
      assert Chain(Literals(p)) == Then(Char(Literal(p[0])), rest);
      HoldsStep(t, i, p);
      if i < |t| && t[i] == p[0] {
        LiteralEnds(u, p[1..], t, i + 1);
        OneStart(u, rest, t, i + 1, i);
      }
    }
  }

  predicate Run(u: Alphabet, cls: CharClass, t: string, i: nat, e: nat) {
    i <= e <= |t| && forall j :: i <= j < e ==> Accepts(u, cls, t[j])
  }

  lemma StarUnfold(u: Alphabet, cls: CharClass, t: string, i: nat)
    requires i <= |t|
    ensures Ends(u, Star(Char(cls)), t, i) ==
            if i < |t| && Accepts(u, cls, t[i]) then Ends(u, Star(Char(cls)), t, i + 1) + [i] else [i]
  {
    var star := Star(Char(cls));
    if i < |t| && Accepts(u, cls, t[i]) {
      assert Beyond([i + 1], i) == [i + 1] + Beyond([i + 1][1..], i);
      OneStart(u, star, t, i + 1, i + 1);
    }
  }

  /** Everything `cls*` can match is a run, and its first choice is the longest one. */
  lemma {:induction false} StarRun(u: Alphabet, cls: CharClass, t: string, i: nat)
    requires i <= |t|
    ensures forall e :: e in Ends(u, Star(Char(cls)), t, i) ==> Run(u, cls, t, i, e)
    ensures Ends(u, Star(Char(cls)), t, i) != []
    ensures var r := Ends(u, Star(Char(cls)), t, i)[0];
            Run(u, cls, t, i, r) && (r == |t| || !Accepts(u, cls, t[r]))
    decreases |t| - i
  {
    StarUnfold(u, cls, t, i);
    if i < |t| && Accepts(u, cls, t[i]) {
      StarRun(u, cls, t, i + 1);
    }
  }

  lemma RunStep(u: Alphabet, cls: CharClass, t: string, i: nat, e: nat)
    requires i <= |t|
    ensures Run(u, cls, t, i, e) <==> e == i || (i < |t| && Accepts(u, cls, t[i]) && Run(u, cls, t, i + 1, e))
  {
  }

  lemma UpToUnfold(u: Alphabet, cls: CharClass, n: nat, t: string, i: nat)
    requires i <= |t| && 0 < n
    ensures Ends(u, UpTo(Char(cls), n), t, i) ==
            if i < |t| && Accepts(u, cls, t[i]) then Ends(u, UpTo(Char(cls), n - 1), t, i + 1) + [i] else [i]
  {
    var rest := UpTo(Char(cls), n - 1);
    assert Ends(u, UpTo(Char(cls), n), t, i) == Ends(u, Then(Char(cls), rest), t, i) + [i];
    if i < |t| && Accepts(u, cls, t[i]) {
      OneStart(u, rest, t, i + 1, i);
    }
  }

  /** `cls{0,n}` matches exactly the runs of at most `n`. */
  lemma {:induction false} UpToRuns(u: Alphabet, cls: CharClass, n: nat, t: string, i: nat, e: nat)
    requires i <= |t|
    ensures e in Ends(u, UpTo(Char(cls), n), t, i) <==> Run(u, cls, t, i, e) && e - i <= n
    decreases n
  {
    if n != 0 {
      RunStep(u, cls, t, i, e);
      UpToUnfold(u, cls, n, t, i);
      if i < |t| && Accepts(u, cls, t[i]) {
        UpToRuns(u, cls, n - 1, t, i + 1, e);
      }
    }
  }

  // ----- locality between two quotation marks -----

  /** `re` has no way of consuming a quotation mark. */
  predicate AvoidsQuote(re: Re) {
    match re
    case Char(cls) => cls != Literal('"')
    case Boundary | NoWordBefore | NoWordAfter => true
    case Empty => true
    case Then(a, b) => AvoidsQuote(a) && AvoidsQuote(b)
    case Or(a, b) => AvoidsQuote(a) && AvoidsQuote(b)
    case Star(r) => AvoidsQuote(r)
  }

  function Shift(es: seq<nat>, o: nat): (r: seq<nat>)
    ensures |r| == |es|
    ensures forall e :: e in r ==> o <= e && e - o in es
  {
    if es == [] then [] else
      assert es[0] in es && forall e :: e in es[1..] ==> e in es;
      [es[0] + o] + Shift(es[1..], o)
  }

  lemma ShiftAppend(a: seq<nat>, b: seq<nat>, o: nat)
    ensures Shift(a + b, o) == Shift(a, o) + Shift(b, o)
  {
    if a == [] {
      assert a + b == b;
    } else {
      assert (a + b)[1..] == a[1..] + b;
    }
  }

  lemma {:induction false} ShiftBeyond(es: seq<nat>, i: nat, o: nat)
    ensures Beyond(Shift(es, o), i + o) == Shift(Beyond(es, i), o)
  {
    if es != [] {
      ShiftBeyond(es[1..], i, o);
      assert Shift(es, o)[1..] == Shift(es[1..], o);
      ShiftAppend(if i < es[0] then [es[0]] else [], Beyond(es[1..], i), o);
    }
  }

  /** `t[o..o+n]` stands between two quotation marks. */
  predicate Quoted(t: string, o: nat, n: nat) {
    0 < o && o + n < |t| && t[o - 1] == '"' && t[o + n] == '"'
  }

  /** `p` is the text between two quotation marks of `t`, from position `o` on. */
  ghost predicate IsQuoted(t: string, o: nat, p: string) {
    Quoted(t, o, |p|) && p == t[o..o + |p|]
  }

  lemma LocalChar(u: Alphabet, t: string, o: nat, p: string, i: nat)
    requires Lawful(u) && IsQuoted(t, o, p) && i <= |p|
    ensures i < |p| ==> t[o + i] == p[i]
    ensures AtBoundary(u, t, o + i) == AtBoundary(u, p, i)
    ensures AsciiWordAt(t, o + i - 1) == AsciiWordAt(p, i - 1) && AsciiWordAt(t, o + i) == AsciiWordAt(p, i)
  {
    assert 0 < i ==> p[i - 1] == t[o + i - 1];
    assert !AsciiWord('"');
  }

  /** Between two quotation marks a pattern that cannot consume one behaves as
      it would on the quoted text alone. */
  lemma {:induction false} Local(u: Alphabet, re: Re, t: string, o: nat, p: string, i: nat)
    requires Lawful(u) && AvoidsQuote(re) && IsQuoted(t, o, p) && i <= |p|
    ensures Ends(u, re, t, o + i) == Shift(Ends(u, re, p, i), o)
    decreases re, |p| + 1 - i, 1
  {
    match re
    case Char(cls) => LocalChar(u, t, o, p, i);
    case Boundary | NoWordBefore | NoWordAfter => LocalChar(u, t, o, p, i);
    case Empty =>
    case Then(a, b) =>
      Local(u, a, t, o, p, i);
      ShiftRange(Ends(u, a, p, i), o, i, |p|);
      LocalEach(u, b, t, o, p, Ends(u, a, p, i), i);
    case Or(a, b) =>
      Local(u, a, t, o, p, i);
      Local(u, b, t, o, p, i);
      ShiftAppend(Ends(u, a, p, i), Ends(u, b, p, i), o);
    case Star(r) =>
      LocalStar(u, r, t, o, p, i);
  }

  lemma {:induction false} LocalStar(u: Alphabet, r: Re, t: string, o: nat, p: string, i: nat)
    requires Lawful(u) && AvoidsQuote(r) && IsQuoted(t, o, p) && i <= |p|
    ensures Ends(u, Star(r), t, o + i) == Shift(Ends(u, Star(r), p, i), o)
    decreases Star(r), |p| + 1 - i, 0
  {
    Local(u, r, t, o, p, i);
    var next := Beyond(Ends(u, r, p, i), i);
    ShiftBeyond(Ends(u, r, p, i), i, o);
    ShiftRange(next, o, i + 1, |p|);
    LocalEach(u, Star(r), t, o, p, next, i + 1);
    ShiftAppend(EndsEach(u, Star(r), p, next, i + 1), [i], o);
    assert Shift([i], o) == [i + o];
  }

  lemma ShiftRange(starts: seq<nat>, o: nat, lo: nat, hi: nat)
    requires forall s :: s in starts ==> lo <= s <= hi
    ensures forall s :: s in Shift(starts, o) ==> o + lo <= s <= o + hi
  {
  }

  lemma ShiftFirst(starts: seq<nat>, o: nat)
    requires starts != []
    ensures Shift(starts, o) == [starts[0] + o] + Shift(starts[1..], o)
    ensures Shift(starts, o)[1..] == Shift(starts[1..], o)
  {
  }

  lemma EachFirst(u: Alphabet, re: Re, t: string, starts: seq<nat>, lo: nat)
    requires lo <= |t| + 1 && starts != [] && starts[0] <= |t|
    requires forall s :: s in starts ==> lo <= s <= |t|
    ensures forall s :: s in starts[1..] ==> lo <= s <= |t|
    ensures EndsEach(u, re, t, starts, lo) == Ends(u, re, t, starts[0]) + EndsEach(u, re, t, starts[1..], lo)
  {
    assert forall s :: s in starts[1..] ==> s in starts;
    assert starts[0] in starts;
  }

  lemma {:induction false} LocalEach(u: Alphabet, re: Re, t: string, o: nat, p: string, starts: seq<nat>, lo: nat)
    requires Lawful(u) && AvoidsQuote(re) && IsQuoted(t, o, p) && lo <= |p| + 1
    requires forall s :: s in starts ==> lo <= s <= |p|
    requires forall s :: s in Shift(starts, o) ==> o + lo <= s <= |t|
    ensures EndsEach(u, re, t, Shift(starts, o), o + lo) == Shift(EndsEach(u, re, p, starts, lo), o)
    decreases re, |p| + 1 - lo, 2 + |starts|
  {
    if starts != [] {
      var s, rest, moved := starts[0], starts[1..], Shift(starts, o);
      assert s in starts;
      ShiftFirst(starts, o);
      assert moved[0] == s + o && moved[0] in moved;
      EachFirst(u, re, p, starts, lo);
      EachFirst(u, re, t, moved, o + lo);
      Local(u, re, t, o, p, s);
      LocalEach(u, re, t, o, p, rest, lo);
      var here, later := Ends(u, re, p, s), EndsEach(u, re, p, rest, lo);
      ShiftAppend(here, later, o);
    }
  }

  // ----- what a pattern can consume -----

  /** Some part of `re` accepts `c`. */
  predicate Eats(u: Alphabet, re: Re, c: char) {
    match re
    case Char(cls) => Accepts(u, cls, c)
    case Boundary | NoWordBefore | NoWordAfter => false
    case Empty => false
    case Then(a, b) => Eats(u, a, c) || Eats(u, b, c)
    case Or(a, b) => Eats(u, a, c) || Eats(u, b, c)
    case Star(r) => Eats(u, r, c)
  }

  /** A match cannot run past a character that its pattern cannot consume. */
  lemma {:induction false} StopsBefore(u: Alphabet, re: Re, t: string, i: nat, q: nat, e: nat)
    requires i <= q < |t| && !Eats(u, re, t[q]) && e in Ends(u, re, t, i)
    ensures e <= q
    decreases re, |t| + 1 - i, 0
  {
    match re
    case Char(cls) =>
    case Boundary | NoWordBefore | NoWordAfter =>
    case Empty =>
    case Then(a, b) =>
      var s := ThenInverse(u, a, b, t, i, e);
      StopsBefore(u, a, t, i, q, s);
      StopsBefore(u, b, t, s, q, e);
    case Or(a, b) =>
      if e in Ends(u, a, t, i) {
        StopsBefore(u, a, t, i, q, e);
      } else {
        StopsBefore(u, b, t, i, q, e);
      }
    case Star(r) =>
      if e != i {
        var s := EachInverse(u, re, t, Beyond(Ends(u, r, t, i), i), i + 1, e);
        StopsBefore(u, r, t, i, q, s);
        StopsBefore(u, re, t, s, q, e);
      }
  }

  lemma {:induction false} AvoidsMeansNotEats(u: Alphabet, re: Re)
    requires Lawful(u) && AvoidsQuote(re)
    ensures !Eats(u, re, '"')
  {
    match re
    case Char(cls) =>
    case Boundary | NoWordBefore | NoWordAfter =>
    case Empty =>
    case Then(a, b) =>
      AvoidsMeansNotEats(u, a);
      AvoidsMeansNotEats(u, b);
    case Or(a, b) =>
      AvoidsMeansNotEats(u, a);
      AvoidsMeansNotEats(u, b);
    case Star(r) => AvoidsMeansNotEats(u, r);
  }

  /** A match that starts at or before a quotation mark, of a pattern that cannot consume it, ends there at the latest. */
  lemma StopsAtQuote(u: Alphabet, re: Re, t: string, i: nat, q: nat, e: nat)
    requires Lawful(u) && AvoidsQuote(re) && i <= q < |t| && t[q] == '"'
    requires e in Ends(u, re, t, i)
    ensures e <= q
  {
    AvoidsMeansNotEats(u, re);
    StopsBefore(u, re, t, i, q, e);
  }

  // ----- what findall returns -----

  /** Every span found is a match of the pattern at its start. */
  lemma {:induction false} FoundSpan(u: Alphabet, re: Re, t: string, from: nat, span: (nat, nat))
    requires from <= |t| && span in FindAll(u, re, t, from)
    ensures from <= span.0 < span.1 <= |t| && span.1 in Ends(u, re, t, span.0)
    decreases |t| - from
  {
    if Matches(u, re, t, from) && from < Ends(u, re, t, from)[0] {
      var e := Ends(u, re, t, from)[0];
      assert e in Ends(u, re, t, from);
      if span != (from, e) {
        FoundSpan(u, re, t, e, span);
      }
    } else {
      FoundSpan(u, re, t, from + 1, span);
    }
  }

  /** No match that starts in `from..i` runs past `i`. */
  ghost predicate NoneCrosses(u: Alphabet, re: Re, t: string, from: nat, i: nat)
    requires i <= |t|
  {
    forall f | from <= f < i && Matches(u, re, t, f) :: Ends(u, re, t, f)[0] <= i
  }

  /** The scan comes to every position that no earlier match runs past. */
  lemma {:induction false} NotSkipped(u: Alphabet, re: Re, t: string, from: nat, i: nat)
    requires from <= i <= |t| && NoneCrosses(u, re, t, from, i)
    requires Matches(u, re, t, i) && i < Ends(u, re, t, i)[0]
    ensures (i, Ends(u, re, t, i)[0]) in FindAll(u, re, t, from)
    decreases i - from
  {
    assert Ends(u, re, t, i)[0] in Ends(u, re, t, i);
    if from < i {
      if Matches(u, re, t, from) && from < Ends(u, re, t, from)[0] {
        NotSkipped(u, re, t, Ends(u, re, t, from)[0], i);
      } else {
        NotSkipped(u, re, t, from + 1, i);
      }
    }
  }

  /** Nothing crosses a character that the pattern cannot consume. */
  lemma NoneCrossesBarrier(u: Alphabet, re: Re, t: string, i: nat)
    requires i <= |t| && (i == 0 || !Eats(u, re, t[i - 1]))
    ensures NoneCrosses(u, re, t, 0, i)
  {
    forall f | 0 <= f < i && Matches(u, re, t, f)
      ensures Ends(u, re, t, f)[0] <= i
    {
      var e := Ends(u, re, t, f)[0];
      assert e in Ends(u, re, t, f);
      StopsBefore(u, re, t, f, i - 1, e);
    }
  }

  /** The scan finds any quoted text that the pattern's first choice would match whole. */
  lemma QuotedTextFound(u: Alphabet, re: Re, t: string, o: nat, p: string)
    requires Lawful(u) && AvoidsQuote(re) && IsQuoted(t, o, p) && p != ""
    requires Matches(u, re, t, o) && Ends(u, re, t, o)[0] == o + |p|
    ensures (o, o + |p|) in FindAll(u, re, t, 0)
  {
    AvoidsMeansNotEats(u, re);
    NoneCrossesBarrier(u, re, t, o);
    NotSkipped(u, re, t, 0, o);
  }
}
