/** Python's stable `sorted`, counting, and the lexicographic order on lists. */
module Sorting {
  import opened Common

  // ----- orders -----

  ghost predicate TotalPreorder<T(!new)>(le: (T, T) -> bool) {
    && (forall x, y :: le(x, y) || le(y, x))
    && (forall x, y, z :: le(x, y) && le(y, z) ==> le(x, z))
  }

  ghost predicate AntiSymmetric<T(!new)>(le: (T, T) -> bool) {
    forall x, y :: le(x, y) && le(y, x) ==> x == y
  }

  ghost predicate AntiSymmetricOn<T>(le: (T, T) -> bool, s: seq<T>) {
    forall x, y | x in s && y in s :: le(x, y) && le(y, x) ==> x == y
  }

  ghost predicate Sorted<T>(s: seq<T>, le: (T, T) -> bool) {
    forall i, j | 0 <= i < j < |s| :: le(s[i], s[j])
  }

  predicate Distinct<T(==)>(s: seq<T>) {
    forall i, j | 0 <= i < j < |s| :: s[i] != s[j]
  }

  // ----- the stable sort -----

  function Insert<T>(x: T, s: seq<T>, le: (T, T) -> bool): (r: seq<T>)
    ensures multiset(r) == multiset(s) + multiset{x}
    ensures |r| == |s| + 1
  {
    if s == [] then [x]
    else if le(x, s[0]) then [x] + s
    else
      assert s == [s[0]] + s[1..];
      [s[0]] + Insert(x, s[1..], le)
  }

  /** Elements that compare equal keep their order. */
  function Sort<T>(s: seq<T>, le: (T, T) -> bool): (r: seq<T>)
    ensures multiset(r) == multiset(s)
    ensures |r| == |s|
  {
    if s == [] then []
    else
      assert s == [s[0]] + s[1..];
      Insert(s[0], Sort(s[1..], le), le)
  }

  lemma SortKeeps<T>(s: seq<T>, le: (T, T) -> bool, x: T)
    requires x in s
    ensures x in Sort(s, le)
  {
    assert x in multiset(s);
    assert x in multiset(Sort(s, le));
  }

  lemma SameElements<T>(a: seq<T>, b: seq<T>)
    requires multiset(a) == multiset(b)
    ensures |a| == |b| && forall x :: x in a <==> x in b
  {
    assert |multiset(a)| == |a| && |multiset(b)| == |b|;
    forall x
      ensures x in a <==> x in b
    {
      assert x in a <==> x in multiset(a);
      assert x in b <==> x in multiset(b);
    }
  }

  lemma {:induction false} InsertSorted<T(!new)>(x: T, s: seq<T>, le: (T, T) -> bool)
    requires TotalPreorder(le) && Sorted(s, le)
    ensures Sorted(Insert(x, s, le), le)
  {
    if s != [] && !le(x, s[0]) {
      InsertSorted(x, s[1..], le);
      var rest := Insert(x, s[1..], le);
      forall y | y in rest
        ensures le(s[0], y)
      {
        assert y in multiset(rest);
        assert y in s[1..] || y == x;
      }
    }
  }

  lemma {:induction false} SortSorted<T(!new)>(s: seq<T>, le: (T, T) -> bool)
    requires TotalPreorder(le)
    ensures Sorted(Sort(s, le), le)
  {
    if s != [] {
      SortSorted(s[1..], le);
      InsertSorted(s[0], Sort(s[1..], le), le);
    }
  }

  lemma FirstIsLeast<T(!new)>(a: seq<T>, x: T, le: (T, T) -> bool)
    requires Sorted(a, le) && x in a
    ensures x == a[0] || le(a[0], x)
  {
    var i :| 0 <= i < |a| && a[i] == x;
  }

  lemma WithoutFirst<T>(a: seq<T>)
    requires a != []
    ensures multiset(a[1..]) == multiset(a) - multiset{a[0]}
  {
    assert a == [a[0]] + a[1..];
  }

  /** A sorted arrangement is unique where the order tells elements apart. */
  lemma {:induction false} SortedUnique<T(!new)>(a: seq<T>, b: seq<T>, le: (T, T) -> bool)
    requires Sorted(a, le) && Sorted(b, le) && multiset(a) == multiset(b) && AntiSymmetricOn(le, a)
    ensures a == b
    decreases |a|
  {
    SameElements(a, b);
    if a != [] {
      FirstIsLeast(a, b[0], le);
      FirstIsLeast(b, a[0], le);
      assert a[0] in a && b[0] in a;
      WithoutFirst(a);
      WithoutFirst(b);
      assert forall x :: x in a[1..] ==> x in a;
      SortedUnique(a[1..], b[1..], le);
      assert a == [a[0]] + a[1..] && b == [b[0]] + b[1..];
    }
  }

  /** Sorting forgets the order its input came in. */
  lemma SortPermutation<T(!new)>(a: seq<T>, b: seq<T>, le: (T, T) -> bool)
    requires TotalPreorder(le) && multiset(a) == multiset(b) && AntiSymmetricOn(le, a)
    ensures Sort(a, le) == Sort(b, le)
  {
    SortSorted(a, le);
    SortSorted(b, le);
    SameElements(a, Sort(a, le));
    SortedUnique(Sort(a, le), Sort(b, le), le);
  }

  lemma SortOfSorted<T(!new)>(a: seq<T>, le: (T, T) -> bool)
    requires TotalPreorder(le) && Sorted(a, le) && AntiSymmetricOn(le, a)
    ensures Sort(a, le) == a
  {
    SortSorted(a, le);
    SortedUnique(a, Sort(a, le), le);
  }

  /** `x` is inserted before whatever it may stand before. */
  lemma {:induction false} InsertBefore<T>(x: T, s: seq<T>, le: (T, T) -> bool, q: nat) returns (p: nat)
    requires q < |s| && le(x, s[q])
    ensures p <= q && Insert(x, s, le)[p] == x && Insert(x, s, le)[q + 1] == s[q]
  {
    if le(x, s[0]) {
      p := 0;
    } else {
      p := InsertBefore(x, s[1..], le, q - 1);
      p := p + 1;
    }
  }

  lemma {:induction false} InsertKeepsOrder<T>(x: T, s: seq<T>, le: (T, T) -> bool, p: nat, q: nat) returns (p': nat, q': nat)
    requires p < q < |s|
    ensures p' < q' < |s| + 1 && Insert(x, s, le)[p'] == s[p] && Insert(x, s, le)[q'] == s[q]
  {
    if le(x, s[0]) {
      p', q' := p + 1, q + 1;
    } else if p == 0 {
      p', q' := 0, InsertedAt(x, s[1..], le, q - 1) + 1;
    } else {
      p', q' := InsertKeepsOrder(x, s[1..], le, p - 1, q - 1);
      p', q' := p' + 1, q' + 1;
    }
  }

  /** Where the element at `q` stands once `x` is inserted. */
  function InsertedAt<T>(x: T, s: seq<T>, le: (T, T) -> bool, q: nat): (q': nat)
    requires q < |s|
    ensures q' < |s| + 1 && Insert(x, s, le)[q'] == s[q]
  {
    if le(x, s[0]) then q + 1 else if q == 0 then 0 else InsertedAt(x, s[1..], le, q - 1) + 1
  }

  /** The sort is stable: of two elements that may stand as they do, the former stays before the latter. */
  lemma {:induction false} SortStable<T>(s: seq<T>, le: (T, T) -> bool, i: nat, j: nat) returns (p: nat, q: nat)
    requires i < j < |s| && le(s[i], s[j])
    ensures p < q < |s| && Sort(s, le)[p] == s[i] && Sort(s, le)[q] == s[j]
    decreases |s|
  {
    var rest := Sort(s[1..], le);
    if i == 0 {
      SortKeeps(s[1..], le, s[j]);
      q :| 0 <= q < |rest| && rest[q] == s[j];
      p := InsertBefore(s[0], rest, le, q);
      q := q + 1;
    } else {
      p, q := SortStable(s[1..], le, i - 1, j - 1);
      p, q := InsertKeepsOrder(s[0], rest, le, p, q);
    }
  }

  lemma {:induction false} InsertAgrees<T(!new)>(x: T, s: seq<T>, le: (T, T) -> bool, le': (T, T) -> bool)
    requires forall y :: y in s ==> (le(x, y) <==> le'(x, y))
    ensures Insert(x, s, le) == Insert(x, s, le')
  {
    if s != [] {
      assert s[0] in s && forall y :: y in s[1..] ==> y in s;
      InsertAgrees(x, s[1..], le, le');
    }
  }

  /** Only the comparisons between elements of the list matter. */
  lemma {:induction false} SortAgrees<T(!new)>(s: seq<T>, le: (T, T) -> bool, le': (T, T) -> bool)
    requires forall x, y :: x in s && y in s ==> (le(x, y) <==> le'(x, y))
    ensures Sort(s, le) == Sort(s, le')
  {
    if s != [] {
      assert s[0] in s && forall y :: y in s[1..] ==> y in s;
      SortAgrees(s[1..], le, le');
      SameElements(s[1..], Sort(s[1..], le));
      InsertAgrees(s[0], Sort(s[1..], le), le, le');
    }
  }

  lemma DistinctMultiset<T>(s: seq<T>)
    ensures Distinct(s) <==> forall x :: x in s ==> multiset(s)[x] == 1
  {
    if s != [] {
      var x := s[|s| - 1];
      var front := s[..|s| - 1];
      assert s == front + [x];
      DistinctMultiset(front);
      if Distinct(s) {
        forall y | y in s
          ensures multiset(s)[y] == 1
        {
          assert x !in front;
          assert y in front || y == x;
        }
      }
      if forall y :: y in s ==> multiset(s)[y] == 1 {
        assert multiset(s)[x] == multiset(front)[x] + 1 && x in s;
        forall y | y in front
          ensures multiset(front)[y] == 1
        {
          assert y in s;
        }
      }
    }
  }

  lemma DistinctPermutation<T>(a: seq<T>, b: seq<T>)
    requires multiset(a) == multiset(b) && Distinct(a)
    ensures Distinct(b)
  {
    DistinctMultiset(a);
    DistinctMultiset(b);
    SameElements(a, b);
  }

  // ----- counting -----

  function Count<T>(s: seq<T>, p: T -> bool): (n: nat)
    ensures n <= |s|
  {
    if s == [] then 0 else (if p(s[0]) then 1 else 0) + Count(s[1..], p)
  }

  lemma {:induction false} CountAppend<T>(a: seq<T>, b: seq<T>, p: T -> bool)
    ensures Count(a + b, p) == Count(a, p) + Count(b, p)
  {
    if a == [] {
      assert a + b == b;
    } else {
      assert (a + b)[1..] == a[1..] + b;
      CountAppend(a[1..], b, p);
    }
  }

  /** The places where the property holds. */
  ghost function Places<T>(s: seq<T>, p: T -> bool): set<nat> {
    set i: nat | i < |s| && p(s[i])
  }

  lemma PlacesOneMore<T>(s: seq<T>, p: T -> bool)
    requires s != []
    ensures |Places(s, p)| == |Places(s[..|s| - 1], p)| + if p(s[|s| - 1]) then 1 else 0
  {
    var n := |s| - 1;
    if p(s[n]) {
      assert Places(s, p) == Places(s[..n], p) + {n};
    } else {
      assert Places(s, p) == Places(s[..n], p);
    }
  }

  /** A count is their number. */
  lemma {:induction false} CountIs<T>(s: seq<T>, p: T -> bool)
    ensures Count(s, p) == |Places(s, p)|
  {
    if s == [] {
      assert Places(s, p) == {};
    } else {
      var n := |s| - 1;
      CountIs(s[..n], p);
      assert s == s[..n] + [s[n]];
      CountOneMore(s[..n], s[n], p);
      PlacesOneMore(s, p);
    }
  }

  lemma CountIsAs<T(!new)>(s: seq<T>, p: T -> bool, q: T -> bool)
    requires forall x :: p(x) <==> q(x)
    ensures Count(s, p) == |Places(s, q)|
  {
    CountIs(s, p);
    assert Places(s, p) == Places(s, q);
  }

  lemma CountOneMore<T>(s: seq<T>, x: T, p: T -> bool)
    ensures Count(s + [x], p) == Count(s, p) + if p(x) then 1 else 0
  {
    CountAppend(s, [x], p);
    assert [x][1..] == [];
  }

  /** The other elements of `b` once one copy of `x` is taken out. */
  lemma TakeOut<T>(b: seq<T>, x: T) returns (j: nat)
    requires x in b
    ensures j < |b| && b[j] == x
    ensures multiset(b[..j] + b[j + 1..]) == multiset(b) - multiset{x}
  {
    j :| j < |b| && b[j] == x;
    assert b == b[..j] + [x] + b[j + 1..];
  }

  lemma CountMiddle<T>(left: seq<T>, x: T, right: seq<T>, p: T -> bool)
    ensures Count(left + ([x] + right), p) == Count(left + right, p) + if p(x) then 1 else 0
  {
    CountAppend(left, right, p);
    CountAppend(left, [x] + right, p);
    assert ([x] + right)[1..] == right;
  }

  lemma SplitAt<T>(b: seq<T>, j: nat)
    requires j < |b|
    ensures b == b[..j] + ([b[j]] + b[j + 1..])
  {
  }

  lemma CountTakeOut<T>(b: seq<T>, j: nat, p: T -> bool)
    requires j < |b|
    ensures Count(b, p) == Count(b[..j] + b[j + 1..], p) + if p(b[j]) then 1 else 0
  {
    SplitAt(b, j);
    CountMiddle(b[..j], b[j], b[j + 1..], p);
  }

  lemma {:induction false} CountPermutation<T>(a: seq<T>, b: seq<T>, p: T -> bool)
    requires multiset(a) == multiset(b)
    ensures Count(a, p) == Count(b, p)
    decreases |a|
  {
    SameElements(a, b);
    if a != [] {
      var j := TakeOut(b, a[0]);
      WithoutFirst(a);
      CountPermutation(a[1..], b[..j] + b[j + 1..], p);
      CountTakeOut(b, j, p);
    }
  }

  lemma {:induction false} CountAll<T>(s: seq<T>, p: T -> bool)
    ensures Count(s, p) == |s| <==> forall x :: x in s ==> p(x)
    ensures Count(s, p) == 0 <==> forall x :: x in s ==> !p(x)
  {
    if s != [] {
      CountAll(s[1..], p);
      assert s == [s[0]] + s[1..];
    }
  }

  lemma {:induction false} CountLeading<T>(s: seq<T>, i: nat, p: T -> bool)
    requires i <= |s| && forall j | 0 <= j < i :: p(s[j])
    ensures Count(s, p) >= i
  {
    if i != 0 {
      CountLeading(s[1..], i - 1, p);
    }
  }

  lemma {:induction false} CountTrailing<T>(s: seq<T>, i: nat, p: T -> bool)
    requires i <= |s| && forall j | i <= j < |s| :: !p(s[j])
    ensures Count(s, p) <= i
  {
    if s != [] {
      CountTrailing(s[1..], if i == 0 then 0 else i - 1, p);
    }
  }

  lemma {:induction false} CountDisjoint<T>(s: seq<T>, p: T -> bool, q: T -> bool, either: T -> bool)
    requires forall x :: x in s ==> !(p(x) && q(x)) && (either(x) <==> p(x) || q(x))
    ensures Count(s, either) == Count(s, p) + Count(s, q)
  {
    if s != [] {
      assert s[0] in s && forall x :: x in s[1..] ==> x in s;
      CountDisjoint(s[1..], p, q, either);
    }
  }

  lemma {:induction false} CountSame<T>(s: seq<T>, p: T -> bool, q: T -> bool)
    requires forall x :: x in s ==> (p(x) <==> q(x))
    ensures Count(s, p) == Count(s, q)
  {
    if s != [] {
      assert s[0] in s && forall x :: x in s[1..] ==> x in s;
      CountSame(s[1..], p, q);
    }
  }

  /** `[get(x) for x in s if keep(x)]` */
  function Collect<T, U>(s: seq<T>, keep: T -> bool, get: T -> U): seq<U> {
    if s == [] then []
    else if keep(s[0]) then [get(s[0])] + Collect(s[1..], keep, get)
    else Collect(s[1..], keep, get)
  }

  /** `[x for x in s if keep(x)]` */
  function Filter<T>(s: seq<T>, keep: T -> bool): seq<T> {
    Collect(s, keep, x => x)
  }

  lemma {:induction false} FilterIs<T>(s: seq<T>, keep: T -> bool)
    ensures forall x :: x in Filter(s, keep) <==> x in s && keep(x)
    ensures Distinct(s) ==> Distinct(Filter(s, keep))
    ensures |Filter(s, keep)| <= |s|
    ensures (exists x :: x in s && !keep(x)) ==> |Filter(s, keep)| < |s|
  {
    if s != [] {
      FilterIs(s[1..], keep);
      assert s == [s[0]] + s[1..];
    }
  }

  lemma {:induction false} FilterOfAll<T>(s: seq<T>, keep: T -> bool)
    requires forall x :: x in s ==> keep(x)
    ensures Filter(s, keep) == s
  {
    if s != [] {
      assert s[0] in s && forall x :: x in s[1..] ==> x in s;
      FilterOfAll(s[1..], keep);
    }
  }

  lemma {:induction false} FilterOfNone<T>(s: seq<T>, keep: T -> bool)
    requires forall x :: x in s ==> !keep(x)
    ensures Filter(s, keep) == []
  {
    if s != [] {
      assert s[0] in s && forall x :: x in s[1..] ==> x in s;
      FilterOfNone(s[1..], keep);
    }
  }

  lemma {:induction false} CollectAppend<T, U>(a: seq<T>, b: seq<T>, keep: T -> bool, get: T -> U)
    ensures Collect(a + b, keep, get) == Collect(a, keep, get) + Collect(b, keep, get)
  {
    if a == [] {
      assert a + b == b;
    } else {
      var x, rest := a[0], a[1..];
      assert (a + b)[0] == x && (a + b)[1..] == rest + b;
      CollectAppend(rest, b, keep, get);
      if keep(x) {
        Associative([get(x)], Collect(rest, keep, get), Collect(b, keep, get));
      }
    }
  }

  function Collected<T, U>(x: T, keep: T -> bool, get: T -> U): multiset<U> {
    if keep(x) then multiset{get(x)} else multiset{}
  }

  lemma CollectTakeOut<T, U>(b: seq<T>, j: nat, keep: T -> bool, get: T -> U)
    requires j < |b|
    ensures multiset(Collect(b, keep, get))
         == multiset(Collect(b[..j] + b[j + 1..], keep, get)) + Collected(b[j], keep, get)
  {
    var left, right := b[..j], b[j..];
    assert b == left + right && right[1..] == b[j + 1..];
    CollectAppend(left, right, keep, get);
    CollectAppend(left, right[1..], keep, get);
  }

  lemma {:induction false} CollectPermutation<T, U>(a: seq<T>, b: seq<T>, keep: T -> bool, get: T -> U)
    requires multiset(a) == multiset(b)
    ensures multiset(Collect(a, keep, get)) == multiset(Collect(b, keep, get))
    decreases |a|
  {
    SameElements(a, b);
    if a != [] {
      assert a == [a[0]] + a[1..];
      var j := TakeOut(b, a[0]);
      CollectPermutation(a[1..], b[..j] + b[j + 1..], keep, get);
      CollectTakeOut(b, j, keep, get);
    }
  }

  lemma {:induction false} CollectIs<T(!new), U>(s: seq<T>, keep: T -> bool, get: T -> U, y: U)
    ensures y in Collect(s, keep, get) <==> exists x :: x in s && keep(x) && get(x) == y
  {
    if s != [] {
      CollectIs(s[1..], keep, get, y);
      assert s == [s[0]] + s[1..];
    }
  }

  lemma {:induction false} CollectLength<T, U>(s: seq<T>, keep: T -> bool, get: T -> U)
    ensures |Collect(s, keep, get)| == Count(s, keep)
  {
    if s != [] {
      CollectLength(s[1..], keep, get);
    }
  }

  // ----- lexicographic order -----

  /** Python's order on lists (and strings): the first difference decides, a prefix comes first. */
  predicate Lex<T(==)>(le: (T, T) -> bool, a: seq<T>, b: seq<T>) {
    if a == [] then true
    else if b == [] then false
    else if a[0] == b[0] then Lex(le, a[1..], b[1..])
    else le(a[0], b[0])
  }

  lemma {:induction false} LexTotal<T(!new)>(le: (T, T) -> bool, a: seq<T>, b: seq<T>)
    requires TotalPreorder(le) && AntiSymmetric(le)
    ensures Lex(le, a, b) || Lex(le, b, a)
    ensures Lex(le, a, b) && Lex(le, b, a) ==> a == b
  {
    if a != [] && b != [] && a[0] == b[0] {
      LexTotal(le, a[1..], b[1..]);
      assert a == [a[0]] + a[1..] && b == [b[0]] + b[1..];
    }
  }

  lemma {:induction false} LexTransitive<T(!new)>(le: (T, T) -> bool, a: seq<T>, b: seq<T>, c: seq<T>)
    requires TotalPreorder(le) && AntiSymmetric(le) && Lex(le, a, b) && Lex(le, b, c)
    ensures Lex(le, a, c)
  {
    if a != [] && a[0] == b[0] == c[0] {
      LexTransitive(le, a[1..], b[1..], c[1..]);
    }
  }

  lemma LexOrder<T(!new)>(le: (T, T) -> bool)
    requires TotalPreorder(le) && AntiSymmetric(le)
    ensures TotalPreorder((a, b) => Lex(le, a, b)) && AntiSymmetric((a, b) => Lex(le, a, b))
  {
    forall a, b
      ensures (Lex(le, a, b) || Lex(le, b, a)) && (Lex(le, a, b) && Lex(le, b, a) ==> a == b)
    {
      LexTotal(le, a, b);
    }
    forall a, b, c | Lex(le, a, b) && Lex(le, b, c)
      ensures Lex(le, a, c)
    {
      LexTransitive(le, a, b, c);
    }
  }

  predicate CharLe(a: char, b: char) {
    a <= b
  }

  /** Python's order on strings, by code point. */
  predicate StringLe(a: string, b: string) {
    Lex(CharLe, a, b)
  }

  /** Where two strings first differ. */
  predicate DifferAt(a: string, b: string, i: nat) {
    i < |a| && i < |b| && a[..i] == b[..i] && a[i] != b[i]
  }

  /** A string comes before those it is a prefix of. */
  lemma {:induction false} PrefixFirst(a: string, b: string)
    requires a <= b
    ensures StringLe(a, b)
  {
    if a != [] {
      PrefixFirst(a[1..], b[1..]);
    }
  }

  /** Otherwise the first difference decides. */
  lemma {:induction false} StringLeIs(a: string, b: string, i: nat)
    requires DifferAt(a, b, i)
    ensures StringLe(a, b) <==> a[i] < b[i]
  {
    if i != 0 {
      assert a[..i][0] == b[..i][0];
      DifferLater(a, b, i);
      StringLeIs(a[1..], b[1..], i - 1);
    }
  }

  lemma DifferLater(a: string, b: string, i: nat)
    requires a != [] && b != [] && a[0] == b[0] && DifferAt(a, b, i)
    ensures 0 < i && DifferAt(a[1..], b[1..], i - 1)
  {
    assert a[1..][..i - 1] == a[..i][1..] && b[1..][..i - 1] == b[..i][1..];
  }

  lemma StringOrder()
    ensures TotalPreorder(StringLe) && AntiSymmetric(StringLe)
  {
    LexOrder(CharLe);
    forall a, b
      ensures (StringLe(a, b) || StringLe(b, a)) && (StringLe(a, b) && StringLe(b, a) ==> a == b)
    {
      LexTotal(CharLe, a, b);
    }
    forall a, b, c | StringLe(a, b) && StringLe(b, c)
      ensures StringLe(a, c)
    {
      LexTransitive(CharLe, a, b, c);
    }
  }

  /** The keys in order, each once. */
  ghost predicate ListsInOrder(keys: seq<string>, all: set<string>) {
    Sorted(keys, StringLe) && Distinct(keys) && forall k :: k in keys <==> k in all
  }

  lemma OneMoreDistinct(keys: seq<string>, k: string)
    requires Distinct(keys) && k !in keys
    ensures Distinct(keys + [k])
  {
  }

  method SortedKeys(all: set<string>) returns (keys: seq<string>)
    ensures ListsInOrder(keys, all)
  {
    keys := [];
    var todo := all;
    while todo != {}
      invariant todo <= all && Distinct(keys) && forall k :: k in keys <==> k in all - todo
    {
      var k :| k in todo;
      OneMoreDistinct(keys, k);
      keys, todo := keys + [k], todo - {k};
    }
    ghost var unsorted := keys;
    keys := Sort(keys, StringLe);
    StringOrder();
    SortSorted(unsorted, StringLe);
    DistinctPermutation(unsorted, keys);
    SameElements(unsorted, keys);
  }

  // ----- numbers -----

  predicate RealLe(x: real, y: real) {
    x <= y
  }

  lemma RealOrder()
    ensures TotalPreorder(RealLe) && AntiSymmetric(RealLe)
  {
  }
}
