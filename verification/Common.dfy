/** What several modules share.
 */
module Common {

  datatype Option<T> = None | Some(value: T)

  function Ceiling(x: real): int {
    -((-x).Floor)
  }

  function Sum<T>(items: seq<T>, f: T -> real): real {
    if items == [] then 0.0 else Sum(items[..|items| - 1], f) + f(items[|items| - 1])
  }

  /** A mean before rounding, zero when there is nothing to average. */
  function Mean<T>(items: seq<T>, f: T -> real): real {
    if items == [] then 0.0 else Sum(items, f) / |items| as real
  }

  /** What a number counts for in a sum of numbers. */
  function Value(x: real): real {
    x
  }

  lemma CeilingBounds(x: real)
    ensures x <= Ceiling(x) as real < x + 1.0
  {
    assert (-x).Floor as real <= -x < (-x).Floor as real + 1.0;
  }

  /** `p` stands at position `i`. */
  predicate Holds(t: string, i: int, p: string) {
    0 <= i <= i + |p| <= |t| && t[i..i + |p|] == p
  }

  /** `p in t` */
  predicate IsSubstring(p: string, t: string) {
    exists i :: 0 <= i <= |t| && Holds(t, i, p)
  }

  ghost predicate CollisionFree(hash: seq<nat> -> string) {
    forall x, y :: hash(x) == hash(y) ==> x == y
  }

  lemma Associative<T>(a: seq<T>, b: seq<T>, c: seq<T>)
    ensures (a + b) + c == a + (b + c)
  {
  }

  lemma TakeOneMore<T>(s: seq<T>, i: nat)
    requires i < |s|
    ensures s[..i + 1] == s[..i] + [s[i]]
  {
  }

  lemma {:induction false} SubsetSize<T>(a: set<T>, b: set<T>)
    requires a <= b
    ensures |a| <= |b|
  {
    assert b == a + (b - a);
  }
}
