/** White space, words and letter case, as Python's string methods see them.
 */
module Texts {

  /** `str.isspace` */
  predicate IsSpace(c: char) {
    var n := c as int;
    9 <= n <= 13 || 28 <= n <= 32 || n in {0x85, 0xA0, 0x1680, 0x2028, 0x2029, 0x202F, 0x205F, 0x3000} || 0x2000 <= n <= 0x200A
  }

  function StripLeft(s: string): (r: string)
    ensures |r| <= |s| && (r != "" ==> !IsSpace(r[0]))
  {
    if s == "" || !IsSpace(s[0]) then s else StripLeft(s[1..])
  }

  function StripRight(s: string): string {
    if s == "" || !IsSpace(s[|s| - 1]) then s else StripRight(s[..|s| - 1])
  }

  /** `str.strip` */
  function Strip(s: string): string {
    StripRight(StripLeft(s))
  }

  lemma StripOfTight(s: string)
    requires s != "" && !IsSpace(s[0]) && !IsSpace(s[|s| - 1])
    ensures Strip(s) == s
  {
  }

  function LowerChar(c: char): char {
    if 'A' <= c <= 'Z' then (c as int + 32) as char else c
  }

  /** `str.lower`, on ASCII text. */
  function Lower(s: string): (r: string)
    ensures |r| == |s| && forall i | 0 <= i < |s| :: r[i] == LowerChar(s[i])
  {
    seq(|s|, i requires 0 <= i < |s| => LowerChar(s[i]))
  }

  function FirstWord(s: string): (w: string)
    ensures w <= s
  {
    if s == "" || IsSpace(s[0]) then "" else [s[0]] + FirstWord(s[1..])
  }

  /** `str.split()` */
  function Words(s: string): seq<string>
    decreases |s|
  {
    var t := StripLeft(s);
    if t == "" then [] else
      var w := FirstWord(t);
      assert w != "";
      [w] + Words(t[|w|..])
  }

  /** One word in lower case: no white space and no capital letter. */
  predicate PlainWord(s: string) {
    s != "" && forall i | 0 <= i < |s| :: !IsSpace(s[i]) && LowerChar(s[i]) == s[i]
  }

  lemma {:induction false} FirstWordOfSolid(s: string)
    requires forall i | 0 <= i < |s| :: !IsSpace(s[i])
    ensures FirstWord(s) == s
  {
    if s != "" {
      FirstWordOfSolid(s[1..]);
    }
  }

  lemma PlainWordIsItself(s: string)
    requires PlainWord(s)
    ensures Lower(s) == s && Strip(s) == s
  {
    assert Lower(s) == s;
    StripOfTight(s);
  }

  lemma PlainWordIsOneWord(s: string)
    requires PlainWord(s)
    ensures Words(s) == [s]
  {
    FirstWordOfSolid(s);
    assert StripLeft(s) == s;
    assert s[|s|..] == "";
    assert Words("") == [];
  }
}
