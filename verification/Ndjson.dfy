/** Canonical JSON text and the one-object-per-line framing of raw rows.
 */
module Ndjson {
  import opened Common
  import opened Sorting
  import opened Texts

  predicate NumberStart(c: char) {
    '0' <= c <= '9' || c == '-' || c == 'N' || c == 'I'
  }

  /** The characters of `-1.5e+300`, `NaN` and `-Infinity`. */
  predicate NumberChar(c: char) {
    NumberStart(c) || c in {'+', '.', 'e', 'E', 'a', 'n', 'f', 'i', 't', 'y'}
  }

  /** The text of a number. */
  type NumberText = s: string | s != "" && NumberStart(s[0]) && forall i | 0 <= i < |s| :: NumberChar(s[i]) witness "0"

  datatype Field = Field(key: string, value: Json)

  /** A JSON value. */
  datatype Json = Null | Bool(b: bool) | Number(text: NumberText) | Str(s: string) | Arr(items: seq<Json>) | Obj(fields: seq<Field>)

  /** What the numbers of the program print as: `0.1` but not `0.10`, and never `1e` or `-`. */
  type Numerals = NumberText -> bool

  predicate KeysInOrder(fields: seq<Field>) {
    forall i, j | 0 <= i < j < |fields| :: fields[i].key != fields[j].key && StringLe(fields[i].key, fields[j].key)
  }

  /** A value that a program can hold: its numbers are numbers, and its keys are
      distinct and sorted. */
  predicate WellFormed(numerals: Numerals, j: Json)
    decreases j
  {
    match j
    case Null => true
    case Bool(_) => true
    case Number(t) => numerals(t)
    case Str(_) => true
    case Arr(items) => forall i | 0 <= i < |items| :: WellFormed(numerals, items[i])
    case Obj(fields) => KeysInOrder(fields) && forall i | 0 <= i < |fields| :: WellFormed(numerals, fields[i].value)
  }

  // ----- printing -----

  function HexDigit(d: nat): (c: char)
    requires d < 16
    ensures ' ' < c
  {
    if d < 10 then (48 + d) as char else (87 + d) as char
  }

  /** Section 7 of RFC 8259: quotation mark, backslash and control characters
      are escaped, everything else stands for itself. */
  function Escape(c: char): (s: string)
    ensures s != "" && Printable(s)
  {
    if c == '"' then "\\\""
    else if c == '\\' then "\\\\"
    else if c == '\n' then "\\n"
    else if c == '\r' then "\\r"
    else if c == '\t' then "\\t"
    else if c == 8 as char then "\\b"
    else if c == 12 as char then "\\f"
    else if c < ' ' then "\\u00" + [HexDigit(c as int / 16), HexDigit(c as int % 16)]
    else [c]
  }

  function EscapeAll(s: string): (r: string)
    ensures Printable(r)
  {
    if s == "" then "" else Escape(s[0]) + EscapeAll(s[1..])
  }

  function Quoted(s: string): string {
    "\"" + EscapeAll(s) + "\""
  }

  function Print(j: Json): string
    decreases j
  {
    match j
    case Null => "null"
    case Bool(b) => if b then "true" else "false"
    case Number(t) => t
    case Str(s) => Quoted(s)
    case Arr(items) => "[" + PrintItems(items) + "]"
    case Obj(fields) => "{" + PrintFields(fields) + "}"
  }

  function PrintItems(items: seq<Json>): string
    decreases items
  {
    if items == [] then ""
    else Print(items[0]) + (if |items| == 1 then "" else ",") + PrintItems(items[1..])
  }

  function PrintFields(fields: seq<Field>): string
    decreases fields
  {
    if fields == [] then ""
    else
      Quoted(fields[0].key) + ":" + Print(fields[0].value) +
      (if |fields| == 1 then "" else ",") + PrintFields(fields[1..])
  }

  /** `canonical_json` */
  function Canonical(j: Json): string {
    Print(j) + "\n"
  }

  // ----- printed text is clean -----

  /** No control character, so in particular no line break. */
  predicate Printable(s: string) {
    forall i | 0 <= i < |s| :: ' ' <= s[i]
  }

  /** Not empty, one line, and no white space on its edges. */
  predicate Clean(s: string) {
    s != "" && Printable(s) && !IsSpace(s[0]) && !IsSpace(s[|s| - 1])
  }

  lemma NumberIsClean(t: NumberText)
    ensures Clean(t)
  {
    assert NumberChar(t[0]) && NumberChar(t[|t| - 1]);
    assert forall i | 0 <= i < |t| :: NumberChar(t[i]);
  }

  lemma WrappedIsClean(first: char, inner: string, last: char)
    requires Printable(inner) && ' ' < first < 127 as char && ' ' < last < 127 as char
    ensures Clean([first] + inner + [last])
  {
    var s := [first] + inner + [last];
    assert forall i | 0 <= i < |inner| :: s[i + 1] == inner[i];
    assert forall i | 0 <= i < |s| :: i == 0 || i == |s| - 1 || s[i] == inner[i - 1];
  }

  lemma {:induction false} PrintIsClean(j: Json)
    ensures Clean(Print(j))
    decreases j
  {
    match j
    case Null =>
    case Bool(_) =>
    case Number(t) => NumberIsClean(t);
    case Str(s) => WrappedIsClean('"', EscapeAll(s), '"');
    case Arr(items) =>
      ItemsArePrintable(items);
      WrappedIsClean('[', PrintItems(items), ']');
    case Obj(fields) =>
      FieldsArePrintable(fields);
      WrappedIsClean('{', PrintFields(fields), '}');
  }

  lemma {:induction false} ItemsArePrintable(items: seq<Json>)
    ensures Printable(PrintItems(items))
    decreases items
  {
    if items != [] {
      PrintIsClean(items[0]);
      ItemsArePrintable(items[1..]);
    }
  }

  lemma {:induction false} FieldsArePrintable(fields: seq<Field>)
    ensures Printable(PrintFields(fields))
    decreases fields
  {
    if fields != [] {
      PrintIsClean(fields[0].value);
      FieldsArePrintable(fields[1..]);
      PrintableAppend(Quoted(fields[0].key) + ":", Print(fields[0].value));
      var head := Quoted(fields[0].key) + ":" + Print(fields[0].value);
      var comma := if |fields| == 1 then "" else ",";
      PrintableAppend(head, comma);
      PrintableAppend(head + comma, PrintFields(fields[1..]));
    }
  }

  lemma PrintableAppend(a: string, b: string)
    requires Printable(a) && Printable(b)
    ensures Printable(a + b)
  {
  }

  // ----- printed text is read in one way only -----

  /** What may follow a value: nothing that would make a number longer. */
  predicate Stops(r: string) {
    r == "" || !NumberChar(r[0])
  }

  /** The first character tells the kind of the value. */
  lemma FirstCharacter(j: Json)
    ensures Print(j) != ""
    ensures var c := Print(j)[0];
            match j
            case Null => c == 'n'
            case Bool(b) => c == if b then 't' else 'f'
            case Number(_) => NumberStart(c)
            case Str(_) => c == '"'
            case Arr(_) => c == '['
            case Obj(_) => c == '{'
  {
  }

  lemma SameKind(a: Json, r: string, b: Json, s: string)
    requires Print(a) + r == Print(b) + s
    ensures a.Null? == b.Null? && a.Bool? == b.Bool? && a.Number? == b.Number?
    ensures a.Str? == b.Str? && a.Arr? == b.Arr? && a.Obj? == b.Obj?
    ensures a.Bool? ==> a == b
  {
    FirstCharacter(a);
    FirstCharacter(b);
    assert (Print(a) + r)[0] == Print(a)[0] && (Print(b) + s)[0] == Print(b)[0];
  }

  lemma SamePrefix(p: string, r: string, s: string)
    requires p + r == p + s
    ensures r == s
  {
    assert (p + r)[|p|..] == r && (p + s)[|p|..] == s;
  }

  /** How far number characters go. */
  function Span(t: string): nat {
    if t == "" || !NumberChar(t[0]) then 0 else 1 + Span(t[1..])
  }

  lemma {:induction false} SpanOfNumber(a: string, r: string)
    requires Stops(r) && forall i | 0 <= i < |a| :: NumberChar(a[i])
    ensures Span(a + r) == |a|
  {
    if a == "" {
      assert a + r == r;
    } else {
      assert (a + r)[1..] == a[1..] + r;
      SpanOfNumber(a[1..], r);
    }
  }

  lemma NumberUnique(a: string, r: string, b: string, s: string)
    requires a + r == b + s && Stops(r) && Stops(s)
    requires (forall i | 0 <= i < |a| :: NumberChar(a[i])) && forall i | 0 <= i < |b| :: NumberChar(b[i])
    ensures a == b && r == s
  {
    SpanOfNumber(a, r);
    SpanOfNumber(b, s);
    assert (a + r)[..|a|] == a && (b + s)[..|b|] == b;
    SamePrefix(a, r, s);
  }

  lemma HexDigitInjective(d: nat, e: nat)
    requires d < 16 && e < 16 && HexDigit(d) == HexDigit(e)
    ensures d == e
  {
  }

  /** Escapes: a letter behind a backslash, or the code behind `\\u00`. */
  lemma EscapeShape(c: char)
    ensures var e := Escape(c);
            && e != "" && e[0] != '"'
            && (e[0] == '\\' <==> |e| != 1)
            && (|e| == 1 ==> e == [c])
            && (|e| != 1 ==> |e| == if e[1] == 'u' then 6 else 2)
            && (|e| == 6 ==> c < ' ' && e[4] == HexDigit(c as int / 16) && e[5] == HexDigit(c as int % 16))
            && (|e| == 2 ==> c == Unescaped(e[1]))
  {
  }

  /** What the letter of a short escape stands for. */
  function Unescaped(c: char): char {
    if c == 'n' then '\n' else if c == 'r' then '\r' else if c == 't' then '\t'
    else if c == 'b' then 8 as char else if c == 'f' then 12 as char else c
  }

  lemma EscapeUnique(c: char, r: string, d: char, s: string)
    requires Escape(c) + r == Escape(d) + s
    ensures c == d && r == s
  {
    var e, f, all := Escape(c), Escape(d), Escape(c) + r;
    EscapeShape(c);
    EscapeShape(d);
    assert all[0] == e[0] == f[0];
    if |e| != 1 {
      assert all[1] == e[1] == f[1];
      if |e| == 6 {
        assert all[4] == e[4] == f[4] && all[5] == e[5] == f[5];
        HexDigitInjective(c as int / 16, d as int / 16);
        HexDigitInjective(c as int % 16, d as int % 16);
      }
    }
    SamePrefix(e, r, s);
  }

  /** The value of a hexadecimal digit, `16` for any other character. */
  function HexValue(c: char): (v: nat)
    ensures v <= 16
  {
    if '0' <= c <= '9' then c as int - 48
    else if 'a' <= c <= 'f' then c as int - 87
    else if 'A' <= c <= 'F' then c as int - 55
    else 16
  }

  /** The code of an escape `\uXXXX`, when it is one of a single character. */
  function CodeOf(s: string): Option<char>
    requires 6 <= |s|
  {
    var a, b, c, d := HexValue(s[2]), HexValue(s[3]), HexValue(s[4]), HexValue(s[5]);
    var code := ((a * 16 + b) * 16 + c) * 16 + d;
    if s[1] == 'u' && a < 16 && b < 16 && c < 16 && d < 16 && (code < 0xD800 || 0xE000 <= code < 0x10000)
    then Some(code as char) else None
  }

  /** The string that section 7 of RFC 8259 gives to the text between two quotation marks. */
  function Unescape(s: string): Option<string> {
    if s == "" then Some("")
    else if s[0] == '"' || s[0] < ' ' then None
    else if s[0] != '\\' then Put(Some(s[0]), Unescape(s[1..]))
    else if 2 <= |s| && s[1] in {'"', '\\', '/', 'b', 'f', 'n', 'r', 't'} then Put(Some(Unescaped(s[1])), Unescape(s[2..]))
    else if 6 <= |s| then Put(CodeOf(s), Unescape(s[6..]))
    else None
  }

  function Put(c: Option<char>, rest: Option<string>): Option<string> {
    if c.Some? && rest.Some? then Some([c.value] + rest.value) else None
  }

  lemma UnescapeOne(c: char, rest: string)
    ensures Unescape(Escape(c) + rest) == Put(Some(c), Unescape(rest))
  {
    var e := Escape(c);
    var all := e + rest;
    EscapeShape(c);
    assert all[0] == e[0] && all[|e|..] == rest;
    if |e| == 2 {
      assert all[1] == e[1];
    } else if |e| == 6 {
      ControlCode(c);
      assert all[1] == e[1] && all[2] == e[2] && all[3] == e[3] && all[4] == e[4] && all[5] == e[5];
    }
  }

  lemma ControlCode(c: char)
    requires |Escape(c)| == 6
    ensures var e := Escape(c); e[0] == '\\' && e[1] == 'u' && e[2] == e[3] == '0'
    ensures HexValue(Escape(c)[4]) == c as int / 16 && HexValue(Escape(c)[5]) == c as int % 16
    ensures c as int == (c as int / 16) * 16 + c as int % 16
  {
    EscapeShape(c);
  }

  /** Main result: reading an escaped string as RFC 8259 has it gives the string back. */
  lemma {:induction false} UnescapeInverts(s: string)
    ensures Unescape(EscapeAll(s)) == Some(s)
  {
    if s != "" {
      UnescapeInverts(s[1..]);
      UnescapeOne(s[0], EscapeAll(s[1..]));
      assert s == [s[0]] + s[1..];
    }
  }

  lemma EscapeFirst(x: string, r: string)
    requires x != ""
    ensures EscapeAll(x) + "\"" + r == Escape(x[0]) + (EscapeAll(x[1..]) + "\"" + r)
  {
  }

  lemma BareMark(x: string, r: string)
    ensures (EscapeAll(x) + "\"" + r)[0] == '"' <==> x == ""
  {
    if x != "" {
      EscapeFirst(x, r);
      EscapeShape(x[0]);
      assert (EscapeAll(x) + "\"" + r)[0] == Escape(x[0])[0];
    }
  }

  /** An escaped text ends at the first bare quotation mark. */
  lemma {:induction false} TextUnique(x: string, r: string, y: string, s: string)
    requires EscapeAll(x) + "\"" + r == EscapeAll(y) + "\"" + s
    ensures x == y && r == s
    decreases |x|
  {
    BareMark(x, r);
    BareMark(y, s);
    if x == "" {
      assert EscapeAll("") + "\"" == "\"";
      SamePrefix("\"", r, s);
    } else {
      var x', y' := EscapeAll(x[1..]) + "\"" + r, EscapeAll(y[1..]) + "\"" + s;
      EscapeFirst(x, r);
      EscapeFirst(y, s);
      EscapeUnique(x[0], x', y[0], y');
      TextUnique(x[1..], r, y[1..], s);
      assert x == [x[0]] + x[1..] && y == [y[0]] + y[1..];
    }
  }

  /** What follows the first item of a list, up to and with the closing bracket. */
  function Tail(last: bool, rest: string, close: char): string {
    if last then [close] else "," + rest + [close]
  }

  lemma TailStops(last: bool, rest: string, close: char, r: string)
    requires close == ']' || close == '}'
    ensures Stops(Tail(last, rest, close) + r)
  {
    assert (Tail(last, rest, close) + r)[0] == Tail(last, rest, close)[0];
  }

  lemma TailUnique(last: bool, rest: string, r: string, last': bool, rest': string, s: string, close: char)
    requires close != ',' && Tail(last, rest, close) + r == Tail(last', rest', close) + s
    ensures last == last'
    ensures last ==> r == s
    ensures !last ==> rest + [close] + r == rest' + [close] + s
  {
    var all := Tail(last, rest, close) + r;
    assert all[0] == Tail(last, rest, close)[0] == Tail(last', rest', close)[0];
    if last {
      SamePrefix([close], r, s);
    } else {
      Regroup3(",", rest, [close], r);
      Regroup3(",", rest', [close], s);
      SamePrefix(",", rest + ([close] + r), rest' + ([close] + s));
      Associative(rest, [close], r);
      Associative(rest', [close], s);
    }
  }

  lemma Regroup(a: string, b: string, c: string, d: string, e: string)
    ensures a + b + c + d + e == a + (b + c + d + e)
    ensures a + b + c + d + e == a + (b + (c + d + e))
  {
  }

  lemma ItemsAsTail(items: seq<Json>, r: string)
    requires items != []
    ensures PrintItems(items) + "]" + r == Print(items[0]) + (Tail(|items| == 1, PrintItems(items[1..]), ']') + r)
  {
    var comma, rest := if |items| == 1 then "" else ",", PrintItems(items[1..]);
    Regroup(Print(items[0]), comma, rest, "]", r);
    assert |items| == 1 ==> "" + rest + "]" + r == "]" + r;
    assert comma + rest + "]" + r == Tail(|items| == 1, rest, ']') + r;
  }

  lemma FieldsAsTail(fields: seq<Field>, r: string)
    requires fields != []
    ensures PrintFields(fields) + "}" + r ==
            Quoted(fields[0].key) + (":" + (Print(fields[0].value) + (Tail(|fields| == 1, PrintFields(fields[1..]), '}') + r)))
  {
    var key, value := Quoted(fields[0].key), Print(fields[0].value);
    var comma, rest := if |fields| == 1 then "" else ",", PrintFields(fields[1..]);
    Regroup(key + ":" + value, comma, rest, "}", r);
    assert |fields| == 1 ==> "" + rest + "}" + r == "}" + r;
    Regroup3(key, ":", value, Tail(|fields| == 1, rest, '}') + r);
  }

  lemma Regroup3(a: string, b: string, c: string, d: string)
    ensures a + b + c + d == a + (b + (c + d))
  {
  }

  /** Inside equal brackets the contents meet. */
  lemma Unwrap(first: string, x: string, last: string, r: string, y: string, s: string)
    requires first + x + last + r == first + y + last + s
    ensures x + last + r == y + last + s
  {
    Regroup3(first, x, last, r);
    Regroup3(first, y, last, s);
    SamePrefix(first, x + (last + r), y + (last + s));
    Associative(x, last, r);
    Associative(y, last, s);
  }

  lemma QuotedUnique(x: string, r: string, y: string, s: string)
    requires Quoted(x) + r == Quoted(y) + s
    ensures x == y && r == s
  {
    Unwrap("\"", EscapeAll(x), "\"", r, EscapeAll(y), s);
    TextUnique(x, r, y, s);
  }

  /** Text that starts with a printed value can be read as one in one way only. */
  lemma {:induction false} PrintUnique(a: Json, r: string, b: Json, s: string)
    requires Print(a) + r == Print(b) + s && Stops(r) && Stops(s)
    ensures a == b && r == s
    decreases a, 0
  {
    SameKind(a, r, b, s);
    match a
    case Null => SamePrefix("null", r, s);
    case Bool(_) => SamePrefix(Print(a), r, s);
    case Number(t) => NumberUnique(t, r, b.text, s);
    case Str(x) => QuotedUnique(x, r, b.s, s);
    case Arr(items) =>
      Unwrap("[", PrintItems(items), "]", r, PrintItems(b.items), s);
      ItemsUnique(items, r, b.items, s);
    case Obj(fields) =>
      Unwrap("{", PrintFields(fields), "}", r, PrintFields(b.fields), s);
      FieldsUnique(fields, r, b.fields, s);
  }

  lemma {:induction false} ItemsUnique(x: seq<Json>, r: string, y: seq<Json>, s: string)
    requires PrintItems(x) + "]" + r == PrintItems(y) + "]" + s
    ensures x == y && r == s
    decreases x, 1
  {
    if x == [] || y == [] {
      NoItems(x, r, y, s);
    } else {
      var t, t' := Tail(|x| == 1, PrintItems(x[1..]), ']') + r, Tail(|y| == 1, PrintItems(y[1..]), ']') + s;
      ItemsAsTail(x, r);
      ItemsAsTail(y, s);
      TailStops(|x| == 1, PrintItems(x[1..]), ']', r);
      TailStops(|y| == 1, PrintItems(y[1..]), ']', s);
      PrintUnique(x[0], t, y[0], t');
      TailUnique(|x| == 1, PrintItems(x[1..]), r, |y| == 1, PrintItems(y[1..]), s, ']');
      if |x| != 1 {
        ItemsUnique(x[1..], r, y[1..], s);
      }
      assert x == [x[0]] + x[1..] && y == [y[0]] + y[1..];
    }
  }

  lemma BareBracket(x: seq<Json>, r: string)
    ensures (PrintItems(x) + "]" + r)[0] == ']' <==> x == []
  {
    if x != [] {
      FirstCharacter(x[0]);
      ItemsAsTail(x, r);
      assert (PrintItems(x) + "]" + r)[0] == Print(x[0])[0];
    }
  }

  lemma NoItems(x: seq<Json>, r: string, y: seq<Json>, s: string)
    requires PrintItems(x) + "]" + r == PrintItems(y) + "]" + s && (x == [] || y == [])
    ensures x == y && r == s
  {
    BareBracket(x, r);
    BareBracket(y, s);
    assert PrintItems([]) + "]" == "]";
    SamePrefix("]", r, s);
  }

  lemma {:induction false} FieldsUnique(x: seq<Field>, r: string, y: seq<Field>, s: string)
    requires PrintFields(x) + "}" + r == PrintFields(y) + "}" + s
    ensures x == y && r == s
    decreases x, 1
  {
    if x == [] || y == [] {
      NoFields(x, r, y, s);
    } else {
      var t, t' := Tail(|x| == 1, PrintFields(x[1..]), '}') + r, Tail(|y| == 1, PrintFields(y[1..]), '}') + s;
      FieldsAsTail(x, r);
      FieldsAsTail(y, s);
      KeyUnique(x[0].key, Print(x[0].value) + t, y[0].key, Print(y[0].value) + t');
      TailStops(|x| == 1, PrintFields(x[1..]), '}', r);
      TailStops(|y| == 1, PrintFields(y[1..]), '}', s);
      PrintUnique(x[0].value, t, y[0].value, t');
      TailUnique(|x| == 1, PrintFields(x[1..]), r, |y| == 1, PrintFields(y[1..]), s, '}');
      if |x| != 1 {
        FieldsUnique(x[1..], r, y[1..], s);
      }
      assert x == [x[0]] + x[1..] && y == [y[0]] + y[1..];
    }
  }

  lemma KeyUnique(x: string, r: string, y: string, s: string)
    requires Quoted(x) + (":" + r) == Quoted(y) + (":" + s)
    ensures x == y && r == s
  {
    QuotedUnique(x, ":" + r, y, ":" + s);
    SamePrefix(":", r, s);
  }

  lemma BareBrace(x: seq<Field>, r: string)
    ensures (PrintFields(x) + "}" + r)[0] == '}' <==> x == []
  {
    if x != [] {
      FieldsAsTail(x, r);
      assert (PrintFields(x) + "}" + r)[0] == Quoted(x[0].key)[0] == '"';
    }
  }

  lemma NoFields(x: seq<Field>, r: string, y: seq<Field>, s: string)
    requires PrintFields(x) + "}" + r == PrintFields(y) + "}" + s && (x == [] || y == [])
    ensures x == y && r == s
  {
    BareBrace(x, r);
    BareBrace(y, s);
    assert PrintFields([]) + "}" == "}";
    SamePrefix("}", r, s);
  }

  /** Two values have the same canonical text only when they are the same. */
  lemma CanonicalInjective(a: Json, b: Json)
    requires Canonical(a) == Canonical(b)
    ensures a == b
  {
    PrintUnique(a, "\n", b, "\n");
  }

  // ----- reading lines -----

  predicate IsBreak(c: char) {
    c == '\n' || c == '\r'
  }

  /** Where the first line of the text ends, its break not included. */
  function LineEnd(t: string): (e: nat)
    ensures e <= |t|
  {
    if t == "" || IsBreak(t[0]) then 0 else 1 + LineEnd(t[1..])
  }

  /** The length of the break at the end of the first line: `\r\n` is one break. */
  function BreakLength(t: string, e: nat): (k: nat)
    requires e <= |t|
    ensures e + k <= |t| && (e < |t| ==> 0 < k)
  {
    if e == |t| then 0
    else if t[e] == '\r' && e + 1 < |t| && t[e + 1] == '\n' then 2
    else 1
  }

  /** The lines of a text file, without their breaks. */
  function Lines(t: string): seq<string>
    decreases |t|
  {
    if t == "" then [] else
      var e := LineEnd(t);
      [t[..e]] + Lines(t[e + BreakLength(t, e)..])
  }

  type Parser = string -> Option<Json>

  /** The rows of the lines, blank ones passed over; nothing when a line does not parse. */
  function ParseLines(parse: Parser, lines: seq<string>): Option<seq<Json>> {
    if lines == [] then Some([])
    else
      var line := Strip(lines[0]);
      if line == "" then ParseLines(parse, lines[1..])
      else
        match parse(line)
        case None => None
        case Some(row) =>
          match ParseLines(parse, lines[1..])
          case None => None
          case Some(rows) => Some([row] + rows)
  }

  /** The lines that hold something, without the white space around it. */
  function Filled(lines: seq<string>): seq<string> {
    if lines == [] then []
    else if Strip(lines[0]) == "" then Filled(lines[1..])
    else [Strip(lines[0])] + Filled(lines[1..])
  }

  /** Every text parses and these are the values, or one does not and there are none. */
  ghost predicate ParseTo(parse: Parser, texts: seq<string>, rows: Option<seq<Json>>) {
    && (rows.Some? <==> forall i | 0 <= i < |texts| :: parse(texts[i]).Some?)
    && (rows.Some? ==> |rows.value| == |texts|
                       && forall i | 0 <= i < |texts| :: parse(texts[i]) == Some(rows.value[i]))
  }

  function Consed(first: Option<Json>, rest: Option<seq<Json>>): Option<seq<Json>> {
    if first.Some? && rest.Some? then Some([first.value] + rest.value) else None
  }

  lemma ParseOneMore(parse: Parser, text: string, texts: seq<string>, rows: Option<seq<Json>>)
    requires ParseTo(parse, texts, rows)
    ensures ParseTo(parse, [text] + texts, Consed(parse(text), rows))
  {
    var all := [text] + texts;
    assert all[0] == text && forall i | 0 <= i < |texts| :: all[i + 1] == texts[i];
    if rows.None? {
      var i :| 0 <= i < |texts| && parse(texts[i]).None?;
      assert parse(all[i + 1]).None?;
    }
  }

  /** Main result: there are rows exactly when every line that holds something
      parses, and then there is one for each, in order. */
  lemma {:induction false} RowsAreParsedLines(parse: Parser, lines: seq<string>)
    ensures ParseTo(parse, Filled(lines), ParseLines(parse, lines))
  {
    if lines != [] {
      RowsAreParsedLines(parse, lines[1..]);
      if Strip(lines[0]) != "" {
        ParseOneMore(parse, Strip(lines[0]), Filled(lines[1..]), ParseLines(parse, lines[1..]));
      }
    }
  }

  /** One line that does not parse leaves none. */
  lemma {:induction false} BrokenLineLeavesNoRows(parse: Parser, lines: seq<string>, i: nat)
    requires i < |lines| && Strip(lines[i]) != "" && parse(Strip(lines[i])).None?
    ensures ParseLines(parse, lines) == None
  {
    if i != 0 {
      BrokenLineLeavesNoRows(parse, lines[1..], i - 1);
    }
  }

  /** `read_rows`: one line that does not parse, and there are no rows at all. */
  method ReadRows(parse: Parser, text: string) returns (rows: Option<seq<Json>>)
    ensures rows == ParseLines(parse, Lines(text))
  {
    var lines := Lines(text);
    var acc: seq<Json> := [];
    assert lines[0..] == lines;
    PrependNothing(ParseLines(parse, lines));
    for i := 0 to |lines|
      invariant ParseLines(parse, lines) == Prepend(acc, ParseLines(parse, lines[i..]))
    {
      assert lines[i..][0] == lines[i] && lines[i..][1..] == lines[i + 1..];
      var line := Strip(lines[i]);
      if line == "" {
        continue;
      }
      var row := parse(line);
      if row.None? {
        return None;
      }
      PrependOneMore(acc, row.value, ParseLines(parse, lines[i + 1..]));
      acc := acc + [row.value];
    }
    assert acc + [] == acc;
    rows := Some(acc);
  }

  function Prepend(front: seq<Json>, rest: Option<seq<Json>>): Option<seq<Json>> {
    match rest
    case None => None
    case Some(rows) => Some(front + rows)
  }

  lemma PrependNothing(rest: Option<seq<Json>>)
    ensures Prepend([], rest) == rest
  {
    if rest.Some? {
      assert [] + rest.value == rest.value;
    }
  }

  lemma PrependOneMore(front: seq<Json>, row: Json, rest: Option<seq<Json>>)
    ensures Prepend(front + [row], rest) == Prepend(front, Prepend([row], rest))
  {
    if rest.Some? {
      assert front + [row] + rest.value == front + ([row] + rest.value);
    }
  }

  // ----- the round trip -----

  /** The text of `raw.ndjson`. */
  function WriteRows(rows: seq<Json>): string {
    if rows == [] then "" else Canonical(rows[0]) + WriteRows(rows[1..])
  }

  /** The parser reads back the text of every value that a program can hold. */
  ghost predicate ReadsBack(parse: Parser, numerals: Numerals) {
    forall j :: WellFormed(numerals, j) ==> parse(Print(j)) == Some(j)
  }

  ghost function ReadAs(numerals: Numerals, t: string): (r: Option<Json>)
    ensures r.Some? ==> WellFormed(numerals, r.value) && Print(r.value) == t
    ensures r.None? ==> forall j :: WellFormed(numerals, j) ==> Print(j) != t
  {
    if exists j :: WellFormed(numerals, j) && Print(j) == t
    then var j :| WellFormed(numerals, j) && Print(j) == t; Some(j)
    else None
  }

  /** The parser that knows well-formed values and nothing else. */
  ghost function Reader(numerals: Numerals): Parser {
    t => ReadAs(numerals, t)
  }

  /** Such parsers exist, whatever the numerals, and they may refuse all other text. */
  lemma ReaderReadsBack(numerals: Numerals)
    ensures ReadsBack(Reader(numerals), numerals)
    ensures forall t :: Reader(numerals)(t).Some? ==> WellFormed(numerals, Reader(numerals)(t).value)
  {
    forall j | WellFormed(numerals, j)
      ensures Reader(numerals)(Print(j)) == Some(j)
    {
      var r := ReadAs(numerals, Print(j));
      PrintUnique(j, "", r.value, "");
    }
  }

  lemma {:induction false} FirstLine(s: string, rest: string)
    requires Printable(s)
    ensures LineEnd(s + "\n" + rest) == |s|
  {
    var t := s + "\n" + rest;
    if s != "" {
      assert t[0] == s[0] && t[1..] == s[1..] + "\n" + rest;
      FirstLine(s[1..], rest);
    }
  }

  lemma LinesOfRows(row: Json, rest: string)
    ensures Lines(Canonical(row) + rest) == [Print(row)] + Lines(rest)
  {
    var s := Print(row);
    PrintIsClean(row);
    FirstLine(s, rest);
    var t := Canonical(row) + rest;
    assert t == s + "\n" + rest;
    assert t[..|s|] == s && t[|s|] == '\n' && t[|s| + 1..] == rest;
  }

  /** A clean line that is read back becomes a row. */
  lemma RowFirst(parse: Parser, row: Json, lines: seq<string>)
    requires parse(Print(row)) == Some(row)
    ensures ParseLines(parse, [Print(row)] + lines) == Prepend([row], ParseLines(parse, lines))
  {
    PrintIsClean(row);
    StripOfTight(Print(row));
    assert ([Print(row)] + lines)[1..] == lines;
  }

  /** Main result: any rows written one per line are read back as they were. */
  lemma {:induction false} RowsRoundTrip(parse: Parser, numerals: Numerals, rows: seq<Json>)
    requires ReadsBack(parse, numerals) && forall i | 0 <= i < |rows| :: WellFormed(numerals, rows[i])
    ensures ParseLines(parse, Lines(WriteRows(rows))) == Some(rows)
  {
    if rows != [] {
      var rest := WriteRows(rows[1..]);
      LinesOfRows(rows[0], rest);
      RowsRoundTrip(parse, numerals, rows[1..]);
      RowFirst(parse, rows[0], Lines(rest));
      assert rows == [rows[0]] + rows[1..];
    }
  }
}
