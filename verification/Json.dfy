/** The canonical form behind `json_hash`: `normalize`, the compact serialiser and their laws. */
module Json {
  import opened Order

  /** A value `json_hash` accepts. `Other` is anything that is neither dict nor list, known by its `str()`. */
  datatype Json =
    | Null
    | Bool(flag: bool)
    | Int(number: int)
    | Str(text: string)
    | Other(repr: string)
    | List(items: seq<Json>)
    | Obj(fields: map<string, Json>)

  /** What `normalize` returns: every scalar has become a string and every list is sorted. */
  datatype Normal = Text(text: string) | Items(items: seq<Normal>) | Fields(fields: map<string, Normal>)

  function Digit(d: nat): char
    requires d < 16
  {
    "0123456789abcdef"[d]
  }

  function NatText(n: nat): string {
    if n < 10 then [Digit(n)] else NatText(n / 10) + [Digit(n % 10)]
  }

  function IntText(n: int): string {
    if n < 0 then "-" + NatText(-n) else NatText(n)
  }

  lemma SnocInjective(p: string, c: char, q: string, d: char)
    requires p + [c] == q + [d]
    ensures p == q && c == d
  {
    var s := p + [c];
    assert s[|s| - 1] == c && s[..|s| - 1] == p;
    assert s == q + [d] && s[|s| - 1] == d && s[..|s| - 1] == q;
  }

  lemma {:induction false} NatTextStart(n: nat)
    ensures NatText(n) != "" && NatText(n)[0] != '-'
    ensures |NatText(n)| == 1 <==> n < 10
  {
    if n >= 10 { NatTextStart(n / 10); }
  }

  lemma {:induction false} NatTextInjective(m: nat, n: nat)
    requires NatText(m) == NatText(n)
    ensures m == n
  {
    NatTextStart(m);
    NatTextStart(n);
    if m >= 10 {
      SnocInjective(NatText(m / 10), Digit(m % 10), NatText(n / 10), Digit(n % 10));
      NatTextInjective(m / 10, n / 10);
    }
  }

  lemma IntTextInjective(m: int, n: int)
    ensures IntText(m) == IntText(n) <==> m == n
  {
    var a, b := if m < 0 then -m else m, if n < 0 then -n else n;
    if IntText(m) == IntText(n) {
      NatTextStart(a);
      NatTextStart(b);
      assert IntText(m)[0] == '-' <==> m < 0;
      assert IntText(n)[0] == '-' <==> n < 0;
      assert m < 0 ==> IntText(m)[1..] == NatText(a) && IntText(n)[1..] == NatText(b);
      NatTextInjective(a, b);
    }
  }

  /** The number that a decimal text is read as. */
  function DecimalValue(s: string): int {
    if s == "" then 0 else 10 * DecimalValue(s[..|s| - 1]) + (s[|s| - 1] as int - '0' as int)
  }

  lemma {:induction false} NatTextReads(n: nat)
    ensures DecimalValue(NatText(n)) == n
  {
    if n >= 10 {
      NatTextReads(n / 10);
      var text := NatText(n);
      assert text[..|text| - 1] == NatText(n / 10);
    } else {
      assert DecimalValue([Digit(n)]) == 10 * DecimalValue([]) + n by { assert [Digit(n)][..0] == []; }
    }
  }

  /** The text of an integer reads back as the integer. */
  lemma IntTextReads(n: int)
    ensures n >= 0 ==> DecimalValue(IntText(n)) == n
    ensures n < 0 ==> IntText(n)[0] == '-' && -DecimalValue(IntText(n)[1..]) == n
  {
    NatTextReads(if n < 0 then -n else n);
  }

  predicate Scalar(j: Json) { !j.List? && !j.Obj? }

  /** `str(obj)` of a scalar. */
  function StrOf(j: Json): string
    requires Scalar(j)
  {
    match j
    case Null => "None"
    case Bool(b) => if b then "True" else "False"
    case Int(n) => IntText(n)
    case Str(s) => s
    case Other(r) => r
  }

  function NormalizeAll(items: seq<Json>): (r: seq<Normal>)
    ensures |r| == |items|
    decreases items, 0
  {
    seq(|items|, i requires 0 <= i < |items| => Normalize(items[i]))
  }

  function Normalize(j: Json): Normal
    decreases j, 1
  {
    match j
    case List(items) => Items(SortBy(Dumps, NormalizeAll(items)))
    case Obj(fields) => Fields(map k | k in fields :: Normalize(fields[k]))
    case _ => Text(StrOf(j))
  }

  // ----- the compact serialiser: separators ',' and ':', keys sorted, non-ASCII kept

  function EscapeChar(c: char): (e: string)
    ensures e != ""
  {
    if c == '\"' then "\\\""
    else if c == '\\' then "\\\\"
    else if c == '\n' then "\\n"
    else if c == '\r' then "\\r"
    else if c == '\t' then "\\t"
    else if c == 8 as char then "\\b"
    else if c == 12 as char then "\\f"
    else if c < ' ' then "\\u00" + [Digit(c as int / 16), Digit(c as int % 16)]
    else [c]
  }

  /** The characters of a JSON string literal after its opening quote. */
  function QuoteRest(s: string): string {
    if s == "" then "\"" else EscapeChar(s[0]) + QuoteRest(s[1..])
  }

  function Dumps(n: Normal): string
    decreases n, 1, 0
  {
    match n
    case Text(s) => "\"" + QuoteRest(s)
    case Items(items) => "[" + DumpsItems(items, true)
    case Fields(fields) => "{" + DumpsFields(n, SortedSet(fields.Keys), true)
  }

  function DumpsItems(items: seq<Normal>, first: bool): string
    decreases items, 0, 0
  {
    if items == [] then "]"
    else (if first then "" else ",") + Dumps(items[0]) + DumpsItems(items[1..], false)
  }

  function DumpsFields(n: Normal, keys: seq<string>, first: bool): string
    requires n.Fields? && forall k | k in keys :: k in n.fields
    decreases n, 0, |keys|
  {
    if keys == [] then "}"
    else (if first then "\"" else ",\"") + QuoteRest(keys[0]) + ":"
         + Dumps(n.fields[keys[0]]) + DumpsFields(n, keys[1..], false)
  }

  // ----- the serialiser is uniquely decodable

  lemma SplitHead(c: char, p: string, d: char, q: string, x: string, y: string)
    requires ([c] + p) + x == ([d] + q) + y || [c] + (p + x) == [d] + (q + y)
    ensures c == d && p + x == q + y
  {
    var u, v := [c] + (p + x), [d] + (q + y);
    assert u == ([c] + p) + x && v == ([d] + q) + y;
    assert u[0] == c && v[0] == d;
    assert u[1..] == p + x && v[1..] == q + y;
  }

  lemma Regroup(d: string, r: string, x: string)
    ensures (d + r) + x == d + (r + x)
  {
  }

  lemma CancelPrefix(p: string, d: string, r: string, x: string, e: string, s: string, y: string)
    requires (p + d + r) + x == (p + e + s) + y
    ensures d + (r + x) == e + (s + y)
  {
    var u, v := (p + d + r) + x, (p + e + s) + y;
    assert u[|p|..] == d + (r + x) && v[|p|..] == e + (s + y);
  }

  lemma EscapeInjective(c: char, d: char, u: string)
    requires |EscapeChar(c)| <= |u| && u[..|EscapeChar(c)|] == EscapeChar(c)
    requires |EscapeChar(d)| <= |u| && u[..|EscapeChar(d)|] == EscapeChar(d)
    ensures c == d
  {
    assert u[0] == EscapeChar(c)[0] == EscapeChar(d)[0];
    if u[0] == '\\' {
      assert u[1] == EscapeChar(c)[1] == EscapeChar(d)[1];
      if u[1] == 'u' {
        HexInjective(c, d, u);
      }
    }
  }

  lemma HexInjective(c: char, d: char, u: string)
    requires c < ' ' && d < ' ' && |u| >= 6
    requires u[4] == Digit(c as int / 16) == Digit(d as int / 16)
    requires u[5] == Digit(c as int % 16) == Digit(d as int % 16)
    ensures c == d
  {
    assert c as int == d as int;
  }

  lemma EscapeDecodes(c: char, d: char, x: string, y: string)
    requires EscapeChar(c) + x == EscapeChar(d) + y
    ensures c == d && x == y
  {
    var e, f := EscapeChar(c), EscapeChar(d);
    var u := e + x;
    assert u[..|e|] == e && u[|e|..] == x;
    assert u == f + y && u[..|f|] == f && u[|f|..] == y;
    EscapeInjective(c, d, u);
  }

  lemma {:induction false} QuoteDecodes(s: string, t: string, x: string, y: string)
    requires QuoteRest(s) + x == QuoteRest(t) + y
    ensures s == t && x == y
  {
    var p := QuoteHead(s);
    var q := QuoteHead(t);
    SplitHead(p[0], p[1..], q[0], q[1..], x, y);
    if s != "" {
      Regroup(EscapeChar(s[0]), QuoteRest(s[1..]), x);
      Regroup(EscapeChar(t[0]), QuoteRest(t[1..]), y);
      EscapeDecodes(s[0], t[0], QuoteRest(s[1..]) + x, QuoteRest(t[1..]) + y);
      QuoteDecodes(s[1..], t[1..], x, y);
    } else {
      assert p[1..] + x == x && q[1..] + y == y;
    }
  }

  /** Only the end of a string literal starts with an unescaped quote. */
  lemma QuoteHead(s: string) returns (q: string)
    ensures q == QuoteRest(s) && q != "" && q == [q[0]] + q[1..]
    ensures q[0] == '\"' <==> s == ""
  {
    q := QuoteRest(s);
    if s != "" { assert q[0] == EscapeChar(s[0])[0]; }
  }

  function Opening(n: Normal): char {
    match n
    case Text(_) => '\"'
    case Items(_) => '['
    case Fields(_) => '{'
  }

  /** What follows the opening character of a serialised value. */
  function Body(n: Normal): string {
    match n
    case Text(s) => QuoteRest(s)
    case Items(items) => DumpsItems(items, true)
    case Fields(fields) => DumpsFields(n, SortedSet(fields.Keys), true)
  }

  lemma {:induction false} DumpsDecodes(a: Normal, b: Normal, x: string, y: string)
    requires Dumps(a) + x == Dumps(b) + y
    ensures a == b && x == y
    decreases a, 1, 0
  {
    SplitHead(Opening(a), Body(a), Opening(b), Body(b), x, y);
    match a
    case Text(s) =>
      QuoteDecodes(s, b.text, x, y);
    case Items(items) =>
      ItemsDecode(items, b.items, true, x, y);
    case Fields(fields) =>
      var ks, ls := SortedSet(fields.Keys), SortedSet(b.fields.Keys);
      FieldsDecode(a, b, ks, ls, true, x, y);
      SameFields(fields, b.fields);
  }

  lemma SameFields(m: map<string, Normal>, n: map<string, Normal>)
    requires SortedSet(m.Keys) == SortedSet(n.Keys)
    requires forall k | k in SortedSet(m.Keys) && k in n :: m[k] == n[k]
    ensures m == n
  {
    SortedSetInjective(m.Keys, n.Keys);
    forall k | k in m.Keys ensures k in n && m[k] == n[k] {
      assert k in SortedSet(m.Keys);
    }
  }

  lemma ItemsHead(s: seq<Normal>, first: bool) returns (q: string)
    ensures q == DumpsItems(s, first) && q != "" && q == [q[0]] + q[1..]
    ensures q[0] == ']' <==> s == []
    ensures s == [] ==> q[1..] == ""
  {
    q := DumpsItems(s, first);
    if s != [] { assert q[0] == if first then Dumps(s[0])[0] else ','; }
  }

  lemma {:induction false} ItemsDecode(s: seq<Normal>, t: seq<Normal>, first: bool, x: string, y: string)
    requires DumpsItems(s, first) + x == DumpsItems(t, first) + y
    ensures s == t && x == y
    decreases s, 0, 0
  {
    var p := ItemsHead(s, first);
    var q := ItemsHead(t, first);
    SplitHead(p[0], p[1..], q[0], q[1..], x, y);
    if s != [] {
      CancelPrefix(if first then "" else ",",
                   Dumps(s[0]), DumpsItems(s[1..], false), x, Dumps(t[0]), DumpsItems(t[1..], false), y);
      DumpsDecodes(s[0], t[0], DumpsItems(s[1..], false) + x, DumpsItems(t[1..], false) + y);
      ItemsDecode(s[1..], t[1..], false, x, y);
    } else {
      assert p[1..] + x == x && q[1..] + y == y;
    }
  }

  /** The member list of an object after the quote that opens its first key. */
  function FieldsTail(n: Normal, keys: seq<string>): string
    requires n.Fields? && keys != [] && forall k | k in keys :: k in n.fields
  {
    ":" + (Dumps(n.fields[keys[0]]) + DumpsFields(n, keys[1..], false))
  }

  lemma RegroupMember(p: string, k: string, d: string, f: string)
    ensures p + k + ":" + d + f == p + k + (":" + (d + f))
  {
  }

  lemma FieldsHead(n: Normal, keys: seq<string>, first: bool) returns (q: string)
    requires n.Fields? && forall k | k in keys :: k in n.fields
    ensures q == DumpsFields(n, keys, first) && q != "" && q == [q[0]] + q[1..]
    ensures q[0] == '}' <==> keys == []
    ensures keys == [] ==> q[1..] == ""
    ensures keys != [] ==>
      q == (if first then "\"" else ",\"") + QuoteRest(keys[0]) + FieldsTail(n, keys)
  {
    q := DumpsFields(n, keys, first);
    if keys != [] {
      RegroupMember(if first then "\"" else ",\"", QuoteRest(keys[0]),
                    Dumps(n.fields[keys[0]]), DumpsFields(n, keys[1..], false));
    }
  }

  lemma MemberDecodes(k: string, d: string, r: string, x: string, l: string, e: string, s: string, y: string)
    requires QuoteRest(k) + ((":" + (d + r)) + x) == QuoteRest(l) + ((":" + (e + s)) + y)
    ensures k == l && d + (r + x) == e + (s + y)
  {
    QuoteDecodes(k, l, (":" + (d + r)) + x, (":" + (e + s)) + y);
    SplitHead(':', d + r, ':', e + s, x, y);
    Regroup(d, r, x);
    Regroup(e, s, y);
  }

  lemma {:induction false} FieldsDecode(
      a: Normal, b: Normal, ks: seq<string>, ls: seq<string>, first: bool, x: string, y: string)
    requires a.Fields? && b.Fields?
    requires (forall k | k in ks :: k in a.fields) && (forall k | k in ls :: k in b.fields)
    requires DumpsFields(a, ks, first) + x == DumpsFields(b, ls, first) + y
    ensures ks == ls && x == y && forall k | k in ks :: a.fields[k] == b.fields[k]
    decreases a, 0, |ks|
  {
    var p := FieldsHead(a, ks, first);
    var q := FieldsHead(b, ls, first);
    SplitHead(p[0], p[1..], q[0], q[1..], x, y);
    if ks != [] {
      CancelPrefix(if first then "\"" else ",\"",
                   QuoteRest(ks[0]), FieldsTail(a, ks), x, QuoteRest(ls[0]), FieldsTail(b, ls), y);
      var d, e := Dumps(a.fields[ks[0]]), Dumps(b.fields[ls[0]]);
      var r, s := DumpsFields(a, ks[1..], false), DumpsFields(b, ls[1..], false);
      MemberDecodes(ks[0], d, r, x, ls[0], e, s, y);
      DumpsDecodes(a.fields[ks[0]], b.fields[ls[0]], r + x, s + y);
      FieldsDecode(a, b, ks[1..], ls[1..], false, x, y);
    } else {
      assert p[1..] + x == x && q[1..] + y == y;
    }
  }

  /** Distinct normalised values never serialise alike, so the sort key is a total key. */
  lemma DumpsInjective(a: Normal, b: Normal)
    ensures Dumps(a) == Dumps(b) <==> a == b
  {
    if Dumps(a) == Dumps(b) {
      DumpsDecodes(a, b, "", "");
    }
  }
}
