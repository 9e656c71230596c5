/** JSON values and their `JSON.stringify` text. */
module Json {
  import opened Decimal
  import opened Sorting

  const TOKEN_CHARS := "0123456789+-.e"

  predicate IsToken(s: string) {
    s != [] && forall i :: 0 <= i < |s| ==> s[i] in TOKEN_CHARS
  }

  /** The text of a finite number; its digits are the engine's business. */
  type NumToken = s: string | IsToken(s) witness "0"

  /** An object is the list of its members in `Object.keys` order. */
  datatype Json =
    | Null
    | Bool(b: bool)
    | Num(tok: NumToken)
    | Str(s: string)
    | Arr(elems: seq<Json>)
    | Obj(members: seq<Member>)

  datatype Member = Member(key: string, value: Json)

  ghost predicate DistinctKeys(ms: seq<Member>) {
    forall i, j :: 0 <= i < j < |ms| ==> ms[i].key != ms[j].key
  }

  /** Array indices are below the largest array length (section 6.1.7 of ECMA-262). */
  const MAX_LENGTH := 0xFFFF_FFFF

  /** A key that is an array index: the decimal rendering of a number below `MAX_LENGTH`. */
  predicate IsIndex(key: string) {
    IsDigits(key) && key == Digits(Value(key)) && Value(key) < MAX_LENGTH
  }

  /**
   * Where a key stands in an enumeration: indices first, by number, then the other keys as they were added
   * (section 10.1.11.1 of ECMA-262, OrdinaryOwnPropertyKeys).
   */
  function IndexRank(key: string): Key {
    if IsIndex(key) then [0, Value(key)] else [1]
  }

  function IndexOrder(m: Member): Key {
    IndexRank(m.key)
  }

  /** What every JavaScript value satisfies: no key twice, indices enumerated first, no array too long. */
  ghost predicate WellFormed(x: Json) {
    match x
    case Arr(xs) => |xs| <= MAX_LENGTH && forall i :: 0 <= i < |xs| ==> WellFormed(xs[i])
    case Obj(ms) => DistinctKeys(ms) && Sorted(IndexOrder, ms) && forall i :: 0 <= i < |ms| ==> WellFormed(ms[i].value)
    case _ => true
  }

  lemma DigitsIndex(n: nat)
    ensures IsIndex(Digits(n)) <==> n < 4294967295
    ensures IsIndex(Digits(n)) ==> IndexRank(Digits(n)) == [0, n]
  {
    ValueOfDigits(n);
  }

  lemma SameRank(k: string, l: string)
    requires IsIndex(k) && IndexRank(k) == IndexRank(l)
    ensures k == l
  {
    assert IndexRank(k)[0] == 0 && IndexRank(k)[1] == Value(k);
    assert IsIndex(l) && IndexRank(l)[1] == Value(l);
  }

  // ---------- text ----------

  function HexDigit(n: int): char
    requires 0 <= n < 16
  {
    "0123456789abcdef"[n]
  }

  /** One character inside a JSON string literal (section 25.5.2.3 of ECMA-262, QuoteJSONString). */
  function EscapeChar(c: char): string {
    if c == '\"' then "\\\""
    else if c == '\\' then "\\\\"
    else if c as int == 8 then "\\b"
    else if c as int == 12 then "\\f"
    else if c == '\n' then "\\n"
    else if c == '\r' then "\\r"
    else if c == '\t' then "\\t"
    else if c as int < 32 then "\\u00" + [HexDigit(c as int / 16), HexDigit(c as int % 16)]
    else [c]
  }

  /** The rest of a string literal: the escaped characters and the closing quote. */
  function QuoteTail(s: string): string {
    if s == [] then "\"" else EscapeChar(s[0]) + QuoteTail(s[1..])
  }

  function Quote(s: string): string {
    "\"" + QuoteTail(s)
  }

  /** `JSON.stringify` without indentation. */
  function Stringify(x: Json): string {
    match x
    case Null => "null"
    case Bool(b) => if b then "true" else "false"
    case Num(tok) => tok
    case Str(s) => Quote(s)
    case Arr(xs) => if xs == [] then "[]" else "[" + Stringify(xs[0]) + ElemsTail(xs[1..])
    case Obj(ms) => if ms == [] then "{}" else "{" + StringifyMember(ms[0]) + MembersTail(ms[1..])
  }

  function StringifyMember(m: Member): string {
    Quote(m.key) + ":" + Stringify(m.value)
  }

  /** What follows an array element: more elements, each after a comma, and the bracket. */
  function ElemsTail(xs: seq<Json>): string {
    if xs == [] then "]" else "," + Stringify(xs[0]) + ElemsTail(xs[1..])
  }

  function MembersTail(ms: seq<Member>): string {
    if ms == [] then "}" else "," + StringifyMember(ms[0]) + MembersTail(ms[1..])
  }

  // ---------- reading JSON text ----------

  /** What a reader finds at the head of a text, and the rest. */
  datatype Reading<+T> = Got(value: T, rest: string) | Bad

  predicate IsHex(c: char) {
    '0' <= c <= '9' || 'A' <= c <= 'F' || 'a' <= c <= 'f'
  }

  function HexValue(c: char): int {
    if c <= '9' then c as int - '0' as int
    else if c <= 'F' then c as int - 'A' as int + 10
    else c as int - 'a' as int + 10
  }

  /** The character that a backslash and `c` stand for (section 9 of ECMA-404). */
  function Unescaped(c: char): string {
    if c == '\"' || c == '\\' || c == '/' then [c]
    else if c == 'b' then [8 as char]
    else if c == 'f' then [12 as char]
    else if c == 'n' then "\n"
    else if c == 'r' then "\r"
    else if c == 't' then "\t"
    else ""
  }

  function Prepend(c: char, r: Reading<string>): Reading<string> {
    if r.Got? then Got([c] + r.value, r.rest) else Bad
  }

  /** Reads the inside of a string literal and the closing quote. */
  function ReadString(s: string): (r: Reading<string>)
    ensures r.Got? ==> |r.rest| < |s|
  {
    if s == "" || (s[0] as int) < 32 then Bad
    else if s[0] == '\"' then Got("", s[1..])
    else if s[0] != '\\' then Prepend(s[0], ReadString(s[1..]))
    else if |s| >= 6 && s[1] == 'u' && s[2] == '0' && s[3] == '0' && IsHex(s[4]) && IsHex(s[5]) then
      Prepend((16 * HexValue(s[4]) + HexValue(s[5])) as char, ReadString(s[6..]))
    else if |s| >= 2 && Unescaped(s[1]) != "" then Prepend(Unescaped(s[1])[0], ReadString(s[2..]))
    else Bad
  }

  /** `s` cannot continue a number token. */
  predicate Stops(s: string) {
    s == [] || s[0] !in TOKEN_CHARS
  }

  function TokenLength(s: string): (n: nat)
    ensures n <= |s| && forall i :: 0 <= i < n ==> s[i] in TOKEN_CHARS
  {
    if Stops(s) then 0 else 1 + TokenLength(s[1..])
  }

  /** Reads a value from the head of a text without white space. */
  function ReadValue(s: string): (r: Reading<Json>)
    ensures r.Got? ==> |r.rest| < |s|
    decreases |s|, 0
  {
    if s == "" then Bad
    else if s[0] == '\"' then
      var r := ReadString(s[1..]);
      if r.Got? then Got(Str(r.value), r.rest) else Bad
    else if s[0] == '[' then
      var r := ReadElems(s[1..]);
      if |s| > 1 && s[1] == ']' then Got(Arr([]), s[2..]) else if r.Got? then Got(Arr(r.value), r.rest) else Bad
    else if s[0] == '{' then
      var r := ReadMembers(s[1..]);
      if |s| > 1 && s[1] == '}' then Got(Obj([]), s[2..]) else if r.Got? then Got(Obj(r.value), r.rest) else Bad
    else if s[0] == 'n' then if "null" <= s then Got(Null, s[4..]) else Bad
    else if s[0] == 't' then if "true" <= s then Got(Bool(true), s[4..]) else Bad
    else if s[0] == 'f' then if "false" <= s then Got(Bool(false), s[5..]) else Bad
    else
      var n := TokenLength(s);
      if n == 0 then Bad else Got(Num(s[..n]), s[n..])
  }

  /** Reads elements up to the closing bracket, at least one. */
  function ReadElems(s: string): (r: Reading<seq<Json>>)
    ensures r.Got? ==> |r.rest| < |s|
    decreases |s|, 1
  {
    var x := ReadValue(s);
    if x.Bad? || x.rest == "" then Bad
    else if x.rest[0] == ']' then Got([x.value], x.rest[1..])
    else if x.rest[0] == ',' then
      var xs := ReadElems(x.rest[1..]);
      if xs.Got? then Got([x.value] + xs.value, xs.rest) else Bad
    else Bad
  }

  function ReadMember(s: string): (r: Reading<Member>)
    ensures r.Got? ==> |r.rest| < |s|
    decreases |s|, 1
  {
    if s == "" || s[0] != '\"' then Bad
    else
      var k := ReadString(s[1..]);
      if k.Bad? || k.rest == "" || k.rest[0] != ':' then Bad
      else
        var v := ReadValue(k.rest[1..]);
        if v.Got? then Got(Member(k.value, v.value), v.rest) else Bad
  }

  /** Reads members up to the closing brace, at least one. */
  function ReadMembers(s: string): (r: Reading<seq<Member>>)
    ensures r.Got? ==> |r.rest| < |s|
    decreases |s|, 2
  {
    var m := ReadMember(s);
    if m.Bad? || m.rest == "" then Bad
    else if m.rest[0] == '}' then Got([m.value], m.rest[1..])
    else if m.rest[0] == ',' then
      var ms := ReadMembers(m.rest[1..]);
      if ms.Got? then Got([m.value] + ms.value, ms.rest) else Bad
    else Bad
  }

  // ---------- what is written is read back ----------

  lemma HexValueOf(n: int)
    requires 0 <= n < 16
    ensures IsHex(HexDigit(n)) && HexValue(HexDigit(n)) == n
  {
  }

  lemma ReadControl(c: char, s: string)
    requires |EscapeChar(c)| == 6
    ensures ReadString(EscapeChar(c) + s) == Prepend(c, ReadString(s))
  {
    var t, n := EscapeChar(c) + s, c as int;
    HexValueOf(n / 16);
    HexValueOf(n % 16);
    assert t[0] == '\\' && t[1] == 'u' && t[2] == '0' && t[3] == '0';
    assert t[4] == HexDigit(n / 16) && t[5] == HexDigit(n % 16) && t[6..] == s;
  }

  lemma ReadEscaped(c: char, s: string)
    ensures ReadString(EscapeChar(c) + s) == Prepend(c, ReadString(s))
  {
    var e := EscapeChar(c);
    var t := e + s;
    if |e| == 6 {
      ReadControl(c, s);
    } else if |e| == 2 {
      assert t[0] == e[0] && t[1] == e[1] && t[2..] == s;
    } else {
      assert t[0] == c && t[1..] == s;
    }
  }

  /**
   * No escape is longer than it must be: with `ReadEscaped`, which says what is read back, this leaves one text for
   * each character, as the digits of a code are in lower case.
   */
  lemma EscapesAreShort(c: char)
    ensures |EscapeChar(c)| ==
      if c == '\"' || c == '\\' || c as int == 8 || c as int == 12 || c == '\n' || c == '\r' || c == '\t' then 2
      else if c as int < 32 then 6
      else 1
    ensures |EscapeChar(c)| == 6 ==> EscapeChar(c)[4] !in "ABCDEF" && EscapeChar(c)[5] !in "ABCDEF"
  {
    if |EscapeChar(c)| == 6 {
      LowerDigit(c as int / 16);
      LowerDigit(c as int % 16);
    }
  }

  lemma LowerDigit(n: int)
    requires 0 <= n < 16
    ensures HexDigit(n) !in "ABCDEF"
  {
  }

  lemma {:induction false} ReadQuoteTail(a: string, s: string)
    ensures ReadString(QuoteTail(a) + s) == Got(a, s)
  {
    if a == "" {
      assert (QuoteTail(a) + s)[1..] == s;
    } else {
      assert QuoteTail(a) + s == EscapeChar(a[0]) + (QuoteTail(a[1..]) + s);
      ReadEscaped(a[0], QuoteTail(a[1..]) + s);
      ReadQuoteTail(a[1..], s);
      assert [a[0]] + a[1..] == a;
    }
  }

  lemma {:induction false} TokenLengthIs(a: string, s: string)
    requires (forall i :: 0 <= i < |a| ==> a[i] in TOKEN_CHARS) && Stops(s)
    ensures TokenLength(a + s) == |a|
  {
    if a == [] {
      assert a + s == s;
    } else {
      assert (a + s)[0] == a[0] && (a + s)[1..] == a[1..] + s;
      TokenLengthIs(a[1..], s);
    }
  }

  lemma TokenChars(c: char)
    requires c in TOKEN_CHARS
    ensures c !in "\"[{ntf]},"
  {
  }

  lemma ReadToken(a: NumToken, s: string)
    requires Stops(s)
    ensures ReadValue(a + s) == Got(Num(a), s)
  {
    var t := a + s;
    assert t[0] == a[0] && a[0] in TOKEN_CHARS;
    TokenChars(a[0]);
    TokenLengthIs(a, s);
    assert t[..|a|] == a && t[|a|..] == s;
  }

  lemma ReadWord(x: Json, s: string)
    requires x.Null? || x.Bool?
    ensures ReadValue(Stringify(x) + s) == Got(x, s)
  {
    var w := Stringify(x);
    assert (w + s)[0] == w[0] && (w + s)[|w|..] == s && w <= w + s;
  }

  lemma ReadQuoted(a: string, s: string)
    ensures ReadValue(Quote(a) + s) == Got(Str(a), s)
  {
    assert (Quote(a) + s)[1..] == QuoteTail(a) + s;
    ReadQuoteTail(a, s);
  }

  /** The first character of an element or of a member does not close the bracket. */
  lemma FirstOfValue(x: Json, s: string)
    ensures Stringify(x) != "" && (Stringify(x) + s)[0] == Stringify(x)[0] && Stringify(x)[0] !in "]},"
  {
    match x
    case Num(tok) =>
      assert tok[0] in TOKEN_CHARS;
      TokenChars(tok[0]);
    case _ =>
  }

  lemma Reassociate(a: string, b: string, c: string, d: string)
    ensures a + b + c + d == a + (b + (c + d))
  {
  }

  lemma ElemsTailText(xs: seq<Json>, s: string)
    ensures Stops(ElemsTail(xs) + s)
    ensures xs == [] ==> ElemsTail(xs) + s == "]" + s
    ensures xs != [] ==> ElemsTail(xs) + s == "," + (Stringify(xs[0]) + (ElemsTail(xs[1..]) + s))
  {
    if xs != [] {
      Reassociate(",", Stringify(xs[0]), ElemsTail(xs[1..]), s);
    }
  }

  lemma MembersTailText(ms: seq<Member>, s: string)
    ensures Stops(MembersTail(ms) + s)
    ensures ms == [] ==> MembersTail(ms) + s == "}" + s
    ensures ms != [] ==> MembersTail(ms) + s == "," + (StringifyMember(ms[0]) + (MembersTail(ms[1..]) + s))
  {
    if ms != [] {
      Reassociate(",", StringifyMember(ms[0]), MembersTail(ms[1..]), s);
    }
  }

  lemma ReadArray(body: string, xs: seq<Json>, s: string)
    requires ReadElems(body) == Got(xs, s) && body != "" && body[0] != ']'
    ensures ReadValue("[" + body) == Got(Arr(xs), s)
  {
    assert ("[" + body)[1..] == body;
  }

  lemma ReadObject(body: string, ms: seq<Member>, s: string)
    requires ReadMembers(body) == Got(ms, s) && body != "" && body[0] != '}'
    ensures ReadValue("{" + body) == Got(Obj(ms), s)
  {
    assert ("{" + body)[1..] == body;
  }

  lemma ReadEmpty(s: string)
    ensures ReadValue("[]" + s) == Got(Arr([]), s)
    ensures ReadValue("{}" + s) == Got(Obj([]), s)
  {
    assert ("[]" + s)[2..] == s && ("{}" + s)[2..] == s;
  }

  lemma ReadLastElem(text: string, x: Json, s: string)
    requires ReadValue(text) == Got(x, "]" + s)
    ensures ReadElems(text) == Got([x], s)
  {
    assert ("]" + s)[1..] == s;
  }

  lemma ReadNextElem(text: string, x: Json, more: string, xs: seq<Json>, s: string)
    requires ReadValue(text) == Got(x, "," + more) && ReadElems(more) == Got(xs, s)
    ensures ReadElems(text) == Got([x] + xs, s)
  {
    assert ("," + more)[1..] == more;
  }

  lemma ReadLastMember(text: string, m: Member, s: string)
    requires ReadMember(text) == Got(m, "}" + s)
    ensures ReadMembers(text) == Got([m], s)
  {
    assert ("}" + s)[1..] == s;
  }

  lemma ReadNextMember(text: string, m: Member, more: string, ms: seq<Member>, s: string)
    requires ReadMember(text) == Got(m, "," + more) && ReadMembers(more) == Got(ms, s)
    ensures ReadMembers(text) == Got([m] + ms, s)
  {
    assert ("," + more)[1..] == more;
  }

  lemma ReadOneMember(key: string, text: string, v: Json, s: string)
    requires ReadValue(text) == Got(v, s)
    ensures ReadMember("\"" + (QuoteTail(key) + (":" + text))) == Got(Member(key, v), s)
  {
    var u := ":" + text;
    assert u[1..] == text;
    assert ("\"" + (QuoteTail(key) + u))[1..] == QuoteTail(key) + u;
    ReadQuoteTail(key, u);
  }

  lemma ReassociateFive(a: string, b: string, c: string, d: string, e: string)
    ensures a + b + c + d + e == a + (b + (c + (d + e)))
  {
    var t := d + e;
    assert a + b + c + d + e == a + b + c + t;
    Reassociate(a, b, c, t);
  }

  lemma MemberText(m: Member, s: string)
    ensures StringifyMember(m) + s == "\"" + (QuoteTail(m.key) + (":" + (Stringify(m.value) + s)))
  {
    ReassociateFive("\"", QuoteTail(m.key), ":", Stringify(m.value), s);
  }

  /** Every value is read back from its text, whatever follows, unless it could continue a number. */
  lemma {:induction false} ReadBack(x: Json, s: string)
    requires Stops(s)
    ensures ReadValue(Stringify(x) + s) == Got(x, s)
    decreases x, 2
  {
    match x
    case Null => ReadWord(x, s);
    case Bool(_) => ReadWord(x, s);
    case Num(tok) => ReadToken(tok, s);
    case Str(a) => ReadQuoted(a, s);
    case Arr(xs) =>
      if xs == [] {
        ReadEmpty(s);
      } else {
        var body := Stringify(xs[0]) + (ElemsTail(xs[1..]) + s);
        Reassociate("[", Stringify(xs[0]), ElemsTail(xs[1..]), s);
        FirstOfValue(xs[0], ElemsTail(xs[1..]) + s);
        ReadElemsBack(x, xs, s);
        ReadArray(body, xs, s);
      }
    case Obj(ms) =>
      if ms == [] {
        ReadEmpty(s);
      } else {
        var body := StringifyMember(ms[0]) + (MembersTail(ms[1..]) + s);
        Reassociate("{", StringifyMember(ms[0]), MembersTail(ms[1..]), s);
        MemberText(ms[0], MembersTail(ms[1..]) + s);
        ReadMembersBack(x, ms, s);
        ReadObject(body, ms, s);
      }
  }

  lemma {:induction false} ReadElemsBack(x: Json, xs: seq<Json>, s: string)
    requires xs != [] && Stops(s) && forall i :: 0 <= i < |xs| ==> xs[i] < x
    ensures ReadElems(Stringify(xs[0]) + (ElemsTail(xs[1..]) + s)) == Got(xs, s)
    decreases x, 0, |xs|
  {
    var tail := xs[1..];
    var text := Stringify(xs[0]) + (ElemsTail(tail) + s);
    ElemsTailText(tail, s);
    ReadBack(xs[0], ElemsTail(tail) + s);
    if tail == [] {
      assert xs == [xs[0]];
      ReadLastElem(text, xs[0], s);
    } else {
      ReadElemsBack(x, tail, s);
      assert xs == [xs[0]] + tail;
      ReadNextElem(text, xs[0], Stringify(tail[0]) + (ElemsTail(tail[1..]) + s), tail, s);
    }
  }

  lemma {:induction false} ReadMemberBack(x: Json, m: Member, s: string)
    requires Stops(s) && m < x
    ensures ReadMember(StringifyMember(m) + s) == Got(m, s)
    decreases x, 0, 0
  {
    ReadBack(m.value, s);
    MemberText(m, s);
    ReadOneMember(m.key, Stringify(m.value) + s, m.value, s);
  }

  lemma {:induction false} ReadMembersBack(x: Json, ms: seq<Member>, s: string)
    requires ms != [] && Stops(s) && forall i :: 0 <= i < |ms| ==> ms[i] < x
    ensures ReadMembers(StringifyMember(ms[0]) + (MembersTail(ms[1..]) + s)) == Got(ms, s)
    decreases x, 1, |ms|
  {
    var tail := ms[1..];
    var text := StringifyMember(ms[0]) + (MembersTail(tail) + s);
    MembersTailText(tail, s);
    ReadMemberBack(x, ms[0], MembersTail(tail) + s);
    if tail == [] {
      assert ms == [ms[0]];
      ReadLastMember(text, ms[0], s);
    } else {
      ReadMembersBack(x, tail, s);
      assert ms == [ms[0]] + tail;
      ReadNextMember(text, ms[0], StringifyMember(tail[0]) + (MembersTail(tail[1..]) + s), tail, s);
    }
  }

  /** Texts of values are prefix-safe: value and rest are both determined. */
  lemma StringifyUnique(x: Json, y: Json, s: string, t: string)
    requires Stringify(x) + s == Stringify(y) + t
    requires Stops(s) && Stops(t)
    ensures x == y && s == t
  {
    ReadBack(x, s);
    ReadBack(y, t);
  }

  /** `JSON.stringify` tells different values apart. */
  lemma StringifyInjective(x: Json, y: Json)
    requires Stringify(x) == Stringify(y)
    ensures x == y
  {
    assert Stringify(x) + "" == Stringify(y) + "";
    StringifyUnique(x, y, "", "");
  }
}
