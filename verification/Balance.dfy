/** Decimal amounts in metric units to integers in picoWAY. */
module Balance {
  import opened Decimal
  import opened Wrappers

  /** The metric prefixes and their exponents. */
  function Exponent(unit: string): (e: Option<int>)
    ensures e.Some? ==> -12 <= e.value <= 24
  {
    if unit == "pico" then Some(-12)
    else if unit == "nano" then Some(-9)
    else if unit == "micro" then Some(-6)
    else if unit == "milli" then Some(-3)
    else if unit == "centi" then Some(-2)
    else if unit == "WAY" then Some(0)
    else if unit == "kilo" then Some(3)
    else if unit == "mega" || unit == "mill" then Some(6)
    else if unit == "giga" || unit == "bill" then Some(9)
    else if unit == "tera" || unit == "tril" then Some(12)
    else if unit == "peta" then Some(15)
    else if unit == "exa" then Some(18)
    else if unit == "zetta" then Some(21)
    else if unit == "yotta" then Some(24)
    else None
  }

  /** A string, or an integer (a bigint, a BN, or a number that prints as one). */
  datatype BalanceNumber = Text(s: string) | Integer(n: int)

  datatype Error = NotANumber | UnknownPrefix | TooManyDecimals

  // ---------- reading the text ----------

  function Unsigned(s: string): string {
    if s != [] && s[0] == '-' then s[1..] else s
  }

  /** The position of the first dot, or the length. */
  function DotAt(s: string): (d: nat)
    ensures d <= |s| && '.' !in s[..d] && (d < |s| ==> s[d] == '.')
  {
    if s == [] || s[0] == '.' then 0 else
      var d := 1 + DotAt(s[1..]);
      assert s[..d] == [s[0]] + s[1..][..d - 1];
      d
  }

  /** `^-?\\d*\\.?\\d+$` */
  predicate IsNumberText(s: string) {
    var t := Unsigned(s);
    var d := DotAt(t);
    IsDigits(t[..d]) && if d < |t| then t[d + 1..] != [] && IsDigits(t[d + 1..]) else t != []
  }

  function IntegerText(n: int): string {
    if n < 0 then "-" + Digits(-n) else Digits(n)
  }

  lemma {:induction false} DotAtFirst(i: string, rest: string)
    requires '.' !in i && (rest == [] || rest[0] == '.')
    ensures DotAt(i + rest) == |i|
  {
    if i == [] {
      assert i + rest == rest;
    } else {
      assert i[0] in i;
      assert (i + rest)[1..] == i[1..] + rest;
      DotAtFirst(i[1..], rest);
    }
  }

  lemma IntegerTextIsNumber(n: int)
    ensures IsNumberText(IntegerText(n))
    ensures Unsigned(IntegerText(n)) == Digits(if n < 0 then -n else n)
    ensures DotAt(Digits(if n < 0 then -n else n)) == |Digits(if n < 0 then -n else n)|
  {
    var t := Digits(if n < 0 then -n else n);
    DotAtFirst(t, []);
    assert t + [] == t && t[..|t|] == t && t[0] != '-';
  }

  /** Passes on a string that spells a number, and renders an integer. */
  function BalanceNumberToString(input: BalanceNumber): (r: Outcome<string, Error>)
    ensures r.Ok? ==> IsNumberText(r.value)
  {
    match input
    case Text(s) => if IsNumberText(s) then Ok(s) else Thrown(NotANumber)
    case Integer(n) => IntegerTextIsNumber(n); Ok(IntegerText(n))
  }

  // ---------- conversion ----------

  function ConvertToTxUnit(balance: int, power: int): (r: int)
    requires power >= -12
    ensures r == Scale(balance, 12 + power)
  {
    ScaleIsPow(balance, 12 + power);
    balance * Pow10(12 + power)
  }

  /** The arithmetic of `toPicoWay`, on the parts of the text. */
  function ConvertParts(negative: bool, integer: string, fraction: string, unitVal: int): Outcome<int, Error>
    requires IsDigits(integer) && IsDigits(fraction) && unitVal >= -12
  {
    if fraction != "" && |fraction| > unitVal + 12 then Thrown(TooManyDecimals)
    else
      var fractionBN := if fraction != "" then ConvertToTxUnit(Value(fraction), unitVal - |fraction|) else 0;
      var resultingBN := ConvertToTxUnit(Value(integer), unitVal) + fractionBN;
      Ok(if negative then resultingBN * -1 else resultingBN * 1)
  }

  /** `toPicoWay` once the prefix has been looked up. */
  function AtExponent(input: BalanceNumber, exponent: Option<int>): Outcome<int, Error>
    requires exponent.Some? ==> exponent.value >= -12
  {
    match BalanceNumberToString(input)
    case Thrown(e) => Thrown(e)
    case Ok(s) =>
      if exponent.None? then Thrown(UnknownPrefix)
      else
        var negative := s != [] && s[0] == '-';
        var t := Unsigned(s);
        var d := DotAt(t);
        ConvertParts(negative, t[..d], if d < |t| then t[d + 1..] else "", exponent.value)
  }

  function ToPicoWay(input: BalanceNumber, unit: string): Outcome<int, Error> {
    AtExponent(input, Exponent(unit))
  }

  // ---------- the texts that are numbers ----------

  /** `[-]i` or `[-]i.f`; an empty fraction is left out together with its dot. */
  function NumberText(negative: bool, i: string, f: string): string {
    (if negative then "-" else "") + Body(i, f)
  }

  ghost predicate IsNumberParts(i: string, f: string) {
    IsDigits(i) && IsDigits(f) && (i != "" || f != "")
  }

  /** The unsigned part of a number text. */
  function Body(i: string, f: string): string {
    i + (if f == "" then "" else "." + f)
  }

  lemma BodyParts(i: string, f: string)
    requires IsNumberParts(i, f)
    ensures Body(i, f) != "" && Body(i, f)[0] != '-' && DotAt(Body(i, f)) == |i|
    ensures Body(i, f)[..|i|] == i
    ensures f != "" ==> |Body(i, f)| > |i| && Body(i, f)[|i| + 1..] == f
    ensures f == "" ==> |Body(i, f)| == |i|
  {
    DotAtFirst(i, if f == "" then "" else "." + f);
    assert Body(i, f)[0] == if i != "" then i[0] else '.';
  }

  lemma SignParts(negative: bool, t: string)
    requires t != "" && t[0] != '-'
    ensures var s := (if negative then "-" else "") + t;
      s != "" && (s[0] == '-' <==> negative) && Unsigned(s) == t
  {
    var s := (if negative then "-" else "") + t;
    if negative {
      assert s[1..] == t;
    } else {
      assert s == t;
    }
  }

  lemma NumberTextParts(negative: bool, i: string, f: string)
    requires IsNumberParts(i, f)
    ensures var s := NumberText(negative, i, f);
      IsNumberText(s) && (s[0] == '-' <==> negative) && Unsigned(s) == Body(i, f)
  {
    BodyParts(i, f);
    SignParts(negative, Body(i, f));
  }

  /** The accepted texts are exactly these. */
  lemma NumberTextExactly(s: string)
    ensures IsNumberText(s) <==> exists negative, i, f :: IsNumberParts(i, f) && s == NumberText(negative, i, f)
  {
    if IsNumberText(s) {
      var negative, i, f := SplitNumber(s);
    }
    if negative, i, f :| IsNumberParts(i, f) && s == NumberText(negative, i, f) {
      NumberTextParts(negative, i, f);
    }
  }

  lemma SplitSign(s: string)
    ensures s == (if s != [] && s[0] == '-' then "-" else "") + Unsigned(s)
  {
  }

  lemma SplitNumber(s: string) returns (negative: bool, i: string, f: string)
    requires IsNumberText(s)
    ensures IsNumberParts(i, f) && s == NumberText(negative, i, f)
  {
    negative := s != [] && s[0] == '-';
    i, f := SplitBody(Unsigned(s));
    SplitSign(s);
  }

  lemma SplitBody(t: string) returns (i: string, f: string)
    requires var d := DotAt(t);
      IsDigits(t[..d]) && if d < |t| then t[d + 1..] != [] && IsDigits(t[d + 1..]) else t != []
    ensures IsNumberParts(i, f) && t == Body(i, f)
  {
    var d := DotAt(t);
    i := t[..d];
    if d < |t| {
      f := t[d + 1..];
      assert t == i + ("." + f);
    } else {
      f := "";
    }
  }

  // ---------- the conversion is exact ----------

  lemma ToParts(negative: bool, i: string, f: string, u: int)
    requires IsNumberParts(i, f) && u >= -12
    ensures AtExponent(Text(NumberText(negative, i, f)), Some(u)) == ConvertParts(negative, i, f, u)
  {
    NumberTextParts(negative, i, f);
    BodyParts(i, f);
  }

  function Signed(negative: bool, v: int): int {
    if negative then -v else v
  }

  /** All digits as one number, times the power of ten that is left after the fraction. */
  ghost function Exactly(negative: bool, i: string, f: string, u: int): Outcome<int, Error>
    requires IsDigits(i) && IsDigits(f)
  {
    if |f| > u + 12 then Thrown(TooManyDecimals) else Ok(Signed(negative, Scale(Value(i + f), 12 + u - |f|)))
  }

  lemma PartsExact(negative: bool, i: string, f: string, u: int)
    requires IsDigits(i) && IsDigits(f) && u >= -12
    ensures ConvertParts(negative, i, f, u) == Exactly(negative, i, f, u)
  {
    ValueOfConcat(i, f);
    if |f| <= u + 12 {
      ScaleSum(Scale(Value(i), |f|), Value(f), 12 + u - |f|);
      ScaleAdds(Value(i), |f|, 12 + u - |f|);
    }
  }

  /** For every number text, with one refusal: more decimals than the unit has. */
  lemma ExactValue(negative: bool, i: string, f: string, u: int)
    requires IsNumberParts(i, f) && u >= -12
    ensures AtExponent(Text(NumberText(negative, i, f)), Some(u)) == Exactly(negative, i, f, u)
  {
    ToParts(negative, i, f, u);
    PartsExact(negative, i, f, u);
  }

  /** The amount a text and a prefix stand for in picoWAY, and each of the three ways to be refused. */
  lemma ToPicoWayExact(s: string, unit: string)
    ensures !IsNumberText(s) ==> ToPicoWay(Text(s), unit) == Thrown(NotANumber)
    ensures IsNumberText(s) && Exponent(unit).None? ==> ToPicoWay(Text(s), unit) == Thrown(UnknownPrefix)
    ensures IsNumberText(s) && Exponent(unit).Some? ==> exists negative, i, f ::
        IsNumberParts(i, f) && s == NumberText(negative, i, f) &&
        ToPicoWay(Text(s), unit) == Exactly(negative, i, f, Exponent(unit).value)
  {
    var e := Exponent(unit);
    if IsNumberText(s) && e.Some? {
      var negative, i, f := SplitNumber(s);
      ExactValue(negative, i, f, e.value);
    }
  }

  /** Zeros at the end of the fraction do not matter while they fit the unit. */
  lemma TrailingZeros(negative: bool, i: string, f: string, n: nat, u: int)
    requires IsNumberParts(i, f) && u >= -12 && |f| + n <= u + 12
    ensures AtExponent(Text(NumberText(negative, i, f + Zeros(n))), Some(u)) ==
      AtExponent(Text(NumberText(negative, i, f)), Some(u))
  {
    var g := f + Zeros(n);
    assert IsNumberParts(i, g);
    ZerosBehind(negative, i, f, n, u);
    ToParts(negative, i, f, u);
    ToParts(negative, i, g, u);
  }

  lemma ZerosBehind(negative: bool, i: string, f: string, n: nat, u: int)
    requires IsDigits(i) && IsDigits(f) && |f| + n <= u + 12
    ensures ConvertParts(negative, i, f + Zeros(n), u) == ConvertParts(negative, i, f, u)
  {
    PartsExact(negative, i, f, u);
    PartsExact(negative, i, f + Zeros(n), u);
    ZerosAppended(i, f, n, 12 + u - |f|);
  }

  lemma AppendZeros(d: string, n: nat, e: int)
    requires IsDigits(d) && n <= e
    ensures IsDigits(d + Zeros(n)) && Scale(Value(d + Zeros(n)), e - n) == Scale(Value(d), e)
  {
    ValueOfConcat(d, Zeros(n));
    ValueOfZeros(n);
    ScaleAdds(Value(d), n, e - n);
  }

  /** Moving the point `n` places right, over zeros where digits run out, while the unit gets `n` powers smaller. */
  lemma MovePoint(negative: bool, i: string, f: string, n: nat, u: int)
    requires IsNumberParts(i, f) && u - n >= -12
    ensures var g := Padded(f, n);
      AtExponent(Text(NumberText(negative, i + g[..n], g[n..])), Some(u - n)) ==
      AtExponent(Text(NumberText(negative, i, f)), Some(u))
  {
    var i', f' := i + Padded(f, n)[..n], Padded(f, n)[n..];
    MovedParts(i, f, n);
    ToParts(negative, i, f, u);
    ToParts(negative, i', f', u - n);
    PointMoved(negative, i, f, n, u);
  }

  lemma MovedParts(i: string, f: string, n: nat)
    requires IsNumberParts(i, f)
    ensures IsNumberParts(i + Padded(f, n)[..n], Padded(f, n)[n..])
  {
    var g := Padded(f, n);
    assert |i + g[..n]| + |g[n..]| == |i| + |g|;
  }

  /** `f` with zeros behind it, if it has fewer than `n` digits. */
  function Padded(f: string, n: nat): (g: string)
    requires IsDigits(f)
    ensures |g| >= n && |g| >= |f| && IsDigits(g)
  {
    if |f| < n then f + Zeros(n - |f|) else f
  }

  lemma PointMoved(negative: bool, i: string, f: string, n: nat, u: int)
    requires IsDigits(i) && IsDigits(f) && u - n >= -12
    ensures var g := Padded(f, n);
      ConvertParts(negative, i + g[..n], g[n..], u - n) == ConvertParts(negative, i, f, u)
  {
    var g := Padded(f, n);
    var i', f' := i + g[..n], g[n..];
    PartsExact(negative, i, f, u);
    PartsExact(negative, i', f', u - n);
    assert i' + f' == i + g;
    PaddedValue(i, f, n, u);
  }

  /** The padding zeros make up for the powers of ten that are gone. */
  lemma PaddedValue(i: string, f: string, n: nat, u: int)
    requires IsDigits(i) && IsDigits(f) && u - n >= -12
    ensures var g := Padded(f, n);
      IsDigits(i + g) && (|g| > u + 12 <==> |f| > u + 12) &&
      (|f| <= u + 12 ==> Scale(Value(i + g), 12 + u - |g|) == Scale(Value(i + f), 12 + u - |f|))
  {
    if |f| < n {
      var k := n - |f|;
      assert Padded(f, n) == f + Zeros(k) && |f + Zeros(k)| == n;
      ZerosAppended(i, f, k, 12 + u - |f|);
    } else {
      assert Padded(f, n) == f;
    }
  }

  lemma ZerosAppended(i: string, f: string, k: nat, e: int)
    requires IsDigits(i) && IsDigits(f) && k <= e
    ensures IsDigits(i + (f + Zeros(k))) && Scale(Value(i + (f + Zeros(k))), e - k) == Scale(Value(i + f), e)
  {
    assert i + (f + Zeros(k)) == (i + f) + Zeros(k);
    AppendZeros(i + f, k, e);
  }

  /** Integers convert without a detour through their digits. */
  lemma IntegerExact(n: int, u: int)
    requires u >= -12
    ensures AtExponent(Integer(n), Some(u)) == Ok(n * Pow10(12 + u))
  {
    var m := if n < 0 then -n else n;
    IntegerTextIsNumber(n);
    ValueOfDigits(m);
    ScaleIsPow(n, 12 + u);
    ScaleNegative(m, 12 + u);
    assert Digits(m)[..|Digits(m)|] == Digits(m) && Digits(m)[0] != '-';
    assert AtExponent(Integer(n), Some(u)) == ConvertParts(n < 0, Digits(m), "", u);
  }

  lemma OneAt(zeros: nat)
    ensures AtExponent(Text("1"), Some(zeros - 12)) == Ok(Value("1" + Zeros(zeros)))
  {
    assert NumberText(false, "1", "") == "1" && "1" + "" == "1";
    ExactValue(false, "1", "", zeros - 12);
    OneWithZeros(zeros);
  }

  lemma OneWithZeros(zeros: nat)
    ensures Value("1" + Zeros(zeros)) == Scale(Value("1"), zeros)
  {
    ValueOfConcat("1", Zeros(zeros));
    ValueOfZeros(zeros);
  }

  /** One of the unit is a one and so many zeros in picoWAY. */
  ghost predicate IsOne(unit: string, zeros: nat) {
    ToPicoWay(Text("1"), unit) == Ok(Value("1" + Zeros(zeros)))
  }

  lemma OneOf(unit: string, zeros: nat, e: Option<int>)
    requires Exponent(unit) == e && e == Some(zeros - 12)
    ensures IsOne(unit, zeros)
  {
    OneAt(zeros);
  }

  lemma SmallUnits()
    ensures IsOne("pico", 0) && IsOne("nano", 3) && IsOne("micro", 6) && IsOne("milli", 9) && IsOne("centi", 10)
  {
    OneOf("pico", 0, Some(-12));
    OneOf("nano", 3, Some(-9));
    OneOf("micro", 6, Some(-6));
    OneOf("milli", 9, Some(-3));
    OneOf("centi", 10, Some(-2));
  }

  lemma MiddleUnits()
    ensures IsOne("WAY", 12) && IsOne("kilo", 15) && IsOne("mega", 18) && IsOne("mill", 18)
  {
    OneOf("WAY", 12, Some(0));
    OneOf("kilo", 15, Some(3));
    OneOf("mega", 18, Some(6));
    OneOf("mill", 18, Some(6));
  }

  lemma Giga()
    ensures IsOne("giga", 21) && IsOne("bill", 21)
  {
    OneOf("giga", 21, Some(9));
    OneOf("bill", 21, Some(9));
  }

  lemma Tera()
    ensures IsOne("tera", 24) && IsOne("tril", 24)
  {
    OneOf("tera", 24, Some(12));
    OneOf("tril", 24, Some(12));
  }

  lemma Peta()
    ensures IsOne("peta", 27)
  {
    OneOf("peta", 27, Some(15));
  }

  lemma Exa()
    ensures IsOne("exa", 30)
  {
    OneOf("exa", 30, Some(18));
  }

  lemma Zetta()
    ensures IsOne("zetta", 33)
  {
    OneOf("zetta", 33, Some(21));
  }

  lemma Yotta()
    ensures IsOne("yotta", 36)
  {
    OneOf("yotta", 36, Some(24));
  }

  lemma LargeUnits()
    ensures IsOne("giga", 21) && IsOne("bill", 21) && IsOne("tera", 24) && IsOne("tril", 24)
    ensures IsOne("peta", 27) && IsOne("exa", 30) && IsOne("zetta", 33) && IsOne("yotta", 36)
  {
    Giga();
    Tera();
    Peta();
    Exa();
    Zetta();
    Yotta();
  }

  const UNITS := {"pico", "nano", "micro", "milli", "centi", "WAY", "kilo", "mega", "mill", "giga", "bill", "tera",
                  "tril", "peta", "exa", "zetta", "yotta"}

  lemma KnownUnits(unit: string)
    ensures Exponent(unit).Some? <==> unit in UNITS
  {
  }

  /** There are no other units. */
  lemma UnknownUnit(unit: string)
    ensures ToPicoWay(Text("1"), unit) == Thrown(UnknownPrefix) <==> unit !in UNITS
  {
    KnownUnits(unit);
    UnitDecides(Exponent(unit));
  }

  lemma UnitDecides(e: Option<int>)
    requires e.Some? ==> e.value >= -12
    ensures AtExponent(Text("1"), e) == Thrown(UnknownPrefix) <==> e.None?
  {
    NumberTextParts(false, "1", "");
    assert NumberText(false, "1", "") == "1";
    if e.Some? {
      OneAt(e.value + 12);
    }
  }

  // ---------- against the real numbers ----------

  /** `v` with the decimal point moved `n` places to the left. */
  ghost function Fraction(v: int, n: nat): real {
    if n == 0 then v as real else Fraction(v, n - 1) / 10.0
  }

  /** `x` times the `n`-th power of ten. */
  ghost function RealScale(x: real, n: nat): real {
    if n == 0 then x else 10.0 * RealScale(x, n - 1)
  }

  /** The real number a text denotes. */
  ghost function RealValue(negative: bool, i: string, f: string): real
    requires IsDigits(i) && IsDigits(f)
  {
    var magnitude := Value(i) as real + Fraction(Value(f), |f|);
    if negative then -magnitude else magnitude
  }

  lemma {:induction false} RealScaleSum(x: real, y: real, n: nat)
    ensures RealScale(x + y, n) == RealScale(x, n) + RealScale(y, n)
    ensures RealScale(-x, n) == -RealScale(x, n)
  {
    if n > 0 {
      RealScaleSum(x, y, n - 1);
    }
  }

  lemma {:induction false} RealScaleInt(v: int, n: nat)
    ensures RealScale(v as real, n) == Scale(v, n) as real
  {
    if n > 0 {
      RealScaleInt(v, n - 1);
    }
  }

  lemma {:induction false} RealScaleFraction(v: int, m: nat, k: nat)
    ensures RealScale(Fraction(v, m), m + k) == Scale(v, k) as real
  {
    if m == 0 {
      RealScaleInt(v, k);
    } else {
      RealScaleFraction(v, m - 1, k);
      RealScaleShift(Fraction(v, m), m - 1 + k);
    }
  }

  lemma {:induction false} RealScaleShift(x: real, n: nat)
    ensures RealScale(x, n + 1) == RealScale(10.0 * x, n)
  {
    if n > 0 {
      RealScaleShift(x, n - 1);
    }
  }

  /** Nothing is rounded: the result is the denoted number times the unit in picoWAY, as real numbers. */
  lemma ExactAsReal(negative: bool, i: string, f: string, u: int)
    requires IsNumberParts(i, f) && u >= -12 && |f| <= u + 12
    ensures var r := AtExponent(Text(NumberText(negative, i, f)), Some(u));
      r.Ok? && r.value as real == RealScale(RealValue(negative, i, f), 12 + u)
  {
    ToParts(negative, i, f, u);
    PartsAsReal(negative, i, f, u);
  }

  lemma PartsAsReal(negative: bool, i: string, f: string, u: int)
    requires IsDigits(i) && IsDigits(f) && |f| <= u + 12
    ensures var r := ConvertParts(negative, i, f, u);
      r.Ok? && r.value as real == RealScale(RealValue(negative, i, f), 12 + u)
  {
    var v := Fraction(Value(f), |f|);
    RealScaleInt(Value(i), 12 + u);
    RealScaleFraction(Value(f), |f|, 12 + u - |f|);
    RealScaleSum(Value(i) as real, v, 12 + u);
    RealScaleSum(Value(i) as real + v, 0.0, 12 + u);
  }
}
