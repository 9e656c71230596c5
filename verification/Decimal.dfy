/** Decimal digit strings and the numbers they spell. */
module Decimal {

  predicate IsDigits(s: string) {
    forall i :: 0 <= i < |s| ==> '0' <= s[i] <= '9'
  }

  /** The number a digit string spells; the empty string spells 0. */
  function Value(s: string): nat
    requires IsDigits(s)
  {
    if s == [] then 0
    else 10 * Value(s[..|s| - 1]) + (s[|s| - 1] as int - '0' as int)
  }

  /** The decimal rendering of a number, without leading zeros. */
  function Digits(n: nat): (s: string)
    ensures s != [] && IsDigits(s)
  {
    var last := ['0' + (n % 10) as char];
    if n < 10 then last else Digits(n / 10) + last
  }

  lemma {:induction false} ValueOfDigits(n: nat)
    ensures Value(Digits(n)) == n
  {
    var s := Digits(n);
    if n >= 10 {
      assert s[..|s| - 1] == Digits(n / 10);
      ValueOfDigits(n / 10);
    }
  }

  lemma DigitsInjective(m: nat, n: nat)
    requires Digits(m) == Digits(n)
    ensures m == n
  {
    ValueOfDigits(m);
    ValueOfDigits(n);
  }

  function Pow10(n: nat): (p: nat)
    ensures p > 0
  {
    if n == 0 then 1 else 10 * Pow10(n - 1)
  }

  /** `v` with `n` zeros written behind it. */
  function Scale(v: int, n: nat): int {
    if n == 0 then v else 10 * Scale(v, n - 1)
  }

  lemma {:induction false} ScaleIsPow(v: int, n: nat)
    ensures Scale(v, n) == v * Pow10(n)
  {
    if n > 0 {
      ScaleIsPow(v, n - 1);
      TimesTen(v, Pow10(n - 1));
    }
  }

  lemma TimesTen(v: int, p: int)
    ensures 10 * (v * p) == v * (10 * p)
  {
  }

  lemma {:induction false} ScaleAdds(v: int, m: nat, n: nat)
    ensures Scale(Scale(v, m), n) == Scale(v, m + n)
  {
    if n > 0 {
      ScaleAdds(v, m, n - 1);
    }
  }

  lemma {:induction false} ScaleSum(v: int, w: int, n: nat)
    ensures Scale(v + w, n) == Scale(v, n) + Scale(w, n)
  {
    if n > 0 {
      ScaleSum(v, w, n - 1);
    }
  }

  lemma {:induction false} ScaleNegative(v: int, n: nat)
    ensures Scale(-v, n) == -Scale(v, n)
  {
    if n > 0 {
      ScaleNegative(v, n - 1);
    }
  }

  /** Writing two digit strings side by side shifts the first by the length of the second. */
  lemma {:induction false} ValueOfConcat(a: string, b: string)
    requires IsDigits(a) && IsDigits(b)
    ensures IsDigits(a + b) && Value(a + b) == Scale(Value(a), |b|) + Value(b)
  {
    if b == [] {
      assert a + b == a;
    } else {
      var b' := b[..|b| - 1];
      assert (a + b)[..|a + b| - 1] == a + b';
      assert (a + b)[|a + b| - 1] == b[|b| - 1];
      ValueOfConcat(a, b');
    }
  }

  /** A single digit spells the number it stands for. */
  lemma DigitValues()
    ensures Value("0") == 0 && Value("1") == 1 && Value("2") == 2 && Value("3") == 3 && Value("4") == 4
    ensures Value("5") == 5 && Value("6") == 6 && Value("7") == 7 && Value("8") == 8 && Value("9") == 9
  {
  }

  function Zeros(n: nat): (s: string)
    ensures |s| == n && IsDigits(s)
  {
    seq(n, _ => '0')
  }

  lemma {:induction false} ValueOfZeros(n: nat)
    ensures Value(Zeros(n)) == 0
  {
    if n > 0 {
      assert Zeros(n)[..n - 1] == Zeros(n - 1);
      ValueOfZeros(n - 1);
    }
  }
}
