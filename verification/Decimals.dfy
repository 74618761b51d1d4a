/** How the program prints its numbers: timestamps as whole numbers, amounts as decimal fractions of a Lux. */
module Decimals {
  import opened Lux

  function Digit(d: nat): (c: char)
    requires d < 10
    ensures '0' <= c <= '9'
  {
    ('0' as int + d) as char
  }

  function DigitValue(c: char): int {
    c as int - '0' as int
  }

  predicate Digits(s: string) {
    forall i | 0 <= i < |s| :: '0' <= s[i] <= '9'
  }

  function Whole(n: nat): string {
    if n < 10 then [Digit(n)] else Whole(n / 10) + [Digit(n % 10)]
  }

  function WholeValue(s: string): int {
    if s == "" then 0 else 10 * WholeValue(s[..|s| - 1]) + DigitValue(s[|s| - 1])
  }

  lemma {:induction false} WholeReads(n: nat)
    ensures WholeValue(Whole(n)) == n && Digits(Whole(n)) && Whole(n) != ""
  {
    if n >= 10 {
      WholeReads(n / 10);
      assert Whole(n)[..|Whole(n)| - 1] == Whole(n / 10);
    } else {
      assert WholeValue("") == 0;
      assert Whole(n)[..0] == "";
    }
  }

  function Power(k: nat): nat {
    if k == 0 then 1 else 10 * Power(k - 1)
  }

  /** The last `k` digits of `f`. */
  function Padded(f: nat, k: nat): string {
    if k == 0 then "" else Padded(f / 10, k - 1) + [Digit(f % 10)]
  }

  lemma {:induction false} PaddedReads(f: nat, k: nat)
    requires f < Power(k)
    ensures WholeValue(Padded(f, k)) == f && Digits(Padded(f, k)) && |Padded(f, k)| == k
  {
    if k > 0 {
      PaddedReads(f / 10, k - 1);
      assert Padded(f, k)[..k - 1] == Padded(f / 10, k - 1);
    }
  }

  /** The digits of `f / 10^k` after the point, without trailing zeros. */
  function Fraction(f: nat, k: nat): string {
    if f == 0 || k == 0 then "" else if f % 10 == 0 then Fraction(f / 10, k - 1) else Padded(f, k)
  }

  /** The digits read as a number of 10^-k. */
  function FractionValue(s: string, k: nat): int {
    if |s| >= k then WholeValue(s) else 10 * FractionValue(s, k - 1)
  }

  lemma {:induction false} FractionReads(f: nat, k: nat)
    requires f < Power(k)
    ensures |Fraction(f, k)| <= k && Digits(Fraction(f, k)) && (Fraction(f, k) == "" <==> f == 0)
    ensures FractionValue(Fraction(f, k), k) == f
    decreases k
  {
    if f == 0 {
      NothingReads(k);
    } else if f % 10 == 0 {
      FractionReads(f / 10, k - 1);
    } else {
      PaddedReads(f, k);
    }
  }

  lemma {:induction false} NothingReads(k: nat)
    ensures FractionValue("", k) == 0
  {
    if k > 0 { NothingReads(k - 1); }
  }

  function Pointed(whole: string, fraction: string): string {
    whole + if fraction == "" then "" else "." + fraction
  }

  /** An amount in units, printed in Lux; below 10^-6 Lux the program switches to exponents. */
  function Amount(units: nat): string {
    if 0 < units < 10 then Pointed([Digit(units)], "") + "e-8"
    else if 0 < units < 100 then Pointed([Digit(units / 10)], Fraction(units % 10, 1)) + "e-7"
    else Pointed(Whole(units / UNITS_PER_LUX), Fraction(units % UNITS_PER_LUX, 8))
  }

  /** A text without exponent reads as whole part and digits after the point. */
  lemma {:induction false} PlainAmount(units: nat) returns (whole: string, fraction: string)
    requires units == 0 || units >= 100
    ensures Digits(whole) && Digits(fraction) && Amount(units) == Pointed(whole, fraction)
    ensures units == WholeValue(whole) * UNITS_PER_LUX + FractionValue(fraction, 8)
  {
    var f := units % UNITS_PER_LUX;
    whole, fraction := Whole(units / UNITS_PER_LUX), Fraction(f, 8);
    WholeReads(units / UNITS_PER_LUX);
    assert Power(1) == 10 && Power(2) == 100 && Power(3) == 1000 && Power(4) == 10_000;
    assert Power(5) == 100_000 && Power(6) == 1_000_000 && Power(7) == 10_000_000 && Power(8) == 100_000_000;
    FractionReads(f, 8);
  }

  /** A text with an exponent reads as one non-zero digit, at most one digit after the point, and 10^-8 or 10^-7 Lux. */
  lemma {:induction false} ShortAmount(units: nat) returns (d: nat, fraction: string)
    requires 0 < units < 100
    ensures 0 < d < 10 && Digits(fraction)
    ensures Amount(units) == Pointed([Digit(d)], fraction) + if units < 10 then "e-8" else "e-7"
    ensures units == if units < 10 then d else d * 10 + FractionValue(fraction, 1)
    ensures units < 10 ==> fraction == ""
  {
    if units < 10 {
      d, fraction := units, "";
    } else {
      d, fraction := units / 10, Fraction(units % 10, 1);
      assert Power(1) == 10 * Power(0) == 10;
      FractionReads(units % 10, 1);
    }
  }

  /** No colon in a printed amount; an `e` iff it is printed with an exponent. */
  lemma {:induction false} AmountLetters(units: nat)
    ensures ':' !in Amount(units)
    ensures 'e' in Amount(units) <==> 0 < units < 100
  {
    if units == 0 || units >= 100 {
      var whole, fraction := PlainAmount(units);
    } else {
      var d, fraction := ShortAmount(units);
      var t := Amount(units);
      assert t[|t| - 3] == 'e';
    }
  }

  lemma {:induction false} PointSplits(a: string, x: string, b: string, y: string)
    requires Digits(a) && Digits(b) && Digits(x) && Digits(y) && Pointed(a, x) == Pointed(b, y)
    ensures a == b && x == y
  {
    var s, t := Pointed(a, x), Pointed(b, y);
    assert x != "" ==> s[|a|] == '.';
    assert y != "" ==> t[|b|] == '.';
    assert forall i | 0 <= i < |a| :: s[i] == a[i] != '.';
    assert forall i | 0 <= i < |b| :: t[i] == b[i] != '.';
    assert |a| == |b|;
    assert a == s[..|a|] && b == t[..|b|];
    assert x != "" ==> x == s[|a| + 1..];
    assert y != "" ==> y == t[|b| + 1..];
  }

  lemma {:induction false} SuffixSplits(a: string, b: string, x: string, y: string)
    requires |x| == |y| && a + x == b + y
    ensures a == b && x == y
  {
    assert a == (a + x)[..|a|] && b == (b + y)[..|b|];
    assert x == (a + x)[|a|..] && y == (b + y)[|b|..];
  }

  /** Different amounts are printed differently. */
  lemma {:induction false} AmountInjective(u: nat, v: nat)
    requires Amount(u) == Amount(v)
    ensures u == v
  {
    AmountLetters(u);
    AmountLetters(v);
    if u == 0 || u >= 100 {
      var a, x := PlainAmount(u);
      var b, y := PlainAmount(v);
      PointSplits(a, x, b, y);
    } else {
      ShortInjective(u, v);
    }
  }

  lemma {:induction false} ShortInjective(u: nat, v: nat)
    requires 0 < u < 100 && 0 < v < 100 && Amount(u) == Amount(v)
    ensures u == v
  {
    var d, x := ShortAmount(u);
    var e, y := ShortAmount(v);
    var s, t := if u < 10 then "e-8" else "e-7", if v < 10 then "e-8" else "e-7";
    SuffixSplits(Pointed([Digit(d)], x), Pointed([Digit(e)], y), s, t);
    assert s[2] == t[2];
    PointSplits([Digit(d)], x, [Digit(e)], y);
    assert DigitValue([Digit(d)][0]) == d && DigitValue([Digit(e)][0]) == e;
  }

  lemma {:induction false} WholeInjective(m: nat, n: nat)
    ensures ':' !in Whole(n)
    ensures Whole(m) == Whole(n) ==> m == n
  {
    WholeReads(m);
    WholeReads(n);
  }
}
