/**
 Decimal notation of integers, as a JavaScript template literal writes an
 integral number (`${n}`) whose magnitude is below 2^53, and the value a
 string of decimal digits denotes.
 */
module Decimal {
  import opened Chars

  function DigitChar(d: nat): (c: char)
    requires d < 10
    ensures IsDigit(c)
  {
    (48 + d) as char
  }

  function DigitValue(c: char): (d: nat)
    requires IsDigit(c)
    ensures d < 10 && DigitChar(d) == c
  {
    (c as int) - 48
  }

  function Pow10(k: nat): (p: nat)
    ensures p >= 1
  {
    if k == 0 then 1 else 10 * Pow10(k - 1)
  }

  /** The natural number a non-empty string of digits denotes, most
      significant digit first. */
  function Value(s: string): nat
    requires AllDigits(s)
  {
    if s == [] then 0 else 10 * Value(s[..|s| - 1]) + DigitValue(s[|s| - 1])
  }

  /** Decimal notation of `n`: at least one digit, and no leading zero
      unless `n` is zero itself. */
  function NatToDecimal(n: nat): (r: string)
    ensures |r| >= 1 && AllDigits(r)
    ensures r[0] == '0' <==> n == 0
    ensures n < 10 <==> |r| == 1
  {
    if n < 10 then [DigitChar(n)]
    else NatToDecimal(n / 10) + [DigitChar(n % 10)]
  }

  /** `${n}` for an integral number: a minus sign before the notation of
      the magnitude when negative. */
  function IntToDecimal(n: int): (r: string)
    ensures |r| >= 1 && (r[0] == '-' <==> n < 0)
    ensures n >= 0 ==> AllDigits(r) && Value(r) == n
    ensures n >= 0 ==> |r| == 1 || r[0] != '0'
    ensures n < 0 ==> r[1..] == NatToDecimal(-n) && AllDigits(r[1..]) && Value(r[1..]) == -n
  {
    if n < 0 then
      NatToDecimalRoundTrip(-n);
      assert ("-" + NatToDecimal(-n))[1..] == NatToDecimal(-n);
      "-" + NatToDecimal(-n)
    else
      NatToDecimalRoundTrip(n);
      NatToDecimal(n)
  }

  /** Reading back the notation gives the number. */
  lemma {:induction false} NatToDecimalRoundTrip(n: nat)
    ensures Value(NatToDecimal(n)) == n
  {
    var r := NatToDecimal(n);
    if n < 10 {
      assert r[..0] == [];
    } else {
      NatToDecimalRoundTrip(n / 10);
      assert r[..|r| - 1] == NatToDecimal(n / 10);
    }
  }

  /** A string of `k` digits denotes a number below 10^k, and at least
      10^(k-1) when its first digit is not zero. */
  lemma {:induction false} ValueBounds(s: string)
    requires AllDigits(s)
    ensures Value(s) < Pow10(|s|)
    ensures |s| > 0 && s[0] != '0' ==> Pow10(|s| - 1) <= Value(s)
  {
    if s != [] {
      var init := s[..|s| - 1];
      ValueBounds(init);
      if |init| > 0 {
        assert init[0] == s[0];
      }
    }
  }

  /** Pow10 is increasing. */
  lemma {:induction false} Pow10Monotone(i: nat, j: nat)
    requires i <= j
    ensures Pow10(i) <= Pow10(j)
  {
    if i < j {
      Pow10Monotone(i, j - 1);
    }
  }

  /** The notation of a number with no leading zero is the string itself. */
  lemma {:induction false} DecimalOfValue(d: string)
    requires |d| > 0 && AllDigits(d) && (d[0] != '0' || |d| == 1)
    ensures NatToDecimal(Value(d)) == d
  {
    var init := d[..|d| - 1];
    if |d| == 1 {
      assert d == [d[0]];
    } else {
      assert init[0] == d[0];
      assert AllDigits(init);
      ValueBounds(init);
      Pow10Monotone(0, |init| - 1);
      var last := DigitValue(d[|d| - 1]);
      var v := Value(d);
      assert v == 10 * Value(init) + last;
      assert v >= 10 && v / 10 == Value(init) && v % 10 == last;
      assert NatToDecimal(v) == NatToDecimal(Value(init)) + [DigitChar(last)];
      DecimalOfValue(init);
      assert d == init + [d[|d| - 1]];
    }
  }

  /** The notation of `n` has `k` digits exactly when 10^(k-1) <= n < 10^k. */
  lemma DecimalLength(n: nat)
    ensures var r := NatToDecimal(n); n < Pow10(|r|) && (n >= 10 ==> Pow10(|r| - 1) <= n)
  {
    NatToDecimalRoundTrip(n);
    ValueBounds(NatToDecimal(n));
  }
}
