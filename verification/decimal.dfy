/**
 Decimal text of numbers, as the generator's CSV output shows them.

 Integers are written the way Python's `str(int)` writes them (no leading
 zeros, a leading `-` for negatives). Precipitation and temperatures are
 values rounded to one decimal place; the model keeps them as whole numbers
 of TENTHS and writes them the way `str(round(x, 1))` writes such a float
 (`25.3`, `-40.0`, `0.5`), except that a temperature that rounds to negative
 zero, which Python writes `-0.0`, is written `0.0` here. Every writer has a
 parser that inverts it.
 */
module Decimal {
  import opened Options

  predicate IsDigit(c: char) {
    '0' <= c <= '9'
  }

  predicate IsDigits(s: string) {
    forall i :: 0 <= i < |s| ==> IsDigit(s[i])
  }

  function DigitChar(d: nat): (c: char)
    requires d < 10
    ensures IsDigit(c)
  {
    (48 + d) as char
  }

  function DigitValue(c: char): (d: nat)
    requires IsDigit(c)
    ensures d < 10
  {
    (c as int) - 48
  }

  function Pow10(k: nat): (p: nat)
    ensures p >= 1
  {
    if k == 0 then 1 else 10 * Pow10(k - 1)
  }

  lemma {:induction false} Pow10Monotone(j: nat, k: nat)
    requires j <= k
    ensures Pow10(j) <= Pow10(k)
    decreases k
  {
    if j < k {
      Pow10Monotone(j, k - 1);
    }
  }

  lemma Pow10Order(j: nat, k: nat)
    ensures j <= k <==> Pow10(j) <= Pow10(k)
  {
    if j <= k {
      Pow10Monotone(j, k);
    } else {
      Pow10Monotone(k + 1, j);
    }
  }

  /** A digit string in the form `str` writes it: not empty, no leading zero except `0` itself. */
  predicate Canonical(s: string) {
    1 <= |s| && IsDigits(s) && (s[0] == '0' ==> |s| == 1)
  }

  /** `str(n)` for a natural number. */
  function NatToDecimal(n: nat): (s: string)
    ensures Canonical(s)
    decreases n
  {
    if n < 10 then [DigitChar(n)] else NatToDecimal(n / 10) + [DigitChar(n % 10)]
  }

  /** The value of a digit string, most significant digit first. */
  function DigitsValue(s: string): nat
    requires IsDigits(s)
    decreases |s|
  {
    if |s| == 0 then 0 else 10 * DigitsValue(s[..|s| - 1]) + DigitValue(s[|s| - 1])
  }

  /** Reads a non-empty string of decimal digits. */
  function ParseNat(s: string): (r: Option<nat>)
    ensures r.Some? <==> 1 <= |s| && IsDigits(s)
  {
    if 1 <= |s| && IsDigits(s) then Some(DigitsValue(s)) else None
  }

  lemma {:induction false} DigitsValueOfDecimal(n: nat)
    ensures DigitsValue(NatToDecimal(n)) == n
    decreases n
  {
    var s := NatToDecimal(n);
    if n < 10 {
      assert s[..|s| - 1] == [];
    } else {
      DigitsValueOfDecimal(n / 10);
      assert s[..|s| - 1] == NatToDecimal(n / 10);
    }
  }

  /** Reading back what `NatToDecimal` wrote gives the number again. */
  lemma NatRoundTrip(n: nat)
    ensures ParseNat(NatToDecimal(n)) == Some(n)
  {
    DigitsValueOfDecimal(n);
  }

  lemma {:induction false} ZeroValueAllZeros(s: string)
    requires IsDigits(s) && DigitsValue(s) == 0
    ensures forall i :: 0 <= i < |s| ==> s[i] == '0'
    decreases |s|
  {
    if 0 < |s| {
      ZeroValueAllZeros(s[..|s| - 1]);
      assert forall i :: 0 <= i < |s| - 1 ==> s[i] == s[..|s| - 1][i];
    }
  }

  /** `str` is the only canonical writer: a canonical digit string is `str` of its value. */
  lemma {:induction false} CanonicalIsDecimal(s: string)
    requires Canonical(s)
    ensures s == NatToDecimal(DigitsValue(s))
    decreases |s|
  {
    var n := DigitsValue(s);
    if |s| == 1 {
      assert s == [DigitChar(DigitValue(s[0]))];
    } else {
      var init := s[..|s| - 1];
      assert init[0] == s[0];
      CanonicalIsDecimal(init);
      if DigitsValue(init) == 0 {
        ZeroValueAllZeros(init);
        assert false;
      }
      assert n / 10 == DigitsValue(init) && n % 10 == DigitValue(s[|s| - 1]);
      assert s == init + [DigitChar(n % 10)];
    }
  }

  /** The number of digits `str(n)` prints is fixed by the decade `n` lies in. */
  lemma {:induction false} DecimalLengthBounds(n: nat)
    ensures n < Pow10(|NatToDecimal(n)|)
    ensures 1 < |NatToDecimal(n)| ==> Pow10(|NatToDecimal(n)| - 1) <= n
    decreases n
  {
    if 10 <= n {
      DecimalLengthBounds(n / 10);
      assert |NatToDecimal(n)| == |NatToDecimal(n / 10)| + 1;
    }
  }

  lemma Pow10TenDigits()
    ensures Pow10(9) == 1000000000 && Pow10(10) == 10000000000
  {
    assert Pow10(1) == 10;
    assert Pow10(2) == 100;
    assert Pow10(3) == 1000;
    assert Pow10(4) == 10000;
    assert Pow10(5) == 100000;
    assert Pow10(6) == 1000000;
    assert Pow10(7) == 10000000;
    assert Pow10(8) == 100000000;
  }

  /** Every integer of [1000000000, 9999999999] prints as exactly ten digits. */
  lemma TenDigits(n: nat)
    requires 1000000000 <= n <= 9999999999
    ensures |NatToDecimal(n)| == 10
  {
    var len := |NatToDecimal(n)|;
    DecimalLengthBounds(n);
    Pow10TenDigits();
    Pow10Order(len, 9);
    Pow10Order(10, len - 1);
  }

  /** `str(i)` for any integer. */
  function IntToDecimal(i: int): (s: string)
    ensures 1 <= |s| && (s[0] == '-' <==> i < 0)
    ensures i >= 0 ==> Canonical(s)
  {
    if i < 0 then "-" + NatToDecimal(-i) else NatToDecimal(i)
  }

  /** Reads an optional `-` followed by decimal digits. */
  function ParseInt(s: string): Option<int> {
    if 1 <= |s| && s[0] == '-' then
      match ParseNat(s[1..])
      case Some(n) => Some(0 - n as int)
      case None => None
    else
      match ParseNat(s)
      case Some(n) => Some(n)
      case None => None
  }

  lemma IntRoundTrip(i: int)
    ensures ParseInt(IntToDecimal(i)) == Some(i)
  {
    var s := IntToDecimal(i);
    if i < 0 {
      NatRoundTrip(-i);
      assert s[0] == '-' && s[1..] == NatToDecimal(-i);
    } else {
      NatRoundTrip(i);
      assert IsDigit(s[0]);
    }
  }

  /** `str(round(x, 1))` for the float `x == t / 10` (no negative zero: `t == 0` is `0.0`). */
  function FormatTenths(t: int): (s: string)
    ensures 3 <= |s| && s[|s| - 2] == '.'
    ensures s[0] == '-' <==> t < 0
  {
    var m := if t < 0 then -t else t;
    (if t < 0 then "-" else "") + NatToDecimal(m / 10) + "." + [DigitChar(m % 10)]
  }

  /** Reads an optional `-`, decimal digits, a point and exactly one digit, as tenths. */
  function ParseTenths(s: string): (r: Option<int>)
    ensures r.Some? ==> 3 <= |s| && s[|s| - 2] == '.'
  {
    var negative := 1 <= |s| && s[0] == '-';
    var body := if negative then s[1..] else s;
    if 3 <= |body| && body[|body| - 2] == '.' && IsDigit(body[|body| - 1]) then
      match ParseNat(body[..|body| - 2])
      case Some(whole) =>
        var m := 10 * whole + DigitValue(body[|body| - 1]);
        Some(if negative then -m else m)
      case None => None
    else
      None
  }

  lemma TenthsRoundTrip(t: int)
    ensures ParseTenths(FormatTenths(t)) == Some(t)
  {
    var m := if t < 0 then -t else t;
    var body := NatToDecimal(m / 10) + "." + [DigitChar(m % 10)];
    NatRoundTrip(m / 10);
    assert body[..|body| - 2] == NatToDecimal(m / 10);
    if t < 0 {
      assert FormatTenths(t)[1..] == body;
    } else {
      assert FormatTenths(t) == body;
    }
  }

  /** A few values as Python prints them: no trailing zeros dropped, no leading zero missing. */
  lemma FormatTenthsExamples()
    ensures FormatTenths(253) == "25.3"
    ensures FormatTenths(5) == "0.5"
    ensures FormatTenths(-400) == "-40.0"
    ensures FormatTenths(1000) == "100.0"
  {
    assert NatToDecimal(25) == "25";
    assert NatToDecimal(40) == "40";
    assert NatToDecimal(100) == "100";
  }

  /**
   The texts `FormatTenths` writes: an optional `-`, a canonical whole part, a
   point and one digit, and never `-0.0`. Python's `str` writes this same form
   for every one-decimal float below 1e16 in magnitude except negative zero,
   which it writes `-0.0`.
   */
  predicate IsTenthsText(s: string) {
    var negative := 1 <= |s| && s[0] == '-';
    var body := if negative then s[1..] else s;
    && 3 <= |body| && body[|body| - 2] == '.' && IsDigit(body[|body| - 1])
    && Canonical(body[..|body| - 2])
    && (negative ==> body[..|body| - 2] != "0" || body[|body| - 1] != '0')
  }

  /** Every value is written in that form. */
  lemma FormatTenthsIsTenthsText(t: int)
    ensures IsTenthsText(FormatTenths(t))
  {
    var m := if t < 0 then -t else t;
    var body := NatToDecimal(m / 10) + "." + [DigitChar(m % 10)];
    assert body[..|body| - 2] == NatToDecimal(m / 10);
    if t < 0 {
      assert FormatTenths(t)[0] == '-' && FormatTenths(t)[1..] == body;
      if NatToDecimal(m / 10) == "0" {
        CanonicalIsDecimal("0");
        assert DigitsValue("0") == 0;
      }
    } else {
      assert FormatTenths(t) == body;
      assert IsDigit(body[0]);
    }
  }

  /**
   And every text of that form is what `FormatTenths` writes for the value it
   reads as: a writer that padded or dropped digits would differ from it.
   */
  lemma TenthsTextIsFormat(s: string)
    requires IsTenthsText(s)
    ensures ParseTenths(s).Some?
    ensures s == FormatTenths(ParseTenths(s).value)
  {
    var negative := 1 <= |s| && s[0] == '-';
    var body := if negative then s[1..] else s;
    var whole := body[..|body| - 2];
    var m: nat := 10 * DigitsValue(whole) + DigitValue(body[|body| - 1]);
    var t: int := if negative then -(m as int) else m;
    assert ParseTenths(s) == Some(t) by {
      assert ParseNat(whole) == Some(DigitsValue(whole));
    }
    UnsignedTenthsIsFormat(body, m);
    assert negative ==> m != 0;
    SignedTenths(m, negative);
    assert FormatTenths(t) == (if negative then "-" else "") + body;
    assert s == (if negative then "-" else "") + body;
  }

  lemma SignedTenths(m: nat, negative: bool)
    requires negative ==> m != 0
    ensures FormatTenths(if negative then -(m as int) else m)
         == (if negative then "-" else "") + NatToDecimal(m / 10) + "." + [DigitChar(m % 10)]
  {
  }

  lemma UnsignedTenthsIsFormat(body: string, m: nat)
    requires 3 <= |body| && body[|body| - 2] == '.' && IsDigit(body[|body| - 1])
    requires Canonical(body[..|body| - 2])
    requires m == 10 * DigitsValue(body[..|body| - 2]) + DigitValue(body[|body| - 1])
    ensures m == 0 <==> body[..|body| - 2] == "0" && body[|body| - 1] == '0'
    ensures body == NatToDecimal(m / 10) + "." + [DigitChar(m % 10)]
  {
    var whole := body[..|body| - 2];
    var w := DigitsValue(whole);
    var d := DigitValue(body[|body| - 1]);
    CanonicalIsDecimal(whole);
    assert body == whole + "." + [DigitChar(d)];
    assert (10 * w + d) / 10 == w && (10 * w + d) % 10 == d;
    if w == 0 {
      assert whole == "0";
    }
  }

  /** `n` written with leading zeros up to `width` digits (`%m`, `%d`, `%Y` of strftime). */
  function ZeroPad(n: nat, width: nat): (s: string)
    ensures IsDigits(s)
  {
    var digits := NatToDecimal(n);
    if |digits| < width then seq(width - |digits|, _ => '0') + digits else digits
  }

  lemma {:induction false} LeadingZerosValue(k: nat, s: string)
    requires IsDigits(s)
    ensures IsDigits(seq(k, _ => '0') + s)
    ensures DigitsValue(seq(k, _ => '0') + s) == DigitsValue(s)
    decreases |s|
  {
    var z: string := seq(k, _ => '0');
    if |s| == 0 {
      assert z + s == z;
      ZerosValue(k);
    } else {
      var init := s[..|s| - 1];
      LeadingZerosValue(k, init);
      assert (z + s)[..|z + s| - 1] == z + init;
    }
  }

  lemma {:induction false} ZerosValue(k: nat)
    ensures IsDigits(seq(k, _ => '0'))
    ensures DigitsValue(seq(k, _ => '0')) == 0
    decreases k
  {
    if 0 < k {
      ZerosValue(k - 1);
      var z: string := seq(k, _ => '0');
      assert z[..k - 1] == seq(k - 1, _ => '0');
    }
  }

  /** A zero-padded number has exactly `width` digits when it fits, and reads back as itself. */
  lemma ZeroPadRoundTrip(n: nat, width: nat)
    requires 1 <= width && n < Pow10(width)
    ensures |ZeroPad(n, width)| == width
    ensures ParseNat(ZeroPad(n, width)) == Some(n)
  {
    var digits := NatToDecimal(n);
    DecimalLengthBounds(n);
    if width < |digits| {
      Pow10Monotone(width, |digits| - 1);
    }
    DigitsValueOfDecimal(n);
    if |digits| < width {
      LeadingZerosValue(width - |digits|, digits);
    }
  }
}
