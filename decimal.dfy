/** Decimal text: Python's `str` of an integer, `int` of a string, and
    `str.isdigit` restricted to the ASCII digits '0'..'9'. */
module Decimal {

  datatype Option<T> = None | Some(value: T)

  predicate IsDigit(c: char) {
    '0' <= c <= '9'
  }

  /** Every character is a digit (`text.isdigit()` without the non-empty test). */
  predicate AllDigits(s: string) {
    forall i :: 0 <= i < |s| ==> IsDigit(s[i])
  }

  /** No character is a digit: a piece that `re.split(r'(\d+)', ...)` leaves as text. */
  predicate DigitFree(s: string) {
    forall i :: 0 <= i < |s| ==> !IsDigit(s[i])
  }

  /** Only zeros: leading zeros that `int(...)` ignores. */
  predicate AllZeros(s: string) {
    forall i :: 0 <= i < |s| ==> s[i] == '0'
  }

  function DigitValue(c: char): (d: nat)
    requires IsDigit(c)
    ensures d < 10
  {
    c as int - '0' as int
  }

  function DigitChar(d: nat): (c: char)
    requires d < 10
    ensures IsDigit(c) && DigitValue(c) == d
  {
    ('0' as int + d) as char
  }

  /** The value `int(s)` gives a string of digits, read most significant digit first. */
  function DigitsValue(s: string): nat
    requires AllDigits(s)
  {
    if s == [] then 0 else DigitsValue(s[..|s| - 1]) * 10 + DigitValue(s[|s| - 1])
  }

  /** `str(n)` for a non-negative integer: decimal digits with no leading zero. */
  function NatToString(n: nat): (s: string)
    ensures |s| > 0 && AllDigits(s)
    ensures s[0] == '0' ==> n == 0 && s == "0"
  {
    if n < 10 then [DigitChar(n)] else NatToString(n / 10) + [DigitChar(n % 10)]
  }

  /** `str(n)` for any integer. */
  function IntToString(n: int): (s: string)
    ensures |s| > 0
    ensures n >= 0 ==> s == NatToString(n)
    ensures n < 0 ==> s == "-" + NatToString(-n)
  {
    if n < 0 then "-" + NatToString(-n) else NatToString(n)
  }

  /** `str(n)` starts with a minus sign exactly for negative n, and is otherwise all digits. */
  lemma IntToStringSign(n: int)
    ensures IntToString(n)[0] == '-' <==> n < 0
    ensures n >= 0 ==> AllDigits(IntToString(n))
  {
    if n >= 0 {
      assert IsDigit(IntToString(n)[0]);
    }
  }

  /** Python's `int(s)` on a string: an optional sign followed by at least one
      digit; anything else raises ValueError, modelled as None. */
  function ParseInt(s: string): (r: Option<int>)
    ensures r.Some? <==>
      (|s| > 0 && AllDigits(s)) ||
      (|s| > 1 && (s[0] == '-' || s[0] == '+') && AllDigits(s[1..]))
  {
    if |s| > 0 && AllDigits(s) then Some(DigitsValue(s))
    else if |s| > 1 && s[0] == '-' && AllDigits(s[1..]) then Some(-(DigitsValue(s[1..]) as int))
    else if |s| > 1 && s[0] == '+' && AllDigits(s[1..]) then Some(DigitsValue(s[1..]))
    else None
  }

  lemma DigitsValueSnoc(s: string, c: char)
    requires AllDigits(s) && IsDigit(c)
    ensures AllDigits(s + [c])
    ensures DigitsValue(s + [c]) == DigitsValue(s) * 10 + DigitValue(c)
  {
    assert (s + [c])[..|s|] == s;
  }

  /** Reading back what `str` wrote gives the number: `int(str(n)) == n` on digits. */
  lemma {:induction false} NatToStringValue(n: nat)
    ensures DigitsValue(NatToString(n)) == n
  {
    if n >= 10 {
      NatToStringValue(n / 10);
      DigitsValueSnoc(NatToString(n / 10), DigitChar(n % 10));
    }
  }

  /** `str` is injective on non-negative integers. */
  lemma NatToStringInjective(m: nat, n: nat)
    ensures NatToString(m) == NatToString(n) <==> m == n
  {
    if NatToString(m) == NatToString(n) {
      NatToStringValue(m);
      NatToStringValue(n);
    }
  }

  /** `int(str(n)) == n` for every integer n. */
  lemma ParseIntToString(n: int)
    ensures ParseInt(IntToString(n)) == Some(n)
  {
    if n < 0 {
      var s := IntToString(n);
      assert s[1..] == NatToString(-n);
      assert !IsDigit(s[0]);
      NatToStringValue(-n);
    } else {
      NatToStringValue(n);
    }
  }

  /** One leading zero does not change the value `int` reads. */
  lemma {:induction false} LeadingZeroValue(d: string)
    requires AllDigits(d)
    ensures AllDigits("0" + d) && DigitsValue("0" + d) == DigitsValue(d)
  {
    if d != [] {
      var init := d[..|d| - 1];
      LeadingZeroValue(init);
      assert ("0" + d)[..|d|] == "0" + init;
    }
  }

  /** Any number of leading zeros does not change the value `int` reads. */
  lemma {:induction false} LeadingZerosValue(z: string, d: string)
    requires AllZeros(z) && AllDigits(d)
    ensures AllDigits(z + d) && DigitsValue(z + d) == DigitsValue(d)
  {
    if z != [] {
      LeadingZerosValue(z[1..], d);
      LeadingZeroValue(z[1..] + d);
      assert z + d == "0" + (z[1..] + d);
    } else {
      assert z + d == d;
    }
  }
}
