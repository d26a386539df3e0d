/**
 * Python's `str(n)` and `int(s)` for base-10 integers, as the upload names
 * in the web API write and read them.
 */
module PyInt {
  import opened Wrappers
  import PyStr

  predicate IsDigit(c: char) {
    '0' <= c <= '9'
  }

  predicate AllDigits(s: string) {
    forall i :: 0 <= i < |s| ==> IsDigit(s[i])
  }

  function DigitChar(d: nat): (c: char)
    requires d < 10
    ensures IsDigit(c)
  {
    (48 + d) as char
  }

  function DigitValue(c: char): (d: nat)
    requires IsDigit(c)
    ensures d < 10 && DigitChar(d) == c
  {
    c as int - 48
  }

  /** `str(n)` for a natural number: its decimal digits, no leading zeros. */
  function NatToString(n: nat): (r: string)
    ensures |r| >= 1 && AllDigits(r)
    ensures |r| > 1 ==> r[0] != '0'
  {
    if n < 10 then [DigitChar(n)] else NatToString(n / 10) + [DigitChar(n % 10)]
  }

  /** `str(n)` for any integer: a minus sign in front of a negative one. */
  function IntToString(n: int): (r: string)
    ensures |r| >= 1 && ' ' !in r
  {
    if n < 0 then "-" + NatToString(-n) else NatToString(n)
  }

  /** The number a run of decimal digits denotes (leading zeros allowed). */
  function DigitsValue(s: string): nat
    requires AllDigits(s)
  {
    if |s| == 0 then 0 else DigitsValue(s[..|s| - 1]) * 10 + DigitValue(s[|s| - 1])
  }

  /** `int(t)` in base 10 once surrounding whitespace is gone: an optional
      sign, then one or more ASCII digits; anything else is a `ValueError`,
      here `None`. */
  function ParseSigned(t: string): (r: Option<int>)
    ensures r.Some? ==> |t| >= 1 && AllDigits(t[1..])
  {
    if |t| == 0 then None
    else
      var body := if t[0] == '-' || t[0] == '+' then t[1..] else t;
      if |body| == 0 || !AllDigits(body) then None
      else
        var v: int := DigitsValue(body);
        if t[0] == '-' then Some(-v) else Some(v)
  }

  /** `int(s)` in base 10: surrounding whitespace is ignored. */
  function ParseInt(s: string): Option<int> {
    ParseSigned(PyStr.Strip(s))
  }

  lemma {:induction false} DigitsOfNat(n: nat)
    ensures DigitsValue(NatToString(n)) == n
  {
    if n >= 10 {
      var r := NatToString(n);
      assert r[..|r| - 1] == NatToString(n / 10);
      DigitsOfNat(n / 10);
    }
  }

  /** A run of digits needs no stripping. */
  lemma DigitsUnstripped(digits: string)
    requires |digits| >= 1 && AllDigits(digits)
    ensures PyStr.Strip(digits) == digits
  {
    assert IsDigit(digits[0]) && IsDigit(digits[|digits| - 1]);
    PyStr.StripStripped(digits);
  }

  /** Unsigned digits are read as a non-negative number. */
  lemma ParseUnsigned(digits: string)
    requires |digits| >= 1 && AllDigits(digits)
    ensures ParseSigned(digits) == Some(DigitsValue(digits) as int)
  {
    assert IsDigit(digits[0]);
  }

  /** `int` reads back a run of digits. */
  lemma ParseDigits(digits: string)
    requires |digits| >= 1 && AllDigits(digits)
    ensures ParseInt(digits) == Some(DigitsValue(digits) as int)
  {
    DigitsUnstripped(digits);
    ParseUnsigned(digits);
  }

  /** `int` reads back a minus sign followed by digits as a negative number. */
  lemma ParseNegativeDigits(s: string)
    requires |s| >= 2 && s[0] == '-' && AllDigits(s[1..])
    ensures ParseInt(s) == Some(-(DigitsValue(s[1..]) as int))
  {
    assert IsDigit(s[1..][|s| - 2]);
    assert PyStr.IsStripped(s);
    PyStr.StripStripped(s);
  }

  /** `int(str(n)) == n` for every integer `n`. */
  lemma ParseIntRoundTrip(n: int)
    ensures ParseInt(IntToString(n)) == Some(n)
  {
    if n < 0 {
      var s := IntToString(n);
      assert s[1..] == NatToString(-n);
      DigitsOfNat(-n);
      assert DigitsValue(s[1..]) == -n;
      ParseNegativeDigits(s);
    } else {
      ParseDigits(NatToString(n));
      DigitsOfNat(n);
    }
  }
}
