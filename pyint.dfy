/**
 * Python's built-in `int(s)` on a string, base 10, and its inverse `str(n)`.
 *
 * The parser accepts an optional `+` or `-` followed by one or more ASCII
 * decimal digits; leading zeros are allowed, as in Python (`int("007") == 7`).
 * Python's `int` additionally strips surrounding whitespace (`int(" 7 ")`),
 * accepts single underscores between digits (`int("1_000")`) and accepts
 * non-ASCII Unicode decimal digits, and CPython 3.11 and later raise
 * `ValueError` on a numeral longer than `sys.get_int_max_str_digits()`
 * (4300 digits by default). None of those are modelled: on such
 * strings `ParseInt` answers `None` where Python would return a number, or
 * a number where Python would raise.
 * `None` stands for Python raising `ValueError`.
 */
module PyInt {
  import opened Wrappers

  predicate IsDigit(c: char) {
    '0' <= c <= '9'
  }

  function DigitValue(c: char): (d: nat)
    requires IsDigit(c)
    ensures d < 10
  {
    c as int - '0' as int
  }

  function DigitChar(d: nat): (c: char)
    requires d < 10
    ensures IsDigit(c) && DigitValue(c) == d
  {
    ('0' as int + d) as char
  }

  predicate AllDigits(s: string) {
    forall i :: 0 <= i < |s| ==> IsDigit(s[i])
  }

  /** The value of a run of decimal digits, most significant digit first. */
  function DigitsValue(s: string): nat
    requires AllDigits(s)
    decreases |s|
  {
    if s == [] then 0 else 10 * DigitsValue(s[..|s| - 1]) + DigitValue(s[|s| - 1])
  }

  /** Python's `str(n)` for a non-negative integer: the shortest decimal
      numeral (without the digit limit of CPython 3.11 and later). */
  function FormatNat(n: nat): (s: string)
    ensures |s| > 0 && AllDigits(s)
    ensures s[0] == '0' ==> n == 0
    decreases n
  {
    if n < 10 then [DigitChar(n)] else FormatNat(n / 10) + [DigitChar(n % 10)]
  }

  /** Python's `str(n)` for an integer (without the digit limit). */
  function FormatInt(n: int): (s: string)
    ensures |s| > 0
    ensures s[0] == '-' <==> n < 0
  {
    if n < 0 then "-" + FormatNat(-n) else FormatNat(n)
  }

  /** The numeral without its sign character, if it has one. */
  function Unsigned(s: string): (u: string)
    ensures |u| <= |s|
  {
    if |s| > 0 && (s[0] == '+' || s[0] == '-') then s[1..] else s
  }

  /** The strings `ParseInt` accepts: a sign at most, then at least one digit. */
  predicate IsDecimalLiteral(s: string) {
    |Unsigned(s)| > 0 && AllDigits(Unsigned(s))
  }

  /** `int(s)`: `Some` of the denoted integer, or `None` where Python raises `ValueError`. */
  function ParseInt(s: string): (r: Option<int>)
    ensures r.Some? <==> IsDecimalLiteral(s)
    ensures r.Some? ==> (r.value < 0 ==> s[0] == '-')
    ensures r.Some? && s[0] == '-' ==> r.value <= 0
  {
    var u := Unsigned(s);
    if |u| == 0 || !AllDigits(u) then None
    else
      var magnitude: int := DigitsValue(u);
      if s[0] == '-' then Some(-magnitude) else Some(magnitude)
  }

  /** Reading back the numeral `str` writes gives the number again. */
  lemma {:induction false} DigitsValueOfFormat(n: nat)
    ensures DigitsValue(FormatNat(n)) == n
    decreases n
  {
    if n >= 10 {
      var s := FormatNat(n / 10);
      var t := s + [DigitChar(n % 10)];
      assert t[..|t| - 1] == s;
      DigitsValueOfFormat(n / 10);
    }
  }

  /** `int(str(n)) == n` for every integer `n`. */
  lemma ParseFormat(n: int)
    ensures ParseInt(FormatInt(n)) == Some(n)
  {
    if n < 0 {
      var f := FormatNat(-n);
      assert Unsigned("-" + f) == f;
      DigitsValueOfFormat(-n);
    } else {
      var f := FormatNat(n);
      assert Unsigned(f) == f;
      DigitsValueOfFormat(n);
    }
  }

  /** A `+` sign leaves the value of a digit string unchanged and a `-`
      sign negates it: `int("+443") == 443`, `int("-007") == -7`. */
  lemma ParseSigned(s: string)
    requires |s| > 0 && AllDigits(s)
    ensures ParseInt("+" + s) == ParseInt(s)
    ensures ParseInt("-" + s) == Some(-ParseInt(s).value)
  {
    assert Unsigned("+" + s) == s;
    assert Unsigned("-" + s) == s;
    assert Unsigned(s) == s;
  }

  /** A leading zero does not change the value of a run of digits. */
  lemma {:induction false} DigitsValueLeadingZero(s: string)
    requires AllDigits(s)
    ensures AllDigits("0" + s) && DigitsValue("0" + s) == DigitsValue(s)
    decreases |s|
  {
    if s != [] {
      var z := "0" + s;
      assert z[..|z| - 1] == "0" + s[..|s| - 1];
      assert z[|z| - 1] == s[|s| - 1];
      DigitsValueLeadingZero(s[..|s| - 1]);
    }
  }

  /** `int` accepts zero-padded numerals: `int("0" + d) == int(d)` for unsigned `d`. */
  lemma ParseLeadingZero(s: string)
    requires |s| > 0 && AllDigits(s)
    ensures ParseInt("0" + s) == ParseInt(s)
  {
    DigitsValueLeadingZero(s);
    assert Unsigned("0" + s) == "0" + s;
    assert Unsigned(s) == s;
  }
}
