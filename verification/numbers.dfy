/** JavaScript numbers as far as the forms use them: the result of `Number(text)` and the tests
    `Number.isFinite`, `Number.isNaN` and `<= 0` applied to it. */
module Numbers {
  import opened Wrappers
  import opened Text

  /** An IEEE double seen as a mathematical value: finite reals, NaN and the two infinities. */
  datatype JsNum = Finite(value: real) | NaN | Infinite(negative: bool)

  /** `Number.isFinite(n) && !(n <= 0)`, the distance test of both entry forms. */
  predicate IsPositiveFinite(n: JsNum) {
    n.Finite? && n.value > 0.0
  }

  predicate IsDigit(c: char) {
    '0' <= c <= '9'
  }

  predicate AllDigits(s: string) {
    forall i | 0 <= i < |s| :: IsDigit(s[i])
  }

  function DigitValue(c: char): (d: nat)
    requires IsDigit(c)
    ensures d < 10
  {
    c as int - '0' as int
  }

  function DigitChar(d: nat): (c: char)
    requires d < 10
    ensures IsDigit(c) && DigitValue(c) == d
  {
    ('0' as int + d) as char
  }

  /** The value of a string of decimal digits, most significant first. */
  function DigitsValue(s: string): nat
    requires AllDigits(s)
  {
    if s == [] then 0 else 10 * DigitsValue(s[..|s| - 1]) + DigitValue(s[|s| - 1])
  }

  function Pow10(k: nat): (p: nat)
    ensures p >= 1
  {
    if k == 0 then 1 else 10 * Pow10(k - 1)
  }

  /** The shortest decimal numeral of `n`, as `String(n)` writes a non-negative integer below
      10^21. */
  function NatToDecimal(n: nat): (s: string)
    ensures |s| >= 1 && AllDigits(s)
  {
    if n < 10 then [DigitChar(n)] else NatToDecimal(n / 10) + [DigitChar(n % 10)]
  }

  /** Reading back a written numeral gives the number. */
  lemma {:induction false} DigitsValueOfNatToDecimal(n: nat)
    ensures DigitsValue(NatToDecimal(n)) == n
  {
    var s := NatToDecimal(n);
    if n >= 10 {
      DigitsValueOfNatToDecimal(n / 10);
      assert s[..|s| - 1] == NatToDecimal(n / 10);
    }
  }

  /** An unsigned decimal literal without exponent: digits, optionally a point and more digits,
      with at least one digit in all. */
  function ParseUnsignedDecimal(s: string): Option<real>
  {
    var parts := Split(s, '.');
    if |parts| == 1 then
      if s != [] && AllDigits(s) then Some(DigitsValue(s) as real) else None
    else if |parts| == 2 then
      var whole, fraction := parts[0], parts[1];
      if AllDigits(whole) && AllDigits(fraction) && |whole| + |fraction| > 0 then
        Some(DigitsValue(whole) as real + (DigitsValue(fraction) as real) / (Pow10(|fraction|) as real))
      else None
    else None
  }

  /** `Number(s)`: surrounding whitespace is ignored, an empty or all-whitespace string is 0,
      an optional sign is followed by `Infinity` or an unsigned decimal literal, and anything
      else is NaN. */
  function ParseNumber(s: string): JsNum
  {
    var t := Trim(s);
    if t == [] then Finite(0.0)
    else
      var negative := t[0] == '-';
      var body := if t[0] == '-' || t[0] == '+' then t[1..] else t;
      if body == "Infinity" then Infinite(negative)
      else
        match ParseUnsignedDecimal(body)
        case None => NaN
        case Some(v) => Finite(if negative then -v else v)
  }

  /** An empty or all-whitespace field reads as 0, which the forms then reject as not positive. */
  lemma BlankIsZero(s: string)
    requires AllWhitespace(s)
    ensures ParseNumber(s) == Finite(0.0)
    ensures !IsPositiveFinite(ParseNumber(s))
  {
  }

  /** In exact arithmetic the numeral of a whole number reads back as that number; with
      JavaScript doubles this holds only up to 2^53. */
  lemma NumberOfNumeral(n: nat)
    ensures ParseNumber(NatToDecimal(n)) == Finite(n as real)
  {
    var s := NatToDecimal(n);
    assert forall i | 0 <= i < |s| :: !IsWhitespace(s[i]);
    assert TrimStart(s) == s;
    assert TrimEnd(s) == s;
    assert s[0] != '-' && s[0] != '+';
    assert s != "Infinity" by {
      assert !IsDigit('I');
    }
    assert '.' !in s;
    SplitWithoutSeparator(s, '.');
    DigitsValueOfNatToDecimal(n);
  }
}
