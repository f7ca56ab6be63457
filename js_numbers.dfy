/**
 * The JavaScript number operations the charts use -- `parseInt(s, 10)`,
 * `Math.round(a / b)` and `Math.max(...xs)` -- over unbounded integers.
 * A value is an integer, NaN or an infinity: the code only ever looks at
 * numbers after rounding them, so fractions do not arise.
 */
module JsNumbers {

  datatype Number = NaN | Infinity(negative: bool) | Int(value: int)

  /** The code points ECMAScript's TrimString removes: WhiteSpace and LineTerminator. */
  predicate IsWhiteSpace(c: char) {
    || c == '\t' || c == '\U{000B}' || c == '\U{000C}' || c == ' '
    || c == '\U{00A0}' || c == '\U{FEFF}' || c == '\U{1680}'
    || ('\U{2000}' <= c <= '\U{200A}')
    || c == '\U{202F}' || c == '\U{205F}' || c == '\U{3000}'
    || c == '\n' || c == '\r' || c == '\U{2028}' || c == '\U{2029}'
  }

  predicate IsDigit(c: char) {
    '0' <= c <= '9'
  }

  function DigitValue(c: char): nat
    requires IsDigit(c)
  {
    c as int - '0' as int
  }

  function TrimStart(s: string): (t: string)
    ensures |t| <= |s|
  {
    if s != [] && IsWhiteSpace(s[0]) then TrimStart(s[1..]) else s
  }

  lemma NothingToTrim(s: string)
    requires s != [] && (s[0] == '-' || IsDigit(s[0]))
    ensures TrimStart(s) == s
  {
  }

  /** The longest prefix of `s` made of decimal digits. */
  function DigitPrefix(s: string): (d: string)
    ensures forall i :: 0 <= i < |d| ==> IsDigit(d[i])
  {
    if s != [] && IsDigit(s[0]) then [s[0]] + DigitPrefix(s[1..]) else []
  }

  /** The value of a string of decimal digits, most significant first. */
  function DigitsValue(d: string): nat
    requires forall i :: 0 <= i < |d| ==> IsDigit(d[i])
  {
    if d == [] then 0 else 10 * DigitsValue(d[..|d| - 1]) + DigitValue(d[|d| - 1])
  }

  /**
   * `parseInt(s, 10)`: skip leading white space, take an optional sign, then
   * the longest run of decimal digits; NaN when that run is empty.
   * (`-0` is an integer zero here.)
   */
  function ParseInt(s: string): Number {
    var t := TrimStart(s);
    var negative := t != [] && t[0] == '-';
    var unsigned := if t != [] && (t[0] == '-' || t[0] == '+') then t[1..] else t;
    var digits := DigitPrefix(unsigned);
    if digits == [] then NaN
    else
      var v: int := DigitsValue(digits);
      Int(if negative then -v else v)
  }

  /** The shortest decimal digits of a natural number. */
  function Digits(n: nat): (d: string)
    ensures d != [] && forall i :: 0 <= i < |d| ==> IsDigit(d[i])
  {
    var last := ['0' + (n % 10) as char];
    if n < 10 then last else Digits(n / 10) + last
  }

  /** The decimal text of an integer, as `String(n)` writes it. */
  function Decimal(n: int): string {
    if n < 0 then "-" + Digits(-n) else Digits(n)
  }

  lemma {:induction false} DigitsValueOfDigits(n: nat)
    ensures DigitsValue(Digits(n)) == n
  {
    if n >= 10 {
      DigitsValueOfDigits(n / 10);
      var d := Digits(n);
      assert d[..|d| - 1] == Digits(n / 10);
    }
  }

  lemma {:induction false} DigitPrefixOfDigits(d: string, rest: string)
    requires forall i :: 0 <= i < |d| ==> IsDigit(d[i])
    requires rest == [] || !IsDigit(rest[0])
    ensures DigitPrefix(d + rest) == d
  {
    if d != [] {
      assert (d + rest)[1..] == d[1..] + rest;
      DigitPrefixOfDigits(d[1..], rest);
    }
  }

  /**
   * Parsing the decimal text of `n`, followed by anything that does not start
   * with a digit, gives back `n`: the round trip the CSV's year and count
   * columns depend on.
   */
  lemma ParseUnsigned(s: string)
    requires s != [] && IsDigit(s[0])
    ensures ParseInt(s) == Int(DigitsValue(DigitPrefix(s)))
  {
    NothingToTrim(s);
  }

  lemma ParseNegative(s: string)
    requires |s| > 1 && s[0] == '-' && IsDigit(s[1])
    ensures ParseInt(s) == Int(-(DigitsValue(DigitPrefix(s[1..])) as int))
  {
    NothingToTrim(s);
  }

  lemma ParseIntDecimal(n: int, rest: string)
    requires rest == [] || !IsDigit(rest[0])
    ensures ParseInt(Decimal(n) + rest) == Int(n)
  {
    var m: nat := if n < 0 then -n else n;
    var d := Digits(m);
    DigitsValueOfDigits(m);
    DigitPrefixOfDigits(d, rest);
    if n < 0 {
      var text := ['-'] + (d + rest);
      assert Decimal(n) + rest == text;
      assert text[1..] == d + rest;
      ParseNegative(text);
    } else {
      assert (d + rest)[0] == d[0];
      ParseUnsigned(d + rest);
    }
  }

  /**
   * `Math.round(a / b)` for `b > 0`, on exact rationals: the integer nearest
   * to a / b, halves rounded towards +Infinity.
   */
  function RoundDiv(a: int, b: int): (r: int)
    requires b > 0
    ensures 2 * b * r - b <= 2 * a < 2 * b * r + b
  {
    var q := (2 * a + b) / (2 * b);
    assert 2 * a + b == 2 * b * q + (2 * a + b) % (2 * b);
    q
  }

  /**
   * `Math.round((part / whole) * 100)`: the percentage, rounded half up;
   * NaN for 0 / 0 and an infinity for any other division by zero.
   */
  function RoundedPercent(part: int, whole: int): (r: Number)
    ensures whole > 0 ==> r.Int? && 2 * whole * r.value - whole <= 200 * part < 2 * whole * r.value + whole
    ensures whole < 0 ==> r.Int? && -2 * whole * r.value + whole <= -200 * part < -2 * whole * r.value - whole
    ensures whole == 0 ==> (r.NaN? <==> part == 0) && (r.Infinity? <==> part != 0)
  {
    if whole > 0 then Int(RoundDiv(100 * part, whole))
    else if whole < 0 then Int(RoundDiv(-100 * part, -whole))
    else if part == 0 then NaN
    else Infinity(part < 0)
  }

  lemma CancelPositive(w: int, a: int, b: int)
    requires w > 0 && w * a <= w * b
    ensures a <= b
  {
  }

  /** A share of a non-negative whole rounds to a percentage between 0 and 100. */
  lemma PercentBounds(part: int, whole: int)
    requires 0 <= part <= whole && whole > 0
    ensures RoundedPercent(part, whole).Int?
    ensures 0 <= RoundedPercent(part, whole).value <= 100
  {
    var r := RoundedPercent(part, whole).value;
    assert 2 * whole * r - whole <= 200 * part <= 200 * whole;
    CancelPositive(whole, 2 * r, 201);
    assert 0 <= 200 * part < 2 * whole * r + whole;
    CancelPositive(whole, -1, 2 * r);
  }

  /** `Math.max(...xs)`: the largest element, or -Infinity when there is none. */
  function Max(xs: seq<int>): (r: Number)
    ensures xs == [] ==> r == Infinity(true)
    ensures xs != [] ==> r.Int? && r.value in xs && forall x :: x in xs ==> x <= r.value
  {
    if xs == [] then Infinity(true)
    else
      var m := Max(xs[..|xs| - 1]);
      var last := xs[|xs| - 1];
      assert xs == xs[..|xs| - 1] + [last];
      if m.Int? && m.value >= last then m else Int(last)
  }
}
