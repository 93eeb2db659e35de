/** The optional value used for JavaScript's `undefined` and `NaN`. */
module Wrappers {

  datatype Option<+T> = None | Some(value: T) {

    /** The wrapped value, or `default` when there is none (JavaScript's `x || default`). */
    function GetOr(default: T): T {
      match this
      case Some(v) => v
      case None => default
    }
  }
}

/**
 * The JavaScript built-ins the loader leans on, for the inputs it gives them:
 * `parseInt(s)` with no radix, `parseFloat(s)` and the decimal rendering of a
 * non-negative integer inside a template literal (`${index}`).
 * `NaN` is `None`.
 */
module JsNumber {
  import opened Wrappers

  /** StrWhiteSpaceChar of ECMAScript: WhiteSpace (with the Zs category) and LineTerminator. */
  predicate IsWhiteSpace(c: char) {
    var k := c as int;
    k == 0x09 || k == 0x0A || k == 0x0B || k == 0x0C || k == 0x0D || k == 0x20 ||
    k == 0xA0 || k == 0x1680 || (0x2000 <= k <= 0x200A) || k == 0x2028 || k == 0x2029 ||
    k == 0x202F || k == 0x205F || k == 0x3000 || k == 0xFEFF
  }

  /** The string with its leading white space removed (both parsers start this way). */
  function TrimStart(s: string): (t: string)
    ensures |t| <= |s|
    ensures t == [] || !IsWhiteSpace(t[0])
  {
    if |s| > 0 && IsWhiteSpace(s[0]) then TrimStart(s[1..]) else s
  }

  /** The value of `c` as a digit in radix up to 36; 36 for a character that is no digit at all. */
  function DigitValue(c: char): (d: nat)
    ensures d <= 36
  {
    if '0' <= c <= '9' then c as int - '0' as int
    else if 'a' <= c <= 'z' then c as int - 'a' as int + 10
    else if 'A' <= c <= 'Z' then c as int - 'A' as int + 10
    else 36
  }

  predicate IsDigit(c: char, radix: nat) {
    DigitValue(c) < radix
  }

  /** Length of the longest prefix of `s` made of digits in `radix`. */
  function DigitRun(s: string, radix: nat): (n: nat)
    ensures n <= |s|
  {
    if |s| == 0 || !IsDigit(s[0], radix) then 0 else 1 + DigitRun(s[1..], radix)
  }

  /** The run is made of digits and stops at the first character that is not one. */
  lemma {:induction false} DigitRunIsLongest(s: string, radix: nat)
    ensures forall i :: 0 <= i < DigitRun(s, radix) ==> IsDigit(s[i], radix)
    ensures DigitRun(s, radix) < |s| ==> !IsDigit(s[DigitRun(s, radix)], radix)
  {
    if |s| > 0 && IsDigit(s[0], radix) {
      DigitRunIsLongest(s[1..], radix);
      assert forall i :: 1 <= i < |s| ==> s[i] == s[1..][i - 1];
    }
  }

  /** A string made only of digits is read to its end. */
  lemma DigitRunOfDigits(s: string, radix: nat)
    requires forall i :: 0 <= i < |s| ==> IsDigit(s[i], radix)
    ensures DigitRun(s, radix) == |s|
  {
    DigitRunIsLongest(s, radix);
  }

  /** The number a string of digits denotes in `radix`, most significant digit first. */
  function DigitsValue(ds: string, radix: nat): nat {
    if |ds| == 0 then 0
    else DigitsValue(ds[..|ds| - 1], radix) * radix + DigitValue(ds[|ds| - 1])
  }

  /**
   * `parseInt(s)` with the radix left out: skip white space, take one sign,
   * switch to radix 16 after `0x` or `0X`, then read the longest run of digits.
   * No digit at all is `NaN`.
   */
  function ParseInt(s: string): Option<int> {
    var t := TrimStart(s);
    match ParseMagnitude(Unsigned(t))
    case None => None
    case Some(v) => var m: int := v; Some(if Negative(t) then -m else m)
  }

  /** Whether the text, white space already skipped, starts with a minus sign. */
  predicate Negative(t: string) {
    |t| > 0 && t[0] == '-'
  }

  /** The text after its one optional sign. */
  function Unsigned(t: string): (u: string)
    ensures |t| > 0 && (t[0] == '-' || t[0] == '+') ==> u == t[1..]
    ensures |t| == 0 || (t[0] != '-' && t[0] != '+') ==> u == t
  {
    if |t| > 0 && (t[0] == '-' || t[0] == '+') then t[1..] else t
  }

  /** The unsigned part of `parseInt`: an optional `0x` prefix, then the longest run of digits. */
  function ParseMagnitude(u: string): Option<nat> {
    var hex := |u| >= 2 && u[0] == '0' && (u[1] == 'x' || u[1] == 'X');
    var radix := if hex then 16 else 10;
    var digits := if hex then u[2..] else u;
    var n := DigitRun(digits, radix);
    if n == 0 then None else Some(DigitsValue(digits[..n], radix))
  }

  /**
   * A number `parseFloat` can produce: an infinity, or the exact decimal
   * (-1)^negative * mantissa * 10^exponent that its literal prefix spells.
   */
  datatype Num = Infinity(negative: bool) | Finite(negative: bool, mantissa: nat, exponent: int)

  /** The exponent an ExponentPart at the head of `s` spells (`e`, optional sign, digits); 0 when there is none. */
  function ExponentOf(s: string): int {
    if |s| >= 2 && (s[0] == 'e' || s[0] == 'E') then
      var negative := s[1] == '-';
      var v := if s[1] == '-' || s[1] == '+' then s[2..] else s[1..];
      var n := DigitRun(v, 10);
      var magnitude: int := DigitsValue(v[..n], 10);
      if negative then -magnitude else magnitude
    else 0
  }

  /**
   * `parseFloat(s)`: skip white space, take one sign, then either `Infinity`
   * or the longest prefix shaped like a decimal literal (digits, an optional
   * point with digits, an optional exponent; at least one digit in all).
   * Anything else is `NaN`.
   */
  function ParseFloat(s: string): Option<Num> {
    var t := TrimStart(s);
    var u := Unsigned(t);
    if StartsWith(u, "Infinity") then Some(Infinity(Negative(t)))
    else
      match ParseDecimal(u)
      case None => None
      case Some((mantissa, exponent)) => Some(Finite(Negative(t), mantissa, exponent))
  }

  predicate StartsWith(s: string, prefix: string) {
    |prefix| <= |s| && s[..|prefix|] == prefix
  }

  /**
   * The unsigned decimal literal at the head of `u` as (mantissa, exponent):
   * digits, an optional point with digits, an optional exponent part, and at
   * least one digit in all.
   */
  function ParseDecimal(u: string): Option<(nat, int)> {
    var i := DigitRun(u, 10);
    var point := i < |u| && u[i] == '.';
    var f := if point then DigitRun(u[i + 1..], 10) else 0;
    if i == 0 && f == 0 then None
    else
      var digits := if point then u[..i] + u[i + 1..i + 1 + f] else u[..i];
      var rest := if point then u[i + 1 + f..] else u[i..];
      Some((DigitsValue(digits, 10), ExponentOf(rest) - f))
  }

  function DigitChar(d: nat): (c: char)
    requires d < 10
    ensures '0' <= c <= '9' && DigitValue(c) == d
  {
    ('0' as int + d) as char
  }

  /** The decimal rendering of a non-negative integer, as `${n}` gives it. */
  function Decimal(n: nat): (s: string)
    ensures |s| > 0
    ensures forall i :: 0 <= i < |s| ==> '0' <= s[i] <= '9'
    decreases n
  {
    if n < 10 then [DigitChar(n)] else Decimal(n / 10) + [DigitChar(n % 10)]
  }

  /** Reading the decimal rendering back gives the number. */
  lemma {:induction false} DecimalValue(n: nat)
    ensures DigitsValue(Decimal(n), 10) == n
    decreases n
  {
    var s := Decimal(n);
    if n >= 10 {
      DecimalValue(n / 10);
      assert s[..|s| - 1] == Decimal(n / 10);
    } else {
      assert s[..0] == [];
    }
  }

  /** Text that starts with no white space is left as it is by TrimStart. */
  lemma TrimStartNoSpace(s: string)
    requires s == [] || !IsWhiteSpace(s[0])
    ensures TrimStart(s) == s
  {
  }

  /** The unsigned part of `parseInt` reads an all-digit decimal string as its value. */
  lemma MagnitudeOfDecimal(n: nat)
    ensures ParseMagnitude(Decimal(n)) == Some(n)
  {
    var d := Decimal(n);
    assert !(|d| >= 2 && d[0] == '0' && (d[1] == 'x' || d[1] == 'X'));
    DigitRunOfDigits(d, 10);
    assert d[..|d|] == d;
    DecimalValue(n);
  }

  /** `parseInt` of the decimal rendering of `n` is `n`. */
  lemma ParseIntDecimal(n: nat)
    ensures ParseInt(Decimal(n)) == Some(n)
  {
    var s := Decimal(n);
    TrimStartNoSpace(s);
    assert Unsigned(s) == s;
    MagnitudeOfDecimal(n);
  }

  /** `parseInt` reads a minus sign: `"-" + n` parses to `-n`, so parsed counts can be negative. */
  lemma ParseIntNegative(n: nat)
    ensures ParseInt("-" + Decimal(n)) == Some(-(n as int))
  {
    var s := "-" + Decimal(n);
    TrimStartNoSpace(s);
    assert Negative(s);
    assert Unsigned(s) == Decimal(n);
    MagnitudeOfDecimal(n);
  }

  /** Different numbers render differently. */
  lemma DecimalInjective(m: nat, n: nat)
    ensures Decimal(m) == Decimal(n) ==> m == n
  {
    ParseIntDecimal(m);
    ParseIntDecimal(n);
  }

  /** `parseFloat` of the decimal rendering of `n` is the integer `n`. */
  lemma ParseFloatDecimal(n: nat)
    ensures ParseFloat(Decimal(n)) == Some(Finite(false, n, 0))
  {
    var s := Decimal(n);
    TrimStartNoSpace(s);
    assert Unsigned(s) == s;
    if |s| >= 8 {
      assert s[..8][0] == s[0] != 'I';
    }
    DigitRunOfDigits(s, 10);
    assert s[..|s|] == s;
    assert ExponentOf(s[|s|..]) == 0;
    DecimalValue(n);
  }

  /** `parseFloat` accepts `Infinity`, so "parses" does not mean "finite". */
  lemma ParseFloatInfinity(s: string)
    requires StartsWith(s, "Infinity")
    ensures ParseFloat(s) == Some(Infinity(false))
    ensures ParseFloat("-" + s) == Some(Infinity(true))
  {
    assert s[0] == s[..8][0];
    TrimStartNoSpace(s);
    assert Unsigned(s) == s;
    var m := "-" + s;
    TrimStartNoSpace(m);
    assert Negative(m);
    assert Unsigned(m) == s;
  }

  /** A string that starts with no digit, point, sign, white space or `I` is `NaN` to both parsers. */
  lemma NotANumber(s: string)
    requires s == [] || (!IsWhiteSpace(s[0]) && DigitValue(s[0]) >= 10 && s[0] !in "+-.I")
    ensures ParseInt(s).None? && ParseFloat(s).None?
  {
    TrimStartNoSpace(s);
    assert Unsigned(s) == s;
    if |s| >= 8 {
      assert s[..8][0] == s[0];
    }
  }

  /** `parseInt(undefined)` and `parseFloat(undefined)` read the text "undefined": both are `NaN`. */
  lemma UndefinedIsNaN()
    ensures ParseInt("undefined").None? && ParseFloat("undefined").None?
  {
    var u := "undefined";
    assert !IsWhiteSpace(u[0]) && DigitValue(u[0]) >= 10 && u[0] !in "+-.I";
    NotANumber(u);
  }

  /** The empty string is `NaN` to both parsers. */
  lemma EmptyIsNaN()
    ensures ParseInt("").None? && ParseFloat("").None?
  {
    var e: string := [];
    assert TrimStart(e) == e && Unsigned(e) == e;
    assert DigitRun(e, 10) == 0;
    assert ParseDecimal(e).None?;
    assert ParseMagnitude(e).None?;
  }
}
