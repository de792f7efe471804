/**
 * Python floats as the pipeline uses them: `float()` applied to the value
 * column of a measurement file, IEEE arithmetic on the values it yields,
 * and rounding to two decimals.  Finite values are exact reals: binary
 * rounding, overflow and the sign of zero are not modelled.
 */
module Floats {
  import opened Wrappers
  import opened Text

  /** A float: a finite value, an infinity (`-inf` when `negative`), or NaN. */
  datatype Num = Fin(v: real) | Inf(negative: bool) | NaN

  function DigitValue(c: char): nat
    requires IsDigit(c)
  {
    c as int - '0' as int
  }

  /** The natural number spelled by a string of decimal digits (0 for the empty string). */
  function DigitsValue(s: string): nat
    requires AllDigits(s)
  {
    if s == [] then 0 else DigitsValue(s[..|s| - 1]) * 10 + DigitValue(s[|s| - 1])
  }

  function Pow10(e: nat): (r: nat)
    ensures r > 0
  {
    if e == 0 then 1 else 10 * Pow10(e - 1)
  }

  /** 10 raised to a possibly negative power. */
  function Scale(e: int): (r: real)
    ensures r > 0.0
  {
    if e >= 0 then Pow10(e) as real else 1.0 / Pow10(-e) as real
  }

  /** The first position of `a` or `b` in `s`, or `|s|` when neither occurs. */
  function FindFirst(s: string, a: char, b: char): (i: nat)
    ensures i <= |s|
    ensures i < |s| ==> s[i] == a || s[i] == b
    ensures forall k | 0 <= k < i :: s[k] != a && s[k] != b
  {
    if s == [] || s[0] == a || s[0] == b then 0 else 1 + FindFirst(s[1..], a, b)
  }

  /** The value of `whole.frac`, both runs of digits and not both empty. */
  function MantissaValue(whole: string, frac: string): Option<real> {
    if AllDigits(whole) && AllDigits(frac) && |whole| + |frac| > 0 then
      Some(PointValue(whole, frac))
    else
      None
  }

  /** `whole + frac / 10^|frac|`. */
  function PointValue(whole: string, frac: string): real
    requires AllDigits(whole) && AllDigits(frac)
  {
    DigitsValue(whole) as real + DigitsValue(frac) as real / Pow10(|frac|) as real
  }

  /** `m * 10^x`. */
  function Scaled(m: real, x: int): real {
    m * Scale(x)
  }

  /** `digits[.digits]`, `digits.` or `.digits`: at least one digit on either side of the point. */
  function ParseMantissa(m: string): Option<real> {
    var d := FindFirst(m, '.', '.');  // the search for one character is the search for either of two equal ones
    if d < |m| then MantissaValue(m[..d], m[d + 1..]) else MantissaValue(m, "")
  }

  /** `[+-]digits` after the exponent marker. */
  function ParseExponent(x: string): Option<int> {
    var negative := |x| > 0 && x[0] == '-';
    var digits := if |x| > 0 && (x[0] == '+' || x[0] == '-') then x[1..] else x;
    if |digits| > 0 && AllDigits(digits) then
      Some(if negative then -(DigitsValue(digits) as int) else DigitsValue(digits))
    else
      None
  }

  /** An unsigned decimal literal with an optional exponent. */
  function ParseUnsigned(body: string): Option<real> {
    var e := FindFirst(body, 'e', 'E');
    match ParseMantissa(body[..e])
    case None => None
    case Some(m) =>
      if e == |body| then Some(m)
      else
        match ParseExponent(body[e + 1..])
        case None => None
        case Some(x) => Some(Scaled(m, x))
  }

  /**
   * Python's `float(token)` for a token without white space: an optional sign,
   * then `inf`, `infinity` or `nan` in any case, or a decimal literal.
   * `None` is the `ValueError` the source lets escape.
   */
  function ParseFloat(t: string): (r: Option<Num>)
    ensures t == [] ==> r == None
    ensures r == Some(NaN) ==> AsciiLower(Unsigned(t)) == "nan"
    ensures r.Some? && r.value.Inf? ==>
      InfinityWord(AsciiLower(Unsigned(t))) && r.value.negative == NegativeSign(t)
  {
    ParseSigned(Unsigned(t), NegativeSign(t))
  }

  /** The token without its leading `+` or `-`, if any. */
  function Unsigned(t: string): string {
    if |t| > 0 && (t[0] == '+' || t[0] == '-') then t[1..] else t
  }

  predicate NegativeSign(t: string) {
    |t| > 0 && t[0] == '-'
  }

  /** The token after its sign: a special value or a decimal literal, negated when `negative`. */
  function ParseSigned(body: string, negative: bool): Option<Num> {
    if InfinityWord(AsciiLower(body)) then Some(Inf(negative))
    else if AsciiLower(body) == "nan" then Some(NaN)
    else ParseDecimal(body, negative)
  }

  predicate InfinityWord(word: string) {
    word == "inf" || word == "infinity"
  }

  function ParseDecimal(body: string, negative: bool): Option<Num> {
    match ParseUnsigned(body)
    case None => None
    case Some(x) => Some(Fin(if negative then -x else x))
  }

  function Digit(d: nat): (c: char)
    requires d < 10
    ensures IsDigit(c) && DigitValue(c) == d
  {
    ('0' as int + d) as char
  }

  /** The decimal spelling of `n`, without leading zeros. */
  function DecimalString(n: nat): (s: string)
    ensures |s| > 0 && AllDigits(s)
  {
    if n < 10 then [Digit(n)] else DecimalString(n / 10) + [Digit(n % 10)]
  }

  lemma {:induction false} DigitsOfDecimal(n: nat)
    ensures DigitsValue(DecimalString(n)) == n
  {
    var s := DecimalString(n);
    if n >= 10 {
      DigitsOfDecimal(n / 10);
      assert s[..|s| - 1] == DecimalString(n / 10);
    }
  }

  /** A non-empty run of digits is neither `inf`, `infinity` nor `nan`, in any case. */
  lemma DigitsAreNotSpecial(s: string)
    requires |s| > 0 && AllDigits(s)
    ensures !InfinityWord(AsciiLower(s)) && AsciiLower(s) != "nan"
  {
    assert AsciiLower(s)[0] == s[0];
  }

  /** A run of digits holds no point and no exponent marker. */
  lemma FindFirstInDigits(s: string, a: char, b: char)
    requires AllDigits(s) && !IsDigit(a) && !IsDigit(b)
    ensures FindFirst(s, a, b) == |s|
  {
  }

  lemma ParseMantissaOfDigits(s: string)
    requires |s| > 0 && AllDigits(s)
    ensures ParseMantissa(s) == Some(DigitsValue(s) as real)
  {
    FindFirstInDigits(s, '.', '.');
    MantissaOfWhole(s, "");
  }

  lemma MantissaOfWhole(whole: string, frac: string)
    requires |whole| > 0 && AllDigits(whole) && frac == []
    ensures MantissaValue(whole, frac) == Some(DigitsValue(whole) as real)
  {
    assert DigitsValue(frac) == 0 && Pow10(|frac|) == 1;
    assert PointValue(whole, frac) == DigitsValue(whole) as real;
  }

  lemma ParseUnsignedOfDigits(s: string)
    requires |s| > 0 && AllDigits(s)
    ensures ParseUnsigned(s) == Some(DigitsValue(s) as real)
  {
    FindFirstInDigits(s, 'e', 'E');
    assert s[..|s|] == s;
    ParseMantissaOfDigits(s);
  }

  /** Digits are read as a decimal literal, whatever the sign. */
  lemma ParseSignedOfDigits(s: string, negative: bool)
    requires |s| > 0 && AllDigits(s)
    ensures ParseSigned(s, negative) == ParseDecimal(s, negative)
  {
    DigitsAreNotSpecial(s);
  }

  lemma ParseDecimalOf(s: string, negative: bool, x: real)
    requires ParseUnsigned(s) == Some(x)
    ensures ParseDecimal(s, negative) == Some(Fin(if negative then -x else x))
  {
  }

  /** A token that starts with a digit has no sign and is no special word: it is a decimal literal. */
  lemma ParseFloatOfLeadingDigit(t: string)
    requires |t| > 0 && IsDigit(t[0])
    ensures ParseFloat(t) == ParseDecimal(t, false)
  {
    assert AsciiLower(t)[0] == t[0];
  }

  /** A sign is stripped and remembered. */
  lemma ParseFloatOfSign(c: char, body: string)
    requires c == '+' || c == '-'
    ensures ParseFloat([c] + body) == ParseSigned(body, c == '-')
  {
    assert ([c] + body)[1..] == body;
  }

  lemma ParseFloatOfDigits(s: string)
    requires |s| > 0 && AllDigits(s)
    ensures ParseFloat(s) == Some(Fin(DigitsValue(s) as real))
  {
    assert IsDigit(s[0]);
    ParseFloatOfLeadingDigit(s);
    ParseUnsignedOfDigits(s);
    ParseDecimalOf(s, false, DigitsValue(s) as real);
  }

  /** A signed run of digits is read as that whole number, negated after a minus sign. */
  lemma ParseFloatOfSignedDigits(c: char, s: string)
    requires c == '+' || c == '-'
    requires |s| > 0 && AllDigits(s)
    ensures ParseFloat([c] + s) == ParseDecimal(s, c == '-')
  {
    ParseFloatOfSign(c, s);
    ParseSignedOfDigits(s, c == '-');
  }

  /** Parsing the decimal spelling of a whole number, with or without a minus sign, gives it back. */
  lemma ParseFloatOfDecimal(n: nat)
    ensures ParseFloat(DecimalString(n)) == Some(Fin(n as real))
    ensures ParseFloat("-" + DecimalString(n)) == Some(Fin(-(n as real)))
  {
    DigitsOfDecimal(n);
    ParseFloatOfDigits(DecimalString(n));
    ParseFloatOfSignedDigits('-', DecimalString(n));
    ParseUnsignedOfDigits(DecimalString(n));
    ParseDecimalOf(DecimalString(n), true, n as real);
  }

  /** `FindFirst` passes over a prefix that holds neither character. */
  lemma {:induction false} FindFirstAfter(p: string, s: string, a: char, b: char)
    requires a !in p && b !in p
    ensures FindFirst(p + s, a, b) == |p| + FindFirst(s, a, b)
  {
    if p != [] {
      var q := p + s;
      assert q[0] == p[0] && p[0] in p;
      assert q[1..] == p[1..] + s;
      assert forall c <- p[1..] :: c in p;
      FindFirstAfter(p[1..], s, a, b);
      assert FindFirst(q, a, b) == 1 + FindFirst(q[1..], a, b);
    } else {
      assert p + s == s;
    }
  }

  lemma DigitsHaveNo(s: string, c: char)
    requires AllDigits(s) && !IsDigit(c)
    ensures c !in s
  {
  }

  /** A literal without exponent marker is read by its mantissa alone. */
  lemma ParseUnsignedWithoutExponent(body: string)
    requires 'e' !in body && 'E' !in body
    ensures ParseUnsigned(body) == ParseMantissa(body)
  {
    FindFirstAfter(body, [], 'e', 'E');
    assert body + [] == body && body[..|body|] == body;
  }

  /** `whole.frac` is read as `whole + frac / 10^|frac|`. */
  lemma ParseMantissaOfPoint(whole: string, frac: string)
    requires '.' !in whole
    ensures ParseMantissa(whole + "." + frac) == MantissaValue(whole, frac)
  {
    var m := whole + "." + frac;
    FindFirstAfter(whole, "." + frac, '.', '.');
    assert whole + "." + frac == whole + ("." + frac);
    assert m[..|whole|] == whole && m[|whole| + 1..] == frac;
  }

  /** A decimal literal with digits on both sides of its point is read as their value. */
  lemma ParseFloatOfPointed(whole: string, frac: string)
    requires |whole| > 0 && AllDigits(whole) && AllDigits(frac)
    ensures ParseFloat(whole + "." + frac) == Some(Fin(PointValue(whole, frac)))
  {
    var t := whole + "." + frac;
    assert t[0] == whole[0];
    ParseFloatOfLeadingDigit(t);
    DigitsHaveNo(whole, 'e');
    DigitsHaveNo(whole, 'E');
    DigitsHaveNo(frac, 'e');
    DigitsHaveNo(frac, 'E');
    assert 'e' !in t && 'E' !in t;
    ParseUnsignedWithoutExponent(t);
    DigitsHaveNo(whole, '.');
    ParseMantissaOfPoint(whole, frac);
    ParseDecimalOf(t, false, PointValue(whole, frac));
  }

  lemma ParseExponentOfDigits(x: string)
    requires |x| > 0 && AllDigits(x)
    ensures ParseExponent(x) == Some(DigitsValue(x) as int)
  {
    assert IsDigit(x[0]);
    assert x[0] != '-' && x[0] != '+';
  }

  lemma ParseUnsignedOfScientific(m: string, x: string)
    requires |m| > 0 && AllDigits(m) && |x| > 0 && AllDigits(x)
    ensures ParseUnsigned(m + "e" + x) == Some(Scaled(DigitsValue(m) as real, DigitsValue(x)))
  {
    var t := m + "e" + x;
    DigitsHaveNo(m, 'e');
    DigitsHaveNo(m, 'E');
    FindFirstAfter(m, "e" + x, 'e', 'E');
    assert t == m + ("e" + x);
    assert t[..|m|] == m && t[|m| + 1..] == x;
    ParseMantissaOfDigits(m);
    ParseExponentOfDigits(x);
  }

  /** `m e x` with digit runs `m` and `x` is read as `m * 10^x`. */
  lemma ParseFloatOfScientific(m: string, x: string)
    requires |m| > 0 && AllDigits(m) && |x| > 0 && AllDigits(x)
    ensures ParseFloat(m + "e" + x) == Some(Fin(Scaled(DigitsValue(m) as real, DigitsValue(x))))
  {
    var t := m + "e" + x;
    assert t[0] == m[0];
    ParseFloatOfLeadingDigit(t);
    ParseUnsignedOfScientific(m, x);
    ParseDecimalOf(t, false, Scaled(DigitsValue(m) as real, DigitsValue(x)));
  }

  lemma ParseFloatOfInfinity()
    ensures ParseFloat("-Inf") == Some(Inf(true))
  {
    assert "-Inf"[1..] == "Inf";
    assert AsciiLower("Inf") == "inf";
  }

  /** A second decimal point makes the token unreadable. */
  lemma ParseFloatRejectsSecondPoint(whole: string, frac: string)
    requires |whole| > 0 && AllDigits(whole)
    requires '.' in frac && 'e' !in frac && 'E' !in frac
    ensures ParseFloat(whole + "." + frac) == None
  {
    var t := whole + "." + frac;
    assert t[0] == whole[0];
    ParseFloatOfLeadingDigit(t);
    DigitsHaveNo(whole, 'e');
    DigitsHaveNo(whole, 'E');
    assert 'e' !in t && 'E' !in t;
    ParseUnsignedWithoutExponent(t);
    DigitsHaveNo(whole, '.');
    ParseMantissaOfPoint(whole, frac);
    assert !AllDigits(frac);
  }


  /**
   * How a tie is broken when rounding: NumPy's `np.round` goes to the even
   * neighbour; Polars' `.round` goes away from zero.
   */
  datatype RoundMode = HalfToEven | HalfAwayFromZero

  /** The nearest integer to `y`, ties broken by `mode`. */
  function RoundToInt(y: real, mode: RoundMode): (n: int)
    ensures -0.5 <= n as real - y <= 0.5
  {
    var f := y.Floor;
    var frac := y - f as real;
    if frac < 0.5 then f
    else if frac > 0.5 then f + 1
    else match mode
      case HalfToEven => if f % 2 == 0 then f else f + 1
      case HalfAwayFromZero => if y < 0.0 then f else f + 1
  }

  /** The value has at most two decimals. */
  predicate OnGrid(x: real) {
    (x * 100.0).Floor as real == x * 100.0
  }

  /** Whole numbers have two decimals. */
  lemma OnGridWhole(n: int)
    ensures OnGrid(n as real)
  {
    assert n as real * 100.0 == (n * 100) as real;
  }

  /** Rounding to two decimals (`np.round(x, 2)`, Polars `.round(2)`). */
  function Round2(x: real, mode: RoundMode): (r: real)
    ensures OnGrid(r)
    ensures -0.005 <= r - x <= 0.005
  {
    var y := x * 100.0;
    var n := RoundToInt(y, mode);
    var r := n as real / 100.0;
    assert r * 100.0 == n as real;
    assert (n as real).Floor == n;
    assert r - x == (n as real - y) / 100.0;
    r
  }

  /** A value that already has two decimals is left as it is, whatever the mode. */
  lemma Round2Fixes(x: real, mode: RoundMode)
    requires OnGrid(x)
    ensures Round2(x, mode) == x
  {
    var y := x * 100.0;
    assert y.Floor as real == y;
    assert RoundToInt(y, mode) == y.Floor;
  }

  lemma Round2Idempotent(x: real, mode: RoundMode)
    ensures Round2(Round2(x, mode), mode) == Round2(x, mode)
  {
    Round2Fixes(Round2(x, mode), mode);
  }

  /** Ties at the third decimal: `0.125` goes to `0.12` under NumPy and to `0.13` under Polars. */
  lemma Round2Ties()
    ensures Round2(0.125, HalfToEven) == 0.12
    ensures Round2(0.125, HalfAwayFromZero) == 0.13
    ensures Round2(-0.125, HalfAwayFromZero) == -0.13
  {
    assert (12.5).Floor == 12 && (-12.5).Floor == -13;
  }

  /** Rounding lifted to floats: infinities and NaN stay as they are. */
  function RoundNum(n: Num, mode: RoundMode): (r: Num)
    ensures r.Fin? <==> n.Fin?
    ensures n.Fin? ==> OnGrid(r.v) && -0.005 <= r.v - n.v <= 0.005
    ensures !n.Fin? ==> r == n
  {
    match n
    case Fin(x) => Fin(Round2(x, mode))
    case _ => n
  }

  /** IEEE negation. */
  function Negate(a: Num): Num {
    match a
    case Fin(x) => Fin(-x)
    case Inf(neg) => Inf(!neg)
    case NaN => NaN
  }

  /** IEEE addition: NaN absorbs, opposite infinities give NaN, an infinity absorbs a finite value. */
  function Plus(a: Num, b: Num): Num {
    match (a, b)
    case (NaN, _) => NaN
    case (_, NaN) => NaN
    case (Inf(s), Inf(t)) => if s == t then a else NaN
    case (Inf(_), Fin(_)) => a
    case (Fin(_), Inf(_)) => b
    case (Fin(x), Fin(y)) => Fin(x + y)
  }

  /** IEEE subtraction. */
  function Minus(a: Num, b: Num): (r: Num)
    ensures a.NaN? || b.NaN? ==> r == NaN
    ensures a.Fin? && b.Fin? ==> r == Fin(a.v - b.v)
    ensures a.Inf? && b.Inf? ==> (r == NaN <==> a == b)
    ensures a.Inf? && b.Fin? ==> r == a
  {
    Plus(a, Negate(b))
  }

  /** Multiplication by a positive constant such as `100`. */
  function TimesPositive(a: Num, c: real): (r: Num)
    requires c > 0.0
    ensures r.Fin? == a.Fin? && r.NaN? == a.NaN?
    ensures a.Inf? ==> r == a
    ensures a.Fin? ==> (r.v < 0.0 <==> a.v < 0.0) && (r.v == 0.0 <==> a.v == 0.0)
  {
    match a
    case Fin(x) => Fin(x * c)
    case _ => a
  }

  /**
   * IEEE division, taking every zero to be `+0.0`: a non-zero value over zero
   * is an infinity of its own sign, `0/0` and `inf/inf` are NaN, and a finite
   * value over an infinity is zero.
   */
  function Divide(a: Num, b: Num): (r: Num)
    ensures a.NaN? || b.NaN? ==> r == NaN
    ensures a.Fin? && b.Fin? && b.v != 0.0 ==> r == Fin(a.v / b.v)
    ensures b == Fin(0.0) ==> (r.NaN? <==> a == Fin(0.0) || a.NaN?)
    ensures a.Fin? && b.Inf? ==> r == Fin(0.0)
  {
    match (a, b)
    case (NaN, _) => NaN
    case (_, NaN) => NaN
    case (Inf(_), Inf(_)) => NaN
    case (Inf(s), Fin(y)) => Inf(s != (y < 0.0))
    case (Fin(_), Inf(_)) => Fin(0.0)
    case (Fin(x), Fin(y)) =>
      if y != 0.0 then Fin(x / y)
      else if x == 0.0 then NaN
      else Inf(x < 0.0)
  }
}
