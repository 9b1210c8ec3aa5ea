/**
 * The global `parseFloat` of JavaScript: the longest prefix of the text,
 * after leading white space, that reads as a decimal literal or
 * `Infinity`, or NaN when there is none. Values are exact rationals.
 */
module Numbers {
  import opened Chars

  /** A JavaScript number as the pipeline sees it. */
  datatype Close = NaN | Num(r: real) | PosInf | NegInf

  /** `a < b` on numbers; false whenever NaN is involved. */
  predicate Less(a: Close, b: Close)
  {
    match (a, b)
    case (Num(x), Num(y)) => x < y
    case (NegInf, Num(_)) => true
    case (NegInf, PosInf) => true
    case (Num(_), PosInf) => true
    case _ => false
  }

  /** JavaScript truthiness of a number: neither zero nor NaN. */
  predicate Truthy(c: Close)
  {
    match c
    case NaN => false
    case Num(x) => x != 0.0
    case _ => true
  }

  function Negate(c: Close): Close
  {
    match c
    case Num(x) => Num(-x)
    case PosInf => NegInf
    case NegInf => PosInf
    case NaN => NaN
  }

  /** 10 to the power `e`. */
  function Pow10(e: int): (r: real)
    ensures r > 0.0
    decreases if e < 0 then -e else e
  {
    if e == 0 then 1.0
    else if e > 0 then 10.0 * Pow10(e - 1)
    else Pow10(e + 1) / 10.0
  }

  predicate AllDigits(w: string)
  {
    forall k :: 0 <= k < |w| ==> IsDigit(w[k])
  }

  /** The value of a string of decimal digits. */
  function DigitsValue(w: string): nat
    requires AllDigits(w)
  {
    if |w| == 0 then 0 else 10 * DigitsValue(w[..|w| - 1]) + DigitValue(w[|w| - 1])
  }

  /** Length of the run of digits at the start of `s`. */
  function DigitsPrefix(s: string): (n: nat)
    ensures n <= |s| && AllDigits(s[..n])
    ensures n == |s| || !IsDigit(s[n])
  {
    if |s| > 0 && IsDigit(s[0]) then
      var n := 1 + DigitsPrefix(s[1..]);
      assert s[..n] == [s[0]] + s[1..][..n - 1];
      n
    else 0
  }

  /** `s` without its leading white space. */
  function SkipSpaces(s: string): (r: string)
    ensures |r| <= |s| && r == s[|s| - |r|..]
    ensures |r| == 0 || !IsJsSpace(r[0])
    ensures forall k :: 0 <= k < |s| - |r| ==> IsJsSpace(s[k])
  {
    if |s| > 0 && IsJsSpace(s[0]) then SkipSpaces(s[1..]) else s
  }

  /**
   * The exponent part at the start of `s` (`e` or `E`, optional sign,
   * digits): its value, or 0 when no complete exponent part is there (it is
   * then not read).
   */
  function Exponent(s: string): int
  {
    if |s| > 0 && (s[0] == 'e' || s[0] == 'E') then
      var signed := |s| > 1 && (s[1] == '+' || s[1] == '-');
      var digits := if signed then s[2..] else s[1..];
      var n := DigitsPrefix(digits);
      if n == 0 then 0
      else if signed && s[1] == '-' then -(DigitsValue(digits[..n]) as int)
      else DigitsValue(digits[..n])
    else 0
  }

  /**
   * The value of the longest unsigned decimal literal at the start of `s`
   * (digits, optionally a point and more digits, at least one digit in all,
   * then an optional exponent part), or NaN when there is none.
   */
  function UnsignedDecimal(s: string): (r: Close)
    ensures r.NaN? || r.Num?
  {
    var n := DigitsPrefix(s);
    var dot := n < |s| && s[n] == '.';
    var afterDot := if dot then s[n + 1..] else [];
    var fraction := afterDot[..DigitsPrefix(afterDot)];
    if n == 0 && |fraction| == 0 then NaN
    else
      var rest := if dot then afterDot[|fraction|..] else s[n..];
      Num(DecimalValue(s[..n], fraction, Exponent(rest)))
  }

  /** The value of the literal with integer digits `w`, fraction digits `f` and exponent `e`. */
  function DecimalValue(w: string, f: string, e: int): real
    requires AllDigits(w) && AllDigits(f)
  {
    PointValue(w, f) * Pow10(e)
  }

  /** The value of `w.f`, integer digits `w` and fraction digits `f`. */
  function PointValue(w: string, f: string): real
    requires AllDigits(w) && AllDigits(f)
  {
    DigitsValue(w) as real + DigitsValue(f) as real / Pow10(|f|)
  }

  /** `Infinity` or an unsigned decimal literal at the start of `s`. */
  function UnsignedLiteral(s: string): Close
  {
    if |s| >= 8 && s[..8] == "Infinity" then PosInf else UnsignedDecimal(s)
  }

  /**
   * `parseFloat(s)`: NaN exactly when no sign-optional `Infinity`, digit or
   * point-then-digit follows the leading white space.
   */
  function ParseFloat(s: string): (r: Close)
    ensures r == NaN <==> !StartsNumber(SkipSpaces(s))
  {
    SignedLiteral(SkipSpaces(s))
  }

  /** A literal with an optional sign at the start of `t`, or NaN when there is none. */
  function SignedLiteral(t: string): (r: Close)
    ensures r == NaN <==> !StartsNumber(t)
  {
    var u := if |t| > 0 && (t[0] == '+' || t[0] == '-') then t[1..] else t;
    UnsignedDecimalNaN(u);
    if |t| > 0 && t[0] == '-' then Negate(UnsignedLiteral(u))
    else UnsignedLiteral(u)
  }

  /** The digit run of digits followed by text that does not start with a digit is the digits. */
  lemma {:induction false} DigitsPrefixOf(w: string, t: string)
    requires AllDigits(w) && (|t| == 0 || !IsDigit(t[0]))
    ensures DigitsPrefix(w + t) == |w|
  {
    if |w| > 0 {
      assert (w + t)[1..] == w[1..] + t;
      DigitsPrefixOf(w[1..], t);
    } else {
      assert w + t == t;
    }
  }

  /** Text that cannot continue a number after its digits. */
  predicate EndsNumber(t: string)
  {
    |t| == 0 || !(IsDigit(t[0]) || t[0] == '.' || t[0] == 'e' || t[0] == 'E')
  }

  /** Text that starts with a digit is read as an unsigned decimal literal. */
  lemma ParseFromDigit(s: string)
    requires |s| > 0 && IsDigit(s[0])
    ensures ParseFloat(s) == UnsignedDecimal(s)
  {
    assert !IsJsSpace(s[0]);
    assert SkipSpaces(s) == s;
    assert |s| >= 8 ==> s[..8][0] != "Infinity"[0];
  }

  /** An unsigned decimal with a point: integer digits, fraction digits, exponent. */
  lemma DecimalParts(s: string, n: nat, m: nat)
    requires DigitsPrefix(s) == n && n < |s| && s[n] == '.' && DigitsPrefix(s[n + 1..]) == m && n + m >= 1
    ensures AllDigits(s[n + 1..n + 1 + m])
    ensures UnsignedDecimal(s) == Num(DecimalValue(s[..n], s[n + 1..n + 1 + m], Exponent(s[n + 1 + m..])))
  {
    assert s[n + 1..][..m] == s[n + 1..n + 1 + m];
    assert AllDigits(s[n + 1..][..m]);
    assert s[n + 1..][m..] == s[n + 1 + m..];
  }

  /** An unsigned decimal without a point: integer digits, exponent. */
  lemma IntegerParts(s: string, n: nat)
    requires DigitsPrefix(s) == n && n >= 1 && (n == |s| || s[n] != '.')
    ensures UnsignedDecimal(s) == Num(DecimalValue(s[..n], [], Exponent(s[n..])))
  {
  }

  /** Without an exponent, a literal's value is its integer part plus its fraction. */
  lemma NoExponent(w: string, f: string)
    requires AllDigits(w) && AllDigits(f)
    ensures DecimalValue(w, f, 0) == PointValue(w, f)
  {
    assert Pow10(0) == 1.0;
  }

  lemma DecimalOf(w: string, f: string, t: string)
    requires |w| >= 1 && AllDigits(w) && AllDigits(f) && EndsNumber(t)
    ensures UnsignedDecimal(w + "." + f + t) == Num(DecimalValue(w, f, 0))
  {
    var s := w + "." + f + t;
    PointSlices(w, f, t);
    DigitsPrefixOf(w, "." + f + t);
    DigitsPrefixOf(f, t);
    DecimalParts(s, |w|, |f|);
    assert Exponent(t) == 0;
  }

  /** Where the integer digits, the point, the fraction digits and the rest lie. */
  lemma PointSlices(w: string, f: string, t: string)
    ensures var s := w + "." + f + t;
      && s == w + ("." + f + t) && s[|w|] == '.' && s[..|w|] == w
      && s[|w| + 1..] == f + t && s[|w| + 1..|w| + 1 + |f|] == f && s[|w| + 1 + |f|..] == t
  {
  }

  /**
   * `parseFloat` of digits, a point, digits, then text that cannot continue
   * the literal is the decimal value of the literal: the trailing text is
   * ignored.
   */
  lemma ParseDecimal(w: string, f: string, t: string)
    requires |w| >= 1 && AllDigits(w) && AllDigits(f) && EndsNumber(t)
    ensures ParseFloat(w + "." + f + t) == Num(PointValue(w, f))
  {
    var s := w + "." + f + t;
    ParseFromDigit(s);
    DecimalOf(w, f, t);
    NoExponent(w, f);
  }

  lemma IntegerOf(w: string, t: string)
    requires |w| >= 1 && AllDigits(w) && EndsNumber(t)
    ensures UnsignedDecimal(w + t) == Num(DecimalValue(w, [], 0))
  {
    var s := w + t;
    DigitsPrefixOf(w, t);
    IntegerParts(s, |w|);
    assert s[..|w|] == w && s[|w|..] == t;
    assert Exponent(t) == 0;
  }

  /** `parseFloat` of digits followed by text that cannot continue the literal is their value. */
  lemma ParseInteger(w: string, t: string)
    requires |w| >= 1 && AllDigits(w) && EndsNumber(t)
    ensures ParseFloat(w + t) == Num(DigitsValue(w) as real)
  {
    var s := w + t;
    ParseFromDigit(s);
    IntegerOf(w, t);
    NoExponent(w, []);
    WholeValue(w);
  }

  /** Without fraction digits, the value is that of the integer digits. */
  lemma WholeValue(w: string)
    requires AllDigits(w)
    ensures PointValue(w, []) == DigitsValue(w) as real
  {
    assert DigitsValue([]) == 0;
  }

  /** Leading white space is skipped. */
  lemma ParseSkipsSpace(c: char, s: string)
    requires IsJsSpace(c)
    ensures ParseFloat([c] + s) == ParseFloat(s)
  {
    assert ([c] + s)[1..] == s;
  }

  /** A leading minus sign negates what follows it. */
  lemma ParseNegative(s: string)
    requires |s| == 0 || !(IsJsSpace(s[0]) || s[0] == '+' || s[0] == '-')
    ensures ParseFloat("-" + s) == Negate(ParseFloat(s))
  {
    assert ("-" + s)[1..] == s;
  }

  /** `parseFloat` of the string "undefined", which is what `parseFloat(undefined)` reads. */
  lemma ParseUndefined()
    ensures ParseFloat("undefined") == NaN
  {
    var s := "undefined";
    assert !IsJsSpace(s[0]) && !IsDigit(s[0]);
  }

  /**
   * Whether `t` (already without leading white space) starts, after an
   * optional sign, with something `parseFloat` can read: `Infinity`, a
   * digit, or a point followed by a digit.
   */
  predicate StartsNumber(t: string)
  {
    var u := if |t| > 0 && (t[0] == '+' || t[0] == '-') then t[1..] else t;
    || (|u| >= 8 && u[..8] == "Infinity")
    || (|u| > 0 && IsDigit(u[0]))
    || (|u| > 1 && u[0] == '.' && IsDigit(u[1]))
  }

  lemma UnsignedDecimalNaN(u: string)
    ensures UnsignedDecimal(u) == NaN <==> !((|u| > 0 && IsDigit(u[0])) || (|u| > 1 && u[0] == '.' && IsDigit(u[1])))
  {
    if |u| > 1 && u[0] == '.' && IsDigit(u[1]) {
      assert DigitsPrefix(u) == 0;
      assert u[1..][0] == u[1];
    }
  }
}
