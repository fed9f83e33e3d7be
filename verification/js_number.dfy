/** JavaScript's `Number(x)` conversion of a string, on exact reals: the
    model keeps NaN and the two infinities apart from finite values and does
    not round to binary64. */
module JsNumber {
  import opened Options
  import opened JsText

  datatype Num = NaN | Finite(value: real) | Infinity(negative: bool)

  function Pow10(e: nat): (p: nat)
    ensures p >= 1
  {
    if e == 0 then 1 else 10 * Pow10(e - 1)
  }

  /** `m * 10^e` for a signed exponent. */
  function Scale(m: real, e: int): real {
    if e >= 0 then m * Pow10(e) as real else m / Pow10(-e) as real
  }

  /** The radix a `0b`/`0o`/`0x` prefix letter selects. */
  function RadixLetter(c: char): Option<nat> {
    if c == 'x' || c == 'X' then Some(16)
    else if c == 'o' || c == 'O' then Some(8)
    else if c == 'b' || c == 'B' then Some(2)
    else None
  }

  /** The exponent part `[eE][+-]?digits`, which must reach the end of the
      literal; the empty string is exponent 0. */
  function Exponent(rest: string): Option<int> {
    if rest == [] then Some(0)
    else if rest[0] != 'e' && rest[0] != 'E' then None
    else
      var t := rest[1..];
      var neg := |t| > 0 && t[0] == '-';
      var ds := if |t| > 0 && (t[0] == '-' || t[0] == '+') then t[1..] else t;
      if |ds| == 0 || DigitSpan(ds, 10) != |ds| then None
      else
        var e: int := DigitsValue(ds, 10);
        Some(if neg then -e else e)
  }

  /** An unsigned decimal literal: `digits [. digits] [exp]` or `. digits [exp]`,
      with at least one digit before the exponent. */
  function UnsignedDecimal(u: string): Option<real> {
    var i := DigitSpan(u, 10);
    if i < |u| && u[i] == '.' then Fraction(u[..i], u[i + 1..])
    else if i == 0 then None
    else WithExponent(DigitsValue(u[..i], 10) as real, u[i..])
  }

  /** The part after the decimal point; `intDigits` were read before it. */
  function Fraction(intDigits: string, fracSrc: string): Option<real> {
    var f := DigitSpan(fracSrc, 10);
    if |intDigits| + f == 0 then None
    else
      var mantissa := DigitsValue(intDigits, 10) as real + DigitsValue(fracSrc[..f], 10) as real / Pow10(f) as real;
      WithExponent(mantissa, fracSrc[f..])
  }

  function WithExponent(mantissa: real, rest: string): Option<real> {
    match Exponent(rest)
    case None => None
    case Some(e) => Some(Scale(mantissa, e))
  }

  /** `0b`/`0o`/`0x` followed by digits of that radix, to the end. */
  function NonDecimal(ds: string, radix: nat): Num {
    if |ds| > 0 && DigitSpan(ds, radix) == |ds| then Finite(DigitsValue(ds, radix) as real) else NaN
  }

  /** An optionally signed `Infinity` or decimal literal. */
  function SignedDecimal(t: string): Num
    requires t != []
  {
    var neg := t[0] == '-';
    var u := if t[0] == '-' || t[0] == '+' then t[1..] else t;
    if u == "Infinity" then Infinity(neg)
    else
      match UnsignedDecimal(u)
      case None => NaN
      case Some(v) => Finite(if neg then -v else v)
  }

  /** `Number(s)` for a string: surrounding white space is ignored, an empty
      string is 0, `Infinity` may carry a sign, `0b`/`0o`/`0x` literals may
      not, and anything else that is not a whole decimal literal is NaN. */
  function StringToNumber(s: string): (r: Num)
    ensures Trim(s) == [] ==> r == Finite(0.0)
  {
    LiteralToNumber(Trim(s))
  }

  function LiteralToNumber(t: string): Num {
    if t == [] then Finite(0.0)
    else if |t| >= 2 && t[0] == '0' && RadixLetter(t[1]).Some? then NonDecimal(t[2..], RadixLetter(t[1]).value)
    else SignedDecimal(t)
  }

  /** Text with no digit and no letter at all (so no `Infinity` either) that
      is not blank converts to NaN. */
  lemma NoDigitsIsNaN(s: string)
    requires NoDigitAhead(s) && exists k :: 0 <= k < |s| && !IsSpace(s[k])
    ensures StringToNumber(s) == NaN
  {
    var t := Trim(s);
    assert t != [];
    var off := |s| - |TrimStart(s)|;
    assert forall k :: 0 <= k < |t| ==> t[k] == s[off + k];
    NoDigitsDecimal(t);
  }

  lemma NoDigitsDecimal(t: string)
    requires t != [] && NoDigitAhead(t)
    ensures LiteralToNumber(t) == NaN
  {
    assert DigitValue(t[0]) == 36;
    var u := if t[0] == '-' || t[0] == '+' then t[1..] else t;
    assert NoDigitAhead(u);
    assert DigitSpan(u, 10) == 0 by {
      if |u| > 0 { assert DigitValue(u[0]) == 36; }
    }
    if 0 < |u| && u[0] == '.' {
      assert DigitSpan(u[1..], 10) == 0 by {
        if |u| > 1 { assert DigitValue(u[1]) == 36; }
      }
    }
  }

  /** A decimal numeral reads back as the integer it was written from. */
  lemma StringToNumberOfNumeral(n: nat)
    ensures StringToNumber(NatToString(n)) == Finite(n as real)
  {
    var s := NatToString(n);
    assert !IsSpace(s[0]) && !IsSpace(s[|s| - 1]) by {
      assert '0' <= s[0] <= '9' && '0' <= s[|s| - 1] <= '9';
    }
    assert TrimStart(s) == s;
    assert TrimEnd(s) == s;
    DigitLiteral(s);
  }

  lemma DigitLiteral(s: string)
    requires |s| > 0 && forall k :: 0 <= k < |s| ==> IsDigit(s[k], 10)
    ensures LiteralToNumber(s) == Finite(DigitsValue(s, 10) as real)
  {
    assert !(|s| >= 2 && s[0] == '0' && RadixLetter(s[1]).Some?) by {
      if |s| >= 2 { assert IsDigit(s[1], 10); }
    }
    assert s[0] != '-' && s[0] != '+' && s != "Infinity" by {
      assert IsDigit(s[0], 10);
    }
    DigitsAsDecimal(s);
  }

  lemma DigitsAsDecimal(s: string)
    requires |s| > 0 && forall k :: 0 <= k < |s| ==> IsDigit(s[k], 10)
    ensures UnsignedDecimal(s) == Some(DigitsValue(s, 10) as real)
  {
    assert DigitSpan(s, 10) == |s|;
    assert s[..|s|] == s;
    NoExponent(DigitsValue(s, 10) as real);
  }

  lemma NoExponent(m: real)
    ensures WithExponent(m, []) == Some(m)
  {
    assert Pow10(0) == 1;
  }

  /** `v` behind the sign `sign`: negated after a minus. */
  function Signed(sign: string, v: real): real {
    if sign == "-" then -v else v
  }

  /** Every character of `ds` is a decimal digit. */
  predicate AllDigits(ds: string) {
    forall k :: 0 <= k < |ds| ==> IsDigit(ds[k], 10)
  }

  /** The value of the decimal numeral `intPart.fracPart`. */
  function DecimalValue(intPart: string, fracPart: string): real {
    DigitsValue(intPart, 10) as real + DigitsValue(fracPart, 10) as real / Pow10(|fracPart|) as real
  }

  /** Text that starts and ends with a visible character is its own trim. */
  lemma TrimmedLiteral(t: string)
    requires t != [] && !IsSpace(t[0]) && !IsSpace(t[|t| - 1])
    ensures Trim(t) == t
  {
    assert TrimStart(t) == t;
    assert TrimEnd(t) == t;
  }

  /** The digit run of `ds + rest` is `ds` when `rest` does not start with a
      digit. */
  lemma {:induction false} SpanOfDigits(ds: string, rest: string)
    requires AllDigits(ds) && (rest == [] || !IsDigit(rest[0], 10))
    ensures DigitSpan(ds + rest, 10) == |ds|
  {
    if |ds| == 0 {
      assert ds + rest == rest;
    } else {
      assert (ds + rest)[0] == ds[0];
      assert (ds + rest)[1..] == ds[1..] + rest;
      SpanOfDigits(ds[1..], rest);
    }
  }

  /** An unsigned literal with a point reads as its digits' value. */
  lemma UnsignedPoint(intPart: string, fracPart: string)
    requires AllDigits(intPart) && AllDigits(fracPart) && |intPart| + |fracPart| > 0
    ensures UnsignedDecimal(intPart + "." + fracPart) == Some(DecimalValue(intPart, fracPart))
  {
    var u := intPart + "." + fracPart;
    SpanOfDigits(intPart, "." + fracPart);
    assert intPart + "." + fracPart == intPart + ("." + fracPart);
    assert u[|intPart|] == '.';
    assert u[..|intPart|] == intPart && u[|intPart| + 1..] == fracPart;
    SpanOfDigits(fracPart, []);
    assert fracPart + [] == fracPart;
    assert fracPart[..|fracPart|] == fracPart && fracPart[|fracPart|..] == [];
    NoExponent(DecimalValue(intPart, fracPart));
  }

  /** `u` starts like an unsigned decimal literal: with a digit or a point,
      and a leading `0` is not followed by a radix letter. */
  predicate DecimalStart(u: string) {
    && u != [] && (IsDigit(u[0], 10) || u[0] == '.')
    && (|u| >= 2 && u[0] == '0' ==> IsDigit(u[1], 10) || u[1] == '.')
  }

  /** `u` ends with a digit or a point. */
  predicate DecimalEnd(u: string) {
    u != [] && (IsDigit(u[|u| - 1], 10) || u[|u| - 1] == '.')
  }

  /** A literal that starts with a digit or a point (and is no `0x`-style
      literal) is read as an unsigned decimal. */
  lemma UnsignedLiteral(u: string, v: real)
    requires DecimalStart(u)
    requires UnsignedDecimal(u) == Some(v)
    ensures LiteralToNumber(u) == Finite(v)
  {
    StartIsPlain(u);
    assert SignedDecimal(u) == Finite(v);
  }

  lemma StartIsPlain(u: string)
    requires DecimalStart(u)
    ensures u[0] != '-' && u[0] != '+' && u != "Infinity"
    ensures !(|u| >= 2 && u[0] == '0' && RadixLetter(u[1]).Some?)
  {
    assert u[0] != 'I';
  }

  /** A sign in front of such a literal negates it or leaves it alone. */
  lemma SignedLiteral(sign: string, u: string, v: real)
    requires sign == "-" || sign == "+"
    requires u != [] && (IsDigit(u[0], 10) || u[0] == '.')
    requires UnsignedDecimal(u) == Some(v)
    ensures LiteralToNumber(sign + u) == Finite(Signed(sign, v))
  {
    var t := sign + u;
    assert t[0] == sign[0] && t[1..] == u;
    assert u != "Infinity" by {
      assert u[0] != 'I';
    }
    SignedDecimalOf(t, v);
    assert (t[0] == '-') == (sign == "-");
  }

  lemma SignedDecimalOf(t: string, v: real)
    requires |t| >= 1 && (t[0] == '-' || t[0] == '+')
    requires t[1..] != "Infinity" && UnsignedDecimal(t[1..]) == Some(v)
    ensures LiteralToNumber(t) == Finite(if t[0] == '-' then -v else v)
  {
    assert LiteralToNumber(t) == SignedDecimal(t);
  }

  /** A signed literal that starts and ends with a digit or a point is its
      own trim. */
  lemma PlainLiteral(sign: string, u: string)
    requires sign == "" || sign == "-" || sign == "+"
    requires DecimalStart(u) && DecimalEnd(u)
    ensures Trim(sign + u) == sign + u
  {
    var t := sign + u;
    assert '0' <= u[0] <= '9' || u[0] == '.';
    assert '0' <= u[|u| - 1] <= '9' || u[|u| - 1] == '.';
    assert t[|t| - 1] == u[|u| - 1];
    assert t[0] == (if sign == [] then u[0] else sign[0]);
    TrimmedLiteral(t);
  }

  /** The shape of `intPart.fracPart` that the literal lemmas ask for. */
  lemma PointLiteral(intPart: string, fracPart: string)
    requires AllDigits(intPart) && AllDigits(fracPart)
    ensures DecimalStart(intPart + "." + fracPart) && DecimalEnd(intPart + "." + fracPart)
  {
    var u := intPart + "." + fracPart;
    assert u[0] == (if intPart == [] then '.' else intPart[0]);
    assert u[|u| - 1] == (if fracPart == [] then '.' else fracPart[|fracPart| - 1]);
    if |u| >= 2 && u[0] == '0' {
      assert intPart != [];
      assert u[1] == (if |intPart| >= 2 then intPart[1] else '.');
    }
  }

  /** An optional sign in front of an unsigned literal. */
  lemma OptionallySigned(sign: string, u: string, v: real)
    requires sign == "" || sign == "-" || sign == "+"
    requires DecimalStart(u)
    requires UnsignedDecimal(u) == Some(v)
    ensures LiteralToNumber(sign + u) == Finite(Signed(sign, v))
  {
    if sign == [] {
      assert sign + u == u;
      UnsignedLiteral(u, v);
    } else {
      SignedLiteral(sign, u, v);
    }
  }

  /** The literal `sign intPart.fracPart`, once trimmed, denotes its digits'
      value. */
  lemma LiteralOfDecimal(sign: string, intPart: string, fracPart: string)
    requires sign == "" || sign == "-" || sign == "+"
    requires AllDigits(intPart) && AllDigits(fracPart) && |intPart| + |fracPart| > 0
    ensures LiteralToNumber(sign + (intPart + "." + fracPart)) == Finite(Signed(sign, DecimalValue(intPart, fracPart)))
  {
    PointLiteral(intPart, fracPart);
    UnsignedPoint(intPart, fracPart);
    OptionallySigned(sign, intPart + "." + fracPart, DecimalValue(intPart, fracPart));
  }

  /** `Number` of a signed decimal with a point, such as `-16.25`, `3.` or
      `.5`: the value of its digits, negated after a minus sign. */
  lemma StringToNumberOfDecimal(sign: string, intPart: string, fracPart: string)
    requires sign == "" || sign == "-" || sign == "+"
    requires AllDigits(intPart) && AllDigits(fracPart) && |intPart| + |fracPart| > 0
    ensures StringToNumber(sign + intPart + "." + fracPart) == Finite(Signed(sign, DecimalValue(intPart, fracPart)))
  {
    var u := intPart + "." + fracPart;
    assert sign + intPart + "." + fracPart == sign + u;
    PointLiteral(intPart, fracPart);
    PlainLiteral(sign, u);
    LiteralOfDecimal(sign, intPart, fracPart);
  }

  /** The literal `sign intPart` denotes the value of its digits. */
  lemma LiteralOfInteger(sign: string, intPart: string)
    requires sign == "" || sign == "-" || sign == "+"
    requires AllDigits(intPart) && |intPart| > 0
    ensures LiteralToNumber(sign + intPart) == Finite(Signed(sign, DigitsValue(intPart, 10) as real))
  {
    assert DecimalStart(intPart) by {
      assert |intPart| >= 2 ==> IsDigit(intPart[1], 10);
    }
    DigitsAsDecimal(intPart);
    OptionallySigned(sign, intPart, DigitsValue(intPart, 10) as real);
  }

  /** `Number` of a signed integer numeral such as `-7` or `+42`. */
  lemma StringToNumberOfInteger(sign: string, intPart: string)
    requires sign == "" || sign == "-" || sign == "+"
    requires AllDigits(intPart) && |intPart| > 0
    ensures StringToNumber(sign + intPart) == Finite(Signed(sign, DigitsValue(intPart, 10) as real))
  {
    assert DecimalStart(intPart) && DecimalEnd(intPart) by {
      assert |intPart| >= 2 ==> IsDigit(intPart[1], 10);
    }
    PlainLiteral(sign, intPart);
    LiteralOfInteger(sign, intPart);
  }

  /** `Number("-16.25")` is -16.25. */
  lemma NegativeDecimalExample()
    ensures StringToNumber("-16.25") == Finite(-16.25)
  {
    assert "-" + "16" + "." + "25" == "-16.25";
    assert AllDigits("16") && AllDigits("25");
    StringToNumberOfDecimal("-", "16", "25");
    DecimalExampleValue();
  }

  lemma DecimalExampleValue()
    ensures DecimalValue("16", "25") == 16.25
  {
    assert DigitsValue("16", 10) == 16 by {
      assert "16"[..1] == "1";
    }
    assert DigitsValue("25", 10) == 25 by {
      assert "25"[..1] == "2";
    }
    assert Pow10(2) == 100;
  }
}
