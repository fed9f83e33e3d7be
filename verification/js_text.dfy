/** The JavaScript string primitives the app relies on: the white-space class
    shared by `String.prototype.trim` and the regular-expression class `\s`,
    trimming, `parseInt` with no radix argument, and the decimal rendering of
    integers by `Number.prototype.toString`. */
module JsText {
  import opened Options

  /** White space and line terminators as ECMAScript defines them: TAB, VT,
      FF, SPACE, NBSP, ZWNBSP, the other Zs code points, LF, CR, LS and PS. */
  predicate IsSpace(c: char) {
    var n := c as int;
    || (9 <= n <= 13) || n == 0x20 || n == 0xA0 || n == 0x1680
    || (0x2000 <= n <= 0x200A) || n == 0x2028 || n == 0x2029
    || n == 0x202F || n == 0x205F || n == 0x3000 || n == 0xFEFF
  }

  predicate NoSpace(s: string) {
    forall k :: 0 <= k < |s| ==> !IsSpace(s[k])
  }

  /** Drops the leading run of white space. */
  function TrimStart(s: string): (r: string)
    ensures |r| <= |s| && r == s[|s| - |r|..]
    ensures forall k :: 0 <= k < |s| - |r| ==> IsSpace(s[k])
    ensures r == [] || !IsSpace(r[0])
  {
    if |s| == 0 || !IsSpace(s[0]) then s else TrimStart(s[1..])
  }

  /** Drops the trailing run of white space. */
  function TrimEnd(s: string): (r: string)
    ensures |r| <= |s| && r == s[..|r|]
    ensures forall k :: |r| <= k < |s| ==> IsSpace(s[k])
    ensures r == [] || !IsSpace(r[|r| - 1])
  {
    if |s| == 0 || !IsSpace(s[|s| - 1]) then s else TrimEnd(s[..|s| - 1])
  }

  /** `String.prototype.trim`. */
  function Trim(s: string): (r: string)
    ensures r == [] || (!IsSpace(r[0]) && !IsSpace(r[|r| - 1]))
    ensures r == [] <==> forall k :: 0 <= k < |s| ==> IsSpace(s[k])
    ensures |r| <= |TrimStart(s)| && r == TrimStart(s)[..|r|]
    ensures forall k :: |r| <= k < |TrimStart(s)| ==> IsSpace(TrimStart(s)[k])
  {
    var t := TrimStart(s);
    var r := TrimEnd(t);
    AllSpaceWhenTrimmedEmpty(s, t, r);
    r
  }

  lemma AllSpaceWhenTrimmedEmpty(s: string, t: string, r: string)
    requires t == TrimStart(s) && r == TrimEnd(t)
    ensures r == [] ==> forall k :: 0 <= k < |s| ==> IsSpace(s[k])
  {
    if r == [] {
      assert t == [];
    }
  }

  /** The value of `c` as a digit in any radix up to 36; 36 when it is not one. */
  function DigitValue(c: char): nat {
    if '0' <= c <= '9' then (c - '0') as nat
    else if 'a' <= c <= 'z' then (c - 'a') as nat + 10
    else if 'A' <= c <= 'Z' then (c - 'A') as nat + 10
    else 36
  }

  predicate IsDigit(c: char, radix: nat) {
    DigitValue(c) < radix
  }

  /** The length of the longest prefix of `s` made of digits of `radix`. */
  function DigitSpan(s: string, radix: nat): (n: nat)
    ensures n <= |s|
    ensures forall k :: 0 <= k < n ==> IsDigit(s[k], radix)
    ensures n == |s| || !IsDigit(s[n], radix)
  {
    if |s| == 0 || !IsDigit(s[0], radix) then 0 else 1 + DigitSpan(s[1..], radix)
  }

  /** The number a digit string denotes in `radix`, most significant digit first. */
  function DigitsValue(ds: string, radix: nat): nat {
    if |ds| == 0 then 0
    else DigitsValue(ds[..|ds| - 1], radix) * radix + DigitValue(ds[|ds| - 1])
  }

  /** `parseInt(s)`: skip leading white space, read an optional sign and an
      optional `0x`/`0X` prefix (which selects radix 16), then the longest run
      of digits; `None` is NaN, returned when that run is empty. Precision
      loss beyond 2^53 is not modelled. */
  function ParseInt(s: string): Option<int> {
    ParseSigned(TrimStart(s))
  }

  function ParseSigned(t: string): Option<int> {
    if |t| > 0 && t[0] == '-' then
      match ParseMagnitude(t[1..])
      case Some(m) => Some(-m)
      case None => None
    else if |t| > 0 && t[0] == '+' then ParseMagnitude(t[1..])
    else ParseMagnitude(t)
  }

  function ParseMagnitude(u: string): Option<int> {
    if |u| >= 2 && u[0] == '0' && (u[1] == 'x' || u[1] == 'X') then ReadDigits(u[2..], 16)
    else ReadDigits(u, 10)
  }

  /** The value of the longest digit prefix of `v`, or `None` when it is empty. */
  function ReadDigits(v: string, radix: nat): Option<int> {
    var n := DigitSpan(v, radix);
    if n == 0 then None else Some(DigitsValue(v[..n], radix))
  }

  /** No character of `s` is an ASCII digit or letter, so no radix can read a
      digit from it. */
  predicate NoDigitAhead(s: string) {
    forall k :: 0 <= k < |s| ==> DigitValue(s[k]) == 36
  }

  /** Text that does not start, after white space and a sign, with a decimal
      digit is NaN to `parseInt`: `"abc"`, `"NaN"`, `"true"`, `""`. */
  lemma ParseIntNeedsDigit(s: string)
    requires var t := TrimStart(s);
      var u := if |t| > 0 && (t[0] == '-' || t[0] == '+') then t[1..] else t;
      u == [] || !IsDigit(u[0], 10)
    ensures ParseInt(s) == None
  {
    var t := TrimStart(s);
    var u := if |t| > 0 && (t[0] == '-' || t[0] == '+') then t[1..] else t;
    assert ParseSigned(t) == None by {
      assert !(|u| >= 2 && u[0] == '0');
      assert DigitSpan(u, 10) == 0;
      assert ReadDigits(u, 10) == None;
      assert ParseMagnitude(u) == None;
    }
  }

  /** Text whose first character is neither white space, a sign nor a
      decimal digit is NaN to `parseInt`. */
  lemma ParseIntOfNonNumeral(s: string)
    requires |s| > 0 && !IsSpace(s[0]) && s[0] != '-' && s[0] != '+' && !IsDigit(s[0], 10)
    ensures ParseInt(s) == None
  {
    assert TrimStart(s) == s;
    ParseIntNeedsDigit(s);
  }

  /** `parseInt(s) || 0`: NaN (and zero) become 0. */
  function ParseIntOrZero(s: string): int {
    ParseInt(s).GetOr(0)
  }

  function DigitChar(d: nat): (c: char)
    requires d < 10
    ensures IsDigit(c, 10) && DigitValue(c) == d
  {
    ('0' as int + d) as char
  }

  /** The decimal numeral of `n`, as `Number.prototype.toString` writes it. */
  function NatToString(n: nat): (s: string)
    ensures |s| > 0
    ensures forall k :: 0 <= k < |s| ==> IsDigit(s[k], 10)
    ensures DigitsValue(s, 10) == n
    ensures n == 0 || s[0] != '0'
  {
    if n < 10 then [DigitChar(n)]
    else
      var s := NatToString(n / 10) + [DigitChar(n % 10)];
      assert s[..|s| - 1] == NatToString(n / 10);
      s
  }

  function IntToString(n: int): (s: string)
    ensures |s| > 0
  {
    if n < 0 then "-" + NatToString(-n) else NatToString(n)
  }

  /** Reading back what `toString` wrote gives the same integer:
      `parseInt(String(n)) == n`. */
  lemma ParseIntOfZero()
    ensures ParseInt("0") == Some(0)
  {
    ParseIntOfIntToString(0);
    assert IntToString(0) == "0";
  }

  lemma ParseIntOfIntToString(n: int)
    ensures ParseInt(IntToString(n)) == Some(n)
  {
    var m := if n < 0 then -n else n;
    var digits := NatToString(m);
    NumeralMagnitude(m);
    var s := IntToString(n);
    NumeralStartsPlainly(n);
    if n < 0 {
      assert s[1..] == digits;
      assert ParseSigned(s) == Some(-m);
    } else {
      assert ParseSigned(s) == ParseMagnitude(digits);
    }
  }

  lemma NumeralStartsPlainly(n: int)
    ensures TrimStart(IntToString(n)) == IntToString(n)
  {
    var s := IntToString(n);
    if n >= 0 {
      assert IsDigit(s[0], 10);
      assert '0' <= s[0] <= '9';
    }
    assert !IsSpace(s[0]);
  }

  lemma NumeralMagnitude(m: nat)
    ensures ParseMagnitude(NatToString(m)) == Some(m)
  {
    var ds := NatToString(m);
    assert |ds| < 2 || ds[0] != '0';
    ReadAllDigits(ds);
  }

  lemma ReadAllDigits(ds: string)
    requires |ds| > 0 && forall k :: 0 <= k < |ds| ==> IsDigit(ds[k], 10)
    ensures ReadDigits(ds, 10) == Some(DigitsValue(ds, 10) as int)
  {
    assert ds[..|ds|] == ds;
  }

  /** Leading white space never changes what `parseInt` reads. */
  lemma ParseIntSkipsLeadingSpace(s: string, pad: string)
    requires forall k :: 0 <= k < |pad| ==> IsSpace(pad[k])
    ensures ParseInt(pad + s) == ParseInt(s)
  {
    TrimStartSkips(pad, s);
  }

  lemma {:induction false} TrimStartSkips(pad: string, s: string)
    requires forall k :: 0 <= k < |pad| ==> IsSpace(pad[k])
    ensures TrimStart(pad + s) == TrimStart(s)
    decreases |pad|
  {
    if |pad| > 0 {
      assert (pad + s)[1..] == pad[1..] + s;
      TrimStartSkips(pad[1..], s);
    } else {
      assert pad + s == s;
    }
  }
}
