/**
 * Exact-rational reading and writing of the numeric text the normalisers
 * handle: the decimal and fraction literals that Python's `float()` and
 * `fractions.Fraction()` accept, integer rendering (`str(int(x))`) and the
 * text of `str(round(x, n))`. Values are Dafny `real`s, i.e. exact
 * rationals, never binary floats.
 */
module Numbers {
  import opened Wrappers
  import opened Text

  predicate IsDigit(c: char) { '0' <= c <= '9' }

  predicate AllDigits(s: string) { forall i :: 0 <= i < |s| ==> IsDigit(s[i]) }

  function Pow10(k: nat): (p: nat)
    ensures p >= 1
  {
    if k == 0 then 1 else 10 * Pow10(k - 1)
  }

  lemma {:induction false} Pow10Add(a: nat, b: nat)
    ensures Pow10(a + b) == Pow10(a) * Pow10(b)
  {
    if b > 0 {
      Pow10Add(a, b - 1);
      assert Pow10(a + b) == 10 * Pow10(a + b - 1);
    }
  }

  function DigitValue(c: char): nat
    requires IsDigit(c)
  {
    c as int - '0' as int
  }

  function DigitChar(d: nat): (c: char)
    requires d < 10
    ensures IsDigit(c) && DigitValue(c) == d
  {
    ('0' as int + d) as char
  }

  /** The number a string of decimal digits denotes (leading zeros allowed). */
  function DigitsValue(s: string): (n: nat)
    requires AllDigits(s)
  {
    if s == [] then 0 else DigitsValue(s[..|s| - 1]) * 10 + DigitValue(s[|s| - 1])
  }

  lemma DigitsValueAppend(s: string, c: char)
    requires AllDigits(s) && IsDigit(c)
    ensures AllDigits(s + [c]) && DigitsValue(s + [c]) == DigitsValue(s) * 10 + DigitValue(c)
  {
    assert (s + [c])[..|s|] == s;
  }

  /** `str(n)` for a natural number: its shortest decimal spelling. */
  function NatToStr(n: nat): (s: string)
    ensures |s| >= 1 && AllDigits(s) && DigitsValue(s) == n
    ensures |s| > 1 ==> s[0] != '0'
  {
    if n < 10 then [DigitChar(n)]
    else
      var s := NatToStr(n / 10) + [DigitChar(n % 10)];
      DigitsValueAppend(NatToStr(n / 10), DigitChar(n % 10));
      s
  }

  /** `str(i)` for an integer. */
  function IntToStr(i: int): (s: string)
    ensures i >= 0 ==> s == NatToStr(i)
    ensures i < 0 ==> s == "-" + NatToStr(-i)
  {
    if i < 0 then "-" + NatToStr(-i) else NatToStr(i)
  }

  /** Exactly `d` digits spelling `m`, with leading zeros. */
  function Padded(m: nat, d: nat): (s: string)
    requires m < Pow10(d)
    ensures |s| == d && AllDigits(s) && DigitsValue(s) == m
  {
    if d == 0 then []
    else
      assert m / 10 < Pow10(d - 1);
      var s := Padded(m / 10, d - 1) + [DigitChar(m % 10)];
      DigitsValueAppend(Padded(m / 10, d - 1), DigitChar(m % 10));
      s
  }

  function Negate(neg: bool, r: Option<real>): Option<real>
  {
    match r
    case None => None
    case Some(x) => Some(if neg then -x else x)
  }

  /** An unsigned decimal literal without digit separators: digits, at
    * most one `.`, more digits, and at least one digit in all. */
  function ParseUnsigned(s: string): (r: Option<real>)
    ensures r.Some? ==> r.value >= 0.0
  {
    var i := IndexOf(s, '.');
    if i == |s| then
      if s != [] && AllDigits(s) then Some(DigitsValue(s) as real) else None
    else
      var ip := s[..i];
      var fp := s[i + 1..];
      if AllDigits(ip) && AllDigits(fp) && |ip| + |fp| > 0
      then Some(DecimalValue(ip, fp))
      else None
  }

  /** The value of the digits `i`, a point, and the digits `f`. */
  function DecimalValue(i: string, f: string): (v: real)
    requires AllDigits(i) && AllDigits(f)
    ensures v >= 0.0
  {
    var q := DigitsValue(f) as real / Pow10(|f|) as real;
    assert q >= 0.0;
    DigitsValue(i) as real + q
  }

  /** `float(s)` on the decimal subset: surrounding blanks, then an optional
    * sign, then an unsigned decimal literal. `None` is the `ValueError`. */
  function ParseFloat(s: string): Option<real>
  {
    ParseSigned(Strip(s))
  }

  /** An optional sign followed by an unsigned decimal literal. */
  function ParseSigned(t: string): Option<real>
  {
    if |t| > 0 && (t[0] == '+' || t[0] == '-') then Negate(t[0] == '-', ParseUnsigned(t[1..]))
    else ParseUnsigned(t)
  }

  /** The unsigned body `Fraction()` accepts: `num/den` with digits on both
    * sides, or a decimal literal. A zero denominator is `None`: the
    * `ZeroDivisionError` Python raises. */
  function ParseRatio(u: string): (r: Option<real>)
    ensures r.Some? ==> r.value >= 0.0
  {
    var i := IndexOf(u, '/');
    if i == |u| then ParseUnsigned(u)
    else
      var num := u[..i];
      var den := u[i + 1..];
      if num != [] && den != [] && AllDigits(num) && AllDigits(den) && DigitsValue(den) != 0
      then Some(DigitsValue(num) as real / DigitsValue(den) as real)
      else None
  }

  /** `fractions.Fraction(s)` on a string: surrounding blanks, an optional
    * sign, then a ratio or a decimal literal. */
  function ParseFraction(s: string): Option<real>
  {
    ParseSignedRatio(Strip(s))
  }

  /** An optional sign followed by a ratio or an unsigned decimal literal. */
  function ParseSignedRatio(t: string): Option<real>
  {
    if |t| > 0 && (t[0] == '+' || t[0] == '-') then Negate(t[0] == '-', ParseRatio(t[1..]))
    else ParseRatio(t)
  }

  /** PEP 515: a `_` in a numeral may only stand between two digits. */
  predicate UnderscoresBetweenDigits(s: string)
  {
    forall i :: 0 <= i < |s| && s[i] == '_' ==> 0 < i < |s| - 1 && IsDigit(s[i - 1]) && IsDigit(s[i + 1])
  }

  /** `s` with every `_` taken out. */
  function DropUnderscores(s: string): (r: string)
    ensures '_' !in r && |r| <= |s|
  {
    if s == [] then [] else (if s[0] == '_' then [] else [s[0]]) + DropUnderscores(s[1..])
  }

  /** `float(s)` on a string: digit separators are ignored where PEP 515
    * allows them, and any other `_` is a `ValueError`. */
  function PyFloat(s: string): Option<real>
  {
    if UnderscoresBetweenDigits(s) then ParseFloat(DropUnderscores(s)) else None
  }

  /** `fractions.Fraction(s)` on a string, with the digit separators it
    * accepts from Python 3.11 on. */
  function PyFraction(s: string): Option<real>
  {
    if UnderscoresBetweenDigits(s) then ParseFraction(DropUnderscores(s)) else None
  }

  /** Without a `_` there is nothing to take out. */
  lemma {:induction false} DropUnderscoresNoop(s: string)
    requires '_' !in s
    ensures DropUnderscores(s) == s
  {
    if s != [] {
      assert s[0] != '_' && '_' !in s[1..];
      DropUnderscoresNoop(s[1..]);
    }
  }

  /** On a text without `_`, Python reads exactly the decimal subset. */
  lemma NoUnderscores(s: string)
    requires '_' !in s
    ensures PyFloat(s) == ParseFloat(s) && PyFraction(s) == ParseFraction(s)
  {
    DropUnderscoresNoop(s);
  }

  predicate IsIntegral(x: real)
  {
    x == x.Floor as real
  }

  /** Python's `round` of an exact value to an integer: the nearest
    * integer, ties going to the even one. */
  function RoundHalfEven(y: real): (k: int)
    ensures k as real - y <= 0.5 && y - k as real <= 0.5
    ensures (k as real - y == 0.5 || y - k as real == 0.5) ==> k % 2 == 0
  {
    var f := y.Floor;
    var d := y - f as real;
    if d < 0.5 then f
    else if d > 0.5 then f + 1
    else if f % 2 == 0 then f
    else f + 1
  }

  /** Drops trailing zero digits of the `d`-digit fraction `m`, keeping at
    * least one digit: `5000` over 4 digits becomes `5` over 1. */
  function StripZeros(m: nat, d: nat): (r: (nat, nat))
    requires d >= 1 && m < Pow10(d)
    ensures 1 <= r.1 <= d && r.0 < Pow10(r.1)
    ensures r.0 * Pow10(d - r.1) == m
    ensures r.1 == 1 || r.0 % 10 != 0
  {
    if d > 1 && m % 10 == 0 then
      DropZero(m, d);
      var r := StripZeros(m / 10, d - 1);
      ShiftPow(r.0, d, r.1);
      r
    else (m, d)
  }

  lemma DropZero(m: nat, d: nat)
    requires d > 1 && m < Pow10(d) && m % 10 == 0
    ensures m / 10 < Pow10(d - 1) && (m / 10) * 10 == m
  {
    assert Pow10(d) == 10 * Pow10(d - 1);
  }

  lemma ShiftPow(a: nat, d: nat, k: nat)
    requires 1 <= k <= d - 1
    ensures a * Pow10(d - k) == (a * Pow10(d - 1 - k)) * 10
  {
    assert Pow10(d - k) == 10 * Pow10(d - 1 - k);
  }

  /** `x * 10^n`: the value `round(x, n)` rounds to an integer. */
  function Scaled(x: real, n: nat): real
  {
    x * Pow10(n) as real
  }

  /** The value `round(x, n)` gives, as an exact rational. */
  function Rounded(x: real, n: nat): real
  {
    RoundHalfEven(Scaled(x, n)) as real / Pow10(n) as real
  }

  function Quotient(a: nat, p: nat): nat
    requires p >= 1
  {
    a / p
  }

  /** The digits of `a / 10^n` written out: integer part, `.`, and the
    * fraction digits without trailing zeros but at least one. */
  function DecimalText(a: nat, n: nat): (s: string)
    requires n >= 1
  {
    var p := Pow10(n);
    var r := StripZeros(a % p, n);
    NatToStr(Quotient(a, p)) + "." + Padded(r.0, r.1)
  }

  /** `str(round(x, n))` for `n >= 1`: the sign of `x`, then the magnitude
    * of the rounded value as `DecimalText`; a negative `x` that rounds to
    * zero keeps its sign (`-0.0`). */
  function ReprRounded(x: real, n: nat): (s: string)
    requires n >= 1
  {
    Signed(x < 0.0, DecimalText(RoundedDigits(x, n), n))
  }

  /** The magnitude of `round(x, n)` in units of `10^-n`. */
  function RoundedDigits(x: real, n: nat): nat
  {
    var k := RoundHalfEven(Scaled(x, n));
    if k < 0 then -k else k
  }

  /** `t` with a leading minus sign when `neg` holds. */
  function Signed(neg: bool, t: string): string
  {
    if neg then "-" + t else t
  }

  // ---------------------------------------------------------------------
  // Reading back what is written: the parsers invert the renderers.
  // ---------------------------------------------------------------------

  lemma DigitsHaveNo(s: string, c: char)
    requires AllDigits(s) && !IsDigit(c)
    ensures c !in s
  {
  }

  lemma {:induction false} NoSpaceInDigits(s: string)
    requires AllDigits(s) && s != []
    ensures !IsSpace(s[0]) && !IsSpace(s[|s| - 1])
  {
    assert IsDigit(s[0]) && IsDigit(s[|s| - 1]);
  }

  /** A run of digits reads back as the number it spells. */
  lemma ParseUnsignedDigits(s: string)
    requires s != [] && AllDigits(s)
    ensures ParseUnsigned(s) == Some(DigitsValue(s) as real)
  {
    DigitsHaveNo(s, '.');
  }

  /** A text whose first `.` splits it into the digit runs `a` and `b`
    * reads back as integer part plus scaled fraction. */
  lemma ParseUnsignedAt(s: string, a: string, b: string)
    requires AllDigits(a) && AllDigits(b) && |a| + |b| > 0
    requires IndexOf(s, '.') == |a| < |s|
    requires s[..|a|] == a && s[|a| + 1..] == b
    ensures ParseUnsigned(s)
            == Some(DecimalValue(a, b))
  {
  }

  /** `digits . digits` reads back as integer part plus scaled fraction. */
  lemma ParseUnsignedPoint(a: string, b: string)
    requires AllDigits(a) && AllDigits(b) && |a| + |b| > 0
    ensures ParseUnsigned(a + "." + b)
            == Some(DecimalValue(a, b))
  {
    DigitsHaveNo(a, '.');
    ConcatAround(a, '.', b);
    ParseUnsignedAt(a + "." + b, a, b);
  }

  /** `float(str(z)) == z` for every integer `z`. */
  lemma ParseFloatInt(z: int)
    ensures ParseFloat(IntToStr(z)) == Some(z as real)
  {
    if z < 0 {
      ParseFloatNegInt(z);
    } else {
      var s := IntToStr(z);
      NoSpaceInDigits(s);
      StripNoop(s);
      ParseFloatUnsigned(s);
      ParseUnsignedDigits(s);
    }
  }

  lemma ParseFloatNegInt(z: int)
    requires z < 0
    ensures ParseFloat(IntToStr(z)) == Some(z as real)
  {
    var s := IntToStr(z);
    var d := NatToStr(-z);
    NoSpaceInDigits(d);
    assert s[|s| - 1] == d[|d| - 1];
    StripNoop(s);
    assert s[1..] == d;
    ParseFloatSigned(s);
    ParseUnsignedDigits(d);
  }

  /** Splitting `a = q * p + m * e` with `p = pd * e` into an integer part
    * and a fraction: `a / p == q + m / pd`. */
  lemma SplitValue(a: nat, p: nat, q: nat, rem: nat, m: nat, pd: nat, e: nat)
    requires pd >= 1 && e >= 1 && p == pd * e && a == q * p + rem && rem == m * e
    ensures q as real + m as real / pd as real == a as real / p as real
  {
    var bigP := p as real;
    var bigD := pd as real;
    var bigE := e as real;
    assert bigP == bigD * bigE;
    assert a as real == q as real * bigP + m as real * bigE;
    assert a as real / bigP == q as real + (m as real * bigE) / (bigD * bigE);
    assert (m as real * bigE) / (bigD * bigE) == m as real / bigD;
  }

  /** The integer part and the stripped fraction digits of `DecimalText`
    * add up to exactly `a / 10^n`. */
  lemma DecimalTextValue(a: nat, n: nat)
    requires n >= 1
    ensures var p := Pow10(n);
            var r := StripZeros(a % p, n);
            Quotient(a, p) as real + r.0 as real / Pow10(r.1) as real == a as real / p as real
  {
    var p := Pow10(n);
    var r := StripZeros(a % p, n);
    QuotientRemainder(a, p);
    Pow10Add(r.1, n - r.1);
    SplitValue(a, p, Quotient(a, p), a % p, r.0, Pow10(r.1), Pow10(n - r.1));
  }

  lemma QuotientRemainder(a: nat, p: nat)
    requires p >= 1
    ensures a == Quotient(a, p) * p + a % p
  {
  }

  /** `DecimalText(a, n)` reads back as exactly `a / 10^n`. */
  lemma ParseDecimalText(a: nat, n: nat)
    requires n >= 1
    ensures ParseUnsigned(DecimalText(a, n)) == Some(a as real / Pow10(n) as real)
  {
    var p := Pow10(n);
    var r := StripZeros(a % p, n);
    var i := NatToStr(Quotient(a, p));
    var f := Padded(r.0, r.1);
    assert DecimalText(a, n) == i + "." + f;
    DecimalTextValue(a, n);
    ParseUnsignedPointValue(i, f, Quotient(a, p), r.0, r.1, a as real / p as real);
  }

  lemma ParseUnsignedPointValue(i: string, f: string, q: nat, m: nat, d: nat, v: real)
    requires AllDigits(i) && AllDigits(f) && |i| >= 1
    requires DigitsValue(i) == q && DigitsValue(f) == m && |f| == d
    requires q as real + m as real / Pow10(d) as real == v
    ensures ParseUnsigned(i + "." + f) == Some(v)
  {
    ParseUnsignedPoint(i, f);
    DecimalValueIs(i, f);
    assert DecimalValue(i, f) == v;
  }

  lemma DecimalValueIs(i: string, f: string)
    requires AllDigits(i) && AllDigits(f)
    ensures DecimalValue(i, f) == DigitsValue(i) as real + DigitsValue(f) as real / Pow10(|f|) as real
  {
  }

  /** `DecimalText` starts and ends with a digit. */
  lemma DecimalTextEnds(a: nat, n: nat)
    requires n >= 1
    ensures var t := DecimalText(a, n); |t| >= 3 && IsDigit(t[0]) && IsDigit(t[|t| - 1])
  {
    var p := Pow10(n);
    var r := StripZeros(a % p, n);
    var i := NatToStr(Quotient(a, p));
    var f := Padded(r.0, r.1);
    var t := i + "." + f;
    assert t[0] == i[0];
    assert t[|t| - 1] == f[|f| - 1];
  }

  /** What `str(round(x, n))` prints, `float()` reads back as `round(x, n)`. */
  lemma ParseFloatRepr(x: real, n: nat)
    requires n >= 1
    ensures ParseFloat(ReprRounded(x, n)) == Some(Rounded(x, n))
  {
    var t, v := ReprRoundedParts(x, n);
    ParseSignedText(x < 0.0, t, v);
  }

  /** `str(round(x, n))` is a sign and an unsigned literal that reads as the
    * magnitude of `round(x, n)`. */
  lemma ReprRoundedParts(x: real, n: nat) returns (t: string, v: real)
    requires n >= 1
    ensures ReprRounded(x, n) == Signed(x < 0.0, t)
    ensures |t| >= 1 && IsDigit(t[0]) && IsDigit(t[|t| - 1]) && ParseUnsigned(t) == Some(v)
    ensures Rounded(x, n) == if x < 0.0 then -v else v
  {
    var a := RoundedDigits(x, n);
    t := DecimalText(a, n);
    v := a as real / Pow10(n) as real;
    ParseDecimalText(a, n);
    DecimalTextEnds(a, n);
    RoundedValue(x, n);
  }

  /** `round(x, n)` is `RoundedDigits(x, n) / 10^n` with the sign of `x`. */
  lemma RoundedValue(x: real, n: nat)
    ensures var a := RoundedDigits(x, n) as real / Pow10(n) as real;
            Rounded(x, n) == if x < 0.0 then -a else a
  {
    var k := RoundHalfEven(Scaled(x, n));
    ScaledSign(x, n);
    SignedQuotient(x < 0.0, k, RoundedDigits(x, n), Pow10(n) as real);
  }

  lemma SignedQuotient(neg: bool, k: int, a: nat, p: real)
    requires p >= 1.0 && (neg ==> k <= 0) && (!neg ==> k >= 0)
    requires a == if k < 0 then -k else k
    ensures (if neg then -(a as real / p) else a as real / p) == k as real / p
  {
  }

  /** An optional minus sign in front of an unsigned literal that starts
    * and ends with a digit negates what the literal reads as. */
  lemma ParseSignedText(neg: bool, t: string, v: real)
    requires |t| >= 1 && IsDigit(t[0]) && IsDigit(t[|t| - 1])
    requires ParseUnsigned(t) == Some(v)
    ensures ParseFloat(Signed(neg, t)) == Some(if neg then -v else v)
  {
    if neg {
      ParseNegativeText(t, v);
    } else {
      StripNoop(t);
      ParseFloatUnsigned(t);
    }
  }

  lemma ParseNegativeText(t: string, v: real)
    requires |t| >= 1 && IsDigit(t[0]) && IsDigit(t[|t| - 1])
    requires ParseUnsigned(t) == Some(v)
    ensures ParseFloat("-" + t) == Some(-v)
  {
    var s := "-" + t;
    assert s[0] == '-' && s[|s| - 1] == t[|t| - 1];
    DigitNotSpace(t[|t| - 1]);
    StripNoop(s);
    ParseFloatSigned(s);
    assert s[1..] == t;
    assert ParseFloat(s) == Negate(true, Some(v));
    NegateSome(v);
  }

  lemma NegateSome(v: real)
    ensures Negate(true, Some(v)) == Some(-v)
  {
  }

  lemma DigitNotSpace(c: char)
    requires IsDigit(c)
    ensures !IsSpace(c) && !IsSpace('-')
  {
  }

  /** A value scaled by a positive factor keeps its sign, and so does its
    * rounding (up to a zero). */
  lemma ScaledSign(x: real, n: nat)
    ensures x < 0.0 ==> RoundHalfEven(Scaled(x, n)) <= 0
    ensures x >= 0.0 ==> RoundHalfEven(Scaled(x, n)) >= 0
  {
    RoundSign(x, Pow10(n) as real, Scaled(x, n), RoundHalfEven(Scaled(x, n)));
  }

  lemma RoundSign(x: real, p: real, y: real, k: int)
    requires p >= 1.0 && y == x * p
    requires k as real - y <= 0.5 && y - k as real <= 0.5
    ensures x < 0.0 ==> k <= 0
    ensures x >= 0.0 ==> k >= 0
  {
    if x < 0.0 {
      assert y < 0.0;
    } else {
      assert y >= 0.0;
    }
  }

  /** A text whose first `/` splits it into the digit runs `num` and `den`
    * is read by `ParseRatio` as `num / den`, or rejected when `den` is 0. */
  lemma ParseRatioAt(u: string, num: string, den: string)
    requires num != [] && den != [] && AllDigits(num) && AllDigits(den)
    requires IndexOf(u, '/') == |num| < |u|
    requires u[..|num|] == num && u[|num| + 1..] == den
    ensures ParseRatio(u)
            == if DigitsValue(den) != 0
               then Some(DigitsValue(num) as real / DigitsValue(den) as real)
               else None
  {
  }

  /** `Fraction(f"{b}/{c}")` is exactly `b / c` for a non-zero `c`, and a
    * zero denominator is rejected. */
  lemma ParseFractionRatio(b: nat, c: nat)
    ensures c != 0 ==> ParseFraction(NatToStr(b) + "/" + NatToStr(c)) == Some(b as real / c as real)
    ensures c == 0 ==> ParseFraction(NatToStr(b) + "/" + NatToStr(c)) == None
  {
    var nb := NatToStr(b);
    var nc := NatToStr(c);
    var s := nb + "/" + nc;
    DigitsHaveNo(nb, '/');
    ConcatAround(nb, '/', nc);
    UnsignedTextEnds(s, nb, nc);
    ParseRatioAt(s, nb, nc);
    ParseFractionUnsigned(s);
  }

  /** A text that starts with the digit run `a` and ends with the digit
    * run `b` is left alone by `strip()` and carries no sign. */
  lemma UnsignedTextEnds(s: string, a: string, b: string)
    requires a != [] && b != [] && AllDigits(a) && AllDigits(b)
    requires |s| >= |a| + |b| && s[..|a|] == a && s[|s| - |b|..] == b
    ensures Strip(s) == s && IsDigit(s[0])
  {
    assert s[0] == a[0];
    assert s[|s| - 1] == b[|b| - 1];
    StripNoop(s);
  }

  /** On a text `strip()` leaves alone, `float()` and `Fraction()` only
    * look at the sign and the literal. */
  lemma ParseStripped(s: string)
    requires Strip(s) == s
    ensures ParseFloat(s) == ParseSigned(s) && ParseFraction(s) == ParseSignedRatio(s)
  {
  }

  lemma ParseFractionUnsigned(s: string)
    requires Strip(s) == s && s != [] && IsDigit(s[0])
    ensures ParseFraction(s) == ParseRatio(s)
  {
    ParseStripped(s);
  }

  lemma ParseFloatUnsigned(s: string)
    requires Strip(s) == s && s != [] && IsDigit(s[0])
    ensures ParseFloat(s) == ParseUnsigned(s)
  {
    ParseStripped(s);
  }

  lemma ParseFloatSigned(s: string)
    requires Strip(s) == s && |s| > 0 && s[0] == '-'
    ensures ParseFloat(s) == Negate(true, ParseUnsigned(s[1..]))
  {
    ParseStripped(s);
    ParseSignedNegative(s);
  }

  lemma ParseSignedNegative(s: string)
    requires |s| > 0 && s[0] == '-'
    ensures ParseSigned(s) == Negate(true, ParseUnsigned(s[1..]))
  {
  }

  // ---------------------------------------------------------------------
  // Which characters the renderers use.
  // ---------------------------------------------------------------------

  /** Only digits, the decimal point and the minus sign. */
  predicate Numeral(s: string)
  {
    forall i :: 0 <= i < |s| ==> IsDigit(s[i]) || s[i] == '.' || s[i] == '-'
  }

  lemma NumeralHasNo(s: string, c: char)
    requires Numeral(s) && !IsDigit(c) && c != '.' && c != '-'
    ensures c !in s
  {
  }

  lemma NumeralAppend(u: string, v: string)
    requires Numeral(u) && Numeral(v)
    ensures Numeral(u + v)
  {
    forall i | 0 <= i < |u + v|
      ensures IsDigit((u + v)[i]) || (u + v)[i] == '.' || (u + v)[i] == '-'
    {
      if i < |u| { assert (u + v)[i] == u[i]; } else { assert (u + v)[i] == v[i - |u|]; }
    }
  }

  /** `str(z)` is a numeral that starts with a sign or a digit and ends
    * with a digit. */
  lemma IntToStrNumeral(z: int)
    ensures var s := IntToStr(z);
            Numeral(s) && |s| >= 1 && !IsSpace(s[0]) && IsDigit(s[|s| - 1]) && '.' !in s
  {
    var s := IntToStr(z);
    if z < 0 {
      var d := NatToStr(-z);
      NumeralAppend("-", d);
      assert s[|s| - 1] == d[|d| - 1];
      DigitsHaveNo(d, '.');
      assert s == "-" + d;
    } else {
      DigitsHaveNo(s, '.');
    }
  }

  /** `str(round(x, n))` is a numeral that starts with a sign or a digit
    * and ends with a digit. */
  lemma ReprRoundedNumeral(x: real, n: nat)
    requires n >= 1
    ensures var s := ReprRounded(x, n);
            Numeral(s) && |s| >= 1 && !IsSpace(s[0]) && IsDigit(s[|s| - 1])
  {
    var a := RoundedDigits(x, n);
    var t := DecimalText(a, n);
    DecimalTextNumeral(a, n);
    DecimalTextEnds(a, n);
    SignedNumeral(x < 0.0, t);
  }

  lemma DecimalTextNumeral(a: nat, n: nat)
    requires n >= 1
    ensures Numeral(DecimalText(a, n))
  {
    var p := Pow10(n);
    var r := StripZeros(a % p, n);
    var i := NatToStr(Quotient(a, p));
    var f := Padded(r.0, r.1);
    NumeralAppend(i, ".");
    NumeralAppend(i + ".", f);
  }

  lemma SignedNumeral(neg: bool, t: string)
    requires Numeral(t) && |t| >= 1 && IsDigit(t[0]) && IsDigit(t[|t| - 1])
    ensures var s := Signed(neg, t);
            Numeral(s) && |s| >= 1 && !IsSpace(s[0]) && IsDigit(s[|s| - 1])
  {
    if neg {
      var s := "-" + t;
      NumeralAppend("-", t);
      assert s[|s| - 1] == t[|t| - 1];
    }
  }

  /** `str(round(x, n))` always shows a decimal point. */
  lemma ReprRoundedPoint(x: real, n: nat)
    requires n >= 1
    ensures '.' in ReprRounded(x, n)
  {
    var a := RoundedDigits(x, n);
    var p := Pow10(n);
    var i := NatToStr(Quotient(a, p));
    var r := StripZeros(a % p, n);
    var t := i + "." + Padded(r.0, r.1);
    assert t[|i|] == '.';
    var s := Signed(x < 0.0, t);
    if x < 0.0 {
      assert s[|i| + 1] == '.';
    }
  }

  /** A whole `m` written with `n` places is `m` followed by `.0`. */
  lemma DecimalTextWhole(m: nat, n: nat)
    requires n >= 1
    ensures DecimalText(m * Pow10(n), n) == NatToStr(m) + ".0"
  {
    var p := Pow10(n);
    MulNat(m, p);
    DivExact(m, p);
    StripZerosZero(n);
    DecimalTextOf(m * p, n, m, 0);
    assert Padded(0, 1) == "0";
  }

  /** `DecimalText` spelled out from the quotient and the remainder. */
  lemma DecimalTextOf(a: nat, n: nat, q: nat, m: nat)
    requires n >= 1 && Quotient(a, Pow10(n)) == q && a % Pow10(n) == m
    ensures var r := StripZeros(m, n); DecimalText(a, n) == NatToStr(q) + "." + Padded(r.0, r.1)
  {
  }

  lemma DivExact(m: nat, p: nat)
    requires p >= 1
    ensures (m * p) / p == m && (m * p) % p == 0
  {
    var a := m * p;
    var q := a / p;
    var r := a % p;
    var k := m - q;
    assert k * p == r by {
      assert a == q * p + r;
      assert m * p - q * p == (m - q) * p;
    }
    if k >= 1 {
      MulAtLeast(k, p);
    }
  }

  lemma MulNat(a: nat, b: nat)
    ensures a * b >= 0
  {
  }

  lemma MulAtLeast(k: int, p: int)
    requires k >= 1 && p >= 1
    ensures k * p >= p
  {
    assert k * p == (k - 1) * p + p;
    assert (k - 1) * p >= 0;
  }

  lemma {:induction false} StripZerosZero(d: nat)
    requires d >= 1
    ensures StripZeros(0, d) == (0, 1)
  {
    if d > 1 {
      assert 0 < Pow10(d - 1);
      StripZerosZero(d - 1);
    }
  }

  /** A whole number `z` rounded to `n` places prints as `str(z)` followed
    * by `.0`. */
  lemma ReprRoundedWhole(z: int, n: nat)
    requires n >= 1
    ensures ReprRounded(z as real, n) == IntToStr(z) + ".0"
  {
    var m: nat := if z < 0 then -z else z;
    RoundedDigitsWhole(z, n);
    DecimalTextWhole(m, n);
    if z < 0 {
      assert "-" + (NatToStr(m) + ".0") == ("-" + NatToStr(m)) + ".0";
    }
  }

  /** Rounding a whole number changes nothing. */
  lemma RoundedWhole(z: int, n: nat)
    ensures Rounded(z as real, n) == z as real
  {
    var p := Pow10(n);
    ScaledInt(z, n, p);
    RoundWhole(z * p);
    assert (z * p) as real / p as real == z as real;
  }

  lemma RoundedDigitsWhole(z: int, n: nat)
    ensures RoundedDigits(z as real, n) == (if z < 0 then -z else z) * Pow10(n)
  {
    var p := Pow10(n);
    var k := z * p;
    ScaledInt(z, n, p);
    RoundWhole(k);
    if z < 0 {
      assert -k == (-z) * p;
    }
  }

  lemma ScaledInt(z: int, n: nat, p: nat)
    requires p == Pow10(n)
    ensures Scaled(z as real, n) == (z * p) as real
  {
  }

  lemma RoundWhole(k: int)
    ensures RoundHalfEven(k as real) == k
  {
    assert (k as real).Floor == k;
  }

  /** Rounding a value that is already rounded to `n` places, and is not
    * whole, prints the same digits. */
  lemma ReprRoundedStable(x: real, n: nat)
    requires n >= 1 && !IsIntegral(Rounded(x, n))
    ensures ReprRounded(Rounded(x, n), n) == ReprRounded(x, n)
  {
    RoundedDigitsStable(x, n);
    RoundedSignStable(x, n);
  }

  lemma RoundedDigitsStable(x: real, n: nat)
    ensures RoundedDigits(Rounded(x, n), n) == RoundedDigits(x, n)
  {
    var k := RoundHalfEven(Scaled(x, n));
    ScaledRounded(x, n);
    RoundWhole(k);
  }

  lemma RoundedSignStable(x: real, n: nat)
    requires !IsIntegral(Rounded(x, n))
    ensures Rounded(x, n) < 0.0 <==> x < 0.0
  {
    RoundedValue(x, n);
    PositiveQuotient(RoundedDigits(x, n), Pow10(n) as real);
  }

  lemma PositiveQuotient(a: nat, p: real)
    requires a != 0 && p >= 1.0
    ensures a as real / p > 0.0
  {
  }

  /** Scaling `round(x, n)` back by `10^n` gives the rounded integer. */
  lemma ScaledRounded(x: real, n: nat)
    ensures Scaled(Rounded(x, n), n) == RoundHalfEven(Scaled(x, n)) as real
  {
    var k := RoundHalfEven(Scaled(x, n));
    UnscaleScale(k, Pow10(n));
  }

  lemma UnscaleScale(k: int, p: nat)
    requires p >= 1
    ensures k as real / p as real * p as real == k as real
  {
  }

  /** Division with a known quotient and remainder. */
  lemma DivUnique(a: int, p: int, q: int, r: int)
    requires p >= 1 && a == q * p + r && 0 <= r < p
    ensures a / p == q && a % p == r
  {
    var q' := a / p;
    var r' := a % p;
    var k := q - q';
    assert k * p == r' - r by {
      assert q * p - q' * p == (q - q') * p;
    }
    if k >= 1 {
      MulAtLeast(k, p);
    } else if k <= -1 {
      MulAtLeast(-k, p);
    }
  }

  /** A digit `d` followed by `n - 1` zeros loses the zeros. */
  lemma {:induction false} StripZerosDigit(d: nat, n: nat)
    requires 1 <= d <= 9 && n >= 1
    ensures d * Pow10(n - 1) < Pow10(n)
    ensures StripZeros(d * Pow10(n - 1), n) == (d, 1)
  {
    DigitBelow(d, n);
    if n > 1 {
      var p := Pow10(n - 1);
      MulAtLeast(d, p);
      var m: nat := d * p;
      StripZerosDigit(d, n - 1);
      ShiftDigit(d, n);
      StripZerosStep(m, n);
    }
  }

  lemma DigitBelow(d: nat, n: nat)
    requires 1 <= d <= 9 && n >= 1
    ensures d * Pow10(n - 1) < Pow10(n)
  {
    var p := Pow10(n - 1);
    assert Pow10(n) == 10 * p;
    MulAtLeast(10 - d, p);
    assert 10 * p - d * p == (10 - d) * p;
  }

  lemma ShiftDigit(d: nat, n: nat)
    requires n > 1
    ensures (d * Pow10(n - 1)) % 10 == 0 && (d * Pow10(n - 1)) / 10 == d * Pow10(n - 2)
  {
    var e := Pow10(n - 2);
    assert Pow10(n - 1) == 10 * e;
    assert d * Pow10(n - 1) == (d * e) * 10;
    DivUnique(d * Pow10(n - 1), 10, d * e, 0);
  }

  /** One trailing zero dropped. */
  lemma StripZerosStep(m: nat, n: nat)
    requires n > 1 && m < Pow10(n) && m % 10 == 0
    ensures m / 10 < Pow10(n - 1)
    ensures StripZeros(m, n) == StripZeros(m / 10, n - 1)
  {
  }

  /** `w + d/10` for a digit `d` prints as `w.d` at any number of places. */
  lemma ReprRoundedOneDecimal(w: nat, d: nat, n: nat)
    requires 1 <= d <= 9 && n >= 1
    ensures ReprRounded(w as real + d as real / 10.0, n) == NatToStr(w) + "." + [DigitChar(d)]
  {
    OneDecimalDigits(w, d, n);
    OneDecimalText(w, d, n);
  }

  lemma OneDecimalDigits(w: nat, d: nat, n: nat)
    requires n >= 1
    ensures RoundedDigits(w as real + d as real / 10.0, n) == (10 * w + d) * Pow10(n - 1)
  {
    var e := Pow10(n - 1);
    ScaledOneDecimal(w, d, n, e);
    RoundWhole((10 * w + d) * e);
  }

  lemma OneDecimalText(w: nat, d: nat, n: nat)
    requires 1 <= d <= 9 && n >= 1
    ensures DecimalText((10 * w + d) * Pow10(n - 1), n) == NatToStr(w) + "." + [DigitChar(d)]
  {
    var e := Pow10(n - 1);
    var a := (10 * w + d) * e;
    OneDecimalSplit(w, d, n);
    StripZerosDigit(d, n);
    MulNat(d, e);
    MulNat(10 * w + d, e);
    DecimalTextOf(a, n, w, d * e);
    assert Padded(d, 1) == [DigitChar(d)];
  }

  lemma OneDecimalSplit(w: nat, d: nat, n: nat)
    requires 1 <= d <= 9 && n >= 1
    ensures var e := Pow10(n - 1);
            var a := (10 * w + d) * e;
            Quotient(a, Pow10(n)) == w && a % Pow10(n) == d * e
  {
    var e := Pow10(n - 1);
    var a := (10 * w + d) * e;
    assert Pow10(n) == 10 * e;
    assert a == w * (10 * e) + d * e;
    DigitBelow(d, n);
    DivUnique(a, Pow10(n), w, d * e);
  }

  lemma ScaledOneDecimal(w: nat, d: nat, n: nat, e: nat)
    requires n >= 1 && e == Pow10(n - 1)
    ensures Scaled(w as real + d as real / 10.0, n) == ((10 * w + d) * e) as real
  {
    assert Pow10(n) == 10 * e;
    var x := w as real + d as real / 10.0;
    assert x * (10 * e) as real == (10 * w + d) as real * e as real;
  }

  /** A value whose scaled rounding is the whole number `m` prints as
    * `m.0`, and `round(x, n)` is `m`. */
  lemma ReprRoundedToWhole(x: real, n: nat, m: nat)
    requires n >= 1 && x >= 0.0 && RoundHalfEven(Scaled(x, n)) == m * Pow10(n)
    ensures ReprRounded(x, n) == NatToStr(m) + ".0"
    ensures Rounded(x, n) == m as real
  {
    assert ReprRounded(x, n) == NatToStr(m) + ".0" by {
      assert RoundedDigits(x, n) == m * Pow10(n);
      DecimalTextWhole(m, n);
    }
    assert Rounded(x, n) == m as real by {
      DivScale(m, Pow10(n));
    }
  }

  lemma DivScale(m: nat, p: nat)
    requires p >= 1
    ensures (m * p) as real / p as real == m as real
  {
    assert (m * p) as real == m as real * p as real;
  }
}
