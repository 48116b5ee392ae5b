/**
 * The cell normalisers that bring stock and order measurements to one
 * textual form before the two tables are compared: `convertir_a_coma`
 * (applied when the stock sheet is loaded), `transformar_calidad`, and the
 * display normalisers `fraccion_a_coma`, `normalizar_largo_comun` and
 * `estandarizar_espesor`. Each takes the text `str(valor)` of a cell.
 */
module Normalizers {
  import opened Wrappers
  import opened Text
  import opened Numbers

  // ---------------------------------------------------------------------
  // convertir_a_coma
  // ---------------------------------------------------------------------

  /** `str(valor).strip().replace(",", ".")`: the text every branch parses,
    * and the text returned when parsing fails. */
  function Limpiar(v: string): string
  {
    ReplaceChar(Strip(v), ',', '.')
  }

  function Sumar(a: Option<real>, b: Option<real>): Option<real>
  {
    if a.Some? && b.Some? then Some(a.value + b.value) else None
  }

  /** The value the four branches read from the cleaned text `c`: a whole
    * part and a fraction joined by `_`, or by blanks when the text also
    * has a `/`; a lone fraction; or a decimal. The whole part goes through
    * `float()` and the fraction through `Fraction()`. A split that does not
    * give exactly two pieces raises, and so does any failed parse. No text
    * read here holds a `_`, so the decimal subset is what `float()` and
    * `Fraction()` accept. */
  function LeerMedida(c: string): Option<real>
  {
    if '_' in c then
      var parts := Split(c, '_');
      if |parts| != 2 then None else Sumar(ParseFloat(parts[0]), ParseFraction(parts[1]))
    else if ' ' in c && '/' in c then
      var tokens := SplitWhitespace(c);
      if |tokens| != 2 then None else Sumar(ParseFloat(tokens[0]), ParseFraction(tokens[1]))
    else if '/' in c then ParseFraction(c)
    else ParseFloat(c)
  }

  /** `str(int(x))` for a whole `x`, otherwise `str(round(x, n))` with the
    * decimal point turned into a comma. */
  function ConComa(x: real, n: nat): string
    requires n >= 1
  {
    if IsIntegral(x) then IntToStr(x.Floor) else ReplaceChar(ReprRounded(x, n), '.', ',')
  }

  /** The value a comma-decimal text denotes. */
  function LeerComa(s: string): Option<real>
  {
    ParseFloat(ReplaceChar(s, ',', '.'))
  }

  /** `float(s.replace(",", "."))`: as `LeerComa`, with the digit
    * separators `float()` accepts. */
  function LeerFloatComa(s: string): Option<real>
  {
    PyFloat(ReplaceChar(s, ',', '.'))
  }

  /** Without a `_` the two readings agree. */
  lemma LeerFloatComaSin(s: string)
    requires '_' !in s
    ensures LeerFloatComa(s) == LeerComa(s)
  {
    NoUnderscores(ReplaceChar(s, ',', '.'));
  }

  /** The value `ConComa(x, n)` stands for: `x` itself when whole, else
    * `x` rounded to `n` places. */
  function Redondeo(x: real, n: nat): real
  {
    if IsIntegral(x) then x else Rounded(x, n)
  }

  /** `convertir_a_coma(valor)` on `str(valor)`. */
  function ConvertirAComa(v: string): string
  {
    var c := Limpiar(v);
    match LeerMedida(c)
    case None => c
    case Some(x) => ConComa(x, 4)
  }

  /** The canonical text reads back as the value it renders, rounded to `n`
    * places, and it carries a decimal comma exactly when the value is not
    * whole. */
  lemma ConComaLee(x: real, n: nat)
    requires n >= 1
    ensures LeerComa(ConComa(x, n)) == Some(Redondeo(x, n))
    ensures ',' in ConComa(x, n) <==> !IsIntegral(x)
    ensures '.' !in ConComa(x, n) && '_' !in ConComa(x, n)
  {
    if IsIntegral(x) {
      var s := IntToStr(x.Floor);
      IntToStrNumeral(x.Floor);
      NumeralHasNo(s, ',');
      NumeralHasNo(s, '_');
      ReplaceCharAbsent(s, ',', '.');
      ParseFloatInt(x.Floor);
    } else {
      var r := ReprRounded(x, n);
      ReprRoundedNumeral(x, n);
      NumeralHasNo(r, ',');
      NumeralHasNo(r, '_');
      ReplaceCharKeepsOut(r, '.', ',', '_');
      ReplaceCharBack(r, '.', ',');
      ParseFloatRepr(x, n);
      ReprRoundedPoint(x, n);
      ReplaceCharMembers(r, '.', ',');
    }
  }

  /** What `convertir_a_coma` returns: the cleaned text when no branch can
    * read it, otherwise a canonical text that reads back as the value read,
    * rounded to 4 places, with a comma exactly when that value is not
    * whole. */
  lemma ConvertirAComaResultado(v: string)
    ensures match LeerMedida(Limpiar(v))
            case None => ConvertirAComa(v) == Limpiar(v)
            case Some(x) =>
              && LeerComa(ConvertirAComa(v)) == Some(Redondeo(x, 4))
              && (',' in ConvertirAComa(v) <==> !IsIntegral(x))
  {
    match LeerMedida(Limpiar(v))
    case None =>
    case Some(x) => ConComaLee(x, 4);
  }

  /** The cleaned text has no comma, and cleaning it again changes
    * nothing. */
  lemma LimpiarIdempotente(v: string)
    ensures ',' !in Limpiar(v)
    ensures Limpiar(Limpiar(v)) == Limpiar(v)
  {
    var t := Strip(v);
    var c := Limpiar(v);
    StripBordes(v);
    ReplaceCharMembers(t, ',', '.');
    if c != [] {
      assert !IsSpace(c[0]) && !IsSpace(c[|c| - 1]);
    }
    StripNoop(c);
    ReplaceCharAbsent(c, ',', '.');
  }

  /** A text without surrounding blanks and without commas is already
    * clean. */
  lemma LimpiarNoop(s: string)
    requires s == [] || (!IsSpace(s[0]) && !IsSpace(s[|s| - 1]))
    requires ',' !in s
    ensures Limpiar(s) == s
  {
    StripNoop(s);
    ReplaceCharAbsent(s, ',', '.');
  }

  /** A plain numeral takes the decimal branch. */
  lemma LeerMedidaNumeral(s: string)
    requires Numeral(s)
    ensures LeerMedida(s) == ParseFloat(s)
  {
    NumeralHasNo(s, '_');
    NumeralHasNo(s, '/');
  }

  /** Texts on which `convertir_a_coma` is not idempotent: a value that is
    * not whole but rounds to a whole number at 4 places. */
  predicate RedondeaAEntero(c: string)
  {
    match LeerMedida(c)
    case None => false
    case Some(x) => !IsIntegral(x) && IsIntegral(Rounded(x, 4))
  }

  /** Normalising a normalised cell again changes nothing, except for the
    * values that round to a whole number. */
  lemma ConvertirAComaIdempotente(v: string)
    requires !RedondeaAEntero(Limpiar(v))
    ensures ConvertirAComa(ConvertirAComa(v)) == ConvertirAComa(v)
  {
    var c := Limpiar(v);
    LimpiarIdempotente(v);
    match LeerMedida(c)
    case None =>
    case Some(x) =>
      if IsIntegral(x) {
        CanonicoEntero(x.Floor);
        assert x == x.Floor as real;
      } else {
        CanonicoDecimal(x);
      }
  }

  /** The text of a whole number is a fixed point. */
  lemma CanonicoEntero(z: int)
    ensures ConvertirAComa(IntToStr(z)) == IntToStr(z)
  {
    var r := IntToStr(z);
    IntToStrNumeral(z);
    NumeralHasNo(r, ',');
    LimpiarNoop(r);
    LeerMedidaNumeral(r);
    ParseFloatInt(z);
    assert (z as real).Floor == z;
  }

  /** The text of a value that stays fractional at 4 places is a fixed
    * point. */
  lemma CanonicoDecimal(x: real)
    requires !IsIntegral(x) && !IsIntegral(Rounded(x, 4))
    ensures ConvertirAComa(ConComa(x, 4)) == ConComa(x, 4)
  {
    LimpiarConComa(x);
    ReprRoundedStable(x, 4);
  }

  /** Cleaning the comma text of a value that is not whole gives back
    * `str(round(x, 4))`, which the decimal branch reads as `round(x, 4)`. */
  lemma LimpiarConComa(x: real)
    requires !IsIntegral(x)
    ensures Limpiar(ConComa(x, 4)) == ReprRounded(x, 4)
    ensures LeerMedida(ReprRounded(x, 4)) == Some(Rounded(x, 4))
  {
    var rr := ReprRounded(x, 4);
    var r := ReplaceChar(rr, '.', ',');
    ReprRoundedNumeral(x, 4);
    NumeralHasNo(rr, ',');
    assert !IsSpace(r[0]) && !IsSpace(r[|r| - 1]);
    StripNoop(r);
    ReplaceCharBack(rr, '.', ',');
    LeerMedidaNumeral(rr);
    ParseFloatRepr(x, 4);
  }

  /** The values that round to a whole number lose their decimal part on a
    * second pass: the first pass prints `round(x, 4)` with a comma, the
    * second reads it as whole and prints it bare. */
  lemma ConvertirAComaNoIdempotente(v: string)
    requires RedondeaAEntero(Limpiar(v))
    ensures ',' in ConvertirAComa(v)
    ensures ',' !in ConvertirAComa(ConvertirAComa(v))
  {
    var x := LeerMedida(Limpiar(v)).value;
    ConComaLee(x, 4);
    LimpiarConComa(x);
    ConComaLee(Rounded(x, 4), 4);
  }

  // ---------------------------------------------------------------------
  // The four branches of convertir_a_coma on well-formed inputs
  // ---------------------------------------------------------------------

  /** The text `p/q` of a fraction with natural terms. */
  function TextoFraccion(p: nat, q: nat): string
  {
    NatToStr(p) + "/" + NatToStr(q)
  }

  /** A fraction text is one blank-free word of digits around a `/`. */
  lemma TextoFraccionForma(p: nat, q: nat)
    ensures var f := TextoFraccion(p, q);
            && Word(f) && '/' in f && '_' !in f && ',' !in f
            && IsDigit(f[0]) && IsDigit(f[|f| - 1])
  {
    var a := NatToStr(p);
    var b := NatToStr(q);
    var f := a + "/" + b;
    forall k | 0 <= k < |f| ensures IsDigit(f[k]) || f[k] == '/' {
      if k < |a| {
        assert f[k] == a[k];
      } else if k > |a| {
        assert f[k] == b[k - |a| - 1];
      }
    }
    assert f[|a|] == '/';
    assert f[|f| - 1] == b[|b| - 1];
  }

  /** A non-empty numeral is a word. */
  lemma NumeralWord(s: string)
    requires Numeral(s) && s != []
    ensures Word(s)
  {
    forall k | 0 <= k < |s| ensures !IsSpace(s[k]) {
      assert IsDigit(s[k]) || s[k] == '.' || s[k] == '-';
    }
  }

  /** Two comma-free pieces joined by a character other than a comma, with
    * no blank at either end, are already clean. */
  lemma LimpioPar(a: string, c: char, f: string)
    requires a != [] && f != [] && !IsSpace(a[0]) && !IsSpace(f[|f| - 1])
    requires ',' !in a && ',' !in f && c != ','
    ensures Limpiar(a + [c] + f) == a + [c] + f
  {
    var s := a + [c] + f;
    assert s[0] == a[0];
    assert s[|s| - 1] == f[|f| - 1];
    LimpiarNoop(s);
  }

  /** The `_` branch on one underscore: whole part plus fraction. */
  lemma LeerGuion(s: string, a: string, f: string)
    requires '_' !in a && '_' !in f && s == a + ['_'] + f
    ensures LeerMedida(s) == Sumar(ParseFloat(a), ParseFraction(f))
  {
    SplitTwo(a, '_', f);
    assert s[|a|] == '_';
  }

  /** The blank branch on two words, the second holding the `/`. */
  lemma LeerEspacio(s: string, a: string, f: string)
    requires Word(a) && Word(f) && '_' !in a && '_' !in f && '/' in f
    requires s == a + [' '] + f
    ensures LeerMedida(s) == Sumar(ParseFloat(a), ParseFraction(f))
  {
    PalabrasEspacio(s, a, f);
    SinGuionConBarra(s, a, f);
    assert s[|a|] == ' ';
    LeerMedidaEspacio(s);
  }

  lemma PalabrasEspacio(s: string, a: string, f: string)
    requires Word(a) && Word(f) && '_' !in a && '_' !in f && '/' in f
    requires s == a + [' '] + f
    ensures SplitWhitespace(s) == [a, f]
  {
    assert s[|a|] == ' ';
    assert s[..|a|] == a && s[|a| + 1..] == f;
    SplitWhitespaceTwo(s, a, f);
  }

  lemma SinGuionConBarra(s: string, a: string, f: string)
    requires '_' !in a && '_' !in f && '/' in f
    requires s == a + [' '] + f
    ensures '_' !in s && '/' in s
  {
  }

  lemma LeerMedidaEspacio(c: string)
    requires '_' !in c && ' ' in c && '/' in c
    ensures var t := SplitWhitespace(c);
            LeerMedida(c) == if |t| != 2 then None else Sumar(ParseFloat(t[0]), ParseFraction(t[1]))
  {
  }

  /** A mixed number `z_p/q` reads as `z + p/q`; a zero denominator makes
    * `Fraction` raise and the text comes back unchanged. */
  lemma ConvertirAComaMixto(z: int, p: nat, q: nat)
    ensures var s := IntToStr(z) + "_" + TextoFraccion(p, q);
            ConvertirAComa(s) == if q == 0 then s else ConComa(z as real + p as real / q as real, 4)
  {
    var a, f := PiezasMixto(z, p, q);
    var r := Sumar(ParseFloat(a), ParseFraction(f));
    MixtoSuma(z, p, q, a, f, r);
    GuionLee(a, f, r);
    MixtoCierre(ConvertirAComa(a + "_" + f), a + "_" + f, r, q, if q == 0 then 0.0 else z as real + p as real / q as real);
  }

  /** The `_` branch renders whatever the two pieces add up to. */
  lemma GuionLee(a: string, f: string, r: Option<real>)
    requires Word(a) && Word(f) && '_' !in a && '_' !in f && ',' !in a && ',' !in f
    requires r == Sumar(ParseFloat(a), ParseFraction(f))
    ensures r.None? ==> ConvertirAComa(a + "_" + f) == a + "_" + f
    ensures r.Some? ==> ConvertirAComa(a + "_" + f) == ConComa(r.value, 4)
  {
    var u := LeerGuionLimpio(a, f);
  }

  lemma LeerGuionLimpio(a: string, f: string) returns (r: Option<real>)
    requires Word(a) && Word(f) && '_' !in a && '_' !in f && ',' !in a && ',' !in f
    ensures r == Sumar(ParseFloat(a), ParseFraction(f))
    ensures var s := a + "_" + f;
            ConvertirAComa(s) == if r.None? then s else ConComa(r.value, 4)
  {
    var s := a + "_" + f;
    r := Sumar(ParseFloat(a), ParseFraction(f));
    LimpioPar(a, '_', f);
    LeerGuion(s, a, f);
    ConvertirAComaLeido(s, r);
  }

  /** The same mixed number written with a blank, `z p/q`, reads the same
    * way through the whitespace branch. */
  lemma ConvertirAComaMixtoEspacio(z: int, p: nat, q: nat)
    ensures var s := IntToStr(z) + " " + TextoFraccion(p, q);
            ConvertirAComa(s) == if q == 0 then s else ConComa(z as real + p as real / q as real, 4)
  {
    var a, f := PiezasMixto(z, p, q);
    var r := Sumar(ParseFloat(a), ParseFraction(f));
    MixtoSuma(z, p, q, a, f, r);
    EspacioLee(a, f, r);
    MixtoCierre(ConvertirAComa(a + " " + f), a + " " + f, r, q, if q == 0 then 0.0 else z as real + p as real / q as real);
  }

  /** The whitespace branch renders whatever the two pieces add up to. */
  lemma EspacioLee(a: string, f: string, r: Option<real>)
    requires Word(a) && Word(f) && '_' !in a && '_' !in f && '/' in f && ',' !in a && ',' !in f
    requires r == Sumar(ParseFloat(a), ParseFraction(f))
    ensures r.None? ==> ConvertirAComa(a + " " + f) == a + " " + f
    ensures r.Some? ==> ConvertirAComa(a + " " + f) == ConComa(r.value, 4)
  {
    var u := LeerEspacioLimpio(a, f);
  }

  /** The rendering of a mixed number, once the value it reads is known. */
  lemma MixtoCierre(g: string, s: string, r: Option<real>, q: nat, x: real)
    requires r == if q == 0 then None else Some(x)
    requires r.None? ==> g == s
    requires r.Some? ==> g == ConComa(r.value, 4)
    ensures g == if q == 0 then s else ConComa(x, 4)
  {
  }

  /** What the two pieces of a mixed number add up to. */
  lemma MixtoSuma(z: int, p: nat, q: nat, a: string, f: string, r: Option<real>)
    requires ParseFloat(a) == Some(z as real)
    requires ParseFraction(f) == if q == 0 then None else Some(p as real / q as real)
    requires r == Sumar(ParseFloat(a), ParseFraction(f))
    ensures r == if q == 0 then None else Some(z as real + p as real / q as real)
  {
  }

  /** On a clean text `convertir_a_coma` renders what `LeerMedida` reads,
    * or gives the text back. */
  lemma ConvertirAComaLeido(s: string, r: Option<real>)
    requires Limpiar(s) == s && LeerMedida(s) == r
    ensures ConvertirAComa(s) == if r.None? then s else ConComa(r.value, 4)
  {
  }

  /** The two pieces of a mixed number and what each parses to. */
  lemma PiezasMixto(z: int, p: nat, q: nat) returns (a: string, f: string)
    ensures a == IntToStr(z) && f == TextoFraccion(p, q)
    ensures Word(a) && Word(f) && '_' !in a && '_' !in f && '/' in f && ',' !in a && ',' !in f
    ensures ParseFloat(a) == Some(z as real)
    ensures ParseFraction(f) == if q == 0 then None else Some(p as real / q as real)
  {
    a := IntToStr(z);
    f := TextoFraccion(p, q);
    IntToStrNumeral(z);
    NumeralHasNo(a, '_');
    NumeralHasNo(a, ',');
    NumeralWord(a);
    TextoFraccionForma(p, q);
    ParseFloatInt(z);
    ParseFractionRatio(p, q);
  }

  lemma LeerEspacioLimpio(a: string, f: string) returns (r: Option<real>)
    requires Word(a) && Word(f) && '_' !in a && '_' !in f && '/' in f
    requires ',' !in a && ',' !in f
    ensures r == Sumar(ParseFloat(a), ParseFraction(f))
    ensures var s := a + " " + f;
            ConvertirAComa(s) == if r.None? then s else ConComa(r.value, 4)
  {
    var s := a + " " + f;
    r := Sumar(ParseFloat(a), ParseFraction(f));
    LimpioPar(a, ' ', f);
    LeerEspacio(s, a, f);
    ConvertirAComaLeido(s, r);
  }

  /** A lone fraction `p/q` reads as `p/q`. */
  lemma ConvertirAComaFraccion(p: nat, q: nat)
    ensures var f := TextoFraccion(p, q);
            ConvertirAComa(f) == if q == 0 then f else ConComa(p as real / q as real, 4)
  {
    var f := TextoFraccion(p, q);
    TextoFraccionForma(p, q);
    LimpiarNoop(f);
    LeerMedidaFraccion(f);
    ParseFractionRatio(p, q);
    ConvertirAComaLeido(f, ParseFraction(f));
  }

  /** A blank-free text with a `/` and no `_` takes the fraction branch. */
  lemma LeerMedidaFraccion(c: string)
    requires Word(c) && '_' !in c && '/' in c
    ensures LeerMedida(c) == ParseFraction(c)
  {
    forall k | 0 <= k < |c| ensures c[k] != ' ' {
      assert !IsSpace(c[k]);
    }
  }

  /** A decimal with a comma or a point, `i,f` or `i.f`, reads as its
    * value. */
  lemma ConvertirAComaDecimal(i: string, c: char, f: string)
    requires i != [] && f != [] && AllDigits(i) && AllDigits(f)
    requires c == ',' || c == '.'
    ensures ConvertirAComa(i + [c] + f)
            == ConComa(DecimalValue(i, f), 4)
  {
    LimpiarDecimal(i, c, f);
    LeerDecimal(i, f);
    ConvertirAComaDe(i + [c] + f, i + "." + f, DecimalValue(i, f));
  }

  /** `convertir_a_coma` renders the value read from the cleaned text. */
  lemma ConvertirAComaDe(v: string, c: string, x: real)
    requires Limpiar(v) == c && LeerMedida(c) == Some(x)
    ensures ConvertirAComa(v) == ConComa(x, 4)
  {
  }

  /** Cleaning a decimal turns its separator into a point. */
  lemma LimpiarDecimal(i: string, c: char, f: string)
    requires i != [] && f != [] && AllDigits(i) && AllDigits(f)
    requires c == ',' || c == '.'
    ensures Limpiar(i + [c] + f) == i + "." + f
  {
    var s := i + [c] + f;
    UnsignedTextEnds(s, i, f);
    DigitsHaveNo(i, ',');
    DigitsHaveNo(f, ',');
    ReplaceCharAppend(i + [c], f, ',', '.');
    ReplaceCharAppend(i, [c], ',', '.');
    ReplaceCharAbsent(i, ',', '.');
    ReplaceCharAbsent(f, ',', '.');
    assert ReplaceChar([c], ',', '.') == ".";
  }

  /** A point decimal takes the last branch and reads as its value. */
  lemma LeerDecimal(i: string, f: string)
    requires i != [] && f != [] && AllDigits(i) && AllDigits(f)
    ensures LeerMedida(i + "." + f)
            == Some(DecimalValue(i, f))
  {
    var t := i + "." + f;
    DigitsHaveNo(i, '_');
    DigitsHaveNo(f, '_');
    DigitsHaveNo(i, '/');
    DigitsHaveNo(f, '/');
    assert '_' !in t && '/' !in t;
    UnsignedTextEnds(t, i, f);
    ParseFloatUnsigned(t);
    ParseUnsignedPoint(i, f);
  }

  /** `w + d/10` prints as `w,d`. */
  lemma ConComaUnDecimal(w: nat, d: nat)
    requires 1 <= d <= 9
    ensures ConComa(w as real + d as real / 10.0, 4) == NatToStr(w) + "," + [DigitChar(d)]
  {
    var x := w as real + d as real / 10.0;
    UnDecimalNoEntero(w, d);
    ReprRoundedOneDecimal(w, d, 4);
    DigitsHaveNo(NatToStr(w), '.');
    ConComaFraccion(x, 4, NatToStr(w), [DigitChar(d)]);
  }

  lemma UnDecimalNoEntero(w: nat, d: nat)
    requires 1 <= d <= 9
    ensures !IsIntegral(w as real + d as real / 10.0)
  {
    assert (w as real + d as real / 10.0).Floor == w;
  }

  /** A value that is not whole and prints as `a.b` is written `a,b`. */
  lemma ConComaFraccion(x: real, n: nat, a: string, b: string)
    requires n >= 1 && !IsIntegral(x) && ReprRounded(x, n) == a + "." + b
    requires '.' !in a && '.' !in b
    ensures ConComa(x, n) == a + "," + b
  {
    ReplaceCharAppend(a + ".", b, '.', ',');
    ReplaceCharAppend(a, ".", '.', ',');
    ReplaceCharAbsent(a, '.', ',');
    ReplaceCharAbsent(b, '.', ',');
  }

  /** Whenever `_` appears more than once the split gives more than two
    * pieces, and the cleaned text comes back. */
  lemma LeerMedidaVariosGuiones(c: string)
    requires Count(c, '_') >= 2
    ensures LeerMedida(c) == None
  {
    if '_' !in c {
      CountAbsent(c, '_');
    }
  }

  // ---------------------------------------------------------------------
  // fraccion_a_coma, normalizar_largo_comun, estandarizar_espesor
  // ---------------------------------------------------------------------

  /** The value `fraccion_a_coma` reads from the stripped text `t`: a
    * fraction when it has a `/`, otherwise a decimal after the commas are
    * turned into points. */
  function LeerFraccion(t: string): Option<real>
  {
    if '/' in t then PyFraction(t) else LeerFloatComa(t)
  }

  /** `fraccion_a_coma(valor)`: always `str(round(x, 4))` with a comma, so
    * a whole number keeps a `,0`; the stripped text when nothing parses. */
  function FraccionAComa(v: string): string
  {
    var t := Strip(v);
    match LeerFraccion(t)
    case None => t
    case Some(x) => ReplaceChar(ReprRounded(x, 4), '.', ',')
  }

  /** `normalizar_largo_comun(valor)`: the cleaned text read as a decimal,
    * printed bare when whole and to 3 places with a comma otherwise. */
  function NormalizarLargoComun(v: string): string
  {
    var c := Limpiar(v);
    match PyFloat(c)
    case None => c
    case Some(x) => ConComa(x, 3)
  }

  /** `estandarizar_espesor(valor)`: the text read as a comma decimal,
    * printed bare when whole and to 4 places with a comma otherwise; the
    * text itself when it does not parse. */
  function EstandarizarEspesor(v: string): string
  {
    match LeerFloatComa(v)
    case None => v
    case Some(x) => ConComa(x, 4)
  }

  /** What `fraccion_a_coma` returns: the stripped text when it does not
    * parse, otherwise a comma decimal that always carries a comma and reads
    * back as the value rounded to 4 places. */
  lemma FraccionAComaResultado(v: string)
    ensures match LeerFraccion(Strip(v))
            case None => FraccionAComa(v) == Strip(v)
            case Some(x) =>
              && ',' in FraccionAComa(v) && '.' !in FraccionAComa(v)
              && LeerComa(FraccionAComa(v)) == Some(Rounded(x, 4))
  {
    match LeerFraccion(Strip(v))
    case None =>
    case Some(x) => ComaLee(x, 4);
  }

  /** `str(round(x, n))` with a comma: it has a comma, no point, and reads
    * back as `round(x, n)`. */
  lemma ComaLee(x: real, n: nat)
    requires n >= 1
    ensures var s := ReplaceChar(ReprRounded(x, n), '.', ',');
            ',' in s && '.' !in s && '_' !in s && LeerComa(s) == Some(Rounded(x, n))
  {
    var r := ReprRounded(x, n);
    ReprRoundedNumeral(x, n);
    NumeralHasNo(r, ',');
    NumeralHasNo(r, '_');
    ReplaceCharKeepsOut(r, '.', ',', '_');
    ReplaceCharBack(r, '.', ',');
    ReprRoundedPoint(x, n);
    ReplaceCharMembers(r, '.', ',');
    ParseFloatRepr(x, n);
  }

  /** A whole width `z` comes out of `fraccion_a_coma` as `z,0`. */
  lemma FraccionAComaEntero(z: int)
    ensures FraccionAComa(IntToStr(z)) == IntToStr(z) + ",0"
  {
    var s := IntToStr(z);
    IntToStrNumeral(z);
    NumeralHasNo(s, '/');
    NumeralHasNo(s, ',');
    NumeralHasNo(s, '_');
    assert s[0] != ' ';
    StripNoop(s);
    ReplaceCharAbsent(s, ',', '.');
    NoUnderscores(s);
    ParseFloatInt(z);
    ReprRoundedWhole(z, 4);
    ConComaCero(s);
  }

  /** Turning the point of `s.0` into a comma, for a point-free `s`. */
  lemma ConComaCero(s: string)
    requires '.' !in s
    ensures ReplaceChar(s + ".0", '.', ',') == s + ",0"
  {
    ReplaceCharAppend(s, ".0", '.', ',');
    ReplaceCharAbsent(s, '.', ',');
    assert ReplaceChar(".0", '.', ',') == ",0";
  }

  /** `estandarizar_espesor` removes the `,0` again: on the thickness
    * column the two display normalisers together give back the whole
    * number. */
  lemma EspesorEntero(z: int)
    ensures EstandarizarEspesor(IntToStr(z) + ",0") == IntToStr(z)
    ensures EstandarizarEspesor(FraccionAComa(IntToStr(z))) == IntToStr(z)
  {
    var s := IntToStr(z);
    IntToStrNumeral(z);
    NumeralHasNo(s, ',');
    NumeralHasNo(s, '_');
    assert '_' !in s + ",0";
    LeerFloatComaSin(s + ",0");
    ReplaceCharAppend(s, ",0", ',', '.');
    ReplaceCharAbsent(s, ',', '.');
    assert ReplaceChar(",0", ',', '.') == ".0";
    ReprRoundedWhole(z, 4);
    ParseFloatRepr(z as real, 4);
    RoundedWhole(z, 4);
    assert (z as real).Floor == z;
    FraccionAComaEntero(z);
  }

  /** Whatever `fraccion_a_coma` read, `estandarizar_espesor` on its output
    * prints the value rounded to 4 places, bare when that is whole. */
  lemma EspesorTrasFraccion(v: string)
    ensures match LeerFraccion(Strip(v))
            case None => true
            case Some(x) => EstandarizarEspesor(FraccionAComa(v)) == ConComa(Rounded(x, 4), 4)
  {
    match LeerFraccion(Strip(v))
    case None =>
    case Some(x) =>
      ComaLee(x, 4);
      LeerFloatComaSin(FraccionAComa(v));
  }

  /** What `normalizar_largo_comun` returns: the cleaned text when it does
    * not parse, otherwise a canonical text that reads back as the value
    * rounded to 3 places, with a comma exactly when that value is not
    * whole. */
  lemma NormalizarLargoComunResultado(v: string)
    ensures match PyFloat(Limpiar(v))
            case None => NormalizarLargoComun(v) == Limpiar(v)
            case Some(x) =>
              && LeerComa(NormalizarLargoComun(v)) == Some(Redondeo(x, 3))
              && (',' in NormalizarLargoComun(v) <==> !IsIntegral(x))
  {
    match PyFloat(Limpiar(v))
    case None =>
    case Some(x) => ConComaLee(x, 3);
  }

  /** What `estandarizar_espesor` returns: the text itself when it does not
    * parse, otherwise a canonical text that reads back as the value
    * rounded to 4 places, with a comma exactly when that value is not
    * whole. */
  lemma EstandarizarEspesorResultado(v: string)
    ensures match LeerFloatComa(v)
            case None => EstandarizarEspesor(v) == v
            case Some(x) =>
              && LeerComa(EstandarizarEspesor(v)) == Some(Redondeo(x, 4))
              && (',' in EstandarizarEspesor(v) <==> !IsIntegral(x))
  {
    match LeerFloatComa(v)
    case None =>
    case Some(x) => ConComaLee(x, 4);
  }

  /** Applying `estandarizar_espesor` to its own output changes nothing,
    * except for the values that round to a whole number. */
  lemma EstandarizarEspesorIdempotente(v: string)
    requires LeerFloatComa(v).Some? ==> var x := LeerFloatComa(v).value; IsIntegral(x) || !IsIntegral(Rounded(x, 4))
    ensures EstandarizarEspesor(EstandarizarEspesor(v)) == EstandarizarEspesor(v)
  {
    match LeerFloatComa(v)
    case None =>
    case Some(x) =>
      ConComaLee(x, 4);
      LeerFloatComaSin(ConComa(x, 4));
      if !IsIntegral(x) {
        ReprRoundedStable(x, 4);
      }
  }

  // ---------------------------------------------------------------------
  // Examples
  // ---------------------------------------------------------------------

  lemma EjemploMixto(s: string)
    requires s == "1_1/2"
    ensures ConvertirAComa(s) == "1,5"
  {
    var uno: nat, dos: nat, cinco: nat := 1, 2, 5;
    TextoUnoMedio(s, uno, dos);
    ConvertirAComaMixto(uno, uno, dos);
    UnoYMedio(uno, dos, cinco);
    ConComaUnDecimal(uno, cinco);
    TextoUnoComaCinco(uno, cinco);
  }

  lemma TextoUnoMedio(s: string, u: nat, d: nat)
    requires s == "1_1/2" && u == 1 && d == 2
    ensures s == IntToStr(u) + "_" + TextoFraccion(u, d)
  {
  }

  lemma TextoUnoComaCinco(u: nat, c: nat)
    requires u == 1 && c == 5
    ensures NatToStr(u) + "," + [DigitChar(c)] == "1,5"
  {
  }

  lemma UnoYMedio(u: nat, d: nat, c: nat)
    requires u == 1 && d == 2 && c == 5
    ensures u as real + u as real / d as real == u as real + c as real / 10.0
  {
  }

  lemma EjemploFraccion(s: string)
    requires s == "2/4"
    ensures ConvertirAComa(s) == "0,5"
  {
    var cero: nat, dos: nat, cuatro: nat, cinco: nat := 0, 2, 4, 5;
    TextoDosCuartos(s, dos, cuatro);
    ConvertirAComaFraccion(dos, cuatro);
    Medio(cero, dos, cuatro, cinco);
    ConComaUnDecimal(cero, cinco);
    TextoCeroComaCinco(cero, cinco);
  }

  lemma TextoDosCuartos(s: string, d: nat, q: nat)
    requires s == "2/4" && d == 2 && q == 4
    ensures s == TextoFraccion(d, q)
  {
  }

  lemma TextoCeroComaCinco(z: nat, c: nat)
    requires z == 0 && c == 5
    ensures NatToStr(z) + "," + [DigitChar(c)] == "0,5"
  {
  }

  lemma Medio(z: nat, d: nat, q: nat, c: nat)
    requires z == 0 && d == 2 && q == 4 && c == 5
    ensures d as real / q as real == z as real + c as real / 10.0
  {
  }

  /** With PEP 515 separators `1_1_2` is the number 112 to `float()`, so
    * the three display normalisers print it as a number, while
    * `convertir_a_coma` keeps the text (its `_` split gives three pieces). */
  lemma EjemploSeparadores(s: string)
    requires s == "1_1_2"
    ensures NormalizarLargoComun(s) == "112"
    ensures EstandarizarEspesor(s) == "112"
    ensures FraccionAComa(s) == "112,0"
    ensures ConvertirAComa(s) == s
  {
    var z: int := 112;
    SeparadoresCientoDoce(s, z);
    TextoCientoDoce(z);
    ConComaEnteraEn(z, 3);
    ConComaEnteraEn(z, 4);
    FraccionAComaEnteraEn(s, z);
    SeparadoresSinLeer(s);
  }

  /** The text read by all three: nothing to strip, no comma, no `/`, and
    * its `_`s stand between digits. */
  lemma SeparadoresCientoDoce(s: string, z: int)
    requires s == "1_1_2" && z == 112
    ensures Strip(s) == s && Limpiar(s) == s && ReplaceChar(s, ',', '.') == s && '/' !in s
    ensures PyFloat(s) == Some(z as real)
  {
    StripNoop(s);
    ReplaceCharAbsent(s, ',', '.');
    SeparadoresBienPuestos(s);
    var t := SinSeparadores(s);
    TextoCientoDoce(z);
    ParseFloatInt(z);
  }

  lemma SeparadoresBienPuestos(s: string)
    requires s == "1_1_2"
    ensures UnderscoresBetweenDigits(s)
  {
    forall i | 0 <= i < |s| && s[i] == '_'
      ensures 0 < i < |s| - 1 && IsDigit(s[i - 1]) && IsDigit(s[i + 1])
    {
      assert i == 1 || i == 3;
    }
  }

  lemma SinSeparadores(s: string) returns (t: string)
    requires s == "1_1_2"
    ensures t == DropUnderscores(s) && t == "112"
  {
    assert s[4..][1..] == [] && s[3..][1..] == s[4..] && s[2..][1..] == s[3..] && s[1..][1..] == s[2..];
    assert DropUnderscores(s[4..]) == "2";
    assert DropUnderscores(s[3..]) == "2";
    assert DropUnderscores(s[2..]) == "12";
    assert DropUnderscores(s[1..]) == "12";
    t := DropUnderscores(s);
  }

  lemma TextoCientoDoce(z: int)
    requires z == 112
    ensures IntToStr(z) == "112"
  {
  }

  lemma ConComaEnteraEn(z: int, n: nat)
    requires n >= 1
    ensures ConComa(z as real, n) == IntToStr(z)
  {
    assert (z as real).Floor == z;
  }

  lemma FraccionAComaEnteraEn(s: string, z: int)
    requires Strip(s) == s && ReplaceChar(s, ',', '.') == s && '/' !in s
    requires PyFloat(s) == Some(z as real)
    ensures FraccionAComa(s) == IntToStr(z) + ",0"
  {
    ReprRoundedWhole(z, 4);
    IntToStrNumeral(z);
    ConComaCero(IntToStr(z));
  }

  lemma SeparadoresSinLeer(s: string)
    requires s == "1_1_2"
    ensures ConvertirAComa(s) == s
  {
    StripNoop(s);
    ReplaceCharAbsent(s, ',', '.');
    assert Count(s[3..], '_') >= 1;
    assert Count(s[1..], '_') >= 2;
    assert Count(s, '_') >= 2;
    LeerMedidaVariosGuiones(s);
  }

  /** A zero denominator leaves the text as it was. */
  lemma EjemploDenominadorCero(s: string)
    requires s == "1/0"
    ensures ConvertirAComa(s) == s
  {
    var uno: nat, cero: nat := 1, 0;
    TextoUnoCero(s, uno, cero);
    ConvertirAComaFraccion(uno, cero);
  }

  lemma TextoUnoCero(s: string, u: nat, z: nat)
    requires s == "1/0" && u == 1 && z == 0
    ensures s == TextoFraccion(u, z)
  {
  }

  lemma EjemploEntero(s: string)
    requires s == "3,0"
    ensures ConvertirAComa(s) == "3"
  {
    var i, f := PiezasTresComaCero(s);
    ConvertirAComaDecimal(i, ',', f);
    var tres: int := 3;
    ConComaEntera(DecimalValue(i, f), tres);
    TextoTres(tres);
  }

  lemma PiezasTresComaCero(s: string) returns (i: string, f: string)
    requires s == "3,0"
    ensures i != [] && f != [] && AllDigits(i) && AllDigits(f)
    ensures s == i + [','] + f && DecimalValue(i, f) == 3.0
  {
    i, f := "3", "0";
    assert AllDigits(i) && AllDigits(f);
    assert DigitsValue(i) == 3 && DigitsValue(f) == 0;
  }

  lemma TextoTres(z: int)
    requires z == 3
    ensures IntToStr(z) == "3"
  {
  }

  /** A whole value prints as its integer text. */
  lemma ConComaEntera(x: real, z: int)
    requires x == z as real
    ensures ConComa(x, 4) == IntToStr(z)
  {
    assert x.Floor == z;
  }

  /** `2,99999` is not whole but rounds to the whole number 3 at 4 places,
    * so it becomes `3,0`, and a second pass turns that into `3`. */
  lemma EjemploRedondeaAEntero(s: string)
    requires s == "2,99999"
    ensures RedondeaAEntero(Limpiar(s))
    ensures ConvertirAComa(s) == "3,0"
    ensures ConvertirAComa(ConvertirAComa(s)) == "3"
  {
    var i, f, x := PiezasDosNueves(s);
    ConvertirAComaDecimal(i, ',', f);
    LimpiarDecimal(i, ',', f);
    LeerDecimal(i, f);
    var tres: nat := 3;
    RedondeoDosNueves(x, tres);
    ReprRoundedToWhole(x, 4, tres);
    ConComaTresComaCero(x, tres);
    var t := ConvertirAComa(s);
    EjemploEntero(t);
  }

  lemma PiezasDosNueves(s: string) returns (i: string, f: string, x: real)
    requires s == "2,99999"
    ensures i != [] && f != [] && AllDigits(i) && AllDigits(f)
    ensures s == i + [','] + f && DecimalValue(i, f) == x
    ensures x == 2.0 + 99999.0 / 100000.0
  {
    i, f := "2", "99999";
    assert AllDigits("2") && AllDigits("99999");
    assert DigitsValue("2") == 2;
    DigitsValueAppend("9", '9');
    assert "9" + ['9'] == "99";
    DigitsValueAppend("99", '9');
    assert "99" + ['9'] == "999";
    DigitsValueAppend("999", '9');
    assert "999" + ['9'] == "9999";
    DigitsValueAppend("9999", '9');
    assert "9999" + ['9'] == "99999";
    assert Pow10(5) == 100000;
    x := DecimalValue(i, f);
  }

  lemma RedondeoDosNueves(x: real, m: nat)
    requires x == 2.0 + 99999.0 / 100000.0 && m == 3
    ensures !IsIntegral(x) && x >= 0.0
    ensures RoundHalfEven(Scaled(x, 4)) == m * Pow10(4)
  {
    assert Pow10(4) == 10000;
    assert Scaled(x, 4) == 29999.9;
    assert x.Floor == 2;
  }

  lemma ConComaTresComaCero(x: real, m: nat)
    requires m == 3 && !IsIntegral(x) && ReprRounded(x, 4) == NatToStr(m) + ".0"
    ensures ConComa(x, 4) == "3,0"
  {
    TresPuntoCero(m);
    TresComaCero();
  }

  lemma TresPuntoCero(m: nat)
    requires m == 3
    ensures NatToStr(m) + ".0" == "3.0"
  {
  }

  lemma TresComaCero()
    ensures ReplaceChar("3.0", '.', ',') == "3,0"
  {
    ReplaceCharAppend("3", ".0", '.', ',');
    ReplaceCharAppend(".", "0", '.', ',');
    assert "3" + ".0" == "3.0" && "." + "0" == ".0";
  }
}
