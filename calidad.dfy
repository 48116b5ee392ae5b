/**
 * `transformar_calidad`: the stock sheet's quality labels folded into the
 * four grades the orders use.
 */
module Calidad {
  import opened Text

  /** The four grades a quality label can become. */
  predicate EsGrado(g: string)
  {
    g == "CLEAR" || g == "MCM" || g == "USA" || g == "MCR"
  }

  /** The label as the comparisons see it: without surrounding blanks and
    * in upper case. */
  function Clave(v: string): string
  {
    UpperAscii(Strip(v))
  }

  /** `transformar_calidad(valor)` on `str(valor)`: it is total and always
    * gives one of the four grades. */
  function TransformarCalidad(v: string): (g: string)
    ensures EsGrado(g)
  {
    Grado(Clave(v))
  }

  /** The grade of a key. */
  function Grado(c: string): (g: string)
    ensures EsGrado(g)
  {
    if c == "CLEAR_GB" then "CLEAR"
    else if c == "MCM_PECA" || c == "MCM" then "MCM"
    else if c == "CLEAR_GB_PECA" || c == "CLEAR_GB_TA" || c == "(EN BLANCO)" || c == "" || c == "NONE"
    then "USA"
    else "MCR"
  }

  /** Case does not matter: an upper-cased label grades the same. */
  lemma CalidadIgnoraMayusculas(v: string)
    ensures TransformarCalidad(UpperAscii(v)) == TransformarCalidad(v)
  {
    ClaveMayusculas(v);
  }

  lemma ClaveMayusculas(v: string)
    ensures Clave(UpperAscii(v)) == Clave(v)
  {
    StripUpper(v);
    UpperAsciiBlanks(Strip(v));
  }

  /** Surrounding blanks do not matter. */
  lemma CalidadIgnoraBlancos(v: string)
    ensures TransformarCalidad(Strip(v)) == TransformarCalidad(v)
  {
    ClaveBlancos(v);
  }

  lemma ClaveBlancos(v: string)
    ensures Clave(Strip(v)) == Clave(v)
  {
    StripIdempotent(v);
  }

  /** An empty cell (`str(None) == "None"`) and a blank label grade as
    * `USA`, whatever the case and the blanks around them. */
  lemma CalidadVacia(v: string)
    requires Clave(v) == "" || Clave(v) == "NONE"
    ensures TransformarCalidad(v) == "USA"
  {
    GradoVacio(Clave(v));
  }

  /** A NaN cell, such as a blank cell of a sheet read with `read_excel`,
    * reaches the function as `str(nan) == "nan"`. Its key `NAN` is none of
    * the blank labels, so it grades as `MCR`, not `USA`. */
  lemma CalidadNan(v: string)
    requires Strip(v) == "nan"
    ensures TransformarCalidad(v) == "MCR"
  {
    assert Clave(v) == "NAN";
  }

  lemma GradoVacio(c: string)
    requires c == "" || c == "NONE"
    ensures Grado(c) == "USA"
  {
    if c == "" {
      assert Grado("") == "USA";
    } else {
      assert Grado("NONE") == "USA";
    }
  }

  /** The mapping is not meant to be applied twice: grading a grade keeps
    * only `MCM`; `CLEAR`, `USA` and `MCR` all become `MCR`. */
  lemma GradoDosVeces(v: string)
    ensures var g := TransformarCalidad(v);
            TransformarCalidad(g) == (if g == "MCM" then "MCM" else "MCR")
  {
    GradoOtraVez(TransformarCalidad(v));
  }

  lemma GradoOtraVez(g: string)
    requires EsGrado(g)
    ensures TransformarCalidad(g) == (if g == "MCM" then "MCM" else "MCR")
  {
    ClaveGrado(g);
  }

  /** A grade is its own key. */
  lemma ClaveGrado(g: string)
    requires EsGrado(g)
    ensures Clave(g) == g
  {
    forall i | 0 <= i < |g| ensures 'A' <= g[i] <= 'Z' {
      if g == "CLEAR" {
        assert g[i] in "CLEAR";
      } else if g == "MCM" {
        assert g[i] in "MCM";
      } else if g == "USA" {
        assert g[i] in "USA";
      } else {
        assert g[i] in "MCR";
      }
    }
    CapitalsFixed(g);
  }
}
