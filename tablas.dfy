/** Tables as the dataframes of the application hold them: a row maps each
  * column name to a cell, and a cell is `None` for a null or the text the
  * value prints as. */
module Tablas {
  import opened Wrappers

  /** A cell: `None` is a null (SQL NULL or Python `None`). */
  type Celda = Option<string>

  /** A row, keyed by column name. */
  type Fila = map<string, Celda>

  /** A table: its column names in order and its rows. */
  datatype Tabla = Tabla(columnas: seq<string>, filas: seq<Fila>)

  /** `str(valor)`, as `astype(str)` gives it: a null prints as `None`. */
  function Texto(c: Celda): string
  {
    match c
    case None => "None"
    case Some(t) => t
  }

  /** The cell of column `col`; a row without that column reads as null. */
  function Valor(f: Fila, col: string): Celda
  {
    if col in f then f[col] else None
  }

  /** No name occurs twice. */
  predicate Distintas<T(==)>(s: seq<T>)
  {
    forall i, j :: 0 <= i < j < |s| ==> s[i] != s[j]
  }

  /** Every row holds exactly the table's columns, and the columns are
    * distinct. */
  predicate Bien(t: Tabla)
  {
    && Distintas(t.columnas)
    && forall i :: 0 <= i < |t.filas| ==> t.filas[i].Keys == set c | c in t.columnas
  }

  // ---------------------------------------------------------------------
  // Keeping the rows that satisfy a condition (boolean indexing)
  // ---------------------------------------------------------------------

  /** `df[mascara]`: the elements of `s` that satisfy `p`, in their order. */
  function Filtrar<T>(s: seq<T>, p: T -> bool): (r: seq<T>)
    ensures |r| <= |s|
  {
    if s == [] then [] else (if p(s[0]) then [s[0]] else []) + Filtrar(s[1..], p)
  }

  /** What filtering keeps: every element it keeps comes from `s` and meets
    * `p`, and every element of `s` that meets `p` is kept. */
  lemma {:induction false} FiltrarMiembros<T>(s: seq<T>, p: T -> bool)
    ensures forall i :: 0 <= i < |Filtrar(s, p)| ==> Filtrar(s, p)[i] in s && p(Filtrar(s, p)[i])
    ensures forall i :: 0 <= i < |s| && p(s[i]) ==> s[i] in Filtrar(s, p)
  {
    if s != [] {
      FiltrarMiembros(s[1..], p);
      assert s == [s[0]] + s[1..];
      var h := if p(s[0]) then [s[0]] else [];
      var r := Filtrar(s[1..], p);
      assert Filtrar(s, p) == h + r;
      forall i | 0 <= i < |h + r|
        ensures (h + r)[i] in s && p((h + r)[i])
      {
        if i >= |h| { assert (h + r)[i] == r[i - |h|]; }
      }
      forall i | 0 <= i < |s| && p(s[i])
        ensures s[i] in h + r
      {
        if i > 0 { assert s[i] == s[1..][i - 1]; }
      }
    }
  }

  /** `a` is `b` with some elements left out and the rest in their
    * original order. */
  predicate Subsecuencia<T(==)>(a: seq<T>, b: seq<T>)
    decreases |b|
  {
    a == [] || (b != [] && ((a[0] == b[0] && Subsecuencia(a[1..], b[1..])) || Subsecuencia(a, b[1..])))
  }

  /** `filas` holds, in their original order, exactly the elements of
    * `origen` that meet `p`, each as many times as `origen` has it. */
  ghost predicate SoloLasQue<T(!new)>(filas: seq<T>, origen: seq<T>, p: T -> bool)
  {
    && Subsecuencia(filas, origen)
    && (forall i :: 0 <= i < |filas| ==> filas[i] in origen && p(filas[i]))
    && (forall i :: 0 <= i < |origen| && p(origen[i]) ==> origen[i] in filas)
    && (forall x :: multiset(filas)[x] == if p(x) then multiset(origen)[x] else 0)
  }

  /** Filtering keeps exactly what meets the condition, in order, with
    * every repeat. */
  lemma FiltrarSoloLasQue<T(!new)>(s: seq<T>, p: T -> bool)
    ensures SoloLasQue(Filtrar(s, p), s, p)
  {
    FiltrarSubsecuencia(s, p);
    FiltrarMiembros(s, p);
    FiltrarCuenta(s, p);
  }

  /** Filtering keeps every copy of an element that meets the condition
    * and no copy of one that does not. */
  lemma {:induction false} FiltrarCuenta<T>(s: seq<T>, p: T -> bool)
    ensures forall x :: multiset(Filtrar(s, p))[x] == if p(x) then multiset(s)[x] else 0
  {
    if s != [] {
      FiltrarCuenta(s[1..], p);
      assert s == [s[0]] + s[1..];
      var h := if p(s[0]) then [s[0]] else [];
      assert Filtrar(s, p) == h + Filtrar(s[1..], p);
      assert multiset(s) == multiset([s[0]]) + multiset(s[1..]);
      assert multiset(Filtrar(s, p)) == multiset(h) + multiset(Filtrar(s[1..], p));
    }
  }

  /** Filtering keeps the order of what it keeps. */
  lemma {:induction false} FiltrarSubsecuencia<T>(s: seq<T>, p: T -> bool)
    ensures Subsecuencia(Filtrar(s, p), s)
  {
    if s != [] {
      var r := Filtrar(s[1..], p);
      FiltrarSubsecuencia(s[1..], p);
      if p(s[0]) {
        assert Filtrar(s, p) == [s[0]] + r;
        assert ([s[0]] + r)[1..] == r;
      } else {
        assert Filtrar(s, p) == r;
      }
    }
  }

  /** Filtering by `p` and then by `q` is filtering once by both. */
  lemma {:induction false} FiltrarDosVeces<T>(s: seq<T>, p: T -> bool, q: T -> bool, pq: T -> bool)
    requires forall x :: pq(x) == (p(x) && q(x))
    ensures Filtrar(Filtrar(s, p), q) == Filtrar(s, pq)
  {
    if s != [] {
      FiltrarDosVeces(s[1..], p, q, pq);
      FiltrarConcat(if p(s[0]) then [s[0]] else [], Filtrar(s[1..], p), q);
    }
  }

  /** Filtering a concatenation filters each part. */
  lemma {:induction false} FiltrarConcat<T>(a: seq<T>, b: seq<T>, p: T -> bool)
    ensures Filtrar(a + b, p) == Filtrar(a, p) + Filtrar(b, p)
  {
    if a != [] {
      var h := if p(a[0]) then [a[0]] else [];
      assert (a + b)[0] == a[0];
      assert (a + b)[1..] == a[1..] + b;
      FiltrarConcat(a[1..], b, p);
      calc {
        Filtrar(a + b, p);
        h + Filtrar(a[1..] + b, p);
        h + (Filtrar(a[1..], p) + Filtrar(b, p));
        (h + Filtrar(a[1..], p)) + Filtrar(b, p);
      }
    } else {
      assert a + b == b;
    }
  }

  /** Filtering by two conditions that agree everywhere gives the same
    * rows. */
  lemma {:induction false} FiltrarIgual<T>(s: seq<T>, p: T -> bool, q: T -> bool)
    requires forall i :: 0 <= i < |s| ==> p(s[i]) == q(s[i])
    ensures Filtrar(s, p) == Filtrar(s, q)
  {
    if s != [] {
      assert forall i :: 0 <= i < |s[1..]| ==> s[1..][i] == s[i + 1];
      FiltrarIgual(s[1..], p, q);
    }
  }

  /** A condition every element meets keeps everything. */
  lemma {:induction false} FiltrarTodo<T>(s: seq<T>, p: T -> bool)
    requires forall x :: p(x)
    ensures Filtrar(s, p) == s
  {
    if s != [] {
      FiltrarTodo(s[1..], p);
    }
  }

  /** A subsequence of a list without repeats has none. */
  lemma {:induction false} SubsecuenciaDistintas<T>(a: seq<T>, b: seq<T>)
    requires Subsecuencia(a, b) && Distintas(b)
    ensures Distintas(a)
    decreases |b|
  {
    if a != [] {
      var rb := b[1..];
      assert Distintas(rb) by {
        forall x, y | 0 <= x < y < |rb|
          ensures rb[x] != rb[y]
        {
          assert b[x + 1] != b[y + 1];
        }
      }
      if a[0] == b[0] && Subsecuencia(a[1..], rb) {
        SubsecuenciaDistintas(a[1..], rb);
        SubsecuenciaMiembros(a[1..], rb);
        forall x, y | 0 <= x < y < |a|
          ensures a[x] != a[y]
        {
          if x == 0 {
            assert a[y] == a[1..][y - 1];
            assert a[y] in rb;
            var j :| 0 <= j < |rb| && rb[j] == a[y];
            assert b[0] != b[j + 1];
          } else {
            assert a[1..][x - 1] != a[1..][y - 1];
          }
        }
      } else {
        SubsecuenciaDistintas(a, rb);
      }
    }
  }

  /** What a subsequence holds, the list holds. */
  lemma {:induction false} SubsecuenciaMiembros<T>(a: seq<T>, b: seq<T>)
    requires Subsecuencia(a, b)
    ensures forall i :: 0 <= i < |a| ==> a[i] in b
    decreases |b|
  {
    if a != [] {
      if a[0] == b[0] && Subsecuencia(a[1..], b[1..]) {
        SubsecuenciaMiembros(a[1..], b[1..]);
        forall i | 0 < i < |a|
          ensures a[i] in b
        {
          assert a[i] == a[1..][i - 1];
          assert a[i] in b[1..];
        }
      } else {
        SubsecuenciaMiembros(a, b[1..]);
        forall i | 0 <= i < |a|
          ensures a[i] in b
        {
          assert a[i] in b[1..];
        }
      }
    }
  }

  /** Keeping the rows that meet `q`, a condition equal to `p`, leaves a
    * well-formed table over the same columns holding, in order, exactly
    * the rows that meet `p`, repeats included. */
  lemma FiltrarTabla(t: Tabla, filas: seq<Fila>, q: Fila -> bool, p: Fila -> bool)
    requires Bien(t) && filas == Filtrar(t.filas, q)
    requires forall f :: q(f) == p(f)
    ensures Bien(Tabla(t.columnas, filas))
    ensures filas == Filtrar(t.filas, p) && SoloLasQue(filas, t.filas, p)
  {
    FiltrarIgual(t.filas, q, p);
    FiltrarSoloLasQue(t.filas, p);
    forall i | 0 <= i < |filas|
      ensures filas[i].Keys == set c | c in t.columnas
    {
      var j :| 0 <= j < |t.filas| && t.filas[j] == filas[i];
    }
  }

  // ---------------------------------------------------------------------
  // Rewriting one column (`df[col] = df[col].apply(g)`)
  // ---------------------------------------------------------------------

  /** Every row's cell in column `col` replaced by `g` of it. */
  function Aplicar(t: Tabla, col: string, g: Celda -> Celda): (r: Tabla)
    ensures r.columnas == t.columnas && |r.filas| == |t.filas|
  {
    Tabla(t.columnas, seq(|t.filas|, i requires 0 <= i < |t.filas| => t.filas[i][col := g(Valor(t.filas[i], col))]))
  }

  /** Rewriting a column of a well-formed table keeps it well formed,
    * changes that column's cells by `g` and no other cell. */
  lemma AplicarResultado(t: Tabla, col: string, g: Celda -> Celda)
    requires Bien(t) && col in t.columnas
    ensures Bien(Aplicar(t, col, g))
    ensures forall i :: 0 <= i < |t.filas| ==> Aplicar(t, col, g).filas[i][col] == g(t.filas[i][col])
    ensures forall i, c :: 0 <= i < |t.filas| && c in t.columnas && c != col ==>
      Aplicar(t, col, g).filas[i][c] == t.filas[i][c]
  {
    var r := Aplicar(t, col, g);
    forall i | 0 <= i < |r.filas|
      ensures r.filas[i].Keys == set c | c in r.columnas
    {
      assert r.filas[i].Keys == t.filas[i].Keys + {col};
    }
    forall i | 0 <= i < |t.filas|
      ensures r.filas[i][col] == g(t.filas[i][col])
    {
      assert col in t.filas[i].Keys;
      assert r.filas[i] == t.filas[i][col := g(Valor(t.filas[i], col))];
    }
  }
}
