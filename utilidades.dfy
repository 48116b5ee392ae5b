/** The small list and table utilities around the two views: which OFAs
  * are new, the column order the grids show, the columns dropped from a
  * stock sheet, and the sidebar filter of the second application. */
module Utilidades {
  import opened Wrappers
  import opened Text
  import opened Numbers
  import opened Tablas

  // ---------------------------------------------------------------------
  // New OFAs
  // ---------------------------------------------------------------------

  /** The identifier of an order line already loaded: `OFA_Pos.OFA`. */
  function IdUnico(f: Fila): string
  {
    Texto(Valor(f, "OFA")) + "_" + Texto(Valor(f, "Pos.OFA"))
  }

  function Actuales(existentes: Tabla): set<string>
  {
    set i | 0 <= i < |existentes.filas| :: IdUnico(existentes.filas[i])
  }

  /** The identifier an extracted OFA would get: its first position is
    * always `10`. */
  function IdNuevo(ofa: string): string
  {
    ofa + "_10"
  }

  function IdsExtraidos(extraidas: seq<string>): set<string>
  {
    set i | 0 <= i < |extraidas| :: IdNuevo(extraidas[i])
  }

  /** `id.split("_")[0]`. */
  function Primero(id: string): string
  {
    Split(id, '_')[0]
  }

  /** Each identifier of `ids` cut back to the text before its first `_`. */
  function Cortados(ids: set<string>): set<string>
  {
    set id | id in ids :: Primero(id)
  }

  /** The new-OFA step: the identifiers of the extracted OFAs that are not
    * loaded yet, visited in the unspecified order of a set, each cut back
    * to the text before its first `_`. `orden` is that visiting order. */
  method NuevasOfas(extraidas: seq<string>, existentes: Tabla) returns (nuevas: seq<string>, ghost orden: seq<string>)
    ensures |nuevas| == |IdsExtraidos(extraidas) - Actuales(existentes)|
    ensures forall x :: x in nuevas <==> x in Cortados(IdsExtraidos(extraidas) - Actuales(existentes))
    ensures Distintas(orden)
    ensures forall id :: id in orden <==> id in IdsExtraidos(extraidas) && id !in Actuales(existentes)
    ensures |nuevas| == |orden| && forall i :: 0 <= i < |orden| ==> nuevas[i] == Primero(orden[i])
  {
    nuevas, orden := [], [];
    if extraidas == [] {
      assert IdsExtraidos(extraidas) == {};
      return;
    }
    var actuales := Actuales(existentes);
    var ids := IdsExtraidos(extraidas);
    var pendientes := ids;
    while pendientes != {}
      invariant pendientes <= ids
      invariant Distintas(orden)
      invariant forall id :: id in orden <==> id in ids - pendientes && id !in actuales
      invariant |nuevas| == |orden| && forall i :: 0 <= i < |orden| ==> nuevas[i] == Primero(orden[i])
      decreases |pendientes|
    {
      var id :| id in pendientes;
      if id !in actuales {
        nuevas := nuevas + [Primero(id)];
        orden := orden + [id];
      }
      pendientes := pendientes - {id};
    }
    ListaDeConjunto(orden, ids - actuales);
    NuevasCortadas(nuevas, orden, ids - actuales);
  }

  /** A list without repeats that holds exactly the set `d` is as long as
    * `d` is large. */
  lemma {:induction false} ListaDeConjunto(orden: seq<string>, d: set<string>)
    requires Distintas(orden)
    requires forall id :: id in orden <==> id in d
    ensures |orden| == |d|
  {
    if orden != [] {
      var u := orden[|orden| - 1];
      var resto := orden[..|orden| - 1];
      assert orden == resto + [u];
      forall a, b | 0 <= a < b < |resto|
        ensures resto[a] != resto[b]
      {
        assert orden[a] != orden[b];
      }
      forall id
        ensures id in resto <==> id in d - {u}
      {
        if id in resto {
          var j :| 0 <= j < |resto| && resto[j] == id;
          assert orden[j] != orden[|orden| - 1];
        }
      }
      ListaDeConjunto(resto, d - {u});
    } else {
      assert forall id :: id !in d;
      assert d == {};
    }
  }

  /** Cutting back each identifier of a list that holds exactly the set `d`
    * gives exactly the cut-back identifiers of `d`. */
  lemma NuevasCortadas(nuevas: seq<string>, orden: seq<string>, d: set<string>)
    requires forall id :: id in orden <==> id in d
    requires |nuevas| == |orden| && forall i :: 0 <= i < |orden| ==> nuevas[i] == Primero(orden[i])
    ensures forall x :: x in nuevas <==> x in Cortados(d)
  {
    forall x
      ensures x in nuevas <==> x in Cortados(d)
    {
      if x in nuevas {
        var i :| 0 <= i < |nuevas| && nuevas[i] == x;
        assert orden[i] in orden;
      }
      if x in Cortados(d) {
        var id :| id in d && Primero(id) == x;
        var i :| 0 <= i < |orden| && orden[i] == id;
        assert nuevas[i] == x;
      }
    }
  }

  /** An OFA without `_` comes back out of its identifier. */
  lemma PrimeroIdNuevo(ofa: string)
    requires '_' !in ofa
    ensures Primero(IdNuevo(ofa)) == ofa
  {
    assert IdNuevo(ofa) == ofa + ['_'] + "10";
    SplitTwo(ofa, '_', "10");
  }

  /** The OFAs found in the mail are `510000` followed by digits, so none
    * has a `_`; then the new-OFA list repeats nothing and holds exactly
    * the extracted OFAs whose `OFA_10` identifier is not loaded. */
  lemma NuevasOfasExactas(extraidas: seq<string>, existentes: Tabla, nuevas: seq<string>, orden: seq<string>)
    requires forall i :: 0 <= i < |extraidas| ==> '_' !in extraidas[i]
    requires Distintas(orden)
    requires forall id :: id in orden <==> id in IdsExtraidos(extraidas) && id !in Actuales(existentes)
    requires |nuevas| == |orden| && forall i :: 0 <= i < |orden| ==> nuevas[i] == Primero(orden[i])
    ensures Distintas(nuevas)
    ensures forall x :: x in nuevas <==> x in extraidas && IdNuevo(x) !in Actuales(existentes)
  {
    forall i | 0 <= i < |orden|
      ensures nuevas[i] in extraidas && orden[i] == IdNuevo(nuevas[i])
    {
      assert orden[i] in IdsExtraidos(extraidas);
      var j :| 0 <= j < |extraidas| && orden[i] == IdNuevo(extraidas[j]);
      PrimeroIdNuevo(extraidas[j]);
    }
    forall a, b | 0 <= a < b < |nuevas|
      ensures nuevas[a] != nuevas[b]
    {
      assert orden[a] != orden[b];
    }
    forall x | x in extraidas && IdNuevo(x) !in Actuales(existentes)
      ensures x in nuevas
    {
      var j :| 0 <= j < |extraidas| && extraidas[j] == x;
      assert IdNuevo(x) in IdsExtraidos(extraidas);
      var i :| 0 <= i < |orden| && orden[i] == IdNuevo(x);
      PrimeroIdNuevo(x);
    }
    forall x | x in nuevas
      ensures IdNuevo(x) !in Actuales(existentes)
    {
      var i :| 0 <= i < |nuevas| && nuevas[i] == x;
      assert orden[i] in orden;
    }
  }

  // ---------------------------------------------------------------------
  // Column order
  // ---------------------------------------------------------------------

  function Presente(columnas: seq<string>): string -> bool
  {
    c => c in columnas
  }

  function Ausente(lista: seq<string>): string -> bool
  {
    c => c !in lista
  }

  /** The stock grid's order: the priority columns the table has, in
    * priority order, then every column not in the priority list, in table
    * order. */
  function Priorizar(columnas: seq<string>, prioridad: seq<string>): seq<string>
  {
    Filtrar(prioridad, Presente(columnas)) + Filtrar(columnas, Ausente(prioridad))
  }

  /** The order grid's order: the listed columns the table has, then the
    * columns that are not among those. */
  function Ordenar(columnas: seq<string>, orden: seq<string>): seq<string>
  {
    var validas := Filtrar(orden, Presente(columnas));
    validas + Filtrar(columnas, Ausente(validas))
  }

  const OrdenPedidos := ["Maq", "Sec", "OFA", "Pos.OFA", "Materia", "Textomat", "SemanaPues",
    "Fec.Puesta", "FechaOFA", "EspesroMP", "AnchoMP", "LAR_DEC", "CalidadMP", "Vol#M3", "TEMPLATE"]

  const PrioridadStock := ["ESP_CUB", "ANC_CUB", "LAR_CUB", "CALIDAD", "M3"]

  /** `df[nuevas]`: the same rows seen through a new column list. */
  function Reordenar(t: Tabla, columnas: seq<string>): Tabla
  {
    Tabla(columnas, t.filas)
  }

  /** The two ways the grids write the reordering give the same list. */
  lemma OrdenarEsPriorizar(columnas: seq<string>, orden: seq<string>)
    ensures Ordenar(columnas, orden) == Priorizar(columnas, orden)
  {
    var validas := Filtrar(orden, Presente(columnas));
    FiltrarMiembros(orden, Presente(columnas));
    forall i | 0 <= i < |columnas|
      ensures Ausente(validas)(columnas[i]) == Ausente(orden)(columnas[i])
    {
      var c := columnas[i];
      if c in orden {
        var j :| 0 <= j < |orden| && orden[j] == c;
        assert Presente(columnas)(orden[j]);
      }
      if c in validas {
        var j :| 0 <= j < |validas| && validas[j] == c;
      }
    }
    FiltrarIgual(columnas, Ausente(validas), Ausente(orden));
  }

  /** A list without repeats holds each of its elements once. */
  lemma {:induction false} MultiplicidadDistintas<T>(s: seq<T>)
    requires Distintas(s)
    ensures forall x :: multiset(s)[x] == if x in s then 1 else 0
  {
    if s != [] {
      var resto := s[1..];
      assert Distintas(resto) by {
        forall a, b | 0 <= a < b < |resto|
          ensures resto[a] != resto[b]
        {
          assert s[a + 1] != s[b + 1];
        }
      }
      MultiplicidadDistintas(resto);
      assert s == [s[0]] + resto;
      assert s[0] !in resto by {
        forall j | 0 <= j < |resto|
          ensures resto[j] != s[0]
        {
          assert s[j + 1] != s[0];
        }
      }
    }
  }

  /** Two lists without repeats and with the same elements are
    * permutations of each other. */
  lemma MismosElementos<T>(a: seq<T>, b: seq<T>)
    requires Distintas(a) && Distintas(b)
    requires forall x :: x in a <==> x in b
    ensures multiset(a) == multiset(b)
  {
    MultiplicidadDistintas(a);
    MultiplicidadDistintas(b);
    assert forall x :: multiset(a)[x] == multiset(b)[x];
  }

  /** Two lists without repeats and with no element in common make a list
    * without repeats. */
  lemma DistintasConcat<T>(a: seq<T>, b: seq<T>)
    requires Distintas(a) && Distintas(b)
    requires forall j :: 0 <= j < |b| ==> b[j] !in a
    ensures Distintas(a + b)
  {
    var u := a + b;
    forall x, y | 0 <= x < y < |u|
      ensures u[x] != u[y]
    {
      if y < |a| {
        assert u[x] == a[x] && u[y] == a[y];
      } else if x < |a| {
        assert u[x] == a[x] && u[y] == b[y - |a|];
      } else {
        assert u[x] == b[x - |a|] && u[y] == b[y - |a|];
      }
    }
  }

  /** With no repeated names, the reordered list is a permutation of the
    * table's columns without repeats, and the priority columns the table
    * has come first, in priority order. */
  lemma PriorizarPermutacion(columnas: seq<string>, prioridad: seq<string>)
    requires Distintas(columnas) && Distintas(prioridad)
    ensures multiset(Priorizar(columnas, prioridad)) == multiset(columnas)
    ensures Distintas(Priorizar(columnas, prioridad))
    ensures Priorizar(columnas, prioridad)[..|Filtrar(prioridad, Presente(columnas))|] == Filtrar(prioridad, Presente(columnas))
  {
    var a := Filtrar(prioridad, Presente(columnas));
    var b := Filtrar(columnas, Ausente(prioridad));
    FiltrarMiembros(prioridad, Presente(columnas));
    FiltrarMiembros(columnas, Ausente(prioridad));
    FiltrarSubsecuencia(prioridad, Presente(columnas));
    FiltrarSubsecuencia(columnas, Ausente(prioridad));
    SubsecuenciaDistintas(a, prioridad);
    SubsecuenciaDistintas(b, columnas);
    forall j | 0 <= j < |b|
      ensures b[j] !in a
    {
      assert Ausente(prioridad)(b[j]);
    }
    DistintasConcat(a, b);
    forall x
      ensures x in a + b <==> x in columnas
    {
      if x in columnas {
        var j :| 0 <= j < |columnas| && columnas[j] == x;
        if x in prioridad {
          var i :| 0 <= i < |prioridad| && prioridad[i] == x;
          assert Presente(columnas)(prioridad[i]);
        } else {
          assert Ausente(prioridad)(columnas[j]);
        }
      }
      if x in a {
        var i :| 0 <= i < |a| && a[i] == x;
      }
      if x in b {
        var i :| 0 <= i < |b| && b[i] == x;
      }
    }
    MismosElementos(a + b, columnas);
    assert (a + b)[..|a|] == a;
  }

  /** Reordering the columns of a well-formed table with a permutation of
    * them gives a well-formed table with the same rows. */
  lemma ReordenarBien(t: Tabla, columnas: seq<string>)
    requires Bien(t) && Distintas(columnas) && multiset(columnas) == multiset(t.columnas)
    ensures Bien(Reordenar(t, columnas)) && Reordenar(t, columnas).filas == t.filas
  {
    assert forall c :: c in columnas <==> c in multiset(columnas);
    assert forall c :: c in t.columnas <==> c in multiset(t.columnas);
    assert (set c | c in columnas) == set c | c in t.columnas;
  }

  // ---------------------------------------------------------------------
  // Dropping the CAMP columns of a stock sheet
  // ---------------------------------------------------------------------

  /** A column the stock loader drops: its upper-cased name starts with
    * `CAMP`. */
  predicate EsCamp(c: string)
  {
    StartsWith(UpperAscii(c), "CAMP")
  }

  function NoCamp(): string -> bool
  {
    c => !EsCamp(c)
  }

  /** A row without its CAMP cells. */
  function FilaSinCamp(f: Fila): Fila
  {
    map c | c in f && !EsCamp(c) :: f[c]
  }

  /** The sheet without its CAMP columns; every row keeps its other cells. */
  function SinCamp(t: Tabla): Tabla
  {
    Tabla(Filtrar(t.columnas, NoCamp()), seq(|t.filas|, i requires 0 <= i < |t.filas| => FilaSinCamp(t.filas[i])))
  }

  /** The kept names are exactly the names that are not CAMP names. */
  lemma SinCampColumnas(columnas: seq<string>)
    ensures forall c :: c in Filtrar(columnas, NoCamp()) <==> c in columnas && !EsCamp(c)
  {
    var cols := Filtrar(columnas, NoCamp());
    FiltrarMiembros(columnas, NoCamp());
    forall c
      ensures c in cols <==> c in columnas && !EsCamp(c)
    {
      if c in cols {
        var j :| 0 <= j < |cols| && cols[j] == c;
      }
      if c in columnas && !EsCamp(c) {
        var j :| 0 <= j < |columnas| && columnas[j] == c;
        assert NoCamp()(columnas[j]);
      }
    }
  }

  /** A row over the sheet's columns becomes a row over the kept ones. */
  lemma SinCampFila(f: Fila, columnas: seq<string>)
    requires f.Keys == set c | c in columnas
    ensures FilaSinCamp(f).Keys == set c | c in Filtrar(columnas, NoCamp())
  {
    SinCampColumnas(columnas);
  }

  /** Exactly the columns that are not CAMP columns remain, in their order;
    * the rows are the same rows, each with its cells for those columns, and
    * the table stays well formed. */
  lemma SinCampResultado(t: Tabla)
    requires Bien(t)
    ensures Bien(SinCamp(t))
    ensures SoloLasQue(SinCamp(t).columnas, t.columnas, NoCamp())
    ensures |SinCamp(t).filas| == |t.filas|
    ensures forall i, c :: 0 <= i < |t.filas| && c in SinCamp(t).columnas ==> SinCamp(t).filas[i][c] == t.filas[i][c]
  {
    var r := SinCamp(t);
    FiltrarSoloLasQue(t.columnas, NoCamp());
    SubsecuenciaDistintas(r.columnas, t.columnas);
    SinCampColumnas(t.columnas);
    forall i | 0 <= i < |r.filas|
      ensures r.filas[i].Keys == set c | c in r.columnas
    {
      SinCampFila(t.filas[i], t.columnas);
    }
  }

  // ---------------------------------------------------------------------
  // The sidebar filter
  // ---------------------------------------------------------------------

  /** What the sidebar chose for one column: nothing, a list of values, or
    * a closed range. */
  datatype Filtro =
    | Ninguno
    | Lista(valores: seq<Celda>)
    | Rango(desde: real, hasta: real)

  /** The number a numeric column holds; a null is NaN, which no comparison
    * lets through. */
  function Numero(c: Celda): Option<real>
  {
    match c
    case None => None
    case Some(t) => ParseFloat(t)
  }

  /** Whether a row passes the filter on column `col`. A range only
    * applies to a numeric column, and both of its ends are included. */
  predicate Deja(col: string, filtro: Filtro, numericas: set<string>, f: Fila)
  {
    match filtro
    case Ninguno => true
    case Lista(valores) => Valor(f, col) in valores
    case Rango(desde, hasta) =>
      col in numericas ==>
        match Numero(Valor(f, col))
        case None => false
        case Some(x) => desde <= x <= hasta
  }

  function Mascara(col: string, filtro: Filtro, numericas: set<string>): Fila -> bool
  {
    f => Deja(col, filtro, numericas, f)
  }

  /** Row `f` passes the first `k` filters. */
  predicate DejanHasta(filtros: seq<(string, Filtro)>, numericas: set<string>, k: nat, f: Fila)
    requires k <= |filtros|
  {
    k == 0 || (DejanHasta(filtros, numericas, k - 1, f) && Deja(filtros[k - 1].0, filtros[k - 1].1, numericas, f))
  }

  function Superan(filtros: seq<(string, Filtro)>, numericas: set<string>, k: nat): Fila -> bool
    requires k <= |filtros|
  {
    f => DejanHasta(filtros, numericas, k, f)
  }

  /** Passing the first `k` filters is passing each of them. */
  lemma {:induction false} DejanHastaCada(filtros: seq<(string, Filtro)>, numericas: set<string>, k: nat, f: Fila)
    requires k <= |filtros|
    ensures DejanHasta(filtros, numericas, k, f) <==>
      forall j :: 0 <= j < k ==> Deja(filtros[j].0, filtros[j].1, numericas, f)
  {
    if k > 0 {
      DejanHastaCada(filtros, numericas, k - 1, f);
    }
  }

  /** One more filter on what the first `k` left leaves what the first
    * `k + 1` leave. */
  lemma FiltroAvanza(s: seq<Fila>, filtros: seq<(string, Filtro)>, numericas: set<string>, k: nat)
    requires k < |filtros|
    ensures Filtrar(Filtrar(s, Superan(filtros, numericas, k)), Mascara(filtros[k].0, filtros[k].1, numericas))
      == Filtrar(s, Superan(filtros, numericas, k + 1))
  {
    FiltrarDosVeces(s, Superan(filtros, numericas, k), Mascara(filtros[k].0, filtros[k].1, numericas),
      Superan(filtros, numericas, k + 1));
  }

  /** A filter the loop skips lets every row through. */
  lemma FiltroOmitido(s: seq<Fila>, filtros: seq<(string, Filtro)>, numericas: set<string>, k: nat)
    requires k < |filtros|
    requires filtros[k].1.Ninguno? || (filtros[k].1.Rango? && filtros[k].0 !in numericas)
    ensures Filtrar(s, Superan(filtros, numericas, k)) == Filtrar(s, Superan(filtros, numericas, k + 1))
  {
    forall i | 0 <= i < |s|
      ensures Superan(filtros, numericas, k)(s[i]) == Superan(filtros, numericas, k + 1)(s[i])
    {
      assert Deja(filtros[k].0, filtros[k].1, numericas, s[i]);
    }
    FiltrarIgual(s, Superan(filtros, numericas, k), Superan(filtros, numericas, k + 1));
  }

  /** The sidebar filter: the filters run one after the other, a `None`
    * filter and a range on a column that is not numeric are skipped, and
    * what is left is exactly the rows, in their order, that pass every
    * filter. Each filter names a column of the table, as the sidebar builds
    * them from it. */
  method AplicarFiltros(t: Tabla, filtros: seq<(string, Filtro)>, numericas: set<string>) returns (r: Tabla)
    requires Bien(t)
    requires forall k :: 0 <= k < |filtros| && !filtros[k].1.Ninguno? ==> filtros[k].0 in t.columnas
    ensures r.columnas == t.columnas && Bien(r)
    ensures r.filas == Filtrar(t.filas, Superan(filtros, numericas, |filtros|))
    ensures SoloLasQue(r.filas, t.filas, Superan(filtros, numericas, |filtros|))
  {
    var filas := t.filas;
    FiltrarTodo(t.filas, Superan(filtros, numericas, 0));
    for k := 0 to |filtros|
      invariant filas == Filtrar(t.filas, Superan(filtros, numericas, k))
    {
      var (col, filtro) := filtros[k];
      if filtro.Ninguno? || (filtro.Rango? && col !in numericas) {
        FiltroOmitido(t.filas, filtros, numericas, k);
      } else {
        FiltroAvanza(t.filas, filtros, numericas, k);
        filas := Filtrar(filas, Mascara(col, filtro, numericas));
      }
    }
    r := Tabla(t.columnas, filas);
    FiltrarTabla(t, filas, Superan(filtros, numericas, |filtros|), Superan(filtros, numericas, |filtros|));
  }

  /** What the sidebar filter keeps, filter by filter: with no filters
    * every row stays; a list keeps the rows whose value is listed; a range
    * on a numeric column keeps the rows whose number lies between its two
    * ends, both included. */
  lemma FiltrosCada(filtros: seq<(string, Filtro)>, numericas: set<string>, f: Fila)
    ensures filtros == [] ==> Superan(filtros, numericas, |filtros|)(f)
    ensures Superan(filtros, numericas, |filtros|)(f) ==>
      forall j :: 0 <= j < |filtros| && filtros[j].1.Lista? ==> Valor(f, filtros[j].0) in filtros[j].1.valores
    ensures Superan(filtros, numericas, |filtros|)(f) ==>
      forall j :: 0 <= j < |filtros| && filtros[j].1.Rango? && filtros[j].0 in numericas ==>
        Numero(Valor(f, filtros[j].0)).Some? &&
        filtros[j].1.desde <= Numero(Valor(f, filtros[j].0)).value <= filtros[j].1.hasta
    ensures (forall j :: 0 <= j < |filtros| ==> Deja(filtros[j].0, filtros[j].1, numericas, f)) ==>
      Superan(filtros, numericas, |filtros|)(f)
  {
    DejanHastaCada(filtros, numericas, |filtros|, f);
  }
}
