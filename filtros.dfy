/** The filter chains of the orders and stock views, and the whole-number
  * lengths the order side is reduced to before the volumes are compared. */
module Filtros {
  import opened Wrappers
  import opened Text
  import opened Numbers
  import opened Normalizers
  import opened Tablas

  /** What the sidebar has selected: one list per dimension (empty when
    * nothing is selected), the OFA search text and the switch that turns
    * it off. */
  datatype Seleccion = Seleccion(
    maq: seq<string>,
    espesor: seq<string>,
    ancho: seq<string>,
    largo: seq<string>,
    calidad: seq<string>,
    ofa: string,
    eliminarFiltro: bool)

  /** An empty selection lets every value through; otherwise the value must
    * be one of those selected. */
  predicate Admite(lista: seq<string>, x: string)
  {
    lista == [] || x in lista
  }

  /** `patron` occurs in `s` as a block of consecutive characters. */
  predicate Contiene(s: string, patron: string)
    decreases |s|
  {
    StartsWith(s, patron) || (s != [] && Contiene(s[1..], patron))
  }

  /** One step of a filter chain. */
  datatype Paso =
    | EnLista(col: string, lista: seq<string>, limpiar: bool)
    | ContieneTexto(col: string, patron: string, activo: bool)
    | NoVacia(col: string)

  /** The text a step compares: `astype(str)`, stripped when `limpiar`. */
  function Vista(f: Fila, col: string, limpiar: bool): string
  {
    if limpiar then Strip(Texto(Valor(f, col))) else Texto(Valor(f, col))
  }

  /** Whether row `f` survives step `p`. */
  predicate Cumple(p: Paso, f: Fila)
  {
    match p
    case EnLista(col, lista, limpiar) => Admite(lista, Vista(f, col, limpiar))
    case ContieneTexto(col, patron, activo) => !activo || patron == "" || Contiene(Texto(Valor(f, col)), patron)
    case NoVacia(col) => Valor(f, col).Some? && Strip(Texto(Valor(f, col))) != ""
  }

  /** Whether the application runs step `p` at all: a list step only when
    * something is selected, the OFA step only when it has text and is not
    * switched off. */
  predicate Activo(p: Paso)
  {
    match p
    case EnLista(_, lista, _) => lista != []
    case ContieneTexto(_, patron, activo) => activo && patron != ""
    case NoVacia(_) => true
  }

  function Condicion(p: Paso): Fila -> bool
  {
    f => Cumple(p, f)
  }

  /** Row `f` survives the first `k` steps of `ps`. */
  predicate CumpleHasta(ps: seq<Paso>, k: nat, f: Fila)
    requires k <= |ps|
  {
    k == 0 || (CumpleHasta(ps, k - 1, f) && Cumple(ps[k - 1], f))
  }

  function Hasta(ps: seq<Paso>, k: nat): Fila -> bool
    requires k <= |ps|
  {
    f => CumpleHasta(ps, k, f)
  }

  /** A step the application skips would let every row through. */
  lemma InactivoAdmite(p: Paso, f: Fila)
    requires !Activo(p)
    ensures Cumple(p, f)
  {
  }

  /** Running step `k` on the rows that survived the steps before it leaves
    * the rows that survive the first `k + 1` steps; skipping a step the
    * application does not run leaves them too. */
  lemma Avanza(s: seq<Fila>, ps: seq<Paso>, k: nat, r: seq<Fila>)
    requires k < |ps| && r == Filtrar(s, Hasta(ps, k))
    ensures Filtrar(r, Condicion(ps[k])) == Filtrar(s, Hasta(ps, k + 1))
    ensures !Activo(ps[k]) ==> r == Filtrar(s, Hasta(ps, k + 1))
  {
    forall f: Fila
      ensures Hasta(ps, k + 1)(f) == (Hasta(ps, k)(f) && Condicion(ps[k])(f))
    {
    }
    FiltrarDosVeces(s, Hasta(ps, k), Condicion(ps[k]), Hasta(ps, k + 1));
    if !Activo(ps[k]) {
      forall f: Fila
        ensures Hasta(ps, k)(f) == Hasta(ps, k + 1)(f)
      {
        InactivoAdmite(ps[k], f);
      }
      FiltrarIgual(s, Hasta(ps, k), Hasta(ps, k + 1));
    }
  }

  /** One step of a chain as the application runs it: the step filters
    * only when it is active, and either way the rows that survive the
    * first `k + 1` steps remain. */
  method Ejecutar(s: seq<Fila>, ps: seq<Paso>, k: nat, filas: seq<Fila>) returns (r: seq<Fila>)
    requires k < |ps| && filas == Filtrar(s, Hasta(ps, k))
    ensures r == Filtrar(s, Hasta(ps, k + 1))
  {
    Avanza(s, ps, k, filas);
    if Activo(ps[k]) {
      r := Filtrar(filas, Condicion(ps[k]));
    } else {
      r := filas;
    }
  }

  /** A whole chain: the steps run one after the other, each on what the
    * previous ones left, and what remains is exactly the rows that survive
    * every step. */
  method Encadenar(s: seq<Fila>, ps: seq<Paso>) returns (r: seq<Fila>)
    ensures r == Filtrar(s, Hasta(ps, |ps|))
  {
    r := s;
    Inicio(s, ps);
    for k := 0 to |ps|
      invariant r == Filtrar(s, Hasta(ps, k))
    {
      r := Ejecutar(s, ps, k, r);
    }
  }

  /** Surviving a chain of four steps is surviving each. */
  lemma CuatroPasos(ps: seq<Paso>, f: Fila)
    requires |ps| == 4
    ensures CumpleHasta(ps, 4, f) <==> Cumple(ps[0], f) && Cumple(ps[1], f) && Cumple(ps[2], f) && Cumple(ps[3], f)
  {
    assert CumpleHasta(ps, 1, f) == Cumple(ps[0], f);
    assert CumpleHasta(ps, 3, f) == (Cumple(ps[0], f) && Cumple(ps[1], f) && Cumple(ps[2], f));
  }

  /** Surviving a chain of seven steps is surviving each. */
  lemma SietePasos(ps: seq<Paso>, f: Fila)
    requires |ps| == 7
    ensures CumpleHasta(ps, 7, f) <==>
      && Cumple(ps[0], f) && Cumple(ps[1], f) && Cumple(ps[2], f) && Cumple(ps[3], f)
      && Cumple(ps[4], f) && Cumple(ps[5], f) && Cumple(ps[6], f)
  {
    assert CumpleHasta(ps, 1, f) == Cumple(ps[0], f);
    assert CumpleHasta(ps, 2, f) == (Cumple(ps[0], f) && Cumple(ps[1], f));
    assert CumpleHasta(ps, 4, f) == (CumpleHasta(ps, 2, f) && Cumple(ps[2], f) && Cumple(ps[3], f));
    assert CumpleHasta(ps, 6, f) == (CumpleHasta(ps, 4, f) && Cumple(ps[4], f) && Cumple(ps[5], f));
  }

  /** Before any step every row survives. */
  lemma Inicio(s: seq<Fila>, ps: seq<Paso>)
    ensures s == Filtrar(s, Hasta(ps, 0))
  {
    FiltrarTodo(s, Hasta(ps, 0));
  }

  // ---------------------------------------------------------------------
  // Orders
  // ---------------------------------------------------------------------

  /** The steps of the order chain, in the order the application runs
    * them. */
  function PasosPedidos(sel: Seleccion): (ps: seq<Paso>)
    ensures |ps| == 7
  {
    [ EnLista("Maq", sel.maq, false),
      EnLista("EspesroMP", sel.espesor, false),
      EnLista("AnchoMP", sel.ancho, false),
      EnLista("LAR_DEC", sel.largo, false),
      EnLista("CalidadMP", sel.calidad, false),
      ContieneTexto("OFA", sel.ofa, !sel.eliminarFiltro),
      NoVacia("Maq") ]
  }

  /** The machine cell is neither null nor blank. */
  predicate MaquinaPresente(f: Fila)
  {
    Valor(f, "Maq").Some? && Strip(Texto(Valor(f, "Maq"))) != ""
  }

  /** The rows the order view keeps, stated column by column. */
  predicate PasaPedido(sel: Seleccion, f: Fila)
  {
    && Admite(sel.maq, Vista(f, "Maq", false))
    && Admite(sel.espesor, Vista(f, "EspesroMP", false))
    && Admite(sel.ancho, Vista(f, "AnchoMP", false))
    && Admite(sel.largo, Vista(f, "LAR_DEC", false))
    && Admite(sel.calidad, Vista(f, "CalidadMP", false))
    && (sel.ofa == "" || sel.eliminarFiltro || Contiene(Texto(Valor(f, "OFA")), sel.ofa))
    && MaquinaPresente(f)
  }

  /** Surviving all seven steps is what `PasaPedido` states. */
  lemma PasosPedidosCompletos(sel: Seleccion, f: Fila)
    ensures CumpleHasta(PasosPedidos(sel), 7, f) <==> PasaPedido(sel, f)
  {
    var ps := PasosPedidos(sel);
    SietePasos(ps, f);
  }

  /** The columns the order chain reads must exist: the machine column
    * always, the others when their step runs. */
  predicate ColumnasPedidos(t: Tabla, sel: Seleccion)
  {
    && "Maq" in t.columnas
    && (sel.espesor != [] ==> "EspesroMP" in t.columnas)
    && (sel.ancho != [] ==> "AnchoMP" in t.columnas)
    && (sel.largo != [] ==> "LAR_DEC" in t.columnas)
    && (sel.calidad != [] ==> "CalidadMP" in t.columnas)
    && (sel.ofa != "" && !sel.eliminarFiltro ==> "OFA" in t.columnas)
  }

  /** The order filter chain: each selected list narrows the rows in turn,
    * then the rows without a machine go. The result keeps the columns,
    * keeps the surviving rows in their order, and holds exactly the rows
    * that pass every selection and have a machine. */
  method FiltrarPedidos(t: Tabla, sel: Seleccion) returns (r: Tabla)
    requires Bien(t) && ColumnasPedidos(t, sel)
    ensures r.columnas == t.columnas && Bien(r)
    ensures r.filas == Filtrar(t.filas, f => PasaPedido(sel, f))
    ensures SoloLasQue(r.filas, t.filas, f => PasaPedido(sel, f))
  {
    var filas := Encadenar(t.filas, PasosPedidos(sel));
    r := Tabla(t.columnas, filas);
    PedidosResultado(t, sel, filas);
  }

  lemma PedidosResultado(t: Tabla, sel: Seleccion, filas: seq<Fila>)
    requires Bien(t) && filas == Filtrar(t.filas, Hasta(PasosPedidos(sel), 7))
    ensures Bien(Tabla(t.columnas, filas))
    ensures filas == Filtrar(t.filas, f => PasaPedido(sel, f))
    ensures SoloLasQue(filas, t.filas, f => PasaPedido(sel, f))
  {
    var ps := PasosPedidos(sel);
    forall f: Fila
      ensures Hasta(ps, 7)(f) == PasaPedido(sel, f)
    {
      PasosPedidosCompletos(sel, f);
    }
    FiltrarTabla(t, filas, Hasta(ps, 7), f => PasaPedido(sel, f));
  }

  // ---------------------------------------------------------------------
  // Stock
  // ---------------------------------------------------------------------

  /** The steps of the stock chain: the same lists, compared with the
    * stripped cell text, and no machine step. */
  function PasosStock(sel: Seleccion): (ps: seq<Paso>)
    ensures |ps| == 4
  {
    [ EnLista("ESP_CUB", sel.espesor, true),
      EnLista("ANC_CUB", sel.ancho, true),
      EnLista("LAR_CUB", sel.largo, true),
      EnLista("CALIDAD", sel.calidad, true) ]
  }

  /** The rows the stock view keeps, stated column by column. */
  predicate PasaStock(sel: Seleccion, f: Fila)
  {
    && Admite(sel.espesor, Vista(f, "ESP_CUB", true))
    && Admite(sel.ancho, Vista(f, "ANC_CUB", true))
    && Admite(sel.largo, Vista(f, "LAR_CUB", true))
    && Admite(sel.calidad, Vista(f, "CALIDAD", true))
  }

  lemma PasosStockCompletos(sel: Seleccion, f: Fila)
    ensures CumpleHasta(PasosStock(sel), 4, f) <==> PasaStock(sel, f)
  {
    var ps := PasosStock(sel);
    CuatroPasos(ps, f);
  }

  predicate ColumnasStock(t: Tabla, sel: Seleccion)
  {
    && (sel.espesor != [] ==> "ESP_CUB" in t.columnas)
    && (sel.ancho != [] ==> "ANC_CUB" in t.columnas)
    && (sel.largo != [] ==> "LAR_CUB" in t.columnas)
    && (sel.calidad != [] ==> "CALIDAD" in t.columnas)
  }

  /** The stock filter chain: each selected list narrows the rows in turn,
    * comparing stripped text. */
  method FiltrarStock(t: Tabla, sel: Seleccion) returns (r: Tabla)
    requires Bien(t) && ColumnasStock(t, sel)
    ensures r.columnas == t.columnas && Bien(r)
    ensures r.filas == Filtrar(t.filas, f => PasaStock(sel, f))
    ensures SoloLasQue(r.filas, t.filas, f => PasaStock(sel, f))
  {
    var filas := Encadenar(t.filas, PasosStock(sel));
    r := Tabla(t.columnas, filas);
    StockResultado(t, sel, filas);
  }

  lemma StockResultado(t: Tabla, sel: Seleccion, filas: seq<Fila>)
    requires Bien(t) && filas == Filtrar(t.filas, Hasta(PasosStock(sel), 4))
    ensures Bien(Tabla(t.columnas, filas))
    ensures filas == Filtrar(t.filas, f => PasaStock(sel, f))
    ensures SoloLasQue(filas, t.filas, f => PasaStock(sel, f))
  {
    var ps := PasosStock(sel);
    forall f: Fila
      ensures Hasta(ps, 4)(f) == PasaStock(sel, f)
    {
      PasosStockCompletos(sel, f);
    }
    FiltrarTabla(t, filas, Hasta(ps, 4), f => PasaStock(sel, f));
  }

  // ---------------------------------------------------------------------
  // Whole-number order lengths
  // ---------------------------------------------------------------------

  /** `int(x)`: the integer part, truncating toward zero. */
  function Truncar(x: real): (z: int)
    ensures 0.0 <= x ==> 0 <= z && z as real <= x < z as real + 1.0
    ensures x < 0.0 ==> z <= 0 && z as real - 1.0 < x <= z as real
  {
    if x >= 0.0 then x.Floor else -((-x).Floor)
  }

  /** The order length as the view shows it: the cell text with commas
    * turned into points, read as a number, a failed read (a null, `nan`,
    * any other text) taken as 0, then cut to its integer part. */
  function LargoEntero(c: Celda): string
  {
    match LeerComa(Texto(c))
    case None => IntToStr(0)
    case Some(x) => IntToStr(Truncar(x))
  }

  /** The length cell is replaced in every row, when the table has that
    * column; nothing else changes. */
  function TruncarLargo(t: Tabla): (r: Tabla)
    ensures r.columnas == t.columnas && |r.filas| == |t.filas|
  {
    if "LAR_DEC" in t.columnas then
      Tabla(t.columnas, seq(|t.filas|, i requires 0 <= i < |t.filas| =>
        t.filas[i]["LAR_DEC" := Some(LargoEntero(Valor(t.filas[i], "LAR_DEC")))]))
    else t
  }

  /** The whole-number text `str(z)` reads back as `z`. */
  lemma LeerComaEntero(z: int)
    ensures LeerComa(IntToStr(z)) == Some(z as real)
  {
    IntToStrNumeral(z);
    NumeralHasNo(IntToStr(z), ',');
    ReplaceCharAbsent(IntToStr(z), ',', '.');
    ParseFloatInt(z);
  }

  /** What the truncated length is: a whole number without a comma that
    * reads back as the integer part of the value, and 0 when the text does
    * not read as a number. */
  lemma LargoEnteroResultado(c: Celda)
    ensures ',' !in LargoEntero(c) && '.' !in LargoEntero(c)
    ensures match LeerComa(Texto(c))
            case None => LargoEntero(c) == "0"
            case Some(x) => LeerComa(LargoEntero(c)) == Some(Truncar(x) as real)
  {
    match LeerComa(Texto(c))
    case None =>
      IntToStrNumeral(0);
      NumeralHasNo(IntToStr(0), ',');
    case Some(x) =>
      IntToStrNumeral(Truncar(x));
      NumeralHasNo(IntToStr(Truncar(x)), ',');
      LeerComaEntero(Truncar(x));
  }

  /** Truncating an already truncated length changes nothing. */
  lemma LargoEnteroIdempotente(c: Celda)
    ensures LargoEntero(Some(LargoEntero(c))) == LargoEntero(c)
  {
    var z := match LeerComa(Texto(c)) case None => 0 case Some(x) => Truncar(x);
    assert LargoEntero(c) == IntToStr(z);
    LeerComaEntero(z);
    assert Truncar(z as real) == z;
  }

  /** After the rewrite every row's length is a comma-free whole number
    * and reads back as the integer part of what was there; the other
    * cells, the columns and the row count stay, and so does a table
    * without that column. */
  lemma TruncarLargoResultado(t: Tabla)
    requires Bien(t)
    ensures Bien(TruncarLargo(t))
    ensures "LAR_DEC" !in t.columnas ==> TruncarLargo(t) == t
    ensures "LAR_DEC" in t.columnas ==>
      forall i :: 0 <= i < |t.filas| ==>
        && TruncarLargo(t).filas[i]["LAR_DEC"] == Some(LargoEntero(t.filas[i]["LAR_DEC"]))
        && ',' !in LargoEntero(t.filas[i]["LAR_DEC"])
        && (forall col :: col in t.filas[i] && col != "LAR_DEC" ==>
              col in TruncarLargo(t).filas[i] && TruncarLargo(t).filas[i][col] == t.filas[i][col])
  {
    if "LAR_DEC" in t.columnas {
      forall i | 0 <= i < |t.filas|
        ensures ',' !in LargoEntero(t.filas[i]["LAR_DEC"])
      {
        LargoEnteroResultado(t.filas[i]["LAR_DEC"]);
      }
    }
  }

  /** The two sides of the comparison disagree on lengths that are not
    * whole: the stock length keeps its decimals after a comma, the order
    * length never has one, so such a stock row never meets an order row
    * of the same length in the summary. */
  lemma LargosNoCoinciden(v: string, c: Celda)
    requires PyFloat(Limpiar(v)).Some? && !IsIntegral(PyFloat(Limpiar(v)).value)
    ensures NormalizarLargoComun(v) != LargoEntero(c)
  {
    NormalizarLargoComunResultado(v);
    LargoEnteroResultado(c);
  }

  /** A whole length is written the same on both sides, and an order length
    * with decimals lands on its integer part, the same text a whole stock
    * length of that value shows. */
  lemma LargosEnteros(z: int, c: Celda)
    requires LeerComa(Texto(c)).Some? && Truncar(LeerComa(Texto(c)).value) == z
    ensures NormalizarLargoComun(IntToStr(z)) == IntToStr(z)
    ensures LargoEntero(c) == IntToStr(z)
  {
    var s := IntToStr(z);
    IntToStrNumeral(z);
    NumeralHasNo(s, ',');
    NumeralHasNo(s, '_');
    StripNoop(s);
    ReplaceCharAbsent(s, ',', '.');
    NoUnderscores(s);
    ParseFloatInt(z);
    assert (z as real).Floor == z;
  }
}
