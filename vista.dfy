/** The orders page as a whole: the two tables it reads are normalised for
  * display, filtered by the sidebar selection, the order lengths are cut to
  * whole numbers, and the volume summary is built from what is left. */
module Vista {
  import opened Wrappers
  import opened Numbers
  import opened Tablas
  import opened Normalizers
  import opened Filtros
  import opened Resumen

  /** `apply(fraccion_a_coma)` on one cell: the function sees `str(valor)`. */
  function FraccionCelda(c: Celda): Celda
  {
    Some(FraccionAComa(Texto(c)))
  }

  /** `apply(normalizar_largo_comun)` on one cell. */
  function LargoCelda(c: Celda): Celda
  {
    Some(NormalizarLargoComun(Texto(c)))
  }

  /** `apply(estandarizar_espesor)` on one cell. */
  function EspesorCelda(c: Celda): Celda
  {
    Some(EstandarizarEspesor(Texto(c)))
  }

  /** The columns the page needs to reach the summary: the grouping keys
    * and volume on each side, the machine column the order filter always
    * tests, and the OFA column when its search is on. */
  predicate ColumnasPagina(pedidos: Tabla, stock: Tabla, sel: Seleccion)
  {
    && Agrupable(pedidos, DimPedidos, VolPedidos) && "Maq" in pedidos.columnas
    && (sel.ofa != "" && !sel.eliminarFiltro ==> "OFA" in pedidos.columnas)
    && Agrupable(stock, DimStock, VolStock)
  }

  /** The orders as displayed: the length through `normalizar_largo_comun`
    * and the thickness through `estandarizar_espesor`; every other cell
    * as read. */
  function PedidosVista(t: Tabla): (r: Tabla)
    requires Bien(t) && "LAR_DEC" in t.columnas && "EspesroMP" in t.columnas
    ensures Bien(r) && r.columnas == t.columnas && |r.filas| == |t.filas|
    ensures forall i :: 0 <= i < |t.filas| ==>
      && r.filas[i]["LAR_DEC"] == LargoCelda(t.filas[i]["LAR_DEC"])
      && r.filas[i]["EspesroMP"] == EspesorCelda(t.filas[i]["EspesroMP"])
    ensures forall i, c :: 0 <= i < |t.filas| && c in t.columnas && c != "LAR_DEC" && c != "EspesroMP" ==>
      r.filas[i][c] == t.filas[i][c]
  {
    var a := Aplicar(t, "LAR_DEC", LargoCelda);
    AplicarResultado(t, "LAR_DEC", LargoCelda);
    AplicarResultado(a, "EspesroMP", EspesorCelda);
    Aplicar(a, "EspesroMP", EspesorCelda)
  }

  /** The stock's width and thickness through `fraccion_a_coma`, the
    * first two rewrites the page makes. */
  function FraccionesStock(t: Tabla): (r: Tabla)
    requires Bien(t) && Agrupable(t, DimStock, VolStock)
    ensures Bien(r) && r.columnas == t.columnas && |r.filas| == |t.filas|
    ensures forall i :: 0 <= i < |t.filas| ==>
      && r.filas[i]["ESP_CUB"] == FraccionCelda(t.filas[i]["ESP_CUB"])
      && r.filas[i]["ANC_CUB"] == FraccionCelda(t.filas[i]["ANC_CUB"])
    ensures forall i, c :: 0 <= i < |t.filas| && c in t.columnas && c != "ESP_CUB" && c != "ANC_CUB" ==>
      r.filas[i][c] == t.filas[i][c]
  {
    var a := Aplicar(t, "ESP_CUB", FraccionCelda);
    AplicarResultado(t, "ESP_CUB", FraccionCelda);
    AplicarResultado(a, "ANC_CUB", FraccionCelda);
    Aplicar(a, "ANC_CUB", FraccionCelda)
  }

  /** The stock as displayed: width through `fraccion_a_coma`, length
    * through `normalizar_largo_comun`, thickness through `fraccion_a_coma`
    * and then `estandarizar_espesor`; every other cell as read. */
  function StockVista(t: Tabla): (r: Tabla)
    requires Bien(t) && Agrupable(t, DimStock, VolStock)
    ensures Bien(r) && r.columnas == t.columnas && |r.filas| == |t.filas|
    ensures forall i :: 0 <= i < |t.filas| ==>
      && r.filas[i]["ESP_CUB"] == EspesorCelda(FraccionCelda(t.filas[i]["ESP_CUB"]))
      && r.filas[i]["ANC_CUB"] == FraccionCelda(t.filas[i]["ANC_CUB"])
      && r.filas[i]["LAR_CUB"] == LargoCelda(t.filas[i]["LAR_CUB"])
    ensures forall i, c :: 0 <= i < |t.filas| && c in t.columnas && c != "ESP_CUB" && c != "ANC_CUB" && c != "LAR_CUB" ==>
      r.filas[i][c] == t.filas[i][c]
  {
    var b := FraccionesStock(t);
    var c := Aplicar(b, "LAR_CUB", LargoCelda);
    AplicarResultado(b, "LAR_CUB", LargoCelda);
    AplicarResultado(c, "ESP_CUB", EspesorCelda);
    Aplicar(c, "ESP_CUB", EspesorCelda)
  }

  /** The page from the two tables read to the summary under them. The
    * orders shown are the displayed orders that pass the selection, with
    * their lengths cut to whole numbers; the stock shown is the displayed
    * stock that passes it; the summary compares exactly those two, adds
    * up to their totals, and shows no order volume on a line whose length
    * keeps a decimal comma. */
  method Pagina(tabla: Tabla, stock: Tabla, sel: Seleccion) returns (pedidos: Tabla, existencias: Tabla, resumen: seq<Linea>)
    requires Bien(tabla) && Bien(stock) && ColumnasPagina(tabla, stock, sel)
    ensures pedidos == TruncarLargo(Tabla(tabla.columnas, Filtrar(PedidosVista(tabla).filas, f => PasaPedido(sel, f))))
    ensures existencias == Tabla(stock.columnas, Filtrar(StockVista(stock).filas, f => PasaStock(sel, f)))
    ensures EsResumen(resumen, pedidos.filas, existencias.filas)
    ensures TotalPedido(resumen) == Total(pedidos.filas, VolPedidos)
    ensures TotalStock(resumen) == Total(existencias.filas, VolStock)
    ensures forall j :: 0 <= j < |resumen| && ',' in Texto(resumen[j].clave.largo) ==> resumen[j].volPedido == 0.0
  {
    var s := StockVista(stock);
    var t := PedidosVista(tabla);
    var filtrados := FiltrarPedidos(t, sel);
    pedidos := TruncarLargo(filtrados);
    TruncarLargoResultado(filtrados);
    existencias := FiltrarStock(s, sel);
    resumen := ResumenVolumenes(pedidos, existencias);
    ResumenConserva(resumen, pedidos.filas, existencias.filas);
    ComaSinPedidoResumen(filtrados, resumen, existencias.filas);
  }

  /** An order length is normalised before it is cut, so the page shows
    * the integer part of the value rounded to 3 places: `2.9996` shows as
    * 3 where cutting the text as read would give 2. */
  lemma LargoPedidoVista(c: Celda)
    ensures match PyFloat(Limpiar(Texto(c)))
            case None => true
            case Some(x) => LargoEntero(LargoCelda(c)) == IntToStr(Truncar(Redondeo(x, 3)))
  {
    NormalizarLargoComunResultado(Texto(c));
  }
}
