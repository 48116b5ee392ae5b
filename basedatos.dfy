/** The two stored tables the applications work on, `Pedidos` and
  * `StockBlanks`, and the operations that replace them: the column
  * migration, the `Fec.Puesta` rename of each application, and the load of
  * an uploaded stock sheet. */
module BaseDatos {
  import opened Wrappers
  import opened Tablas
  import opened Esquema
  import opened Normalizers
  import opened Calidad
  import opened Utilidades

  /** The measure columns of a stock sheet that are normalised. */
  const MedidasStock := ["ESP_CUB", "ANC_CUB", "LAR_CUB"]

  const ColCalidad := "CALIDAD"

  /** A measure cell after `convertir_a_coma`. */
  function ConvertirCelda(v: Celda): Celda
  {
    Some(ConvertirAComa(Texto(v)))
  }

  /** A quality cell after `transformar_calidad`. */
  function CalidadCelda(v: Celda): Celda
  {
    Some(TransformarCalidad(Texto(v)))
  }

  /** A measure column is converted only when the sheet has it. */
  function ConvertirColumna(t: Tabla, col: string): Tabla
  {
    if col in t.columnas then Aplicar(t, col, ConvertirCelda) else t
  }

  /** The measure columns converted one after the other. */
  function ConvertirColumnas(t: Tabla, cols: seq<string>): Tabla
    decreases |cols|
  {
    if cols == [] then t else ConvertirColumnas(ConvertirColumna(t, cols[0]), cols[1..])
  }

  /** The sheet as it is stored: without its CAMP columns, the measures
    * converted, the quality mapped to its grade. */
  function NormalizarStock(t: Tabla): Tabla
  {
    MapearCalidad(ConvertirColumnas(SinCamp(t), MedidasStock))
  }

  /** What a stored cell of column `c` is, given the uploaded one. */
  function CeldaNormalizada(c: string, v: Celda): Celda
  {
    if c in MedidasStock then ConvertirCelda(v)
    else if c == ColCalidad then CalidadCelda(v)
    else v
  }

  /** Converting distinct columns converts each of their cells once and
    * leaves every other cell. */
  lemma {:induction false} ConvertirColumnasResultado(t: Tabla, cols: seq<string>)
    requires Bien(t) && Distintas(cols)
    ensures ConvertirColumnas(t, cols).columnas == t.columnas && Bien(ConvertirColumnas(t, cols))
    ensures |ConvertirColumnas(t, cols).filas| == |t.filas|
    ensures forall i, c :: 0 <= i < |t.filas| && c in t.columnas ==>
      ConvertirColumnas(t, cols).filas[i][c] == if c in cols then ConvertirCelda(t.filas[i][c]) else t.filas[i][c]
    decreases |cols|
  {
    if cols != [] {
      var t1 := ConvertirColumna(t, cols[0]);
      if cols[0] in t.columnas {
        AplicarResultado(t, cols[0], ConvertirCelda);
      }
      var resto := cols[1..];
      assert Distintas(resto) by {
        forall a, b | 0 <= a < b < |resto|
          ensures resto[a] != resto[b]
        {
          assert cols[a + 1] != cols[b + 1];
        }
      }
      assert cols[0] !in resto by {
        forall j | 0 <= j < |resto|
          ensures resto[j] != cols[0]
        {
          assert cols[j + 1] != cols[0];
        }
      }
      ConvertirColumnasResultado(t1, resto);
      forall i, c | 0 <= i < |t.filas| && c in t.columnas
        ensures ConvertirColumnas(t, cols).filas[i][c] == if c in cols then ConvertirCelda(t.filas[i][c]) else t.filas[i][c]
      {
        assert c in cols <==> c == cols[0] || c in resto;
      }
    }
  }

  /** The quality step: the column, when present, holds a grade in every
    * row, computed from the cell it replaces; nothing else changes. */
  function MapearCalidad(df: Tabla): Tabla
  {
    if ColCalidad in df.columnas then Aplicar(df, ColCalidad, CalidadCelda) else df
  }

  lemma MapearCalidadResultado(df: Tabla)
    requires Bien(df)
    ensures Bien(MapearCalidad(df)) && MapearCalidad(df).columnas == df.columnas
    ensures |MapearCalidad(df).filas| == |df.filas|
    ensures forall i, c :: 0 <= i < |df.filas| && c in df.columnas && c != ColCalidad ==>
      MapearCalidad(df).filas[i][c] == df.filas[i][c]
    ensures forall i :: 0 <= i < |df.filas| && ColCalidad in df.columnas ==>
      MapearCalidad(df).filas[i][ColCalidad] == CalidadCelda(df.filas[i][ColCalidad])
      && EsGrado(Texto(MapearCalidad(df).filas[i][ColCalidad]))
  {
    if ColCalidad in df.columnas {
      AplicarResultado(df, ColCalidad, CalidadCelda);
    }
  }

  /** The stored sheet is well formed, has exactly the uploaded columns
    * that are not CAMP columns, in their order, and one row per uploaded
    * row; each measure cell is converted, each quality cell is one of the
    * four grades, and every other cell is as uploaded. */
  lemma NormalizarStockResultado(t: Tabla)
    requires Bien(t)
    ensures Bien(NormalizarStock(t))
    ensures SoloLasQue(NormalizarStock(t).columnas, t.columnas, NoCamp())
    ensures |NormalizarStock(t).filas| == |t.filas|
    ensures forall i, c :: 0 <= i < |t.filas| && c in NormalizarStock(t).columnas ==>
      NormalizarStock(t).filas[i][c] == CeldaNormalizada(c, t.filas[i][c])
    ensures forall i :: 0 <= i < |t.filas| && ColCalidad in NormalizarStock(t).columnas ==>
      EsGrado(Texto(NormalizarStock(t).filas[i][ColCalidad]))
  {
    var s := SinCamp(t);
    SinCampResultado(t);
    ConvertirColumnasResultado(s, MedidasStock);
    var df := ConvertirColumnas(s, MedidasStock);
    MapearCalidadResultado(df);
    assert NormalizarStock(t) == MapearCalidad(df);
  }

  /** The database the applications open: the orders and the stock of
    * blanks. Every operation replaces a table by a new one, as the SQL
    * scripts and `to_sql(if_exists="replace")` do. */
  class BaseDatos {
    var pedidos: Tabla
    var stockBlanks: Tabla

    /** Both tables are well formed. */
    predicate Valido()
      reads this
    {
      Bien(pedidos) && Bien(stockBlanks)
    }

    constructor(pedidos: Tabla, stockBlanks: Tabla)
      requires Bien(pedidos) && Bien(stockBlanks)
      ensures Valido()
      ensures this.pedidos == pedidos && this.stockBlanks == stockBlanks
    {
      this.pedidos := pedidos;
      this.stockBlanks := stockBlanks;
    }

    /** `preparar_columnas_pedidos`: build the rename map from the current
      * columns and, when it is not empty, replace the orders by their
      * rewritten copy. */
    method PrepararColumnasPedidos()
      modifies this
      requires Valido()
      ensures Valido()
      ensures pedidos == Migrar(old(pedidos)) && stockBlanks == old(stockBlanks)
      ensures PlanCambios(pedidos.columnas) == []
    {
      var columnas := pedidos.columnas;
      var cambios: seq<Cambio> := [];
      if FecLegado in columnas && FecCanonico !in columnas {
        cambios := cambios + [Cambio(FecLegado, FecCanonico)];
      }
      if PosLegado in columnas && PosCanonico !in columnas {
        cambios := cambios + [Cambio(PosLegado, PosCanonico)];
      }
      assert cambios == PlanCambios(columnas);
      MigrarCompleto(pedidos);
      if cambios == [] {
        return;
      }
      PlanCambiosValido(columnas);
      ReescribirResultado(pedidos, cambios);
      pedidos := Reescribir(pedidos, cambios);
    }

    /** The main application's `renombrar_columna_fec_puesta`: whenever
      * `Fec.Puesta` is missing the orders are copied with it appended. */
    method RenombrarFecPuesta()
      modifies this
      requires Valido()
      ensures Valido()
      ensures pedidos == Esquema.RenombrarFecPuesta(old(pedidos)) && stockBlanks == old(stockBlanks)
      ensures FecCanonico in pedidos.columnas
    {
      if FecCanonico !in pedidos.columnas {
        ConFecPuestaResultado(pedidos);
        pedidos := ConFecPuesta(pedidos);
      }
    }

    /** The second application's `renombrar_columna_fec_puesta`: the copy
      * is made only when `Fec#Puesta` is present and `Fec.Puesta` is not. */
    method RenombrarFecPuestaSiFalta()
      modifies this
      requires Valido()
      ensures Valido()
      ensures pedidos == Esquema.RenombrarFecPuestaSiFalta(old(pedidos)) && stockBlanks == old(stockBlanks)
      ensures FecLegado in old(pedidos.columnas) ==> FecCanonico in pedidos.columnas
    {
      if FecLegado in pedidos.columnas && FecCanonico !in pedidos.columnas {
        ConFecPuestaResultado(pedidos);
        pedidos := ConFecPuesta(pedidos);
      }
    }

    /** `cargar_stock_blanks`: with no uploaded sheet it reports an error
      * and stores nothing; otherwise it drops the CAMP columns, converts
      * the measure columns the sheet has one by one, maps the quality, and
      * replaces the stored stock by the result. */
    method CargarStockBlanks(archivo: Option<Tabla>) returns (error: bool)
      modifies this
      requires Valido()
      requires archivo.Some? ==> Bien(archivo.value)
      ensures Valido()
      ensures error <==> archivo.None?
      ensures archivo.None? ==> stockBlanks == old(stockBlanks)
      ensures archivo.Some? ==> stockBlanks == NormalizarStock(archivo.value)
      ensures pedidos == old(pedidos)
    {
      if archivo.None? {
        return true;
      }
      var df := SinCamp(archivo.value);
      ghost var inicio := df;
      var cols := MedidasStock;
      for k := 0 to |cols|
        invariant ConvertirColumnas(df, cols[k..]) == ConvertirColumnas(inicio, cols)
      {
        assert cols[k..][1..] == cols[k + 1..];
        if cols[k] in df.columnas {
          df := Aplicar(df, cols[k], ConvertirCelda);
        }
      }
      assert cols[|cols|..] == [];
      if ColCalidad in df.columnas {
        df := Aplicar(df, ColCalidad, CalidadCelda);
      }
      assert df == NormalizarStock(archivo.value);
      NormalizarStockResultado(archivo.value);
      stockBlanks := df;
      error := false;
    }
  }
}
