/** The column migration of the orders table: the legacy names `Fec#Puesta`
  * and `Pos#OFA` are rewritten to `Fec.Puesta` and `Pos.OFA` by copying the
  * table through a `SELECT` that lists the kept columns and then the renamed
  * ones. A copied table is modelled as the projection of the old one. */
module Esquema {
  import opened Wrappers
  import opened Tablas

  const FecLegado := "Fec#Puesta"
  const FecCanonico := "Fec.Puesta"
  const PosLegado := "Pos#OFA"
  const PosCanonico := "Pos.OFA"

  /** One entry of the rename map: the old name and the new one. */
  datatype Cambio = Cambio(antiguo: string, nuevo: string)

  /** The rename map `cambios`, in insertion order: a legacy name is
    * renamed when it is present and its canonical name is not. */
  function PlanCambios(columnas: seq<string>): seq<Cambio>
  {
    (if FecLegado in columnas && FecCanonico !in columnas then [Cambio(FecLegado, FecCanonico)] else [])
    + (if PosLegado in columnas && PosCanonico !in columnas then [Cambio(PosLegado, PosCanonico)] else [])
  }

  function Antiguos(cambios: seq<Cambio>): (r: seq<string>)
    ensures |r| == |cambios| && forall i :: 0 <= i < |r| ==> r[i] == cambios[i].antiguo
  {
    seq(|cambios|, i requires 0 <= i < |cambios| => cambios[i].antiguo)
  }

  function Nuevos(cambios: seq<Cambio>): (r: seq<string>)
    ensures |r| == |cambios| && forall i :: 0 <= i < |r| ==> r[i] == cambios[i].nuevo
  {
    seq(|cambios|, i requires 0 <= i < |cambios| => cambios[i].nuevo)
  }

  /** The column list of the copy: the columns not renamed, in their
    * order, then the new names. */
  function NuevasColumnas(columnas: seq<string>, cambios: seq<Cambio>): seq<string>
  {
    Filtrar(columnas, Conservada(cambios)) + Nuevos(cambios)
  }

  /** A column the copy keeps under its own name. */
  function Conservada(cambios: seq<Cambio>): string -> bool
  {
    c => c !in Antiguos(cambios)
  }

  /** The old column a column of the copy is read from. */
  function Origen(c: string, cambios: seq<Cambio>): string
  {
    if cambios == [] then c
    else if cambios[0].nuevo == c then cambios[0].antiguo
    else Origen(c, cambios[1..])
  }

  /** One row of the copy. */
  function FilaNueva(f: Fila, columnas: seq<string>, cambios: seq<Cambio>): Fila
  {
    map c | c in columnas :: Valor(f, Origen(c, cambios))
  }

  /** `CREATE TABLE Pedidos_new AS SELECT <kept>, "<old>" AS "<new>" ...`
    * followed by the swap of the two tables. */
  function Reescribir(t: Tabla, cambios: seq<Cambio>): (r: Tabla)
    ensures |r.filas| == |t.filas|
  {
    var columnas := NuevasColumnas(t.columnas, cambios);
    Tabla(columnas, seq(|t.filas|, i requires 0 <= i < |t.filas| => FilaNueva(t.filas[i], columnas, cambios)))
  }

  /** `preparar_columnas_pedidos` as a function of the table: no rename
    * planned leaves it as it is. */
  function Migrar(t: Tabla): Tabla
  {
    var cambios := PlanCambios(t.columnas);
    if cambios == [] then t else Reescribir(t, cambios)
  }

  // ---------------------------------------------------------------------
  // The plan
  // ---------------------------------------------------------------------

  /** A legacy name is in the plan exactly when it is present and its
    * canonical name is absent, and the plan holds nothing else. */
  lemma PlanCambiosSi(columnas: seq<string>)
    ensures Cambio(FecLegado, FecCanonico) in PlanCambios(columnas) <==> FecLegado in columnas && FecCanonico !in columnas
    ensures Cambio(PosLegado, PosCanonico) in PlanCambios(columnas) <==> PosLegado in columnas && PosCanonico !in columnas
    ensures forall c :: c in PlanCambios(columnas) ==> c == Cambio(FecLegado, FecCanonico) || c == Cambio(PosLegado, PosCanonico)
    ensures PlanCambios(columnas) == [] <==>
      (FecLegado !in columnas || FecCanonico in columnas) && (PosLegado !in columnas || PosCanonico in columnas)
  {
  }

  /** A rename map the copy can carry out: each old name is a column, each
    * new name is not and is no old name, and no name occurs twice. */
  predicate PlanValido(columnas: seq<string>, cambios: seq<Cambio>)
  {
    && Distintas(Antiguos(cambios)) && Distintas(Nuevos(cambios))
    && forall i :: 0 <= i < |cambios| ==>
         cambios[i].antiguo in columnas && cambios[i].nuevo !in columnas && cambios[i].nuevo !in Antiguos(cambios)
  }

  lemma PlanCambiosValido(columnas: seq<string>)
    ensures PlanValido(columnas, PlanCambios(columnas))
  {
    var p := PlanCambios(columnas);
    assert forall i :: 0 <= i < |p| ==> p[i] == Cambio(FecLegado, FecCanonico) || p[i] == Cambio(PosLegado, PosCanonico);
  }

  // ---------------------------------------------------------------------
  // The copy
  // ---------------------------------------------------------------------

  /** A new name is read from its old name; any other name from itself. */
  lemma {:induction false} OrigenDe(c: string, cambios: seq<Cambio>)
    requires Distintas(Nuevos(cambios))
    ensures forall i :: 0 <= i < |cambios| && cambios[i].nuevo == c ==> Origen(c, cambios) == cambios[i].antiguo
    ensures c !in Nuevos(cambios) ==> Origen(c, cambios) == c
  {
    if cambios != [] {
      var resto := cambios[1..];
      assert Distintas(Nuevos(resto)) by {
        forall a, b | 0 <= a < b < |resto|
          ensures Nuevos(resto)[a] != Nuevos(resto)[b]
        {
          assert Nuevos(cambios)[a + 1] != Nuevos(cambios)[b + 1];
        }
      }
      OrigenDe(c, resto);
      forall i | 0 < i < |cambios| && cambios[i].nuevo == c
        ensures Origen(c, cambios) == cambios[i].antiguo
      {
        assert Nuevos(cambios)[0] != Nuevos(cambios)[i];
        assert resto[i - 1] == cambios[i];
      }
      if c !in Nuevos(cambios) {
        assert Nuevos(cambios)[0] == cambios[0].nuevo;
        assert forall j :: 0 <= j < |resto| ==> Nuevos(resto)[j] == Nuevos(cambios)[j + 1];
      }
    }
  }

  /** The columns of the copy are the old ones not renamed and the new
    * names. */
  lemma NuevasColumnasMiembros(columnas: seq<string>, cambios: seq<Cambio>, c: string)
    ensures c in NuevasColumnas(columnas, cambios) <==>
      (c in columnas && c !in Antiguos(cambios)) || c in Nuevos(cambios)
  {
    var k := Filtrar(columnas, Conservada(cambios));
    FiltrarMiembros(columnas, Conservada(cambios));
    if c in columnas && c !in Antiguos(cambios) {
      var i :| 0 <= i < |columnas| && columnas[i] == c;
      assert Conservada(cambios)(columnas[i]);
    }
    if c in k {
      var i :| 0 <= i < |k| && k[i] == c;
    }
  }

  /** The copy repeats no column name. */
  lemma NuevasColumnasDistintas(columnas: seq<string>, cambios: seq<Cambio>)
    requires Distintas(columnas) && PlanValido(columnas, cambios)
    ensures Distintas(NuevasColumnas(columnas, cambios))
  {
    var k := Filtrar(columnas, Conservada(cambios));
    var n := k + Nuevos(cambios);
    FiltrarMiembros(columnas, Conservada(cambios));
    FiltrarSubsecuencia(columnas, Conservada(cambios));
    SubsecuenciaDistintas(k, columnas);
    forall a, b | 0 <= a < b < |n|
      ensures n[a] != n[b]
    {
      if b < |k| {
        assert n[a] == k[a] && n[b] == k[b];
      } else if a < |k| {
        assert n[b] == cambios[b - |k|].nuevo;
        assert n[a] == k[a] && k[a] in columnas;
      } else {
        assert Nuevos(cambios)[a - |k|] != Nuevos(cambios)[b - |k|];
      }
    }
  }

  /** The copy is a well-formed table with the same rows: a kept column
    * holds the cells it held, a new name holds the cells of its old name. */
  lemma ReescribirResultado(t: Tabla, cambios: seq<Cambio>)
    requires Bien(t) && PlanValido(t.columnas, cambios)
    ensures Bien(Reescribir(t, cambios))
    ensures forall i, c :: 0 <= i < |t.filas| && c in t.columnas && c !in Antiguos(cambios) ==>
      c in Reescribir(t, cambios).filas[i] && Reescribir(t, cambios).filas[i][c] == t.filas[i][c]
    ensures forall i, j :: 0 <= i < |t.filas| && 0 <= j < |cambios| ==>
      cambios[j].nuevo in Reescribir(t, cambios).filas[i]
      && Reescribir(t, cambios).filas[i][cambios[j].nuevo] == t.filas[i][cambios[j].antiguo]
  {
    var r := Reescribir(t, cambios);
    NuevasColumnasDistintas(t.columnas, cambios);
    forall i, c | 0 <= i < |t.filas| && c in t.columnas && c !in Antiguos(cambios)
      ensures c in r.filas[i] && r.filas[i][c] == t.filas[i][c]
    {
      NuevasColumnasMiembros(t.columnas, cambios, c);
      OrigenDe(c, cambios);
    }
    forall i, j | 0 <= i < |t.filas| && 0 <= j < |cambios|
      ensures cambios[j].nuevo in r.filas[i] && r.filas[i][cambios[j].nuevo] == t.filas[i][cambios[j].antiguo]
    {
      NuevasColumnasMiembros(t.columnas, cambios, cambios[j].nuevo);
      OrigenDe(cambios[j].nuevo, cambios);
    }
  }

  /** After the migration neither legacy name is left to rename. */
  lemma MigrarCompleto(t: Tabla)
    ensures PlanCambios(Migrar(t).columnas) == []
  {
    if PlanCambios(t.columnas) != [] {
      ParMigrado(t.columnas, FecLegado, FecCanonico);
      ParMigrado(t.columnas, PosLegado, PosCanonico);
    }
  }

  /** After the copy, a legacy name is gone or its canonical name is
    * there. */
  lemma ParMigrado(columnas: seq<string>, viejo: string, nuevo: string)
    requires Cambio(viejo, nuevo) == Cambio(FecLegado, FecCanonico) || Cambio(viejo, nuevo) == Cambio(PosLegado, PosCanonico)
    ensures viejo !in NuevasColumnas(columnas, PlanCambios(columnas)) || nuevo in NuevasColumnas(columnas, PlanCambios(columnas))
  {
    var p := PlanCambios(columnas);
    PlanCambiosSi(columnas);
    NuevasColumnasMiembros(columnas, p, viejo);
    NuevasColumnasMiembros(columnas, p, nuevo);
    assert forall i :: 0 <= i < |p| ==> p[i].antiguo != nuevo && p[i].nuevo != viejo;
    if viejo in columnas && nuevo !in columnas {
      var i :| 0 <= i < |p| && p[i] == Cambio(viejo, nuevo);
      assert Nuevos(p)[i] == nuevo;
    }
  }


  /** Running the migration twice is running it once. */
  lemma MigrarIdempotente(t: Tabla)
    ensures Migrar(Migrar(t)) == Migrar(t)
  {
    MigrarCompleto(t);
  }

  // ---------------------------------------------------------------------
  // renombrar_columna_fec_puesta
  // ---------------------------------------------------------------------

  /** The value `"Fec#Puesta"` selects in a row: the legacy column when the
    * table has it; otherwise the database reads the double-quoted name as
    * a string literal, so every row gets the text itself. */
  function FecDe(t: Tabla, f: Fila): Celda
  {
    if FecLegado in t.columnas then Valor(f, FecLegado) else Some(FecLegado)
  }

  /** `SELECT *, "Fec#Puesta" AS "Fec.Puesta"`: every column kept, the new
    * one appended. */
  function ConFecPuesta(t: Tabla): (r: Tabla)
    ensures r.columnas == t.columnas + [FecCanonico] && |r.filas| == |t.filas|
  {
    Tabla(t.columnas + [FecCanonico],
      seq(|t.filas|, i requires 0 <= i < |t.filas| => t.filas[i][FecCanonico := FecDe(t, t.filas[i])]))
  }

  /** `renombrar_columna_fec_puesta` of the main application: it copies the
    * table whenever `Fec.Puesta` is missing, whether or not `Fec#Puesta`
    * exists. */
  function RenombrarFecPuesta(t: Tabla): Tabla
  {
    if FecCanonico in t.columnas then t else ConFecPuesta(t)
  }

  /** `renombrar_columna_fec_puesta` of the second application: it copies
    * the table only when `Fec#Puesta` exists and `Fec.Puesta` does not. */
  function RenombrarFecPuestaSiFalta(t: Tabla): Tabla
  {
    if FecLegado in t.columnas && FecCanonico !in t.columnas then ConFecPuesta(t) else t
  }

  /** The copy is well formed, keeps every cell, and the new column holds
    * what `"Fec#Puesta"` selects. */
  lemma ConFecPuestaResultado(t: Tabla)
    requires Bien(t) && FecCanonico !in t.columnas
    ensures Bien(ConFecPuesta(t))
    ensures forall i, c :: 0 <= i < |t.filas| && c in t.columnas ==>
      c in ConFecPuesta(t).filas[i] && ConFecPuesta(t).filas[i][c] == t.filas[i][c]
    ensures forall i :: 0 <= i < |t.filas| ==> ConFecPuesta(t).filas[i][FecCanonico] == FecDe(t, t.filas[i])
  {
    var r := ConFecPuesta(t);
    forall i | 0 <= i < |r.filas|
      ensures r.filas[i].Keys == set c | c in r.columnas
    {
      assert r.filas[i].Keys == t.filas[i].Keys + {FecCanonico};
    }
  }

  /** After the main application's rename `Fec.Puesta` always exists, and
    * a second run changes nothing. */
  lemma RenombrarFecPuestaResultado(t: Tabla)
    ensures FecCanonico in RenombrarFecPuesta(t).columnas
    ensures RenombrarFecPuesta(RenombrarFecPuesta(t)) == RenombrarFecPuesta(t)
    ensures FecCanonico in t.columnas ==> RenombrarFecPuesta(t) == t
  {
  }

  /** With neither name present the main application's rename invents a
    * `Fec.Puesta` column whose every cell is the text `Fec#Puesta`. */
  lemma FecPuestaLiteral(t: Tabla)
    requires Bien(t) && FecLegado !in t.columnas && FecCanonico !in t.columnas
    ensures forall i :: 0 <= i < |t.filas| ==> RenombrarFecPuesta(t).filas[i][FecCanonico] == Some(FecLegado)
  {
    ConFecPuestaResultado(t);
  }

  /** The guarded rename copies exactly when the legacy name is present and
    * the canonical one is not; afterwards a table that had the legacy name
    * has both, every `Fec.Puesta` cell it added comes from `Fec#Puesta`,
    * and a second run changes nothing. */
  lemma RenombrarFecPuestaSiFaltaResultado(t: Tabla)
    requires Bien(t)
    ensures RenombrarFecPuestaSiFalta(t) != t <==> FecLegado in t.columnas && FecCanonico !in t.columnas
    ensures FecLegado in t.columnas ==>
      FecLegado in RenombrarFecPuestaSiFalta(t).columnas && FecCanonico in RenombrarFecPuestaSiFalta(t).columnas
    ensures FecLegado in t.columnas && FecCanonico !in t.columnas ==>
      forall i :: 0 <= i < |t.filas| ==> RenombrarFecPuestaSiFalta(t).filas[i][FecCanonico] == t.filas[i][FecLegado]
    ensures RenombrarFecPuestaSiFalta(RenombrarFecPuestaSiFalta(t)) == RenombrarFecPuestaSiFalta(t)
  {
    if FecLegado in t.columnas && FecCanonico !in t.columnas {
      ConFecPuestaResultado(t);
      assert RenombrarFecPuestaSiFalta(t).columnas != t.columnas;
    }
  }

  /** The main application runs the migration and then the rename: the
    * result always has `Fec.Puesta`; a table with only the legacy name
    * ends up with its cells under the canonical name and no legacy
    * column. */
  lemma Arranque(t: Tabla)
    requires Bien(t)
    ensures FecCanonico in RenombrarFecPuesta(Migrar(t)).columnas
    ensures FecLegado in t.columnas && FecCanonico !in t.columnas ==>
      && RenombrarFecPuesta(Migrar(t)) == Migrar(t)
      && FecLegado !in Migrar(t).columnas
      && forall i :: 0 <= i < |t.filas| ==> Migrar(t).filas[i][FecCanonico] == t.filas[i][FecLegado]
  {
    RenombrarFecPuestaResultado(Migrar(t));
    if FecLegado in t.columnas && FecCanonico !in t.columnas {
      var p := PlanCambios(t.columnas);
      PlanCambiosValido(t.columnas);
      assert p[0] == Cambio(FecLegado, FecCanonico);
      ReescribirResultado(t, p);
      NuevasColumnasMiembros(t.columnas, p, FecLegado);
      NuevasColumnasMiembros(t.columnas, p, FecCanonico);
      assert Nuevos(p)[0] == FecCanonico;
      assert forall c :: c in Nuevos(p) ==> c == FecCanonico || c == PosCanonico;
    }
  }
}
