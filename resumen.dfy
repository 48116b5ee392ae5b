/** The volume summary that sets the filtered orders against the filtered
  * stock: each side is grouped by thickness, width, length and quality with
  * its volumes summed, the two groupings are joined on that key keeping the
  * keys of both sides, a side without the key counts 0, and the difference
  * is stock minus orders. */
module Resumen {
  import opened Wrappers
  import opened Numbers
  import opened Tablas
  import opened Normalizers
  import opened Filtros

  /** The grouping key: thickness, width, length and quality cells. A null
    * is a key value of its own, as in a grouping that keeps nulls. */
  datatype Clave = Clave(espesor: Celda, ancho: Celda, largo: Celda, calidad: Celda)

  /** The four columns a side keeps its key in. */
  datatype Dimensiones = Dimensiones(espesor: string, ancho: string, largo: string, calidad: string)

  const DimPedidos := Dimensiones("EspesroMP", "AnchoMP", "LAR_DEC", "CalidadMP")

  /** The stock columns; the summary renames them to the order names
    * before the join, which is why a stock key and an order key with the
    * same four cells are one key. */
  const DimStock := Dimensiones("ESP_CUB", "ANC_CUB", "LAR_CUB", "CALIDAD")

  const VolPedidos := "Vol#M3"
  const VolStock := "Vol_Util"

  function ClaveDe(f: Fila, d: Dimensiones): Clave
  {
    Clave(Valor(f, d.espesor), Valor(f, d.ancho), Valor(f, d.largo), Valor(f, d.calidad))
  }

  /** The four key columns and the volume column are in the table. */
  predicate Agrupable(t: Tabla, d: Dimensiones, vol: string)
  {
    d.espesor in t.columnas && d.ancho in t.columnas && d.largo in t.columnas
    && d.calidad in t.columnas && vol in t.columnas
  }

  /** A volume cell as the sum counts it: a null or a cell that is not a
    * number (a missing value) adds nothing. */
  function Volumen(c: Celda): real
  {
    match c
    case None => 0.0
    case Some(t) =>
      match ParseFloat(t)
      case None => 0.0
      case Some(x) => x
  }

  /** The keys that occur in `filas`, each once, in the order they first
    * appear. */
  function Claves(filas: seq<Fila>, d: Dimensiones): seq<Clave>
  {
    if filas == [] then []
    else
      var ks := Claves(filas[..|filas| - 1], d);
      var k := ClaveDe(filas[|filas| - 1], d);
      if k in ks then ks else ks + [k]
  }

  /** The volume of the rows whose key is `k`. */
  function Suma(filas: seq<Fila>, k: Clave, d: Dimensiones, vol: string): real
  {
    if filas == [] then 0.0
    else
      var f := filas[|filas| - 1];
      Suma(filas[..|filas| - 1], k, d, vol) + (if ClaveDe(f, d) == k then Volumen(Valor(f, vol)) else 0.0)
  }

  /** The volume of all rows. */
  function Total(filas: seq<Fila>, vol: string): real
  {
    if filas == [] then 0.0
    else Total(filas[..|filas| - 1], vol) + Volumen(Valor(filas[|filas| - 1], vol))
  }

  /** One group of a grouping: its key and summed volume. */
  datatype Grupo = Grupo(clave: Clave, volumen: real)

  /** `groupby(claves, dropna=False).agg(sum)`: one group per key. */
  function Agrupar(filas: seq<Fila>, d: Dimensiones, vol: string): (g: seq<Grupo>)
    ensures |g| == |Claves(filas, d)|
    ensures forall i :: 0 <= i < |g| ==> g[i] == Grupo(Claves(filas, d)[i], Suma(filas, Claves(filas, d)[i], d, vol))
  {
    var ks := Claves(filas, d);
    seq(|ks|, i requires 0 <= i < |ks| => Grupo(ks[i], Suma(filas, ks[i], d, vol)))
  }

  /** The volume of the first group with key `k`, if any. */
  function Buscar(g: seq<Grupo>, k: Clave): Option<real>
  {
    if g == [] then None
    else if g[0].clave == k then Some(g[0].volumen)
    else Buscar(g[1..], k)
  }

  /** A row of the outer join: a volume for each side that has the key,
    * none (a missing value) for a side that lacks it. */
  datatype Cruce = Cruce(clave: Clave, pedido: Option<real>, stock: Option<real>)

  /** The order groups, each with the stock volume of its key. */
  function Izquierda(gp: seq<Grupo>, gs: seq<Grupo>): (c: seq<Cruce>)
    ensures |c| == |gp|
    ensures forall i :: 0 <= i < |c| ==> c[i] == Cruce(gp[i].clave, Some(gp[i].volumen), Buscar(gs, gp[i].clave))
  {
    seq(|gp|, i requires 0 <= i < |gp| => Cruce(gp[i].clave, Some(gp[i].volumen), Buscar(gs, gp[i].clave)))
  }

  /** The stock groups whose key no order group has. */
  function Derecha(gs: seq<Grupo>, gp: seq<Grupo>): seq<Cruce>
  {
    if gs == [] then []
    else
      (if Buscar(gp, gs[0].clave).Some? then [] else [Cruce(gs[0].clave, None, Some(gs[0].volumen))])
      + Derecha(gs[1..], gp)
  }

  /** `merge(how="outer")` on the key. */
  function Unir(gp: seq<Grupo>, gs: seq<Grupo>): seq<Cruce>
  {
    Izquierda(gp, gs) + Derecha(gs, gp)
  }

  /** `fillna(0)`. */
  function Cero(v: Option<real>): real
  {
    match v
    case None => 0.0
    case Some(x) => x
  }

  /** A line of the summary. */
  datatype Linea = Linea(clave: Clave, volPedido: real, volStock: real, diferencia: real)

  function ClavesLineas(r: seq<Linea>): (ks: seq<Clave>)
    ensures |ks| == |r| && forall i :: 0 <= i < |r| ==> ks[i] == r[i].clave
  {
    seq(|r|, i requires 0 <= i < |r| => r[i].clave)
  }

  // ---------------------------------------------------------------------
  // Keys and sums
  // ---------------------------------------------------------------------

  /** The keys of a grouping are exactly the keys of the rows, each once. */
  lemma {:induction false} ClavesMiembros(filas: seq<Fila>, d: Dimensiones)
    ensures Distintas(Claves(filas, d))
    ensures forall i :: 0 <= i < |filas| ==> ClaveDe(filas[i], d) in Claves(filas, d)
    ensures forall k :: k in Claves(filas, d) ==> exists i :: 0 <= i < |filas| && ClaveDe(filas[i], d) == k
  {
    if filas != [] {
      var p := filas[..|filas| - 1];
      ClavesMiembros(p, d);
      forall i | 0 <= i < |filas|
        ensures ClaveDe(filas[i], d) in Claves(filas, d)
      {
        if i < |p| { assert filas[i] == p[i]; }
      }
      forall k | k in Claves(filas, d)
        ensures exists i :: 0 <= i < |filas| && ClaveDe(filas[i], d) == k
      {
        if k in Claves(p, d) {
          var i :| 0 <= i < |p| && ClaveDe(p[i], d) == k;
          assert filas[i] == p[i];
        } else {
          assert ClaveDe(filas[|filas| - 1], d) == k;
        }
      }
    }
  }

  /** A key no row has sums to 0. */
  lemma {:induction false} SumaAusente(filas: seq<Fila>, k: Clave, d: Dimensiones, vol: string)
    requires k !in Claves(filas, d)
    ensures Suma(filas, k, d, vol) == 0.0
  {
    if filas != [] {
      var p := filas[..|filas| - 1];
      assert Claves(p, d) <= Claves(filas, d) by {
        assert forall x :: x in Claves(p, d) ==> x in Claves(filas, d);
      }
      SumaAusente(p, k, d, vol);
    }
  }

  /** Looking a key up in a grouping finds its sum exactly when a row has
    * it. */
  lemma BuscarAgrupar(filas: seq<Fila>, d: Dimensiones, vol: string, k: Clave)
    ensures Buscar(Agrupar(filas, d, vol), k) == if k in Claves(filas, d) then Some(Suma(filas, k, d, vol)) else None
  {
    var ks := Claves(filas, d);
    BuscarEn(Agrupar(filas, d, vol), ks, filas, d, vol, k);
  }

  lemma {:induction false} BuscarEn(g: seq<Grupo>, ks: seq<Clave>, filas: seq<Fila>, d: Dimensiones, vol: string, k: Clave)
    requires |g| == |ks| && forall i :: 0 <= i < |g| ==> g[i] == Grupo(ks[i], Suma(filas, ks[i], d, vol))
    ensures Buscar(g, k) == if k in ks then Some(Suma(filas, k, d, vol)) else None
  {
    if g != [] {
      if ks[0] != k {
        assert ks == [ks[0]] + ks[1..];
        BuscarEn(g[1..], ks[1..], filas, d, vol, k);
      }
    }
  }

  // ---------------------------------------------------------------------
  // The outer join
  // ---------------------------------------------------------------------

  function ClavesCruce(c: seq<Cruce>): (ks: seq<Clave>)
    ensures |ks| == |c| && forall i :: 0 <= i < |c| ==> ks[i] == c[i].clave
  {
    seq(|c|, i requires 0 <= i < |c| => c[i].clave)
  }

  function ClavesGrupos(g: seq<Grupo>): (ks: seq<Clave>)
    ensures |ks| == |g| && forall i :: 0 <= i < |g| ==> ks[i] == g[i].clave
  {
    seq(|g|, i requires 0 <= i < |g| => g[i].clave)
  }

  /** A join line that only the stock side has: no order volume, a key the
    * orders lack, and the key and volume of one of the stock groups. */
  predicate DeStock(c: Cruce, gs: seq<Grupo>, gp: seq<Grupo>)
  {
    && c.pedido == None && Buscar(gp, c.clave) == None
    && c.stock.Some? && Grupo(c.clave, c.stock.value) in gs
  }

  /** Each line of the stock-only part carries a stock group whose key the
    * orders lack, and no order volume. */
  lemma {:induction false} DerechaLineas(gs: seq<Grupo>, gp: seq<Grupo>)
    ensures forall j :: 0 <= j < |Derecha(gs, gp)| ==> DeStock(Derecha(gs, gp)[j], gs, gp)
  {
    if gs != [] {
      DerechaLineas(gs[1..], gp);
      var h: seq<Cruce> := if Buscar(gp, gs[0].clave).Some? then [] else [Cruce(gs[0].clave, None, Some(gs[0].volumen))];
      var t := Derecha(gs[1..], gp);
      assert Derecha(gs, gp) == h + t;
      forall j | 0 <= j < |h + t|
        ensures DeStock((h + t)[j], gs, gp)
      {
        if j >= |h| {
          assert (h + t)[j] == t[j - |h|];
          assert DeStock(t[j - |h|], gs[1..], gp);
        }
      }
    }
  }

  /** The tail of a grouping that repeats no key repeats none, and none of
    * its keys is the head's. */
  lemma ClavesGruposResto(gs: seq<Grupo>)
    requires gs != [] && Distintas(ClavesGrupos(gs))
    ensures Distintas(ClavesGrupos(gs[1..]))
    ensures forall g :: g in gs[1..] ==> g.clave != gs[0].clave
  {
    var resto := gs[1..];
    forall a, b | 0 <= a < b < |resto|
      ensures ClavesGrupos(resto)[a] != ClavesGrupos(resto)[b]
    {
      assert ClavesGrupos(gs)[a + 1] != ClavesGrupos(gs)[b + 1];
    }
    forall g | g in resto
      ensures g.clave != gs[0].clave
    {
      var i :| 0 <= i < |resto| && resto[i] == g;
      assert ClavesGrupos(gs)[i + 1] != ClavesGrupos(gs)[0];
    }
  }

  /** The stock-only part repeats no key of a grouping that repeats none. */
  lemma {:induction false} DerechaDistintas(gs: seq<Grupo>, gp: seq<Grupo>)
    requires Distintas(ClavesGrupos(gs))
    ensures Distintas(ClavesCruce(Derecha(gs, gp)))
  {
    if gs != [] {
      var resto := gs[1..];
      ClavesGruposResto(gs);
      DerechaDistintas(resto, gp);
      DerechaLineas(resto, gp);
      var h: seq<Cruce> := if Buscar(gp, gs[0].clave).Some? then [] else [Cruce(gs[0].clave, None, Some(gs[0].volumen))];
      var t := Derecha(resto, gp);
      assert Derecha(gs, gp) == h + t;
      forall j | 0 <= j < |t|
        ensures t[j].clave !in ClavesCruce(h)
      {
        assert DeStock(t[j], resto, gp);
      }
      ConcatDistintas(h, t);
    }
  }

  /** Every stock key the orders lack has its line in the stock-only
    * part. */
  lemma {:induction false} DerechaCompleta(gs: seq<Grupo>, gp: seq<Grupo>)
    ensures forall i :: 0 <= i < |gs| && Buscar(gp, gs[i].clave) == None ==>
      gs[i].clave in ClavesCruce(Derecha(gs, gp))
  {
    if gs != [] {
      var resto := gs[1..];
      DerechaCompleta(resto, gp);
      var h: seq<Cruce> := if Buscar(gp, gs[0].clave).Some? then [] else [Cruce(gs[0].clave, None, Some(gs[0].volumen))];
      var t := Derecha(resto, gp);
      forall i | 0 <= i < |gs| && Buscar(gp, gs[i].clave) == None
        ensures gs[i].clave in ClavesCruce(h + t)
      {
        if i == 0 {
          assert ClavesCruce(h + t)[0] == gs[0].clave;
        } else {
          assert gs[i] == resto[i - 1];
          var j :| 0 <= j < |t| && ClavesCruce(t)[j] == gs[i].clave;
          assert (h + t)[j + |h|] == t[j];
          assert ClavesCruce(h + t)[j + |h|] == gs[i].clave;
        }
      }
    }
  }

  /** A join line carries, for its key, the summed volume of each side, a
    * side without the key counting 0. */
  predicate Cuadra(c: Cruce, p: seq<Fila>, dp: Dimensiones, vp: string, s: seq<Fila>, ds: Dimensiones, vs: string)
  {
    Cero(c.pedido) == Suma(p, c.clave, dp, vp) && Cero(c.stock) == Suma(s, c.clave, ds, vs)
  }

  /** Every line of the join of two groupings holds each side's sum for its
    * key. */
  lemma UnirVolumenes(p: seq<Fila>, dp: Dimensiones, vp: string, s: seq<Fila>, ds: Dimensiones, vs: string)
    ensures forall j :: 0 <= j < |Unir(Agrupar(p, dp, vp), Agrupar(s, ds, vs))| ==>
      Cuadra(Unir(Agrupar(p, dp, vp), Agrupar(s, ds, vs))[j], p, dp, vp, s, ds, vs)
  {
    var gp := Agrupar(p, dp, vp);
    var gs := Agrupar(s, ds, vs);
    var l := Izquierda(gp, gs);
    var d := Derecha(gs, gp);
    DerechaLineas(gs, gp);
    forall j | 0 <= j < |l + d|
      ensures Cuadra((l + d)[j], p, dp, vp, s, ds, vs)
    {
      if j < |l| {
        IzquierdaCuadra(p, dp, vp, s, ds, vs, j);
      } else {
        assert (l + d)[j] == d[j - |l|];
        DerechaCuadra(p, dp, vp, s, ds, vs, d[j - |l|]);
      }
    }
  }

  lemma IzquierdaCuadra(p: seq<Fila>, dp: Dimensiones, vp: string, s: seq<Fila>, ds: Dimensiones, vs: string, j: nat)
    requires j < |Agrupar(p, dp, vp)|
    ensures Cuadra(Izquierda(Agrupar(p, dp, vp), Agrupar(s, ds, vs))[j], p, dp, vp, s, ds, vs)
  {
    var k := Claves(p, dp)[j];
    BuscarAgrupar(s, ds, vs, k);
    if k !in Claves(s, ds) {
      SumaAusente(s, k, ds, vs);
    }
  }

  lemma DerechaCuadra(p: seq<Fila>, dp: Dimensiones, vp: string, s: seq<Fila>, ds: Dimensiones, vs: string, c: Cruce)
    requires DeStock(c, Agrupar(s, ds, vs), Agrupar(p, dp, vp))
    ensures Cuadra(c, p, dp, vp, s, ds, vs)
  {
    BuscarAgrupar(p, dp, vp, c.clave);
    SumaAusente(p, c.clave, dp, vp);
    var gs := Agrupar(s, ds, vs);
    var i :| 0 <= i < |gs| && gs[i] == Grupo(c.clave, c.stock.value);
  }

  /** The keys of a grouping, in order, are the keys of its rows. */
  lemma AgruparClaves(p: seq<Fila>, dp: Dimensiones, vp: string)
    ensures ClavesGrupos(Agrupar(p, dp, vp)) == Claves(p, dp)
  {
  }

  lemma IzquierdaClaves(gp: seq<Grupo>, gs: seq<Grupo>)
    ensures ClavesCruce(Izquierda(gp, gs)) == ClavesGrupos(gp)
  {
  }

  /** A stock-only line has a stock key the orders lack. */
  lemma DerechaFuera(p: seq<Fila>, dp: Dimensiones, vp: string, s: seq<Fila>, ds: Dimensiones, vs: string, c: Cruce)
    requires DeStock(c, Agrupar(s, ds, vs), Agrupar(p, dp, vp))
    ensures c.clave !in Claves(p, dp) && c.clave in Claves(s, ds)
  {
    var gs := Agrupar(s, ds, vs);
    BuscarAgrupar(p, dp, vp, c.clave);
    var i :| 0 <= i < |gs| && gs[i] == Grupo(c.clave, c.stock.value);
  }

  /** Two key-distinct lists whose keys do not meet make a key-distinct
    * list. */
  lemma ConcatDistintas(l: seq<Cruce>, d: seq<Cruce>)
    requires Distintas(ClavesCruce(l)) && Distintas(ClavesCruce(d))
    requires forall j :: 0 <= j < |d| ==> d[j].clave !in ClavesCruce(l)
    ensures Distintas(ClavesCruce(l + d))
  {
    var u := l + d;
    forall a, b | 0 <= a < b < |u|
      ensures ClavesCruce(u)[a] != ClavesCruce(u)[b]
    {
      if b < |l| {
        assert ClavesCruce(l)[a] != ClavesCruce(l)[b];
      } else if a < |l| {
        assert u[b] == d[b - |l|] && u[a] == l[a];
        assert ClavesCruce(l)[a] == l[a].clave;
      } else {
        assert u[a] == d[a - |l|] && u[b] == d[b - |l|];
        assert ClavesCruce(d)[a - |l|] != ClavesCruce(d)[b - |l|];
      }
    }
  }

  /** The join repeats no key. */
  lemma UnirDistintas(p: seq<Fila>, dp: Dimensiones, vp: string, s: seq<Fila>, ds: Dimensiones, vs: string)
    ensures Distintas(ClavesCruce(Unir(Agrupar(p, dp, vp), Agrupar(s, ds, vs))))
  {
    var gp := Agrupar(p, dp, vp);
    var gs := Agrupar(s, ds, vs);
    ClavesMiembros(p, dp);
    ClavesMiembros(s, ds);
    AgruparClaves(p, dp, vp);
    AgruparClaves(s, ds, vs);
    IzquierdaClaves(gp, gs);
    DerechaDistintas(gs, gp);
    DerechaLineas(gs, gp);
    var d := Derecha(gs, gp);
    forall j | 0 <= j < |d|
      ensures d[j].clave !in ClavesCruce(Izquierda(gp, gs))
    {
      assert DeStock(d[j], gs, gp);
      DerechaFuera(p, dp, vp, s, ds, vs, d[j]);
    }
    ConcatDistintas(Izquierda(gp, gs), Derecha(gs, gp));
  }

  /** The keys of the join are those of either side. */
  lemma UnirMiembros(p: seq<Fila>, dp: Dimensiones, vp: string, s: seq<Fila>, ds: Dimensiones, vs: string, k: Clave)
    ensures k in ClavesCruce(Unir(Agrupar(p, dp, vp), Agrupar(s, ds, vs))) <==>
      k in Claves(p, dp) || k in Claves(s, ds)
  {
    if k in Claves(p, dp) {
      UnirDesdePedidos(p, dp, vp, s, ds, vs, k);
    } else if k in Claves(s, ds) {
      UnirDesdeStock(p, dp, vp, s, ds, vs, k);
    }
    if k in ClavesCruce(Unir(Agrupar(p, dp, vp), Agrupar(s, ds, vs))) {
      UnirHacia(p, dp, vp, s, ds, vs, k);
    }
  }

  lemma UnirDesdePedidos(p: seq<Fila>, dp: Dimensiones, vp: string, s: seq<Fila>, ds: Dimensiones, vs: string, k: Clave)
    requires k in Claves(p, dp)
    ensures k in ClavesCruce(Unir(Agrupar(p, dp, vp), Agrupar(s, ds, vs)))
  {
    var gp := Agrupar(p, dp, vp);
    var l := Izquierda(gp, Agrupar(s, ds, vs));
    var u := Unir(gp, Agrupar(s, ds, vs));
    var j :| 0 <= j < |Claves(p, dp)| && Claves(p, dp)[j] == k;
    assert u[j] == l[j];
    assert ClavesCruce(u)[j] == k;
  }

  lemma UnirDesdeStock(p: seq<Fila>, dp: Dimensiones, vp: string, s: seq<Fila>, ds: Dimensiones, vs: string, k: Clave)
    requires k !in Claves(p, dp) && k in Claves(s, ds)
    ensures k in ClavesCruce(Unir(Agrupar(p, dp, vp), Agrupar(s, ds, vs)))
  {
    var gp := Agrupar(p, dp, vp);
    var gs := Agrupar(s, ds, vs);
    var l := Izquierda(gp, gs);
    var d := Derecha(gs, gp);
    BuscarAgrupar(p, dp, vp, k);
    DerechaCompleta(gs, gp);
    var i :| 0 <= i < |Claves(s, ds)| && Claves(s, ds)[i] == k;
    assert gs[i].clave == k;
    var j :| 0 <= j < |d| && ClavesCruce(d)[j] == k;
    assert (l + d)[j + |l|] == d[j];
    assert ClavesCruce(l + d)[j + |l|] == k;
  }

  lemma UnirHacia(p: seq<Fila>, dp: Dimensiones, vp: string, s: seq<Fila>, ds: Dimensiones, vs: string, k: Clave)
    requires k in ClavesCruce(Unir(Agrupar(p, dp, vp), Agrupar(s, ds, vs)))
    ensures k in Claves(p, dp) || k in Claves(s, ds)
  {
    var gp := Agrupar(p, dp, vp);
    var gs := Agrupar(s, ds, vs);
    var l := Izquierda(gp, gs);
    var d := Derecha(gs, gp);
    var u := l + d;
    var j :| 0 <= j < |u| && ClavesCruce(u)[j] == k;
    assert u[j].clave == k;
    if j >= |l| {
      var c := d[j - |l|];
      assert u[j] == c;
      DerechaLineas(gs, gp);
      assert DeStock(c, gs, gp);
      DerechaFuera(p, dp, vp, s, ds, vs, c);
    } else {
      assert u[j] == l[j];
      assert l[j].clave == gp[j].clave == Claves(p, dp)[j];
    }
  }

  // ---------------------------------------------------------------------
  // The summary
  // ---------------------------------------------------------------------

  /** `r` is the volume summary of orders `p` against stock `s`: each key
    * of either side has exactly one line, no other key has one, and each
    * line holds the order volume and the stock volume of its key (0 for a
    * side without it) and their difference, stock minus orders. */
  ghost predicate EsResumen(r: seq<Linea>, p: seq<Fila>, s: seq<Fila>)
  {
    && Distintas(ClavesLineas(r))
    && (forall k :: k in ClavesLineas(r) <==> k in Claves(p, DimPedidos) || k in Claves(s, DimStock))
    && (forall j :: 0 <= j < |r| ==>
          && r[j].volPedido == Suma(p, r[j].clave, DimPedidos, VolPedidos)
          && r[j].volStock == Suma(s, r[j].clave, DimStock, VolStock)
          && r[j].diferencia == r[j].volStock - r[j].volPedido)
  }

  /** The summary the view shows under the two filtered tables: group
    * each side, join the groupings keeping every key, fill the missing
    * volumes with 0 and take the difference. */
  method ResumenVolumenes(pedidos: Tabla, stock: Tabla) returns (r: seq<Linea>)
    requires Agrupable(pedidos, DimPedidos, VolPedidos) && Agrupable(stock, DimStock, VolStock)
    ensures EsResumen(r, pedidos.filas, stock.filas)
  {
    var gp := Agrupar(pedidos.filas, DimPedidos, VolPedidos);
    var gs := Agrupar(stock.filas, DimStock, VolStock);
    var cruce := Unir(gp, gs);
    r := seq(|cruce|, i requires 0 <= i < |cruce| =>
      Linea(cruce[i].clave, Cero(cruce[i].pedido), Cero(cruce[i].stock), Cero(cruce[i].stock) - Cero(cruce[i].pedido)));
    UnirVolumenes(pedidos.filas, DimPedidos, VolPedidos, stock.filas, DimStock, VolStock);
    UnirDistintas(pedidos.filas, DimPedidos, VolPedidos, stock.filas, DimStock, VolStock);
    assert ClavesLineas(r) == ClavesCruce(cruce);
    forall k
      ensures k in ClavesLineas(r) <==> k in Claves(pedidos.filas, DimPedidos) || k in Claves(stock.filas, DimStock)
    {
      UnirMiembros(pedidos.filas, DimPedidos, VolPedidos, stock.filas, DimStock, VolStock, k);
    }
  }

  // ---------------------------------------------------------------------
  // Nothing is lost: the summary accounts for every row's volume
  // ---------------------------------------------------------------------

  /** The sum over the keys `ks` of each key's volume. */
  function SumaClaves(ks: seq<Clave>, filas: seq<Fila>, d: Dimensiones, vol: string): real
  {
    if ks == [] then 0.0 else SumaClaves(ks[..|ks| - 1], filas, d, vol) + Suma(filas, ks[|ks| - 1], d, vol)
  }

  function TotalPedido(r: seq<Linea>): real
  {
    if r == [] then 0.0 else TotalPedido(r[..|r| - 1]) + r[|r| - 1].volPedido
  }

  function TotalStock(r: seq<Linea>): real
  {
    if r == [] then 0.0 else TotalStock(r[..|r| - 1]) + r[|r| - 1].volStock
  }

  function TotalDiferencia(r: seq<Linea>): real
  {
    if r == [] then 0.0 else TotalDiferencia(r[..|r| - 1]) + r[|r| - 1].diferencia
  }

  /** One more row adds its volume to the sum over distinct keys exactly
    * when its key is among them. */
  lemma {:induction false} SumaClavesPaso(ks: seq<Clave>, filas: seq<Fila>, f: Fila, d: Dimensiones, vol: string)
    requires Distintas(ks)
    ensures SumaClaves(ks, filas + [f], d, vol)
      == SumaClaves(ks, filas, d, vol) + (if ClaveDe(f, d) in ks then Volumen(Valor(f, vol)) else 0.0)
  {
    if ks != [] {
      var ini := ks[..|ks| - 1];
      assert Distintas(ini);
      assert ClaveDe(f, d) in ks <==> ClaveDe(f, d) in ini || ClaveDe(f, d) == ks[|ks| - 1] by {
        assert ks == ini + [ks[|ks| - 1]];
      }
      assert ks[|ks| - 1] !in ini;
      SumaClavesPaso(ini, filas, f, d, vol);
      assert (filas + [f])[..|filas + [f]| - 1] == filas;
    }
  }

  /** Summing over distinct keys that cover every row's key gives the
    * volume of all rows. */
  lemma {:induction false} Conservacion(ks: seq<Clave>, filas: seq<Fila>, d: Dimensiones, vol: string)
    requires Distintas(ks)
    requires forall i :: 0 <= i < |filas| ==> ClaveDe(filas[i], d) in ks
    ensures SumaClaves(ks, filas, d, vol) == Total(filas, vol)
  {
    if filas == [] {
      SumaClavesVacia(ks, d, vol);
    } else {
      var ini := filas[..|filas| - 1];
      var f := filas[|filas| - 1];
      assert filas == ini + [f];
      Conservacion(ks, ini, d, vol);
      SumaClavesPaso(ks, ini, f, d, vol);
    }
  }

  lemma {:induction false} SumaClavesVacia(ks: seq<Clave>, d: Dimensiones, vol: string)
    ensures SumaClaves(ks, [], d, vol) == 0.0
  {
    if ks != [] {
      SumaClavesVacia(ks[..|ks| - 1], d, vol);
    }
  }

  /** The order column of the summary adds up to the sum over its keys. */
  lemma {:induction false} TotalPedidoClaves(r: seq<Linea>, p: seq<Fila>)
    requires forall j :: 0 <= j < |r| ==> r[j].volPedido == Suma(p, r[j].clave, DimPedidos, VolPedidos)
    ensures TotalPedido(r) == SumaClaves(ClavesLineas(r), p, DimPedidos, VolPedidos)
  {
    if r != [] {
      var ini := r[..|r| - 1];
      assert ClavesLineas(r)[..|r| - 1] == ClavesLineas(ini);
      TotalPedidoClaves(ini, p);
    }
  }

  lemma {:induction false} TotalStockClaves(r: seq<Linea>, s: seq<Fila>)
    requires forall j :: 0 <= j < |r| ==> r[j].volStock == Suma(s, r[j].clave, DimStock, VolStock)
    ensures TotalStock(r) == SumaClaves(ClavesLineas(r), s, DimStock, VolStock)
  {
    if r != [] {
      var ini := r[..|r| - 1];
      assert ClavesLineas(r)[..|r| - 1] == ClavesLineas(ini);
      TotalStockClaves(ini, s);
    }
  }

  lemma {:induction false} TotalDiferenciaResta(r: seq<Linea>)
    requires forall j :: 0 <= j < |r| ==> r[j].diferencia == r[j].volStock - r[j].volPedido
    ensures TotalDiferencia(r) == TotalStock(r) - TotalPedido(r)
  {
    if r != [] {
      TotalDiferenciaResta(r[..|r| - 1]);
    }
  }

  /** The summary loses no volume and invents none: its order column adds
    * up to the volume of all filtered orders, its stock column to that of
    * all filtered stock, and its differences to stock minus orders. */
  lemma ResumenConserva(r: seq<Linea>, p: seq<Fila>, s: seq<Fila>)
    requires EsResumen(r, p, s)
    ensures TotalPedido(r) == Total(p, VolPedidos)
    ensures TotalStock(r) == Total(s, VolStock)
    ensures TotalDiferencia(r) == Total(s, VolStock) - Total(p, VolPedidos)
  {
    ClavesMiembros(p, DimPedidos);
    ClavesMiembros(s, DimStock);
    TotalPedidoClaves(r, p);
    TotalStockClaves(r, s);
    Conservacion(ClavesLineas(r), p, DimPedidos, VolPedidos);
    Conservacion(ClavesLineas(r), s, DimStock, VolStock);
    TotalDiferenciaResta(r);
  }

  /** The two sides' lengths in the summary: once the order lengths are cut
    * to whole numbers, a stock row whose length is not whole has a key no
    * order has, so its line shows no order volume however close the order
    * lengths are. */
  lemma LargoSinPareja(t: Tabla, f: Fila, v: string)
    requires Bien(t) && "LAR_DEC" in t.columnas
    requires Valor(f, "LAR_CUB") == Some(NormalizarLargoComun(v))
    requires PyFloat(Limpiar(v)).Some? && !IsIntegral(PyFloat(Limpiar(v)).value)
    ensures ClaveDe(f, DimStock) !in Claves(TruncarLargo(t).filas, DimPedidos)
    ensures Suma(TruncarLargo(t).filas, ClaveDe(f, DimStock), DimPedidos, VolPedidos) == 0.0
  {
    var p := TruncarLargo(t).filas;
    var k := ClaveDe(f, DimStock);
    ClavesMiembros(p, DimPedidos);
    TruncarLargoResultado(t);
    if k in Claves(p, DimPedidos) {
      var i :| 0 <= i < |p| && ClaveDe(p[i], DimPedidos) == k;
      LargosNoCoinciden(v, t.filas[i]["LAR_DEC"]);
      assert false;
    }
    SumaAusente(p, k, DimPedidos, VolPedidos);
  }

  /** A key whose length has a decimal comma is no key of the orders once
    * their lengths are cut to whole numbers, so it has no order volume. */
  lemma ComaSinPedido(t: Tabla, k: Clave)
    requires Bien(t) && "LAR_DEC" in t.columnas && ',' in Texto(k.largo)
    ensures k !in Claves(TruncarLargo(t).filas, DimPedidos)
    ensures Suma(TruncarLargo(t).filas, k, DimPedidos, VolPedidos) == 0.0
  {
    var p := TruncarLargo(t).filas;
    ClavesMiembros(p, DimPedidos);
    TruncarLargoResultado(t);
    SumaAusente(p, k, DimPedidos, VolPedidos);
  }

  /** In a summary of the cut orders, every line whose length has a
    * decimal comma shows no order volume. */
  lemma ComaSinPedidoResumen(t: Tabla, r: seq<Linea>, s: seq<Fila>)
    requires Bien(t) && "LAR_DEC" in t.columnas
    requires EsResumen(r, TruncarLargo(t).filas, s)
    ensures forall j :: 0 <= j < |r| && ',' in Texto(r[j].clave.largo) ==> r[j].volPedido == 0.0
  {
    forall j | 0 <= j < |r| && ',' in Texto(r[j].clave.largo)
      ensures r[j].volPedido == 0.0
    {
      ComaSinPedido(t, r[j].clave);
    }
  }
}
