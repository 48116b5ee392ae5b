# Pedidos y Stock de Blanks — a Dafny model

This project models the data core of the order-planning application for
wood blanks: the Streamlit programs `app_pedidos_aggrid.py` (the main
application) and `streamlit_app.py` (the second application). It covers
the following parts:

- **Orders table migration.** At start-up, the `Pedidos` table renames its
  legacy columns `Fec#Puesta` and `Pos#OFA` to `Fec.Puesta` and `Pos.OFA`.
  This is `preparar_columnas_pedidos`, plus the two versions of
  `renombrar_columna_fec_puesta`.
- **Stock loader.** `cargar_stock_blanks` loads an uploaded stock sheet into
  `StockBlanks`. It drops the `CAMP…` columns, normalises the measures
  `ESP_CUB`, `ANC_CUB` and `LAR_CUB` with `convertir_a_coma`, and maps
  `CALIDAD` onto the four grades with `transformar_calidad`.
- **Display normalisers.** `fraccion_a_coma`, `normalizar_largo_comun` and
  `estandarizar_espesor`.
- **Filter chains.** The main view runs one over the orders (machine,
  thickness, width, length, quality, OFA text, non-empty machine) and one
  over the stock (thickness, width, length, quality). The orders' lengths
  are then truncated to whole numbers.
- **Volume summary.** Orders and stock are grouped by (thickness, width,
  length, quality). The summary is their outer join, with missing volumes
  taken as 0 and the difference stock minus orders.
- **The page as a whole.** The two tables the main view reads go through
  the display normalisers column by column, then through the filter
  chains and the length truncation, and the summary is built from what is
  left.
- **Small utilities.**
  - Detection of new OFAs (order numbers) against the loaded `OFA_Pos.OFA`
    identifiers.
  - The column orders of the two grids.
  - The sidebar filter `aplicar_filtros` of the second application.

The Dafny files and what each holds:

| file | what it holds |
|---|---|
| `text.dfy`, `numbers.dfy` | Python's `str.strip`, `str.split`, `str.upper`, `float()`, `Fraction()`, `round(x, n)`, `str(int)` and `str(float)`, on exact rationals |
| `tablas.dfy` | tables and rows, boolean-mask filtering, column rewriting |
| `normalizers.dfy`, `calidad.dfy` | the cell normalisers |
| `esquema.dfy` | the column migration as functions of the table |
| `filtros.dfy`, `resumen.dfy` | the filter chains and the volume summary |
| `vista.dfy` | the main view from the tables read to the summary |
| `utilidades.dfy` | new OFAs, column order, CAMP columns, sidebar filter |
| `basedatos.dfy` | the database object with its two tables, whose methods update them in place |

Cells are `Option<string>`: `None` is a SQL `NULL` or a Python `None`, and
`Some(t)` is the text `str()` gives. A NaN is therefore `Some("nan")`.
Numbers are exact `real`s. `float()` and `Fraction()` accept the digit
separators of PEP 515 (`1_000`); `Fraction()` follows the grammar of
Python 3.11.

## Model

| member | source | states |
|---|---|---|
| Normalizers.ConvertirAComaResultado | streamlit_app.py:189-204 | a cleaned text no branch can read comes back cleaned and unchanged; otherwise the output, read with a comma as decimal point, is the value read rounded to 4 places, and it has a comma exactly when that value is not whole |
| Normalizers.ConComaLee | streamlit_app.py:202 | the rendering of a value reads back as the value (whole) or as `round(x, n)`, has no point, and has a comma exactly when the value is not whole |
| Normalizers.LimpiarIdempotente | streamlit_app.py:191 | the cleaned text has no comma, and cleaning it again changes nothing |
| Normalizers.LeerMedidaNumeral | streamlit_app.py:200-201 | a plain numeral takes the `float(valor)` branch |
| Normalizers.LeerMedidaVariosGuiones | streamlit_app.py:192-194 | a text with two or more `_` cannot be unpacked into two parts, so nothing is read |
| Normalizers.ConvertirAComaMixto | streamlit_app.py:192-194 | `z_p/q` becomes the rendering of `z + p/q`; with `q = 0` the text comes back unchanged |
| Normalizers.ConvertirAComaMixtoEspacio | streamlit_app.py:195-197 | `z p/q` becomes the rendering of `z + p/q`; with `q = 0` the text comes back unchanged |
| Normalizers.ConvertirAComaFraccion | streamlit_app.py:198-199 | `p/q` becomes the rendering of `p/q`; with `q = 0` the text comes back unchanged |
| Normalizers.ConvertirAComaDecimal | streamlit_app.py:189-202 | a decimal `i,f` or `i.f` becomes the rendering of its value |
| Normalizers.CanonicoEntero | streamlit_app.py:189-204 | the text of a whole number is a fixed point |
| Normalizers.CanonicoDecimal | streamlit_app.py:189-204 | the 4-place comma text of a value that stays fractional is a fixed point |
| Normalizers.ConvertirAComaIdempotente | streamlit_app.py:189-204 | normalising an already normalised cell changes nothing, unless its value rounds to a whole number at 4 places |
| Normalizers.ConvertirAComaNoIdempotente | streamlit_app.py:202 | when the value rounds to a whole number, the first pass leaves a comma and the second pass removes it |
| Normalizers.EjemploMixto | streamlit_app.py:192-194 | `1_1/2` becomes `1,5` |
| Normalizers.EjemploFraccion | streamlit_app.py:198-199 | `2/4` becomes `0,5` |
| Normalizers.EjemploDenominadorCero | streamlit_app.py:203-204 | `1/0` raises inside the function and comes back unchanged |
| Normalizers.EjemploEntero | streamlit_app.py:200-202 | `3,0` becomes `3` |
| Normalizers.EjemploRedondeaAEntero | streamlit_app.py:202 | `2,99999` becomes `3,0`, and a second pass gives `3` |
| Normalizers.FraccionAComaResultado | app_pedidos_aggrid.py:648-657 | the stripped text is read by `Fraction()` when it has a `/` and otherwise by `float()` after commas become points, digit separators included; an unreadable text comes back stripped; otherwise the output always has a comma, never a point, and reads back as `round(x, 4)` |
| Normalizers.FraccionAComaEntero | app_pedidos_aggrid.py:648-657 | a whole width `z` becomes `z,0` |
| Normalizers.NormalizarLargoComunResultado | app_pedidos_aggrid.py:659-665 | the cleaned text is read by `float()`, digit separators included; an unreadable one comes back cleaned; otherwise the output reads back as the value rounded to 3 places, with a comma exactly when the value is not whole |
| Normalizers.EstandarizarEspesorResultado | app_pedidos_aggrid.py:676-681 | the text is read by `float()` after commas become points, digit separators included; an unreadable one comes back as it was; otherwise the output reads back as the value rounded to 4 places, with a comma exactly when the value is not whole |
| Normalizers.EstandarizarEspesorIdempotente | app_pedidos_aggrid.py:676-681 | applying it to its own output changes nothing, unless the value rounds to a whole number |
| Normalizers.EjemploSeparadores | app_pedidos_aggrid.py:648-681 | `1_1_2` is 112 to `float()`: `fraccion_a_coma` gives `112,0`, `normalizar_largo_comun` and `estandarizar_espesor` give `112`, while `convertir_a_coma` keeps the text |
| Normalizers.EspesorEntero | app_pedidos_aggrid.py:667-685 | on the thickness column, `fraccion_a_coma` and then `estandarizar_espesor` give a whole number back as its plain integer text |
| Normalizers.EspesorTrasFraccion | app_pedidos_aggrid.py:667-685 | after `fraccion_a_coma` read `x`, `estandarizar_espesor` shows `round(x, 4)`, with no `,0` when that is whole |
| Calidad.TransformarCalidad | streamlit_app.py:211-220 | total: every label becomes one of CLEAR, MCM, USA, MCR |
| Calidad.CalidadIgnoraMayusculas | streamlit_app.py:212 | an upper-cased label gets the same grade |
| Calidad.CalidadIgnoraBlancos | streamlit_app.py:212 | a stripped label gets the same grade |
| Calidad.CalidadVacia | streamlit_app.py:217-218 | an empty label and a null (`None`) become USA |
| Calidad.CalidadNan | streamlit_app.py:212-220 | a NaN cell, read as `nan`, is none of the blank labels and becomes MCR |
| Calidad.GradoDosVeces | streamlit_app.py:211-220 | grading a grade keeps MCM and turns every other grade into MCR |
| Numbers.RoundHalfEven | streamlit_app.py:202 | `round` picks an integer within 1/2 of its argument, and an even one on a tie |
| Numbers.ParseFloatRepr | streamlit_app.py:202 | `float(str(round(x, n)))` is `round(x, n)` |
| Numbers.ParseFloatInt | streamlit_app.py:202 | `float(str(z))` is `z` |
| Numbers.ReprRoundedWhole | streamlit_app.py:202 | `str(round(z, n))` of a whole `z` is `z.0` |
| Numbers.ReprRoundedStable | streamlit_app.py:202 | rounding a rounded fractional value again prints the same text |
| Numbers.NoUnderscores | app_pedidos_aggrid.py:662 | on a text without `_`, `float()` and Python 3.11's `Fraction()` read exactly the plain decimal and ratio literals |
| Numbers.ParseFractionRatio | streamlit_app.py:198-199 | `Fraction("b/c")` is `b/c`, and fails when `c = 0` |
| Text.StripIdempotent | streamlit_app.py:191 | stripping twice is stripping once |
| Text.SplitWhitespaceTwo | streamlit_app.py:196 | `split()` of two words with one blank between them gives the two words |
| Tablas.FiltrarSoloLasQue | app_pedidos_aggrid.py:813-816 | a boolean mask keeps exactly the rows that pass, in their order, each as many times as it occurs |
| Tablas.FiltrarCuenta | app_pedidos_aggrid.py:813-816 | a mask keeps every copy of a passing row and no copy of any other |
| Tablas.FiltrarDosVeces | app_pedidos_aggrid.py:811-841 | two masks in a row keep what one mask on both conditions keeps |
| Tablas.FiltrarTabla | app_pedidos_aggrid.py:813-816 | a table masked by a condition equal to `p` is well formed, is the mask of `p`, and holds exactly the rows passing `p`, in order and with their repeats |
| Tablas.AplicarResultado | streamlit_app.py:206-208 | `df[col].apply(g)` replaces that column's cells by `g` of them, keeps every other cell and keeps the table well formed |
| Filtros.Avanza | app_pedidos_aggrid.py:811-841 | running step `k` on the survivors of the steps before it leaves the survivors of `k + 1` steps; skipping an inactive step leaves them too |
| Filtros.Ejecutar | app_pedidos_aggrid.py:813-816 | one guarded step of a chain leaves the survivors of one more step |
| Filtros.Encadenar | app_pedidos_aggrid.py:811-841 | a chain of guarded steps leaves the rows that survive all of them, in order |
| Filtros.PasosPedidosCompletos | app_pedidos_aggrid.py:811-841 | surviving the seven order steps is passing every selected list, the OFA text and the non-empty machine test |
| Filtros.FiltrarPedidos | app_pedidos_aggrid.py:811-841 | the filtered orders keep the columns, stay well formed, and their rows are the mask of "passes every selection and has a machine": exactly the passing rows, in order and with their repeats |
| Filtros.PedidosResultado | app_pedidos_aggrid.py:811-841 | the seven-step chain's rows are the mask of that single condition, so exactly the passing rows, in order and with their repeats |
| Filtros.PasosStockCompletos | app_pedidos_aggrid.py:855-873 | surviving the four stock steps is: each stripped measure and the stripped quality is in its selected list, or that list is empty |
| Filtros.FiltrarStock | app_pedidos_aggrid.py:855-873 | the filtered stock keeps the columns, stays well formed, and its rows are the mask of "every stripped measure and quality is selected": exactly the passing rows, in order and with their repeats |
| Filtros.StockResultado | app_pedidos_aggrid.py:855-873 | the four-step chain's rows are the mask of that single condition, so exactly the passing rows, in order and with their repeats |
| Filtros.Truncar | app_pedidos_aggrid.py:848 | `astype(int)` truncates toward zero: the result is the integer part, below or above by less than 1 |
| Filtros.LargoEnteroResultado | app_pedidos_aggrid.py:844-850 | the shown length has no comma or point, reads back as the integer part of the value, and is `0` when the cell does not read as a number |
| Filtros.LargoEnteroIdempotente | app_pedidos_aggrid.py:844-850 | truncating a truncated length changes nothing |
| Filtros.TruncarLargoResultado | app_pedidos_aggrid.py:844-850 | every order length becomes such a whole number, other cells and columns stay, and a table without `LAR_DEC` is unchanged |
| Filtros.LargosNoCoinciden | app_pedidos_aggrid.py:844-850 | a fractional stock length from `normalizar_largo_comun` never equals a truncated order length |
| Filtros.LargosEnteros | app_pedidos_aggrid.py:844-850 | a whole length is shown the same way on both sides |
| Resumen.ClavesMiembros | app_pedidos_aggrid.py:904-911 | the groups' keys repeat none, every row's key has a group, and every group's key comes from a row |
| Resumen.SumaAusente | app_pedidos_aggrid.py:904-911 | a key no row has sums to 0 |
| Resumen.BuscarAgrupar | app_pedidos_aggrid.py:904-911 | looking a key up in a grouping finds its summed volume exactly when some row has that key |
| Resumen.UnirVolumenes | app_pedidos_aggrid.py:922-931 | each line of the outer join, with nulls filled with 0, carries each side's summed volume for its key |
| Resumen.UnirDistintas | app_pedidos_aggrid.py:922-927 | the outer join repeats no key |
| Resumen.UnirMiembros | app_pedidos_aggrid.py:922-927 | a key is in the join exactly when it is in either grouping |
| Resumen.ResumenVolumenes | app_pedidos_aggrid.py:903-938 | each key of either side has exactly one line, no other key has one, and each line holds both volumes (0 for a missing side) and stock minus orders |
| Resumen.Conservacion | app_pedidos_aggrid.py:904-911 | summing over distinct keys that cover every row gives the total volume |
| Resumen.ResumenConserva | app_pedidos_aggrid.py:903-938 | the summary's order column adds up to the total order volume, its stock column to the total stock volume, and its difference column to their difference |
| Resumen.LargoSinPareja | app_pedidos_aggrid.py:844-850 | a stock row whose length is fractional after `normalizar_largo_comun` matches no order group once the order lengths are truncated, so its order volume is 0 |
| Resumen.ComaSinPedido | app_pedidos_aggrid.py:844-850 | a key whose length has a decimal comma is the key of no truncated order, so its order volume is 0 |
| Resumen.ComaSinPedidoResumen | app_pedidos_aggrid.py:903-938 | in a summary of truncated orders, every line whose length has a decimal comma shows no order volume |
| Vista.PedidosVista | app_pedidos_aggrid.py:670-684 | the displayed orders are well formed with the same columns and rows; each length is `normalizar_largo_comun` of the cell, each thickness `estandarizar_espesor` of it, and every other cell is as read |
| Vista.FraccionesStock | app_pedidos_aggrid.py:667-668 | the stock's thickness and width cells become `fraccion_a_coma` of them; every other cell stays and the table stays well formed |
| Vista.StockVista | app_pedidos_aggrid.py:667-683 | the displayed stock is well formed with the same columns and rows; its thickness is `estandarizar_espesor` of `fraccion_a_coma` of the cell, its width `fraccion_a_coma`, its length `normalizar_largo_comun`, and every other cell is as read |
| Vista.Pagina | app_pedidos_aggrid.py:645-938 | the orders shown are the displayed orders passing the selection with lengths truncated; the stock shown is the displayed stock passing it; the summary is the summary of exactly those two, its columns add up to their totals, and a line whose length keeps a comma has no order volume |
| Vista.LargoPedidoVista | app_pedidos_aggrid.py:659-850 | an order length is normalised before it is truncated, so the page shows the integer part of the value rounded to 3 places |
| Esquema.PlanCambiosSi | app_pedidos_aggrid.py:30-34 | a legacy name is in the rename map exactly when it is present and its new name is absent, and the map is empty exactly when neither applies |
| Esquema.PlanCambiosValido | app_pedidos_aggrid.py:30-41 | every old name of the map is a column, no new name is, and neither side repeats a name |
| Esquema.NuevasColumnasMiembros | app_pedidos_aggrid.py:39-41 | a column of the copy is an old column not renamed or a new name |
| Esquema.NuevasColumnasDistintas | app_pedidos_aggrid.py:39-45 | the copy repeats no column name |
| Esquema.ReescribirResultado | app_pedidos_aggrid.py:39-49 | the copy is well formed, keeps each kept cell, and the new column holds the old column's cell in every row |
| Esquema.MigrarCompleto | app_pedidos_aggrid.py:25-51 | after the migration neither legacy name is left to rename |
| Esquema.MigrarIdempotente | app_pedidos_aggrid.py:25-51 | migrating twice is migrating once |
| Esquema.ConFecPuestaResultado | app_pedidos_aggrid.py:65-70 | `SELECT *, "Fec#Puesta" AS "Fec.Puesta"` keeps every cell and adds the column filled from `Fec#Puesta` |
| Esquema.RenombrarFecPuestaResultado | app_pedidos_aggrid.py:57-73 | after the main application's rename `Fec.Puesta` exists, the rename is idempotent, and it does nothing when the column is already there |
| Esquema.FecPuestaLiteral | app_pedidos_aggrid.py:64-70 | with neither name present, every row gets the literal text `Fec#Puesta` |
| Esquema.RenombrarFecPuestaSiFaltaResultado | streamlit_app.py:71-85 | the guarded rename changes the table exactly when `Fec#Puesta` is present and `Fec.Puesta` is absent, copies the old values, and is idempotent |
| Esquema.Arranque | app_pedidos_aggrid.py:53-75 | after the start-up migration and rename `Fec.Puesta` exists, and when only the legacy name was there it holds the legacy values |
| Utilidades.NuevasOfas | app_pedidos_aggrid.py:171-175 | the result has one entry per `OFA_10` identifier not loaded yet, and holds exactly those identifiers cut at their first `_`; in visiting order, each entry comes from its own identifier |
| Utilidades.PrimeroIdNuevo | app_pedidos_aggrid.py:174-175 | an OFA without `_` comes back out of its identifier |
| Utilidades.NuevasOfasExactas | app_pedidos_aggrid.py:164-175 | the new OFAs repeat none and are exactly the extracted OFAs whose `OFA_10` is not loaded |
| Utilidades.OrdenarEsPriorizar | app_pedidos_aggrid.py:884-891 | the order grid's reordering (valid columns, then the rest) equals the priority form used for the stock grid |
| Utilidades.PriorizarPermutacion | app_pedidos_aggrid.py:1035-1040 | the reordered column list is a permutation of the columns, repeats none, and starts with the present priority columns in priority order |
| Utilidades.ReordenarBien | app_pedidos_aggrid.py:1040 | selecting a permutation of the columns keeps the table well formed with the same rows |
| Utilidades.SinCampResultado | streamlit_app.py:185-186 | exactly the non-CAMP columns remain, in their order; the rows keep their cells for them and the table stays well formed |
| Utilidades.AplicarFiltros | streamlit_app.py:130-141 | the result keeps the columns, stays well formed, and its rows are the mask of "passes every filter": exactly those rows, in order and with their repeats; `None` filters and ranges on non-numeric columns are skipped |
| Utilidades.FiltrosCada | streamlit_app.py:130-141 | with no filters every row passes; a passing row has a listed value for every list filter and a number within both ends of every numeric range; passing each filter is passing them all |
| BaseDatos.ConvertirColumnasResultado | streamlit_app.py:206-208 | converting distinct columns converts each of their cells once and keeps all other cells |
| BaseDatos.MapearCalidadResultado | streamlit_app.py:222-223 | the quality column, when present, holds a grade in every row, and every other cell stays |
| BaseDatos.NormalizarStockResultado | streamlit_app.py:184-223 | the stored sheet is well formed, has exactly the non-CAMP columns in order and the same number of rows, each cell is the uploaded cell normalised for its column, and each quality is a grade |
| BaseDatos.BaseDatos.constructor | app_pedidos_aggrid.py:20-21 | the opened database holds the two given well-formed tables |
| BaseDatos.BaseDatos.PrepararColumnasPedidos | app_pedidos_aggrid.py:25-51 | the orders table becomes its migration, with no legacy name left to rename; the stock is untouched |
| BaseDatos.BaseDatos.RenombrarFecPuesta | app_pedidos_aggrid.py:57-73 | the orders table becomes its unguarded rename, and `Fec.Puesta` always exists afterwards |
| BaseDatos.BaseDatos.RenombrarFecPuestaSiFalta | streamlit_app.py:71-85 | the orders table becomes its guarded rename; `Fec.Puesta` exists afterwards whenever `Fec#Puesta` existed |
| BaseDatos.BaseDatos.CargarStockBlanks | streamlit_app.py:169-227 | no sheet gives an error and changes nothing; a sheet replaces `StockBlanks` by its normalised form; the orders stay |

## Left out

- **Files, I/O and external programs.**
  - Excel conversion through COM; the fixed-path copy in the main application's `cargar_stock_blanks` (app_pedidos_aggrid.py:391-407); `read_excel` parsing. The uploaded sheet is given as a table, or as `None`.
  - `to_sql` with `if_exists="replace"` is a reassignment of the stock field.
  - SQLite transactions, `PRAGMA` reads and `executescript` are modelled by their effect on the table value. Their atomicity and failure modes are not.
  - Outlook mail reading, the date window and the regex `510000\d+`: the extracted OFA list is a parameter. Writing the new OFAs to a text file is also left out.
  - SAP login and scripting, Access import (`cargar_manual_listmarc`), Excel export, and the save loops that write grid edits back with `UPDATE`: these are foreign calls and I/O.
  - The Streamlit widgets, session state and toasts. `agregar_filtros_sidebar` is reduced to the filter list it returns, which is a parameter.
- **Floating point.** Numbers are exact rationals. Binary rounding error in `float()` and `round()` is not modelled. Nor are exponent notation, `inf`, or non-ASCII digits accepted by `float()`. A NaN that a normaliser sees through `str()` is the text `nan`. The four measure normalisers return it unchanged, as Python does; `transformar_calidad` grades it MCR (Calidad.CalidadNan).
  - The model follows Python 3.11's `Fraction()` grammar: digit separators, and no blanks around `/`. Python 3.12 and later also accept blanks around `/`.
  - Normalizers.FraccionAComaResultado: on Python 3.12 and later `fraccion_a_coma("3 / 4")` gives `0,75`; the model returns `3 / 4`. A text that `float()` reads as negative zero (`-0`, `-0,000`) gives `-0,0` in Python, because `round(-0.0, 4)` keeps the sign; the model has no negative zero and gives `0,0`.
  - Normalizers.ConvertirAComaResultado: on Python 3.12 and later `convertir_a_coma("1_1 / 2")` gives `1,5`, because the part after `_` goes to `Fraction()`; the model returns the text. Negative zero does not arise there, since a whole value is printed through `int()`.
  - Numbers.NoUnderscores: states what Python 3.11's `Fraction()` reads; from 3.12 on `Fraction("1 / 2")` is also read.
  - `pd.to_numeric` (the order lengths and the summary's volumes) is modelled by the plain decimal reader, without digit separators.
- **Pandas details.**
  - `pd.to_numeric` on the length column is modelled by the decimal reader.
  - Resumen.ResumenVolumenes: a volume cell that is not a number counts as 0. pandas' `sum` on a text volume column would concatenate the texts or raise, and the `to_numeric(errors="coerce")` at app_pedidos_aggrid.py:934-935 would then zero the whole group.
  - Resumen.UnirVolumenes: cells are texts, so column types are not modelled. The join matches keys by their text; pandas refuses to merge a numeric key column with a text one (app_pedidos_aggrid.py:922-927), and there the page stops with an error.
  - Filtros.FiltrarPedidos: only a machine that is `None` is dropped as missing. A NaN machine is the text `nan` and passes the non-empty-machine step, whereas `notna()` (app_pedidos_aggrid.py:839-841) drops it.
  - Tablas.Texto: `None` prints as `None`, as `str(None)` does. Where pandas turns a null into NaN (a numeric column read from SQL, a blank cell of a sheet read with `read_excel`) the cell is to be given as `Some("nan")`, and `str()` prints it as `nan`.
  - Calidad.TransformarCalidad: a blank quality cell of an uploaded sheet is NaN to `read_excel`, so it grades MCR (Calidad.CalidadNan); only a `None` cell or an empty label grades USA.
  - `str.contains` on the OFA column is a literal substring test; regular-expression metacharacters in the search text are not modelled.
  - The main view's OFA text is a parameter. As written it is read from a session key that no widget sets.
- **Order and dates.**
  - Groups and join lines come in first-appearance order. The row order pandas produces (sorted keys) is not modelled.
  - `sort_values(by="Sec")` of the orders grid is not modelled.
  - The date-range filter of `aplicar_filtros` is not modelled; such a range is skipped like a range on a text column.
  - The date formatting (`formatear_fecha`, `strftime`) is not modelled.
- **Iteration order.**
  - Utilidades.NuevasOfas: the visiting order of Python's set is not specified. The model visits it in an arbitrary order and states the result up to that order.
  - Utilidades.AplicarFiltros: the filters are a sequence of pairs, which stands for the insertion order of the dictionary.
- **The page's reads.**
  - The orders table is the result of the query at app_pedidos_aggrid.py:623-632. Its `OFA LIKE` prefilter, the `rowid as id` column and the `ORDER BY id DESC` are not modelled; the table read is a parameter of Vista.Pagina.
  - Vista.Pagina: requires the columns the page reads. Without one the page stops with a `KeyError` (at app_pedidos_aggrid.py:683-684 or at the grouping), and the partial normalisation the `try` at app_pedidos_aggrid.py:645-674 leaves behind is not modelled.
  - The date formatting, column reordering and sort by `Sec` between the filters and the summary (app_pedidos_aggrid.py:878-895) are not part of Vista.Pagina: they touch no cell the summary groups or adds, and the orders shown keep the order they were read in.
- **Other code not modelled.**
  - The attribute completion of orders from Access (app_pedidos_aggrid.py:323-343) sits inside the Access loader; `insertar_sin_duplicados` is not part of this model.
  - The filter panel's option lists (app_pedidos_aggrid.py:764-782) only feed widget choices; they are not modelled.
- **Deliberately narrower contracts.**
  - Normalizers.ConvertirAComaIdempotente: excludes values that round to a whole number at 4 places. For those the function is not idempotent, which Normalizers.ConvertirAComaNoIdempotente and Normalizers.EjemploRedondeaAEntero state.
  - Normalizers.EstandarizarEspesorIdempotente: excludes the same values, for the same reason.
