# Census pipeline of `poblacion/`, modelled in Dafny

The repository is a small pipeline over Spanish census data for
2010–2017. It reads a `;`-separated CSV of province populations, keeping
only the records from the one holding `Total Nacional` up to, but not
including, the one holding `Notas:`. It slices that grid into:

- the province labels;
- the totals;
- the male block;
- the female block.

From there it builds several tables and HTML pages:

- R1: the year-over-year absolute and relative population variation of every province.
- R2: the grouping of provinces into autonomous regions, parsed from HTML table cells, and the per-region sums.
- R3: the top-N regions by mean population over the eight total columns, plus the insertion of an `<img>` tag into an existing HTML page.
- R4: the split of those region sums into a male and a female block, and the variation of each block on its own.

The Dafny project has one module per source file, plus a shared module:

| module | file | source |
|---|---|---|
| `Tablas` | `tablas.dfy` | shared vocabulary: the `Result`/`Error` type for the Python exceptions the pipeline can raise, Python slicing (`Slice`, `Columns`), sums, and the label-plus-numbers rows that `np.hstack` builds (`Cell`, `Hstack`) |
| `Funciones` | `funciones.dfy` | `poblacion/funciones.py`: the windowed CSV reader and the dataset loader |
| `R1` | `r1.dfy` | `poblacion/R1.py` |
| `R2` | `r2.dfy` | `poblacion/R2.py` |
| `R3` | `r3.dfy` | `poblacion/R3.py` |
| `R4` | `r4.dfy` | `poblacion/R4.py` |

How each kind of operation is modelled:

- **Loops that build a value become methods.** Each one is proved against a specification function defined by recursion:
  - `LectorCsv` is proved against `Ventana`;
  - `DiccionarioComunidadProvincia` is proved against `DiccionarioDe`;
  - `AgruparProvinciasPorComunidadAutonoma` is proved against `SumaComunidad`.
- **Lemmas relate each specification function to what the source promises**:
  - the window starts at the start marker, and holds a record with the end marker only when that record also holds the start marker;
  - every region key maps to exactly the provinces paired with it, keys are in first-appearance order, and no pair is lost;
  - a region sum is the column sum of its member provinces;
- **Array expressions become functions**, with contracts on their shape and cell contents. This covers numpy slicing, subtraction, division, `argsort` and `hstack`.
- **Numbers are exact reals.** The text-to-number conversion `astype(float)` is passed in as a function parameter `aReal`.
- **File reading is not modelled.** The CSV reader takes the already-split records as input. The HTML insertion takes the page text as input.

Choices the code makes and the model follows:

- `LeerPoblacionProvincias` applies no rounding: the numeric blocks are the converted cells as they are.
- In `ObtenerTopCCAA`, the row count comes from the Python slice `[-n:]`:
  - `n == 0` keeps every row;
  - a negative `n` drops the `-n` rows with the smallest means;
  - an `n` larger than the row count keeps every row.
- Equal means in `ObtenerTopCCAA` are left unordered, because `np.argsort` is not stable by default and its result is then reversed. The model proves that the means of the result do not increase and that they dominate the rows left out.
- A missing start marker is not an error of the reader, which returns an empty array. The failure comes only at `datos[:,0]`, and the model reports it there, as `FormaInvalida` from `Particionar`.

## Model

| member | source | states |
|---|---|---|
| Tablas.Slice | poblacion/funciones.py:36-39 | Python `s[lo:hi]` with clamped bounds: length formula, each element is `s[lo + k]`, and it equals Dafny's `s[lo..hi]` when the bounds are in range |
| Tablas.SliceSplit | poblacion/R4.py:27-28 | `s[:p] + s[p:] == s` for every split point, in range or not |
| Tablas.Columns | poblacion/R4.py:27-28 | `M[:, lo:hi]` keeps the row count and slices every row the same way |
| Tablas.Hstack | poblacion/R1.py:90 | `np.hstack` of a label column and numeric blocks keeps the row count, and every row starts with its own label |
| Tablas.HstackDos | poblacion/R1.py:90 | a stack of two blocks: row `i` is the label, then row `i` of the first block, then row `i` of the second |
| Tablas.HstackCuatro | poblacion/R4.py:97-103 | a stack of four blocks: row `i` is the label followed by row `i` of each block in order |
| Funciones.Recortar | poblacion/funciones.py:14-15 | a trailing empty field is dropped and a record without one is unchanged |
| Funciones.LectorCsv | poblacion/funciones.py:3-24 | a delimiter that is not exactly one character fails with the delimiter error; a record with no fields fails with the empty-record error; otherwise the result is the window specification `Ventana` |
| Funciones.EscribiendoSiiAbierta | poblacion/funciones.py:16-20 | the reader is inside the window after record `i` exactly when some record `j <= i` held the start marker and no record in `j+1..i` held the end marker (a record holding both opens a new window) |
| Funciones.AntesDelInicio | poblacion/funciones.py:9-20 | before the first record holding the start marker, nothing is kept |
| Funciones.Incluidos | poblacion/funciones.py:16-20 | the positions of the kept records are increasing and are exactly the positions where the reader is inside the window |
| Funciones.VentanaEsSubsecuencia | poblacion/funciones.py:13-20 | the window is the subsequence of trimmed records at those positions, in input order |
| Funciones.PrimeraFilaTieneInicio | poblacion/funciones.py:18-20 | a non-empty window starts with a record holding the start marker |
| Funciones.SinFilaDeFin | poblacion/funciones.py:16-20 | every kept record that holds the end marker also holds the start marker |
| Funciones.AReales | poblacion/funciones.py:37-39 | `astype(float)` keeps the length and converts cell by cell |
| Funciones.Particionar | poblacion/funciones.py:36-41 | fails with the shape error exactly when the grid cannot be indexed as a 2D array with a column 0. Otherwise: the labels are column 0; total, male and female are the converted columns 1..8, 9..16 and 17.., each block exactly as wide as the grid has of those columns (`min(9,w)-min(1,w)`, `min(17,w)-min(9,w)`, `w-min(17,w)`); all four are aligned by row |
| Funciones.LeerPoblacionProvincias | poblacion/funciones.py:27-41 | the reader with `;`, `Total Nacional` and `Notas:`, then the column slicing; an empty record fails |
| R1.CalcularVariacionAbsoluta | poblacion/R1.py:13-26 | same row count, one column fewer, and cell `k` is stored year `k` minus stored year `k+1` (columns run from 2017 down, so this is a year minus the year before) |
| R1.VariacionTelescopica | poblacion/R1.py:26 | the absolute variations of a row add up to its first stored year minus its last |
| R1.CalcularVariacionRelativa | poblacion/R1.py:29-42 | same shape as the absolute variation, and each cell is that variation as a percentage of stored year `k+1`, the year before |
| R1.VariacionRelativaReconstruye | poblacion/R1.py:40-42 | applying the relative variation to the year before gives back the year: `M[k] == M[k+1] * (1 + rel[k]/100)` |
| R1.TablaVariacion | poblacion/R1.py:85-90 | the province table of R1. Each row is its label, then the `w` absolute variations, then the `w` relative ones, computed from that province's own row |
| R2.Limpiar | poblacion/R2.py:53 | no empty or boilerplate cell survives, and every other cell keeps its number of occurrences |
| R2.LimpiarUna | poblacion/R2.py:53 | a single cell is kept exactly when it is not noise |
| R2.LimpiarConcat | poblacion/R2.py:53 | the filter works cell by cell in input order: cleaning a concatenation concatenates the cleaned parts |
| R2.Emparejar | poblacion/R2.py:54 | fails with the incomplete-pair error exactly on an odd cell count. Otherwise the result has half as many entries, entry `m` joining cells `2m` and `2m+1` with a space |
| R2.InsertarValido | poblacion/R2.py:23-26 | one insertion keeps the mapping well-formed: keys listed once each, and exactly the listed keys mapped |
| R2.DiccionarioValido | poblacion/R2.py:15-30 | the mapping built from any number of pairs is well-formed |
| R2.DiccionarioComunidadProvincia | poblacion/R2.py:15-30 | fails on an odd-length pair list; otherwise it is the mapping built from all the pairs |
| R2.ProvinciasDe | poblacion/R2.py:19-28 | the provinces paired with a key form a non-empty list exactly when some pair has that key |
| R2.ListasSonFiltro | poblacion/R2.py:19-28 | a key is in the mapping exactly when some pair has it, and its list is the provinces paired with it in input order |
| R2.ClavesPorPrimeraAparicion | poblacion/R2.py:23-25 | later pairs only append keys: the key order of a prefix is a prefix of the key order |
| R2.TotalDeListas | poblacion/R2.py:19-28 | the lists of the mapping hold exactly as many provinces as there were pairs |
| R2.DatosComuniadesAutonomasProvincias | poblacion/R2.py:48-58 | succeeds exactly when the cleaned cell count is a multiple of 4, and then it is the mapping of the joined pairs |
| R2.ClavesSonCeldasUnidas | poblacion/R2.py:53-56 | a key is present exactly when it is cells `4m` and `4m+1` joined by a space for some `m`; its list is the cells `4m+2` and `4m+3`, joined, of exactly the groups `m` with that key, in input order |
| R2.AgruparProvinciasPorComunidadAutonoma | poblacion/R2.py:4-12 | one row per key in key order, and row `i` is the region sum of the `i`-th key's provinces |
| R2.ComunidadSinProvincias | poblacion/R2.py:6-11 | a region none of whose provinces appears in the data sums to the zero row |
| R2.ProvinciaAjenaNoCuenta | poblacion/R2.py:9-11 | changing the row of a province outside the region leaves the region sum unchanged |
| R2.SumaComunidadEsSumaDeCoincidentes | poblacion/R2.py:8-11 | column `k` of a region sum is the sum of column `k` over the rows of its member provinces |
| R2.EjemploDiccionario | poblacion/R2.py:15-30 | cells R1 P1 R1 P2 R2 P3 give keys R1, R2 with R1 mapped to [P1, P2] and R2 to [P3] |
| R2.EjemploAgrupacion | poblacion/R2.py:4-12 | a concrete grouping whose region sums are the row-wise sums of its members |
| R2.QuitarFilaTotales | poblacion/R2.py:66-69 | dropping the first row keeps labels and the stacked total/male/female rows aligned, row `i` coming from input row `i+1`; the member is named after the function `R4()` calls, and models the inline steps of `R2()` |
| R2.TablaComunidades | poblacion/R2.py:74-77 | row `i` of `np.column_stack` is the `i`-th key followed by its sums |
| R3.Desde | poblacion/R3.py:94 | Python `s[start:]` with a possibly negative start: length and elements |
| R3.Invertir | poblacion/R3.py:94 | `s[::-1]`: same length, element `k` is `s[|s|-1-k]` |
| R3.InsertarIndice | poblacion/R3.py:94 | inserting one position into an index list sorted by key keeps it sorted by key, in range and duplicate-free, and adds exactly that position |
| R3.ArgOrden | poblacion/R3.py:94 | `argsort`: a permutation of `0..n-1` listed by non-decreasing key |
| R3.TopIndices | poblacion/R3.py:94 | `argsort(m)[-n:][::-1]` has the Python slice length, is duplicate-free, lists keys from the largest down, and dominates every position left out. With `n == 0` or `n >= len` it holds every position |
| R3.Anos | poblacion/R3.py:91 | columns 1..8 of a row converted to numbers: as many as the row has among those columns, each the conversion of its cell |
| R3.Medias | poblacion/R3.py:91 | the per-row mean of those columns |
| R3.MediaOrdenaComoSuma | poblacion/R3.py:91 | on full-width rows, mean order is sum order |
| R3.ObtenerTopCCAA | poblacion/R3.py:77-99 | fails exactly when some row has no column past the label. Otherwise the result has the slice length, its rows are the input rows at the top positions, and their means do not increase |
| R3.Seleccionar | poblacion/R3.py:97 | `tabla[orden]` picks row `orden[k]` at position `k` |
| R3.QuitarCodigo | poblacion/R3.py:121 | `s[3:]`: the string minus its three-character code, or empty when shorter |
| R3.DecimalNat | poblacion/R3.py:59-61 | the digits of `str(n)` for a natural `n`: non-empty, all decimal digits, no leading zero for `n > 0`, and exactly `0` for zero |
| R3.DecimalNatIdaVuelta | poblacion/R3.py:59-61 | the decimal text of a natural number reads back as that number; `DecimalNat` itself ensures it is all digits with no leading zero (a lone `0` for zero), so the text is the canonical one |
| R3.DecimalIdaVuelta | poblacion/R3.py:59-61 | `f'{n}'` is non-empty, starts with `-` exactly for negatives, has no leading zero after the sign (`0` for zero), and reads back as `n`: the canonical `str(int)` text |
| R3.Atributos | poblacion/R3.py:57-61 | the text starts with ` width="<ancho>"` when the width is truthy and ends with ` height="<alto>"` when the height is truthy, and its length is exactly the sum of the parts present, so nothing else is there; empty exactly when neither is truthy |
| R3.ImgTag | poblacion/R3.py:57-63 | the tag text; its layout is stated by `ImgTagPartes` |
| R3.ImgTagPartes | poblacion/R3.py:63 | the tag is `<img src="<path>"`, then exactly the size attributes, then the fixed centring style and a newline, and nothing else |
| R3.Reemplazar | poblacion/R3.py:67 | `str.replace`, left to right without overlaps; its behaviour is stated by `ReemplazarSinApariciones` and `ReemplazarPrimera` |
| R3.ReemplazarSinApariciones | poblacion/R3.py:66-67 | `str.replace` leaves a string without the pattern unchanged |
| R3.ReemplazarPrimera | poblacion/R3.py:67 | `str.replace` keeps the text before the first occurrence, replaces that occurrence, and goes on with the rest |
| R3.UnBody | poblacion/R3.py:65-67 | a page with a single `</body>` gets the tag right before it and is otherwise unchanged |
| R3.SinBody | poblacion/R3.py:68-70 | a page without `</body>` keeps its text and gets exactly the image tag appended after it |
| R3.InsertarImagen | poblacion/R3.py:65-70 | the tag before every `</body>`, or at the end when there is none; stated by `UnBody`, `SinBody`, `ReemplazarPrimera` and `ReemplazarSinApariciones` |
| R3.AnadirImagenHtml | poblacion/R3.py:42-74 | `AñadirImagenHtml` on the page text: the tag of `ImgTag` inserted by `InsertarImagen`; stated by `UnBody`, `SinBody`, `ReemplazarPrimera`, `ReemplazarSinApariciones` and `ImgTagPartes` |
| R4.SepararPorSexos | poblacion/R4.py:16-30 | both blocks keep the row count, the male block has `num_anos` columns (fewer on a narrower row), and joining the two gives each row back |
| R4.Bloques | poblacion/R4.py:89-95 | four blocks with one row per region, in the order male absolute, female absolute, male relative, female relative; their cells are stated by `TablaPorSexos` |
| R4.TablaPorSexos | poblacion/R4.py:87-103 | row `i` of the R4 table is the region label, then male absolute, female absolute, male relative and female relative variations, each from that sex's own columns of the sums |
| R4.SinMezclaDeSexos | poblacion/R4.py:87-103 | on full-width sums, each variation cell uses two adjacent years of one sex only: male cells columns `k`,`k+1`; female cells `num_anos+k`,`num_anos+k+1` |

## Left out

- File I/O: `open`, `csv.reader` and the page read and write of `AñadirImagenHtml`. The reader takes the split records as input, and the HTML insertion takes the page text.
- `LeerPaginaWeb`, `GenerarHtml`, `GenerarEstiloCss`, the `CrearCabecera` header builders, the plotting functions and `R5.py`. They produce HTML or images or read files, and the pipeline's numbers do not depend on them.
- `TablaPoblacionMediaCCAA` is not part of this model. R3 is modelled from `ObtenerTopCCAA` onward, applied to any text table.
- The top-level drivers `R1()`, `R2()`, `R3()` and `R4()` are not modelled as one run. Their data steps are modelled: `TablaVariacion`, `QuitarFilaTotales`, `TablaComunidades`, `QuitarCodigo` and `TablaPorSexos`. The step of `R3()` that builds the per-sex dictionary for the plot (`R3.py:123-128`) is left out with the plotting.
- `R4()` as written does two things that fail:
  - It calls `r2.QuitarFilaTotales`, which `R2.py` does not define.
  - It unpacks two values from `AgruparProvinciasPorComunidadAutonoma`, which returns one array.

  The model therefore takes the region labels and sums as inputs and models the intended composition, lines 87-103.
- Floating point: all arithmetic is on exact reals, with no rounding, `inf` or `nan`.
- `np.hstack` and `np.column_stack` of a string label column with float blocks (`R1.py:90`, `R2.py:77`, `R4.py:97-103`) give a string array, so the numbers become their `str` text. The `Cell` datatype keeps them as reals (`Numero`), and the text form of a float is not modelled.
- R4.Bloques: its contract states only the block count and the row counts; the cells of the four blocks are stated through `TablaPorSexos`, which stacks them.
- Funciones.Particionar: the text-to-number conversion is the total function `aReal`, so the `ValueError` of `astype(float)` on a non-numeric cell is not modelled.
- R1.CalcularVariacionRelativa: requires every denominator to be non-zero and `abs` to have the shape of `M[:, 1:]`. With IEEE floats, numpy would produce `inf`/`nan` for a zero denominator, and would broadcast or raise on another shape.
- R4.TablaPorSexos: requires non-zero denominators in both sex blocks, for the same reason.
- R2.AgruparProvinciasPorComunidadAutonoma: requires at least as many population rows as province labels. This is stronger than the source, which indexes `poblaciones[j]` only when `provincias[j]` is in the region's list (`R2.py:10-11`), so extra unmatched labels raise nothing there. The requirement holds at `R2.py:74`, where labels and rows both come from the same grid minus row 0. It also requires every row to have the width `cols`, the width of the zero array.
- R3.ObtenerTopCCAA: a row with no column past the label is an error here. numpy would give it a `nan` mean, and argsort would place that row specially. The model allows ragged rows, each with its own mean; numpy cannot build such an array at all.
- R3.TopIndices: the order among equal means is left unspecified, because numpy's default `argsort` is not stable. The model sorts by insertion, which is one admissible order.
- The ragged-array behaviour of `np.array` in the reader, elsewhere: the model reports a grid that is not rectangular as `FormaInvalida` when it is sliced.
