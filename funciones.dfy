/** The bounded-table extractor `LectorCsv` and the population loader
    `LeerPoblacionProvincias` of poblacion/funciones.py. The file is
    already split into records: opening it and running `csv.reader` are
    not part of this model, so a record is the list of its fields. */
module Funciones {
  import opened Tablas

  /** A record after its trailing empty field (if any) is dropped. */
  function Recortar(reg: Row): (r: Row)
    requires |reg| > 0
    ensures reg[|reg| - 1] == "" ==> reg == r + [""]
    ensures reg[|reg| - 1] != "" ==> r == reg
  {
    if reg[|reg| - 1] == "" then reg[..|reg| - 1] else reg
  }

  /** The value of `escribir` after a (trimmed) record: an end marker clears
      it, then a start marker or a still-set flag (re)sets it. The record is
      kept exactly when the new value is true. */
  function Siguiente(escribir: bool, reg: Row, ini: string, fin: string): bool
  {
    ini in reg || (escribir && fin !in reg)
  }

  /** None of the first `n` records is empty. */
  predicate SinVacios(records: Grid, n: nat)
    requires n <= |records|
  {
    forall k :: 0 <= k < n ==> |records[k]| > 0
  }

  /** `escribir` after the first `n` records. */
  function Escribiendo(records: Grid, ini: string, fin: string, n: nat): bool
    requires n <= |records| && SinVacios(records, n)
  {
    if n == 0 then false
    else Siguiente(Escribiendo(records, ini, fin, n - 1), Recortar(records[n - 1]), ini, fin)
  }

  /** `lista_csv` after the first `n` records. */
  function Ventana(records: Grid, ini: string, fin: string, n: nat): Grid
    requires n <= |records| && SinVacios(records, n)
  {
    if n == 0 then []
    else Ventana(records, ini, fin, n - 1)
         + (if Escribiendo(records, ini, fin, n) then [Recortar(records[n - 1])] else [])
  }

  /** LectorCsv: the delimiter is checked before any record is read; then
      the records are scanned once with the `escribir` flag. */
  method LectorCsv(records: Grid, delimitador: string, ini: string, fin: string) returns (r: Result<Grid>)
    ensures |delimitador| != 1 ==> r == Err(DelimitadorInvalido)
    ensures |delimitador| == 1 && !SinVacios(records, |records|) ==> r == Err(RegistroVacio)
    ensures |delimitador| == 1 && SinVacios(records, |records|) ==> r == Ok(Ventana(records, ini, fin, |records|))
  {
    if |delimitador| != 1 {
      return Err(DelimitadorInvalido);
    }
    var lista: Grid := [];
    var escribir := false;
    for i := 0 to |records|
      invariant SinVacios(records, i)
      invariant escribir == Escribiendo(records, ini, fin, i)
      invariant lista == Ventana(records, ini, fin, i)
    {
      var reg := records[i];
      if |reg| == 0 {
        return Err(RegistroVacio);
      }
      if reg[|reg| - 1] == "" {
        reg := reg[..|reg| - 1];
      }
      if fin in reg {
        escribir := false;
      }
      if ini in reg || escribir {
        escribir := true;
        lista := lista + [reg];
      }
    }
    return Ok(lista);
  }

  /** Record `j` opens a window that no end marker has closed by record `i`. */
  ghost predicate AbiertaDesde(records: Grid, ini: string, fin: string, j: nat, i: nat)
    requires j <= i < |records| && SinVacios(records, |records|)
  {
    ini in Recortar(records[j])
    && forall k :: j < k <= i ==> fin !in Recortar(records[k])
  }

  /** Reference definition of the flag: record `i` is kept exactly when some
      record `j <= i` holds the start marker and no record after `j` up to
      `i` holds the end marker. A record holding both markers opens a
      window; a later start marker opens a new one. */
  lemma EscribiendoSiiAbierta(records: Grid, ini: string, fin: string, i: nat)
    requires i < |records| && SinVacios(records, |records|)
    ensures Escribiendo(records, ini, fin, i + 1)
            <==> exists j :: 0 <= j <= i && AbiertaDesde(records, ini, fin, j, i)
  {
    if Escribiendo(records, ini, fin, i + 1) {
      EscribiendoAbre(records, ini, fin, i);
    }
    forall j | 0 <= j <= i && AbiertaDesde(records, ini, fin, j, i)
      ensures Escribiendo(records, ini, fin, i + 1)
    {
      AbiertaEscribe(records, ini, fin, j, i);
    }
  }

  /** A window still open at record `i` keeps record `i`. */
  lemma {:induction false} AbiertaEscribe(records: Grid, ini: string, fin: string, j: nat, i: nat)
    requires j <= i < |records| && SinVacios(records, |records|)
    requires AbiertaDesde(records, ini, fin, j, i)
    ensures Escribiendo(records, ini, fin, i + 1)
  {
    if j < i {
      assert AbiertaDesde(records, ini, fin, j, i - 1);
      AbiertaEscribe(records, ini, fin, j, i - 1);
      assert fin !in Recortar(records[i]);
    }
  }

  /** A kept record lies in a window opened at or before it. */
  lemma {:induction false} EscribiendoAbre(records: Grid, ini: string, fin: string, i: nat)
    requires i < |records| && SinVacios(records, |records|)
    requires Escribiendo(records, ini, fin, i + 1)
    ensures exists j :: 0 <= j <= i && AbiertaDesde(records, ini, fin, j, i)
  {
    if ini in Recortar(records[i]) {
      assert AbiertaDesde(records, ini, fin, i, i);
    } else {
      assert i > 0 && Escribiendo(records, ini, fin, i) && fin !in Recortar(records[i]);
      EscribiendoAbre(records, ini, fin, i - 1);
      var j :| 0 <= j <= i - 1 && AbiertaDesde(records, ini, fin, j, i - 1);
      AbiertaSigue(records, ini, fin, j, i);
    }
  }

  /** A window open at record `i - 1` stays open at a record `i` without
      the end marker. */
  lemma AbiertaSigue(records: Grid, ini: string, fin: string, j: nat, i: nat)
    requires j < i < |records| && SinVacios(records, |records|)
    requires AbiertaDesde(records, ini, fin, j, i - 1) && fin !in Recortar(records[i])
    ensures AbiertaDesde(records, ini, fin, j, i)
  {
  }

  /** Records before the first start marker are never kept. */
  lemma AntesDelInicio(records: Grid, ini: string, fin: string, i: nat)
    requires i < |records| && SinVacios(records, |records|)
    requires forall j :: 0 <= j <= i ==> ini !in Recortar(records[j])
    ensures !Escribiendo(records, ini, fin, i + 1)
  {
    EscribiendoSiiAbierta(records, ini, fin, i);
  }

  /** The positions of the kept records, in scan order: increasing, and a
      position is listed exactly when the flag is set after its record. */
  ghost function Incluidos(records: Grid, ini: string, fin: string, n: nat): (ix: seq<nat>)
    requires n <= |records| && SinVacios(records, n)
    ensures forall m :: 0 <= m < |ix| ==> ix[m] < n
    ensures forall a, b :: 0 <= a < b < |ix| ==> ix[a] < ix[b]
    ensures forall i :: 0 <= i < n ==> (i in ix <==> Escribiendo(records, ini, fin, i + 1))
  {
    if n == 0 then []
    else
      var ix0 := Incluidos(records, ini, fin, n - 1);
      assert n - 1 !in ix0;
      ix0 + (if Escribiendo(records, ini, fin, n) then [n - 1] else [])
  }

  /** The window is the subsequence of the trimmed records at the kept
      positions: row `m` of the output is the trimmed record at position
      `Incluidos(..)[m]`. */
  lemma {:induction false} VentanaEsSubsecuencia(records: Grid, ini: string, fin: string, n: nat)
    requires n <= |records| && SinVacios(records, n)
    ensures |Ventana(records, ini, fin, n)| == |Incluidos(records, ini, fin, n)|
    ensures forall m :: 0 <= m < |Incluidos(records, ini, fin, n)| ==>
      Ventana(records, ini, fin, n)[m] == Recortar(records[Incluidos(records, ini, fin, n)[m]])
  {
    if n > 0 {
      VentanaEsSubsecuencia(records, ini, fin, n - 1);
    }
  }

  /** A non-empty window starts with a record holding the start marker. */
  lemma {:induction false} PrimeraFilaTieneInicio(records: Grid, ini: string, fin: string, n: nat)
    requires n <= |records| && SinVacios(records, n)
    requires Ventana(records, ini, fin, n) != []
    ensures ini in Ventana(records, ini, fin, n)[0]
  {
    var prev := Ventana(records, ini, fin, n - 1);
    if prev != [] {
      PrimeraFilaTieneInicio(records, ini, fin, n - 1);
      assert Ventana(records, ini, fin, n)[0] == prev[0];
    } else {
      if n - 1 > 0 {
        VentanaCrece(records, ini, fin, n - 1);
      }
      assert !Escribiendo(records, ini, fin, n - 1);
      assert Escribiendo(records, ini, fin, n);
      assert ini in Recortar(records[n - 1]);
      assert Ventana(records, ini, fin, n) == [] + [Recortar(records[n - 1])];
    }
  }

  /** A kept record makes the window non-empty. */
  lemma VentanaCrece(records: Grid, ini: string, fin: string, n: nat)
    requires 0 < n <= |records| && SinVacios(records, n)
    ensures Escribiendo(records, ini, fin, n) ==> Ventana(records, ini, fin, n) != []
  {
  }

  /** No kept row holds the end marker unless it also holds the start
      marker: the end-marker row itself is excluded. */
  lemma {:induction false} SinFilaDeFin(records: Grid, ini: string, fin: string, n: nat)
    requires n <= |records| && SinVacios(records, n)
    ensures forall m :: 0 <= m < |Ventana(records, ini, fin, n)| ==>
      fin in Ventana(records, ini, fin, n)[m] ==> ini in Ventana(records, ini, fin, n)[m]
  {
    if n > 0 {
      SinFilaDeFin(records, ini, fin, n - 1);
    }
  }

  /** The loaded dataset: labels, then the total, male and female blocks. */
  datatype Poblacion = Poblacion(provincias: seq<string>, total: Matrix, hombres: Matrix, mujeres: Matrix)

  /** The text-to-number conversion `astype(float)` applied to a row. */
  function AReales(s: Row, aReal: string -> real): (r: seq<real>)
    ensures |r| == |s|
    ensures forall k :: 0 <= k < |s| ==> r[k] == aReal(s[k])
  {
    seq(|s|, k requires 0 <= k < |s| => aReal(s[k]))
  }

  /** `datos` can be indexed as a 2D numpy array with a column 0: it has a
      row, all rows have the same width, and that width is not zero. */
  predicate Tabular(datos: Grid)
  {
    |datos| > 0 && |datos[0]| > 0 && forall i :: 0 <= i < |datos| ==> |datos[i]| == |datos[0]|
  }

  /** The column slicing of LeerPoblacionProvincias: column 0 gives the
      labels, columns 1..8 `total`, 9..16 `hombres` and 17 onward
      `mujeres` (each block as wide as those columns the grid has),
      numeric columns converted with `aReal` and not rounded. */
  function Particionar(datos: Grid, aReal: string -> real): (r: Result<Poblacion>)
    ensures r.Err? <==> !Tabular(datos)
    ensures r.Err? ==> r.error == FormaInvalida
    ensures r.Ok? ==>
      var p, w := r.value, |datos[0]|;
      && |p.provincias| == |p.total| == |p.hombres| == |p.mujeres| == |datos|
      && (forall i :: 0 <= i < |datos| ==> p.provincias[i] == datos[i][0])
      && (forall i :: 0 <= i < |datos| ==>
            && |p.total[i]| == Min(9, w) - Min(1, w)
            && |p.hombres[i]| == Min(17, w) - Min(9, w)
            && |p.mujeres[i]| == w - Min(17, w))
      && (forall i, k :: 0 <= i < |datos| && 0 <= k < |p.total[i]| ==>
            1 + k < w && p.total[i][k] == aReal(datos[i][1 + k]))
      && (forall i, k :: 0 <= i < |datos| && 0 <= k < |p.hombres[i]| ==>
            9 + k < w && p.hombres[i][k] == aReal(datos[i][9 + k]))
      && (forall i, k :: 0 <= i < |datos| && 0 <= k < |p.mujeres[i]| ==>
            17 + k < w && p.mujeres[i][k] == aReal(datos[i][17 + k]))
      && (w >= 17 ==> Rectangular(p.total, 8) && Rectangular(p.hombres, 8)
                      && Rectangular(p.mujeres, w - 17))
  {
    if !Tabular(datos) then Err(FormaInvalida)
    else
      var w := |datos[0]|;
      Ok(Poblacion(
        seq(|datos|, i requires 0 <= i < |datos| => datos[i][0]),
        Bloque(datos, 1, 9, aReal), Bloque(datos, 9, 17, aReal), Bloque(datos, 17, w, aReal)))
  }

  /** `datos[:, lo:hi].astype(float)`. */
  function Bloque(datos: Grid, lo: nat, hi: nat, aReal: string -> real): (b: Matrix)
    ensures |b| == |datos|
    ensures forall i :: 0 <= i < |datos| ==> b[i] == AReales(Slice(datos[i], lo, hi), aReal)
  {
    seq(|datos|, i requires 0 <= i < |datos| => AReales(Slice(datos[i], lo, hi), aReal))
  }

  /** LeerPoblacionProvincias: extract the window between "Total Nacional"
      and "Notas:" with delimiter ";" and slice it into the dataset. */
  method LeerPoblacionProvincias(records: Grid, aReal: string -> real) returns (r: Result<Poblacion>)
    ensures !SinVacios(records, |records|) ==> r == Err(RegistroVacio)
    ensures SinVacios(records, |records|) ==>
      r == Particionar(Ventana(records, "Total Nacional", "Notas:", |records|), aReal)
  {
    var datos := LectorCsv(records, ";", "Total Nacional", "Notas:");
    if datos.Err? {
      return Err(datos.error);
    }
    r := Particionar(datos.value, aReal);
  }
}
