/** Year-over-year variation of poblacion/R1.py: absolute variation
    `M[:, :-1] - M[:, 1:]`, relative variation `abs / M[:, 1:] * 100`, and
    the province table that stacks both next to the labels. Numbers are
    exact reals, not IEEE floats. */
module R1 {
  import opened Tablas

  /** The differences between consecutive columns of one row. */
  function Diferencias(row: seq<real>): (d: seq<real>)
    ensures |d| == if |row| == 0 then 0 else |row| - 1
    ensures forall k {:trigger d[k]} :: 0 <= k < |d| ==> d[k] == row[k] - row[k + 1]
  {
    if |row| == 0 then [] else seq(|row| - 1, k requires 0 <= k < |row| - 1 => row[k] - row[k + 1])
  }

  /** CalcularVariacionAbsoluta: same rows, one column fewer, and column
      `k` is year `k` minus the next stored year. */
  function CalcularVariacionAbsoluta(m: Matrix): (r: Matrix)
    ensures |r| == |m|
    ensures forall i :: 0 <= i < |m| ==> |r[i]| == if |m[i]| == 0 then 0 else |m[i]| - 1
    ensures forall i, k {:trigger r[i][k]} :: 0 <= i < |m| && 0 <= k < |r[i]| ==> r[i][k] == m[i][k] - m[i][k + 1]
  {
    seq(|m|, i requires 0 <= i < |m| => Diferencias(m[i]))
  }

  /** The variations of a row telescope: their sum is the first stored
      year minus the last one. */
  lemma {:induction false} VariacionTelescopica(row: seq<real>)
    requires |row| > 0
    ensures Suma(Diferencias(row)) == row[0] - row[|row| - 1]
  {
    if |row| > 1 {
      var d := Diferencias(row);
      assert d[1..] == Diferencias(row[1..]);
      VariacionTelescopica(row[1..]);
    }
  }

  /** Denominators of the relative variation of `m` (every column but the
      first) are all non-zero. */
  ghost predicate SinCeros(m: Matrix)
  {
    forall i :: 0 <= i < |m| ==> NoNulos(m[i])
  }

  /** Every stored year of a row except the first is non-zero. */
  ghost predicate NoNulos(row: seq<real>)
  {
    forall k :: 0 < k < |row| ==> row[k] != 0.0
  }

  /** The shape of `abs` matches `M[:, 1:]` and no denominator is zero. */
  ghost predicate Divisible(m: Matrix, abs: Matrix)
  {
    && |abs| == |m|
    && (forall i :: 0 <= i < |m| ==> |abs[i]| == if |m[i]| == 0 then 0 else |m[i]| - 1)
    && SinCeros(m)
  }

  /** CalcularVariacionRelativa: the same shape as `abs`, and each cell is
      the absolute variation as a percentage of the earlier stored year. */
  function CalcularVariacionRelativa(m: Matrix, abs: Matrix): (r: Matrix)
    requires Divisible(m, abs)
    ensures |r| == |abs|
    ensures forall i :: 0 <= i < |abs| ==> |r[i]| == |abs[i]|
    ensures forall i, k {:trigger r[i][k]} :: 0 <= i < |abs| && 0 <= k < |abs[i]| ==> r[i][k] == abs[i][k] / m[i][k + 1] * 100.0
  {
    seq(|abs|, i requires 0 <= i < |abs| =>
      seq(|abs[i]|, k requires 0 <= k < |abs[i]| => abs[i][k] / m[i][k + 1] * 100.0))
  }

  /** Percentage arithmetic: `b * (1 + ((a - b) / b * 100) / 100) == a`. */
  lemma Porcentaje(a: real, b: real)
    requires b != 0.0
    ensures b * (1.0 + ((a - b) / b * 100.0) / 100.0) == a
  {
    var q := (a - b) / b;
    assert q * b == a - b;
    assert (q * 100.0) / 100.0 == q;
    assert b * (1.0 + q) == b + b * q;
  }

  /** The relative variation recovers the later year from the earlier one:
      `M[k] == M[k+1] * (1 + rel[k] / 100)`. */
  lemma VariacionRelativaReconstruye(m: Matrix, i: nat, k: nat)
    requires i < |m| && k + 1 < |m[i]|
    requires SinCeros(m)
    ensures var rel := CalcularVariacionRelativa(m, CalcularVariacionAbsoluta(m));
      m[i][k] == m[i][k + 1] * (1.0 + rel[i][k] / 100.0)
  {
    var abs := CalcularVariacionAbsoluta(m);
    var rel := CalcularVariacionRelativa(m, abs);
    assert rel[i][k] == (m[i][k] - m[i][k + 1]) / m[i][k + 1] * 100.0;
    Porcentaje(m[i][k], m[i][k + 1]);
  }

  /** One row of the province table: its label, the `w` absolute
      variations of `row`, then its `w` relative variations. */
  ghost predicate FilaVariacion(fila: seq<Cell>, etiqueta: string, row: seq<real>)
    requires NoNulos(row)
  {
    var w := if |row| == 0 then 0 else |row| - 1;
    && |fila| == 1 + 2 * w
    && fila[0] == Etiqueta(etiqueta)
    && (forall j {:trigger fila[j]} :: 1 <= j <= w ==> fila[j] == Numero(row[j - 1] - row[j]))
    && (forall j {:trigger fila[j]} :: w < j <= 2 * w ==>
          fila[j] == Numero((row[j - 1 - w] - row[j - w]) / row[j - w] * 100.0))
  }

  lemma FilaVariacionHstack(provincias: seq<string>, total: Matrix, i: nat)
    requires |provincias| == |total| && SinCeros(total) && i < |total|
    ensures var abs := CalcularVariacionAbsoluta(total);
      FilaVariacion(Hstack(provincias, [abs, CalcularVariacionRelativa(total, abs)])[i], provincias[i], total[i])
  {
    var abs := CalcularVariacionAbsoluta(total);
    var rel := CalcularVariacionRelativa(total, abs);
    HstackDos(provincias, abs, rel, i);
    CeldasDosPosiciones(provincias[i], abs[i], rel[i]);
  }

  /** The province table of R1(): label, then the absolute variations, then
      the relative ones, `1 + 2 * (cols - 1)` cells per row. */
  function TablaVariacion(provincias: seq<string>, total: Matrix): (t: seq<seq<Cell>>)
    requires |provincias| == |total| && SinCeros(total)
    ensures |t| == |provincias|
    ensures forall i :: 0 <= i < |t| ==> FilaVariacion(t[i], provincias[i], total[i])
  {
    var abs := CalcularVariacionAbsoluta(total);
    var t := Hstack(provincias, [abs, CalcularVariacionRelativa(total, abs)]);
    assert forall i :: 0 <= i < |t| ==> FilaVariacion(t[i], provincias[i], total[i]) by {
      forall i | 0 <= i < |t| ensures FilaVariacion(t[i], provincias[i], total[i]) {
        FilaVariacionHstack(provincias, total, i);
      }
    }
    t
  }
}
