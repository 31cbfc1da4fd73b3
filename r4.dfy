/** Variation by region and sex of poblacion/R4.py: the split of the
    region sums into a male and a female block, the variation of each
    block on its own, and the row layout of the resulting table. */
module R4 {
  import opened Tablas
  import opened R1

  /** SepararPorSexos: `sumas[:, :num_anos]` and `sumas[:, num_anos:]`.
      Both blocks keep the row count, the left block has `num_anos` columns
      (fewer if the row is narrower) and the two put back side by side give
      each row again. */
  function SepararPorSexos(sumas: Matrix, num_anos: nat): (r: (Matrix, Matrix))
    ensures |r.0| == |sumas| && |r.1| == |sumas|
    ensures forall i :: 0 <= i < |sumas| ==> |r.0[i]| == Min(num_anos, |sumas[i]|)
    ensures forall i :: 0 <= i < |sumas| ==> r.0[i] + r.1[i] == sumas[i]
  {
    var h, m := Columns(sumas, 0, num_anos), Columns(sumas, num_anos, MaxAncho(sumas));
    assert forall i :: 0 <= i < |sumas| ==> h[i] + m[i] == sumas[i] by {
      forall i | 0 <= i < |sumas| ensures h[i] + m[i] == sumas[i] {
        AnchoAcotado(sumas, i);
        assert m[i] == Slice(sumas[i], num_anos, |sumas[i]|);
        SliceSplit(sumas[i], num_anos);
      }
    }
    (h, m)
  }

  /** The widest row: the open upper bound of `num_anos:`. */
  function MaxAncho(m: Matrix): nat
  {
    if m == [] then 0 else var w := MaxAncho(m[1..]); if |m[0]| > w then |m[0]| else w
  }

  lemma {:induction false} AnchoAcotado(m: Matrix, i: nat)
    requires i < |m|
    ensures |m[i]| <= MaxAncho(m)
  {
    if i > 0 {
      AnchoAcotado(m[1..], i - 1);
    }
  }

  /** Denominators of both sex blocks are non-zero. */
  ghost predicate SinCerosPorSexo(sumas: Matrix, num_anos: nat)
  {
    var s := SepararPorSexos(sumas, num_anos);
    SinCeros(s.0) && SinCeros(s.1)
  }

  /** One row of the table of R4(): the label, then the absolute variation
      of the male row `h`, of the female row `m`, then the relative
      variation of `h` and of `m`. Each variation cell uses two adjacent
      years of one sex only. */
  ghost predicate FilaPorSexos(fila: seq<Cell>, etiqueta: string, h: seq<real>, m: seq<real>)
    requires NoNulos(h) && NoNulos(m)
  {
    var wh := if |h| == 0 then 0 else |h| - 1;
    var wm := if |m| == 0 then 0 else |m| - 1;
    && |fila| == 1 + 2 * wh + 2 * wm
    && fila[0] == Etiqueta(etiqueta)
    && (forall j {:trigger fila[j]} :: 1 <= j <= wh ==> fila[j] == Numero(h[j - 1] - h[j]))
    && (forall j {:trigger fila[j]} :: wh < j <= wh + wm ==> fila[j] == Numero(m[j - 1 - wh] - m[j - wh]))
    && (forall j {:trigger fila[j]} :: wh + wm < j <= 2 * wh + wm ==>
          fila[j] == Numero((h[j - 1 - wh - wm] - h[j - wh - wm]) / h[j - wh - wm] * 100.0))
    && (forall j {:trigger fila[j]} :: 2 * wh + wm < j <= 2 * wh + 2 * wm ==>
          fila[j] == Numero((m[j - 1 - 2 * wh - wm] - m[j - 2 * wh - wm]) / m[j - 2 * wh - wm] * 100.0))
  }

  /** A label-plus-four-blocks row whose blocks are the variations of `h`
      and `m` is laid out as FilaPorSexos says. */
  lemma FilaDesdeCeldas(fila: seq<Cell>, etiqueta: string, h: seq<real>, m: seq<real>,
                        a: seq<real>, b: seq<real>, c: seq<real>, d: seq<real>)
    requires NoNulos(h) && NoNulos(m)
    requires CeldasCuatro(fila, etiqueta, a, b, c, d)
    requires |a| == |c| == (if |h| == 0 then 0 else |h| - 1)
    requires |b| == |d| == (if |m| == 0 then 0 else |m| - 1)
    requires forall k {:trigger a[k]} :: 0 <= k < |a| ==> a[k] == h[k] - h[k + 1]
    requires forall k {:trigger b[k]} :: 0 <= k < |b| ==> b[k] == m[k] - m[k + 1]
    requires forall k {:trigger c[k]} :: 0 <= k < |c| ==> c[k] == a[k] / h[k + 1] * 100.0
    requires forall k {:trigger d[k]} :: 0 <= k < |d| ==> d[k] == b[k] / m[k + 1] * 100.0
    ensures FilaPorSexos(fila, etiqueta, h, m)
  {
  }

  /** The four variation blocks of R4(), male and female absolute, then
      male and female relative. */
  function Bloques(sumas: Matrix, num_anos: nat): (b: seq<Matrix>)
    requires SinCerosPorSexo(sumas, num_anos)
    ensures |b| == 4 && forall x :: 0 <= x < 4 ==> |b[x]| == |sumas|
  {
    var s := SepararPorSexos(sumas, num_anos);
    var absH, absM := CalcularVariacionAbsoluta(s.0), CalcularVariacionAbsoluta(s.1);
    [absH, absM, CalcularVariacionRelativa(s.0, absH), CalcularVariacionRelativa(s.1, absM)]
  }

  /** Row `i` of the stacked table is laid out as FilaPorSexos says. */
  lemma FilaDeTabla(comunidades: seq<string>, sumas: Matrix, num_anos: nat, i: nat)
    requires |comunidades| == |sumas| && SinCerosPorSexo(sumas, num_anos) && i < |sumas|
    ensures var s := SepararPorSexos(sumas, num_anos);
      NoNulos(s.0[i]) && NoNulos(s.1[i])
      && FilaPorSexos(Hstack(comunidades, Bloques(sumas, num_anos))[i], comunidades[i], s.0[i], s.1[i])
  {
    var s := SepararPorSexos(sumas, num_anos);
    var b := Bloques(sumas, num_anos);
    var fila := Hstack(comunidades, b)[i];
    assert NoNulos(s.0[i]) && NoNulos(s.1[i]);
    HstackCuatro(comunidades, b[0], b[1], b[2], b[3], i);
    CeldasCuatroPosiciones(comunidades[i], b[0][i], b[1][i], b[2][i], b[3][i]);
    FilaDesdeCeldas(fila, comunidades[i], s.0[i], s.1[i], b[0][i], b[1][i], b[2][i], b[3][i]);
  }

  /** The variation table of R4() once the region sums are known:
      `np.hstack((comunidades, absH, absM, relH, relM))` over the two sex
      blocks of `sumas`. */
  function TablaPorSexos(comunidades: seq<string>, sumas: Matrix, num_anos: nat): (t: seq<seq<Cell>>)
    requires |comunidades| == |sumas| && SinCerosPorSexo(sumas, num_anos)
    ensures |t| == |comunidades|
    ensures forall i :: 0 <= i < |t| ==>
      var s := SepararPorSexos(sumas, num_anos);
      NoNulos(s.0[i]) && NoNulos(s.1[i]) && FilaPorSexos(t[i], comunidades[i], s.0[i], s.1[i])
  {
    var t := Hstack(comunidades, Bloques(sumas, num_anos));
    assert forall i :: 0 <= i < |t| ==>
      var s := SepararPorSexos(sumas, num_anos);
      NoNulos(s.0[i]) && NoNulos(s.1[i]) && FilaPorSexos(t[i], comunidades[i], s.0[i], s.1[i]) by {
      forall i | 0 <= i < |t|
        ensures var s := SepararPorSexos(sumas, num_anos);
          NoNulos(s.0[i]) && NoNulos(s.1[i]) && FilaPorSexos(t[i], comunidades[i], s.0[i], s.1[i])
      {
        FilaDeTabla(comunidades, sumas, num_anos, i);
      }
    }
    t
  }

  /** The cells at offset `k` of each block of a row of `1 + 4 * (n - 1)`
      cells, computed from a row of `2 * n` sums: male cells use columns
      below `n` only, female cells columns from `n` on only. */
  ghost predicate CeldasDeSumas(fila: seq<Cell>, row: seq<real>, n: nat, k: nat)
    requires |row| == 2 * n && k + 1 < n
    requires row[k + 1] != 0.0 && row[n + k + 1] != 0.0
  {
    var w := n - 1;
    && |fila| == 1 + 4 * w
    && fila[1 + k] == Numero(row[k] - row[k + 1])
    && fila[1 + w + k] == Numero(row[n + k] - row[n + k + 1])
    && fila[1 + 2 * w + k] == Numero((row[k] - row[k + 1]) / row[k + 1] * 100.0)
    && fila[1 + 3 * w + k] == Numero((row[n + k] - row[n + k + 1]) / row[n + k + 1] * 100.0)
  }

  /** With `2 * num_anos` columns per region, a row of the table has
      `1 + 4 * (num_anos - 1)` cells and no variation cell mixes the sexes. */
  lemma SinMezclaDeSexos(comunidades: seq<string>, sumas: Matrix, num_anos: nat, i: nat, k: nat)
    requires |comunidades| == |sumas| && SinCerosPorSexo(sumas, num_anos)
    requires i < |sumas| && |sumas[i]| == 2 * num_anos && k + 1 < num_anos
    ensures sumas[i][k + 1] != 0.0 && sumas[i][num_anos + k + 1] != 0.0
    ensures CeldasDeSumas(TablaPorSexos(comunidades, sumas, num_anos)[i], sumas[i], num_anos, k)
  {
    var t := TablaPorSexos(comunidades, sumas, num_anos);
    var s := SepararPorSexos(sumas, num_anos);
    var h, m := s.0[i], s.1[i];
    assert h + m == sumas[i] && |h| == num_anos;
    assert h[k + 1] == sumas[i][k + 1] && m[k + 1] == sumas[i][num_anos + k + 1];
    assert FilaPorSexos(t[i], comunidades[i], h, m);
    CeldasDeUnaFila(t[i], comunidades[i], sumas[i], h, m, num_anos, k);
  }

  /** The cells at offset `k` of each block of one row, read off a row of
      `2 * n` sums split at `n`. */
  lemma CeldasDeUnaFila(fila: seq<Cell>, etiqueta: string, row: seq<real>, h: seq<real>, m: seq<real>, n: nat, k: nat)
    requires |h| == n && h + m == row && |row| == 2 * n && k + 1 < n
    requires NoNulos(h) && NoNulos(m)
    requires FilaPorSexos(fila, etiqueta, h, m)
    ensures row[k + 1] != 0.0 && row[n + k + 1] != 0.0
    ensures CeldasDeSumas(fila, row, n, k)
  {
    var w := n - 1;
    assert |m| == n;
    assert h[k] == row[k] && h[k + 1] == row[k + 1];
    assert m[k] == row[n + k] && m[k + 1] == row[n + k + 1];
    assert fila[1 + k] == Numero(h[k] - h[k + 1]);
    assert fila[1 + w + k] == Numero(m[k] - m[k + 1]);
    assert fila[1 + 2 * w + k] == Numero((h[k] - h[k + 1]) / h[k + 1] * 100.0);
    assert fila[1 + 3 * w + k] == Numero((m[k] - m[k + 1]) / m[k + 1] * 100.0);
  }
}
