/** Shared vocabulary of the census pipeline: text grids, numeric matrices,
    the Python slice semantics the pipeline relies on, and the mixed
    etiqueta/number rows that `np.hstack` produces for the HTML tables. */
module Tablas {

  /** One split CSV record, or one row of a text table. */
  type Row = seq<string>
  type Grid = seq<Row>

  /** A numeric year matrix: one row per entity, one column per year. */
  type Matrix = seq<seq<real>>

  /** The ways the pipeline fails. */
  datatype Error =
    | DelimitadorInvalido  // ValueError: the delimiter is not one character
    | RegistroVacio        // IndexError: `reg[-1]` on a record with no fields
    | ParIncompleto        // IndexError: `datos[i+1]` past the end of a pair sequence
    | FormaInvalida        // the grid cannot be read as a 2D table with the needed columns

  datatype Result<T> = Ok(value: T) | Err(error: Error)

  function Min(a: int, b: int): int { if a <= b then a else b }

  /** Python's `s[lo:hi]` for non-negative bounds: both bounds are clamped
      to the length and an empty slice results when they cross. */
  function Slice<T>(s: seq<T>, lo: nat, hi: nat): (r: seq<T>)
    ensures |r| == if Min(lo, |s|) <= Min(hi, |s|) then Min(hi, |s|) - Min(lo, |s|) else 0
    ensures forall k :: 0 <= k < |r| ==> lo + k < |s| && r[k] == s[lo + k]
    ensures lo <= hi <= |s| ==> r == s[lo..hi]
  {
    var l, h := Min(lo, |s|), Min(hi, |s|);
    if l <= h then s[l..h] else []
  }

  /** Slicing at one point and concatenating gives the sequence back. */
  lemma SliceSplit<T>(s: seq<T>, p: nat)
    ensures Slice(s, 0, p) + Slice(s, p, |s|) == s
  {
    if p <= |s| {
      assert s[..p] + s[p..] == s;
    }
  }

  /** `M[:, lo:hi]`: the same column slice taken from every row. */
  function Columns<T>(m: seq<seq<T>>, lo: nat, hi: nat): (r: seq<seq<T>>)
    ensures |r| == |m|
    ensures forall i :: 0 <= i < |m| ==> r[i] == Slice(m[i], lo, hi)
  {
    seq(|m|, i requires 0 <= i < |m| => Slice(m[i], lo, hi))
  }

  /** Every row has exactly `w` columns (a 2D numpy array of width `w`). */
  ghost predicate Rectangular<T>(m: seq<seq<T>>, w: nat)
  {
    forall i :: 0 <= i < |m| ==> |m[i]| == w
  }

  /** Sum of a sequence of reals, from the front. */
  function Suma(s: seq<real>): real
  {
    if s == [] then 0.0 else s[0] + Suma(s[1..])
  }

  /** Sum of a concatenation is the sum of the parts. */
  lemma {:induction false} SumaConcat(a: seq<real>, b: seq<real>)
    ensures Suma(a + b) == Suma(a) + Suma(b)
  {
    if a != [] {
      assert (a + b)[1..] == a[1..] + b;
      SumaConcat(a[1..], b);
    } else {
      assert a + b == b;
    }
  }

  /** A table cell once labels and numbers are stacked side by side. */
  datatype Cell = Etiqueta(texto: string) | Numero(valor: real)

  /** A numeric row as table cells. */
  function Numeros(s: seq<real>): (r: seq<Cell>)
    ensures |r| == |s|
    ensures forall k :: 0 <= k < |s| ==> r[k] == Numero(s[k])
  {
    seq(|s|, k requires 0 <= k < |s| => Numero(s[k]))
  }

  /** Row `i` of every block, as cells, one block after the other. */
  function Juntar(blocks: seq<Matrix>, i: nat): seq<Cell>
    requires forall b :: 0 <= b < |blocks| ==> i < |blocks[b]|
  {
    if blocks == [] then [] else Numeros(blocks[0][i]) + Juntar(blocks[1..], i)
  }

  /** `np.hstack((labels.reshape(-1, 1), B1, B2, ...))`: each row is its label
      followed by the same row of every numeric block, in block order. */
  function Hstack(labels: seq<string>, blocks: seq<Matrix>): (t: seq<seq<Cell>>)
    requires forall b :: 0 <= b < |blocks| ==> |blocks[b]| == |labels|
    ensures |t| == |labels|
    ensures forall i :: 0 <= i < |labels| ==> |t[i]| > 0 && t[i][0] == Etiqueta(labels[i])
  {
    seq(|labels|, i requires 0 <= i < |labels| => [Etiqueta(labels[i])] + Juntar(blocks, i))
  }

  /** Row `i` of a stack of one block. */
  lemma HstackUno(labels: seq<string>, a: Matrix, i: nat)
    requires |a| == |labels| && i < |labels|
    ensures Hstack(labels, [a])[i] == [Etiqueta(labels[i])] + Numeros(a[i])
  {
    assert [a][1..] == [];
    assert Juntar([a], i) == Numeros(a[i]) + [];
  }

  /** Row `i` of a stack of two blocks. */
  lemma HstackDos(labels: seq<string>, a: Matrix, b: Matrix, i: nat)
    requires |a| == |b| == |labels| && i < |labels|
    ensures Hstack(labels, [a, b])[i] == [Etiqueta(labels[i])] + Numeros(a[i]) + Numeros(b[i])
  {
    assert [a, b][1..] == [b];
    assert [b][1..] == [];
    assert Juntar([b], i) == Numeros(b[i]) + [];
    assert Juntar([a, b], i) == Numeros(a[i]) + Numeros(b[i]);
  }

  /** Row `i` of a stack of four blocks. */
  lemma HstackCuatro(labels: seq<string>, a: Matrix, b: Matrix, c: Matrix, d: Matrix, i: nat)
    requires |a| == |b| == |c| == |d| == |labels| && i < |labels|
    ensures Hstack(labels, [a, b, c, d])[i]
         == [Etiqueta(labels[i])] + Numeros(a[i]) + Numeros(b[i]) + Numeros(c[i]) + Numeros(d[i])
  {
    assert [a, b, c, d][1..] == [b, c, d];
    assert [b, c, d][1..] == [c, d];
    assert [c, d][1..] == [d];
    assert [d][1..] == [];
    assert Juntar([d], i) == Numeros(d[i]) + [];
    assert Juntar([c, d], i) == Numeros(c[i]) + Numeros(d[i]);
    assert Juntar([b, c, d], i) == Numeros(b[i]) + (Numeros(c[i]) + Numeros(d[i]));
    assert Juntar([a, b, c, d], i) == Numeros(a[i]) + (Numeros(b[i]) + (Numeros(c[i]) + Numeros(d[i])));
  }

  /** `row` is a label cell followed by the cells of `a`, then of `b`
      (the quantified index is the cell position in the row). */
  ghost predicate CeldasDos(row: seq<Cell>, etiqueta: string, a: seq<real>, b: seq<real>)
  {
    && |row| == 1 + |a| + |b|
    && row[0] == Etiqueta(etiqueta)
    && (forall j {:trigger row[j]} :: 1 <= j <= |a| ==> row[j] == Numero(a[j - 1]))
    && (forall j {:trigger row[j]} :: 1 + |a| <= j < |row| ==> row[j] == Numero(b[j - 1 - |a|]))
  }

  /** Cell positions in a label-plus-two-blocks row. */
  lemma CeldasDosPosiciones(etiqueta: string, a: seq<real>, b: seq<real>)
    ensures CeldasDos([Etiqueta(etiqueta)] + Numeros(a) + Numeros(b), etiqueta, a, b)
  {
  }

  /** `row` is a label cell followed by the cells of `a`, `b`, `c` and `d`
      in that order (the quantified index is the cell position). */
  ghost predicate CeldasCuatro(row: seq<Cell>, etiqueta: string, a: seq<real>, b: seq<real>, c: seq<real>, d: seq<real>)
  {
    var ab, abc := |a| + |b|, |a| + |b| + |c|;
    && |row| == 1 + abc + |d|
    && row[0] == Etiqueta(etiqueta)
    && (forall j {:trigger row[j]} :: 1 <= j <= |a| ==> row[j] == Numero(a[j - 1]))
    && (forall j {:trigger row[j]} :: 1 + |a| <= j <= ab ==> row[j] == Numero(b[j - 1 - |a|]))
    && (forall j {:trigger row[j]} :: 1 + ab <= j <= abc ==> row[j] == Numero(c[j - 1 - ab]))
    && (forall j {:trigger row[j]} :: 1 + abc <= j < |row| ==> row[j] == Numero(d[j - 1 - abc]))
  }

  /** Cell positions in a label-plus-four-blocks row. */
  lemma CeldasCuatroPosiciones(etiqueta: string, a: seq<real>, b: seq<real>, c: seq<real>, d: seq<real>)
    ensures CeldasCuatro([Etiqueta(etiqueta)] + Numeros(a) + Numeros(b) + Numeros(c) + Numeros(d), etiqueta, a, b, c, d)
  {
  }
}
