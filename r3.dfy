/** Top-N selection and page editing of poblacion/R3.py: the ranking of the
    region table by mean population over the year columns 1..8
    (`np.mean`, `np.argsort`, `[-n:][::-1]`, fancy indexing), the code
    prefix strip of the labels, and the text transformation of
    `AñadirImagenHtml` once the file reading and writing are removed. */
module R3 {
  import opened Tablas
  import opened Funciones

  /** Python's clamped start index of `s[inicio:]` for a sequence of length
      `len`: a negative start counts from the end. */
  function Inicio(len: nat, inicio: int): (p: nat)
    ensures p <= len
  {
    if inicio < 0 then (if len + inicio < 0 then 0 else len + inicio)
    else Min(inicio, len)
  }

  /** `s[inicio:]` for any integer `inicio`. */
  function Desde<T>(s: seq<T>, inicio: int): (r: seq<T>)
    ensures |r| == |s| - Inicio(|s|, inicio)
    ensures forall k :: 0 <= k < |r| ==> r[k] == s[Inicio(|s|, inicio) + k]
  {
    s[Inicio(|s|, inicio)..]
  }

  /** How many rows `argsort(..)[-n:]` keeps, case by case: the `n` largest
      (at most all) for `n > 0`, all of them for `n == 0` (since `-0 == 0`),
      and all but the `-n` smallest for `n < 0`. */
  function Cuantas(n: int, len: nat): nat
  {
    if n > 0 then Min(n, len)
    else if n == 0 then len
    else len - Min(-n, len)
  }

  /** `[::-1]`. */
  function Invertir<T>(s: seq<T>): (r: seq<T>)
    ensures |r| == |s|
    ensures forall k :: 0 <= k < |s| ==> r[k] == s[|s| - 1 - k]
  {
    if s == [] then [] else [s[|s| - 1]] + Invertir(s[..|s| - 1])
  }

  /** Every index is below `n`. */
  predicate EnRango(ix: seq<nat>, n: nat)
  {
    forall k :: 0 <= k < |ix| ==> ix[k] < n
  }

  /** No index is repeated. */
  predicate Distintos(ix: seq<nat>)
  {
    forall a, b :: 0 <= a < b < |ix| ==> ix[a] != ix[b]
  }

  /** The indices list their keys in non-decreasing order. */
  ghost predicate Ascendente(m: seq<real>, ix: seq<nat>)
    requires EnRango(ix, |m|)
  {
    forall a, b :: 0 <= a < b < |ix| ==> m[ix[a]] <= m[ix[b]]
  }

  /** One insertion step of the index sort: index `i` is placed before the
      first index whose key is not smaller. */
  function InsertarIndice(m: seq<real>, i: nat, ix: seq<nat>): (r: seq<nat>)
    requires i < |m| && EnRango(ix, |m|) && Ascendente(m, ix)
    ensures |r| == |ix| + 1 && EnRango(r, |m|)
    ensures forall j :: j in r <==> j == i || j in ix
    ensures Ascendente(m, r)
    ensures Distintos(ix) && i !in ix ==> Distintos(r)
  {
    if ix == [] then [i]
    else if m[i] <= m[ix[0]] then
      Anteponer(m, i, ix);
      [i] + ix
    else
      var cola := InsertarIndice(m, i, ix[1..]);
      assert forall k :: 0 <= k < |cola| ==> m[ix[0]] <= m[cola[k]] by {
        forall k | 0 <= k < |cola| ensures m[ix[0]] <= m[cola[k]] {
          if cola[k] != i {
            assert cola[k] in ix[1..];
            var b :| 0 <= b < |ix[1..]| && ix[1..][b] == cola[k];
            assert ix[b + 1] == cola[k];
          }
        }
      }
      Anteponer(m, ix[0], cola);
      assert ix == [ix[0]] + ix[1..];
      [ix[0]] + cola
  }

  /** Putting an index with the smallest key in front keeps the order. */
  lemma Anteponer(m: seq<real>, x: nat, cola: seq<nat>)
    requires x < |m| && EnRango(cola, |m|) && Ascendente(m, cola)
    requires forall k :: 0 <= k < |cola| ==> m[x] <= m[cola[k]]
    ensures EnRango([x] + cola, |m|) && Ascendente(m, [x] + cola)
    ensures Distintos(cola) && x !in cola ==> Distintos([x] + cola)
  {
    var r := [x] + cola;
    forall a, b | 0 <= a < b < |r| ensures m[r[a]] <= m[r[b]] {
      assert r[b] == cola[b - 1];
      if a > 0 {
        assert r[a] == cola[a - 1];
      }
    }
  }

  /** An argsort of the keys of the first `n` positions: each position
      below `n` exactly once, keys non-decreasing. */
  function ArgOrden(m: seq<real>, n: nat): (r: seq<nat>)
    requires n <= |m|
    ensures |r| == n && EnRango(r, |m|) && Distintos(r)
    ensures forall j :: j in r <==> 0 <= j < n
    ensures Ascendente(m, r)
  {
    if n == 0 then []
    else
      var previo := ArgOrden(m, n - 1);
      var r := InsertarIndice(m, n - 1, previo);
      assert forall j :: j in r <==> j == n - 1 || j in previo;
      r
  }

  /** `np.argsort(medias)[-n:][::-1]`: the positions of the `Cuantas(n, ..)`
      largest means, largest first. The positions are distinct and every
      position left out has a mean no larger than any selected one; with
      `n == 0` or `n` at least the length every position is selected. Ties
      are broken in some order that is not specified. */
  function TopIndices(medias: seq<real>, n: int): (orden: seq<nat>)
    ensures |orden| == Cuantas(n, |medias|)
    ensures EnRango(orden, |medias|) && Distintos(orden)
    ensures forall a, b :: 0 <= a < b < |orden| ==> medias[orden[a]] >= medias[orden[b]]
    ensures forall i, k :: 0 <= i < |medias| && i !in orden && 0 <= k < |orden| ==>
      medias[i] <= medias[orden[k]]
    ensures n == 0 || n >= |medias| ==> forall i :: 0 <= i < |medias| ==> i in orden
  {
    var asc := ArgOrden(medias, |medias|);
    var orden := Invertir(Desde(asc, -n));
    CimaDescendente(medias, asc, Inicio(|asc|, -n), orden);
    CimaDomina(medias, asc, Inicio(|asc|, -n), orden);
    assert n == 0 || n >= |medias| ==> Inicio(|asc|, -n) == 0;
    orden
  }

  /** The reversed suffix of an argsort is distinct and non-increasing. */
  lemma CimaDescendente(m: seq<real>, asc: seq<nat>, p: nat, orden: seq<nat>)
    requires EnRango(asc, |m|) && Distintos(asc) && Ascendente(m, asc)
    requires p <= |asc| && |orden| == |asc| - p
    requires forall k :: 0 <= k < |orden| ==> orden[k] == asc[|asc| - 1 - k]
    ensures EnRango(orden, |m|) && Distintos(orden)
    ensures forall a, b :: 0 <= a < b < |orden| ==> m[orden[a]] >= m[orden[b]]
  {
    forall a, b | 0 <= a < b < |orden| ensures orden[a] != orden[b] && m[orden[a]] >= m[orden[b]] {
      assert orden[a] == asc[|asc| - 1 - a] && orden[b] == asc[|asc| - 1 - b];
    }
  }

  /** A position of an argsort that is not in its reversed suffix lies
      before the suffix, so its key is no larger than any key in it. */
  lemma CimaDomina(m: seq<real>, asc: seq<nat>, p: nat, orden: seq<nat>)
    requires EnRango(asc, |m|) && Ascendente(m, asc)
    requires forall j :: j in asc <==> 0 <= j < |m|
    requires p <= |asc| && |orden| == |asc| - p
    requires forall k :: 0 <= k < |orden| ==> orden[k] == asc[|asc| - 1 - k]
    ensures forall i, k :: 0 <= i < |m| && i !in orden && 0 <= k < |orden| ==> m[i] <= m[orden[k]]
    ensures p == 0 ==> forall i :: 0 <= i < |m| ==> i in orden
  {
    forall q | p <= q < |asc| ensures asc[q] in orden {
      assert orden[|asc| - 1 - q] == asc[q];
    }
    forall i, k | 0 <= i < |m| && i !in orden && 0 <= k < |orden|
      ensures m[i] <= m[orden[k]]
    {
      assert i in asc;
      var q :| 0 <= q < |asc| && asc[q] == i;
      assert q < p;
      assert orden[k] == asc[|asc| - 1 - k];
    }
    forall i | p == 0 && 0 <= i < |m| ensures i in orden {
      assert i in asc;
      var q :| 0 <= q < |asc| && asc[q] == i;
    }
  }

  /** The numeric columns 1..8 of a row (fewer when the row is narrower). */
  function Anos(fila: Row, aReal: string -> real): (v: seq<real>)
    ensures |v| == Min(9, |fila|) - Min(1, |fila|)
    ensures forall k :: 0 <= k < |v| ==> 1 + k < |fila| && v[k] == aReal(fila[1 + k])
  {
    AReales(Slice(fila, 1, 9), aReal)
  }

  /** `np.mean(fila[1:9].astype(float))`; it is `nan` when the row has no
      column past the label, so such a row is not given a mean. */
  function Media(fila: Row, aReal: string -> real): real
    requires |fila| >= 2
  {
    var v := Anos(fila, aReal);
    Suma(v) / (|v| as real)
  }

  /** Rows of the full width rank by their mean exactly as by their sum:
      dividing by the constant 8 keeps the order. */
  lemma MediaOrdenaComoSuma(a: Row, b: Row, aReal: string -> real)
    requires |a| >= 9 && |b| >= 9
    ensures Media(a, aReal) <= Media(b, aReal) <==> Suma(Anos(a, aReal)) <= Suma(Anos(b, aReal))
  {
    var sa, sb := Suma(Anos(a, aReal)), Suma(Anos(b, aReal));
    assert Media(a, aReal) == sa / 8.0 && Media(b, aReal) == sb / 8.0;
    assert sa == (sa / 8.0) * 8.0 && sb == (sb / 8.0) * 8.0;
  }

  /** Every row has a column past the label. */
  predicate ConMedia(tabla: Grid)
  {
    forall i :: 0 <= i < |tabla| ==> |tabla[i]| >= 2
  }

  /** `np.mean(tabla[:, 1:9].astype(float), axis=1)`. */
  function Medias(tabla: Grid, aReal: string -> real): (m: seq<real>)
    requires ConMedia(tabla)
    ensures |m| == |tabla|
    ensures forall i :: 0 <= i < |tabla| ==> m[i] == Media(tabla[i], aReal)
  {
    seq(|tabla|, i requires 0 <= i < |tabla| => Media(tabla[i], aReal))
  }

  /** ObtenerTopCCAA: `tabla[orden]` for the top positions. The selected
      rows are whole input rows, each at most once, ordered from the largest
      mean down, and no row left out has a larger mean than a selected one. */
  function ObtenerTopCCAA(tabla: Grid, n: int, aReal: string -> real): (r: Result<Grid>)
    ensures r.Ok? <==> ConMedia(tabla)
    ensures r.Err? ==> r.error == FormaInvalida
    ensures r.Ok? ==> |r.value| == Cuantas(n, |tabla|) && ConMedia(r.value)
    ensures r.Ok? ==> forall k :: 0 <= k < |r.value| ==>
      r.value[k] == tabla[TopIndices(Medias(tabla, aReal), n)[k]]
    ensures r.Ok? ==> forall a, b :: 0 <= a < b < |r.value| ==>
      Media(r.value[a], aReal) >= Media(r.value[b], aReal)
  {
    if !ConMedia(tabla) then Err(FormaInvalida)
    else
      var medias := Medias(tabla, aReal);
      var orden := TopIndices(medias, n);
      var filas := Seleccionar(tabla, orden);
      FilasDescendentes(tabla, aReal, orden, filas);
      Ok(filas)
  }

  /** `tabla[orden]`: fancy indexing by a list of positions. */
  function Seleccionar(tabla: Grid, orden: seq<nat>): (r: Grid)
    requires EnRango(orden, |tabla|)
    ensures |r| == |orden|
    ensures forall k :: 0 <= k < |orden| ==> r[k] == tabla[orden[k]]
  {
    seq(|orden|, k requires 0 <= k < |orden| => tabla[orden[k]])
  }

  /** Rows picked in non-increasing order of mean have non-increasing means. */
  lemma FilasDescendentes(tabla: Grid, aReal: string -> real, orden: seq<nat>, filas: Grid)
    requires ConMedia(tabla) && EnRango(orden, |tabla|)
    requires forall a, b :: 0 <= a < b < |orden| ==> Medias(tabla, aReal)[orden[a]] >= Medias(tabla, aReal)[orden[b]]
    requires |filas| == |orden| && forall k :: 0 <= k < |orden| ==> filas[k] == tabla[orden[k]]
    ensures forall a, b :: 0 <= a < b < |filas| ==> Media(filas[a], aReal) >= Media(filas[b], aReal)
  {
    var medias := Medias(tabla, aReal);
    forall a, b | 0 <= a < b < |filas| ensures Media(filas[a], aReal) >= Media(filas[b], aReal) {
      assert medias[orden[a]] >= medias[orden[b]];
    }
  }

  /** The code strip `s[3:]` of the region labels: the label is its 3-char
      code followed by the result, and a label shorter than that becomes
      empty. */
  function QuitarCodigo(s: string): (r: string)
    ensures |s| >= 3 ==> s == s[..3] + r
    ensures |s| < 3 ==> r == ""
  {
    Slice(s, 3, |s|)
  }

  // ---------------------------------------------------------------------
  // The text part of AñadirImagenHtml.

  /** An optional integer argument (`None` or an `int`). */
  datatype Opcion = Ninguno | Valor(v: int)

  /** Python truthiness of an optional integer: `None` and `0` are false. */
  predicate Verdadero(x: Opcion)
  {
    x.Valor? && x.v != 0
  }

  function Digito(d: nat): (c: char)
    requires d < 10
    ensures '0' <= c <= '9' && (c as int) - ('0' as int) == d
  {
    (('0' as int) + d) as char
  }

  /** The decimal digits of a natural number, most significant first,
      without leading zeros (`0` is the single digit `0`). */
  function DecimalNat(n: nat): (s: string)
    ensures |s| > 0
    ensures forall k :: 0 <= k < |s| ==> '0' <= s[k] <= '9'
    ensures n > 0 ==> s[0] != '0'
    ensures n == 0 ==> s == "0"
  {
    if n < 10 then [Digito(n)] else DecimalNat(n / 10) + [Digito(n % 10)]
  }

  /** The value of a string of decimal digits. */
  function ValorDecimal(s: string): nat
    requires forall k :: 0 <= k < |s| ==> '0' <= s[k] <= '9'
  {
    if s == [] then 0 else ValorDecimal(s[..|s| - 1]) * 10 + ((s[|s| - 1] as int) - ('0' as int))
  }

  /** `f'{n}'` for an integer: a minus sign for negatives, then the digits. */
  function Decimal(n: int): string
  {
    if n < 0 then "-" + DecimalNat(-n) else DecimalNat(n)
  }

  /** Reading back the digits of a natural number gives the number. */
  lemma {:induction false} DecimalNatIdaVuelta(n: nat)
    ensures ValorDecimal(DecimalNat(n)) == n
  {
    if n >= 10 {
      DecimalNatIdaVuelta(n / 10);
      var s := DecimalNat(n);
      assert s[..|s| - 1] == DecimalNat(n / 10);
    }
  }

  /** The decimal text of an integer reads back as that integer. */
  lemma DecimalIdaVuelta(n: int)
    ensures var s := Decimal(n);
      |s| > 0
      && (n < 0 <==> s[0] == '-')
      && (n < 0 ==> ValorDecimal(s[1..]) == -n)
      && (n >= 0 ==> ValorDecimal(s) == n)
      && (n < 0 ==> |s| > 1 && s[1] != '0')
      && (n > 0 ==> s[0] != '0')
      && (n == 0 ==> s == "0")
  {
    if n < 0 {
      DecimalNatIdaVuelta(-n);
      assert Decimal(n)[1..] == DecimalNat(-n);
    } else {
      DecimalNatIdaVuelta(n);
    }
  }

  /** The optional attributes of the image tag: ` width="<ancho>"` comes
      first exactly when `ancho` is truthy, ` height="<alto>"` comes last
      exactly when `alto` is truthy, and nothing else is there. */
  function Atributos(ancho: Opcion, alto: Opcion): (r: string)
    ensures r == "" <==> !Verdadero(ancho) && !Verdadero(alto)
    ensures |r| == (if Verdadero(ancho) then 9 + |Decimal(ancho.v)| else 0)
                 + (if Verdadero(alto) then 10 + |Decimal(alto.v)| else 0)
    ensures Verdadero(ancho) ==> EmpiezaCon(r, " width=\"" + Decimal(ancho.v) + "\"")
    ensures Verdadero(alto) ==> TerminaCon(r, " height=\"" + Decimal(alto.v) + "\"")
    ensures Verdadero(ancho) <==> |r| >= 8 && r[..8] == " width=\""
    ensures !Verdadero(ancho) ==> (Verdadero(alto) <==> |r| >= 9 && r[..9] == " height=\"")
  {
    var w := if Verdadero(ancho) then " width=\"" + Decimal(ancho.v) + "\"" else "";
    var h := if Verdadero(alto) then " height=\"" + Decimal(alto.v) + "\"" else "";
    assert (w + h)[..|w|] == w;
    assert (w + h)[|w + h| - |h|..] == h;
    assert Verdadero(ancho) ==> (w + h)[..8] == w[..8];
    assert !Verdadero(ancho) && Verdadero(alto) ==> w + h == h && h[1] == 'h';
    assert !Verdadero(ancho) && Verdadero(alto) ==> (w + h)[..9] == h[..9];
    w + h
  }

  /** The `<img>` tag for an image path and the optional sizes. */
  function ImgTag(imagen: string, ancho: Opcion, alto: Opcion): string
  {
    "<img src=\"" + imagen + "\"" + Atributos(ancho, alto) + " style=\"display:block; margin:20px auto;\">\n"
  }

  /** The layout of the `<img>` tag: the source attribute, then the
      optional size attributes, then the fixed centring style and a
      newline, and nothing else. */
  lemma ImgTagPartes(imagen: string, ancho: Opcion, alto: Opcion)
    ensures var t, p, q := ImgTag(imagen, ancho, alto), "<img src=\"" + imagen + "\"",
                           " style=\"display:block; margin:20px auto;\">\n";
      && |t| == |p| + |Atributos(ancho, alto)| + |q|
      && EmpiezaCon(t, p)
      && t[|p|..|p| + |Atributos(ancho, alto)|] == Atributos(ancho, alto)
      && TerminaCon(t, q)
      && t[|t| - 1] == '\n'
  {
    var p := "<img src=\"" + imagen + "\"";
    var q := " style=\"display:block; margin:20px auto;\">\n";
    var at := Atributos(ancho, alto);
    var pa := p + at;
    var t := ImgTag(imagen, ancho, alto);
    assert t == pa + q;
    assert t[..|pa|] == pa;
    assert pa[..|p|] == p;
    assert pa[|p|..] == at;
    assert t[|t| - |q|..] == q;
  }

  /** `s` ends with `p`. */
  predicate TerminaCon(s: string, p: string)
  {
    |p| <= |s| && s[|s| - |p|..] == p
  }

  /** `s` starts with `p`. */
  predicate EmpiezaCon(s: string, p: string)
  {
    |p| <= |s| && s[..|p|] == p
  }

  /** Python's `p in s`. */
  predicate Contiene(s: string, p: string)
  {
    EmpiezaCon(s, p) || (s != [] && Contiene(s[1..], p))
  }

  /** Python's `s.replace(p, rep)` for a non-empty `p`: occurrences are
      found left to right and do not overlap. */
  function Reemplazar(s: string, p: string, rep: string): string
    requires |p| > 0
  {
    if s == [] then []
    else if EmpiezaCon(s, p) then rep + Reemplazar(s[|p|..], p, rep)
    else [s[0]] + Reemplazar(s[1..], p, rep)
  }

  /** A text without the pattern is left as it is. */
  lemma {:induction false} ReemplazarSinApariciones(s: string, p: string, rep: string)
    requires |p| > 0 && !Contiene(s, p)
    ensures Reemplazar(s, p, rep) == s
  {
    if s != [] {
      ReemplazarSinApariciones(s[1..], p, rep);
      assert s == [s[0]] + s[1..];
    }
  }

  /** No occurrence of `p` in `s` starts before position `n`. */
  ghost predicate SinAparicionAntes(s: string, p: string, n: nat)
    requires n <= |s|
  {
    forall i :: 0 <= i < n ==> !EmpiezaCon(s[i..], p)
  }

  /** Left-to-right replacement: the text up to the first occurrence is
      kept, that occurrence is replaced, and the rest is processed on. */
  lemma {:induction false} ReemplazarPrimera(a: string, p: string, b: string, rep: string)
    requires |p| > 0 && SinAparicionAntes(a + p + b, p, |a|)
    ensures Reemplazar(a + p + b, p, rep) == a + rep + Reemplazar(b, p, rep)
  {
    var s := a + p + b;
    if a == [] {
      assert s == p + b;
      assert s[..|p|] == p;
      assert s[|p|..] == b;
    } else {
      assert s[0..] == s;
      assert !EmpiezaCon(s, p);
      var t := a[1..] + p + b;
      assert s[1..] == t;
      forall i | 0 <= i < |a| - 1 ensures !EmpiezaCon(t[i..], p) {
        assert t[i..] == s[i + 1..];
      }
      ReemplazarPrimera(a[1..], p, b, rep);
      assert Reemplazar(s, p, rep) == [s[0]] + Reemplazar(t, p, rep);
      assert a == [a[0]] + a[1..];
    }
  }

  /** The text transformation of AñadirImagenHtml: the tag goes before
      every `</body>`, or at the end when there is none. */
  function InsertarImagen(html: string, tag: string): string
  {
    if Contiene(html, "</body>") then Reemplazar(html, "</body>", tag + "</body>")
    else html + tag
  }

  /** A page without `</body>` keeps its text and gets exactly the image
      tag appended after it. */
  lemma SinBody(html: string, imagen: string, ancho: Opcion, alto: Opcion)
    requires !Contiene(html, "</body>")
    ensures var r := AnadirImagenHtml(html, imagen, ancho, alto);
      && r == html + ImgTag(imagen, ancho, alto)
      && r[..|html|] == html
      && r[|html|..] == ImgTag(imagen, ancho, alto)
  {
    var r := AnadirImagenHtml(html, imagen, ancho, alto);
    assert r == html + ImgTag(imagen, ancho, alto);
  }

  lemma {:induction false} ContieneEn(a: string, p: string, b: string)
    ensures Contiene(a + p + b, p)
  {
    if a == [] {
      assert a + p + b == p + b;
      assert (p + b)[..|p|] == p;
    } else {
      ContieneEn(a[1..], p, b);
      assert (a + p + b)[1..] == a[1..] + p + b;
    }
  }

  /** A page with exactly one `</body>` gets the tag right before it and is
      otherwise unchanged. */
  lemma UnBody(a: string, b: string, tag: string)
    requires SinAparicionAntes(a + "</body>" + b, "</body>", |a|)
    requires !Contiene(b, "</body>")
    ensures InsertarImagen(a + "</body>" + b, tag) == a + tag + "</body>" + b
  {
    ContieneEn(a, "</body>", b);
    ReemplazarPrimera(a, "</body>", b, tag + "</body>");
    ReemplazarSinApariciones(b, "</body>", tag + "</body>");
  }

  /** AñadirImagenHtml without the file reading and writing. */
  function AnadirImagenHtml(html: string, imagen: string, ancho: Opcion, alto: Opcion): string
  {
    InsertarImagen(html, ImgTag(imagen, ancho, alto))
  }
}
