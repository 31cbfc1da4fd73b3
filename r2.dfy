/** Regional grouping of poblacion/R2.py: cleaning and pairing of the
    table cells read from the region/province page, the insertion-ordered
    dictionary from a region to its provinces, the per-region sums, and the
    drop of the national-total row. Reading the page (`LeerPaginaWeb`) is
    not part of this model: its cells are an input. */
module R2 {
  import opened Tablas

  /** The cells the cleaning step drops. */
  predicate EsRuido(d: string)
  {
    d == "" || d == "Ciudades    Autónomas:"
  }

  /** `[d for d in datos if d != '' and d != 'Ciudades    Autónomas:']`:
      exactly the noise cells are removed, every other cell keeps its
      multiplicity. */
  function Limpiar(datos: seq<string>): (r: seq<string>)
    ensures forall x :: x in r ==> !EsRuido(x)
    ensures forall x :: !EsRuido(x) ==> multiset(r)[x] == multiset(datos)[x]
  {
    if datos == [] then []
    else
      assert datos == [datos[0]] + datos[1..];
      (if EsRuido(datos[0]) then [] else [datos[0]]) + Limpiar(datos[1..])
  }

  /** Cleaning a single cell keeps it exactly when it is not noise. */
  lemma LimpiarUna(x: string)
    ensures Limpiar([x]) == if EsRuido(x) then [] else [x]
  {
    assert [x][1..] == [];
  }

  /** Cleaning works cell by cell, in order: the cleaned concatenation is
      the concatenation of the cleaned parts. With LimpiarUna this fixes
      the order of the surviving cells, which the pairing depends on. */
  lemma {:induction false} LimpiarConcat(a: seq<string>, b: seq<string>)
    ensures Limpiar(a + b) == Limpiar(a) + Limpiar(b)
  {
    if a != [] {
      assert (a + b)[0] == a[0];
      assert (a + b)[1..] == a[1..] + b;
      LimpiarConcat(a[1..], b);
    } else {
      assert a + b == b;
    }
  }

  /** `[datos[i] + " " + datos[i+1] for i in range(0, len(datos), 2)]`:
      fails on an odd number of cells, else joins cells two by two. */
  function Emparejar(datos: seq<string>): (r: Result<seq<string>>)
    ensures r.Err? <==> |datos| % 2 == 1
    ensures r.Err? ==> r.error == ParIncompleto
    ensures r.Ok? ==> |r.value| == |datos| / 2
    ensures r.Ok? ==> forall m {:trigger r.value[m]} :: 0 <= m < |r.value| ==>
      r.value[m] == datos[2 * m] + " " + datos[2 * m + 1]
  {
    if |datos| % 2 == 1 then Err(ParIncompleto)
    else Ok(seq(|datos| / 2, m requires 0 <= m < |datos| / 2 => datos[2 * m] + " " + datos[2 * m + 1]))
  }

  /** A Python dict from a region to its list of provinces: `claves` is the
      key insertion order and `listas` the key-to-list map. */
  datatype Diccionario = Diccionario(claves: seq<string>, listas: map<string, seq<string>>)

  /** Keys are listed once each, and exactly the listed keys are mapped. */
  ghost predicate Valido(d: Diccionario)
  {
    && (forall a, b :: 0 <= a < b < |d.claves| ==> d.claves[a] != d.claves[b])
    && (forall c :: c in d.listas <==> c in d.claves)
  }

  /** One step of the dictionary loop: a new key is appended to the key
      order with a one-element list; a known key gets the value appended. */
  function Insertar(d: Diccionario, comunidad: string, provincia: string): Diccionario
  {
    if comunidad in d.listas then d.(listas := d.listas[comunidad := d.listas[comunidad] + [provincia]])
    else Diccionario(d.claves + [comunidad], d.listas[comunidad := [provincia]])
  }

  /** The dictionary after the first `n` pairs of `datos`. */
  function DiccionarioDe(datos: seq<string>, n: nat): Diccionario
    requires 2 * n <= |datos|
  {
    if n == 0 then Diccionario([], map[])
    else Insertar(DiccionarioDe(datos, n - 1), datos[2 * n - 2], datos[2 * n - 1])
  }

  /** Insertion keeps the dictionary well formed. */
  lemma InsertarValido(d: Diccionario, c: string, p: string)
    requires Valido(d)
    ensures Valido(Insertar(d, c, p))
  {
    if c !in d.listas {
      assert c !in d.claves;
    }
  }

  /** The built dictionary is well formed: keys are listed once each, and
      exactly the listed keys are mapped. */
  lemma {:induction false} DiccionarioValido(datos: seq<string>, n: nat)
    requires 2 * n <= |datos|
    ensures Valido(DiccionarioDe(datos, n))
  {
    if n > 0 {
      DiccionarioValido(datos, n - 1);
      InsertarValido(DiccionarioDe(datos, n - 1), datos[2 * n - 2], datos[2 * n - 1]);
    }
  }

  /** DiccionarioComunidadProvincia: the `while` loop over even indices; an
      odd-length input fails on `datos[i+1]`. */
  method DiccionarioComunidadProvincia(datos: seq<string>) returns (r: Result<Diccionario>)
    ensures |datos| % 2 == 1 ==> r == Err(ParIncompleto)
    ensures |datos| % 2 == 0 ==> r == Ok(DiccionarioDe(datos, |datos| / 2))
  {
    var comunidades := Diccionario([], map[]);
    var i := 0;
    ghost var pares := 0;
    while i < |datos|
      invariant 0 <= i <= |datos| && i == 2 * pares
      invariant comunidades == DiccionarioDe(datos, pares)
    {
      var comunidad := datos[i];
      if i + 1 >= |datos| {
        return Err(ParIncompleto);
      }
      var provincia := datos[i + 1];
      ghost var antes := comunidades;
      if comunidad !in comunidades.listas {
        comunidades := Diccionario(comunidades.claves + [comunidad], comunidades.listas[comunidad := []]);
      }
      comunidades := comunidades.(listas := comunidades.listas[comunidad := comunidades.listas[comunidad] + [provincia]]);
      assert [] + [provincia] == [provincia];
      assert comunidades == Insertar(antes, comunidad, provincia);
      assert datos[2 * (pares + 1) - 2] == comunidad && datos[2 * (pares + 1) - 1] == provincia;
      i, pares := i + 2, pares + 1;
    }
    assert |datos| % 2 == 0 && pares == |datos| / 2;
    return Ok(comunidades);
  }

  /** Reference definition of one list: the values of the pairs whose key
      is `c`, in input order, duplicates kept. */
  function ProvinciasDe(datos: seq<string>, n: nat, c: string): (r: seq<string>)
    requires 2 * n <= |datos|
    ensures r != [] <==> exists m :: 0 <= m < n && datos[2 * m] == c
  {
    if n == 0 then []
    else
      var r0 := ProvinciasDe(datos, n - 1, c);
      assert (exists m :: 0 <= m < n && datos[2 * m] == c)
         <==> (exists m :: 0 <= m < n - 1 && datos[2 * m] == c) || datos[2 * (n - 1)] == c;
      r0 + (if datos[2 * n - 2] == c then [datos[2 * n - 1]] else [])
  }

  /** The dictionary maps a key exactly when some pair has it, and then to
      all the values paired with it, in order: every list is non-empty and
      holds the odd-index cells that follow that key. */
  lemma {:induction false} ListasSonFiltro(datos: seq<string>, n: nat, c: string)
    requires 2 * n <= |datos|
    ensures c in DiccionarioDe(datos, n).listas <==> ProvinciasDe(datos, n, c) != []
    ensures c in DiccionarioDe(datos, n).listas ==> DiccionarioDe(datos, n).listas[c] == ProvinciasDe(datos, n, c)
  {
    if n > 0 {
      ListasSonFiltro(datos, n - 1, c);
    }
  }

  /** Keys keep their place: the key order after `n1` pairs is a prefix of
      the key order after `n2 >= n1` pairs, so keys are ordered by first
      appearance. */
  lemma {:induction false} ClavesPorPrimeraAparicion(datos: seq<string>, n1: nat, n2: nat)
    requires n1 <= n2 && 2 * n2 <= |datos|
    ensures DiccionarioDe(datos, n1).claves <= DiccionarioDe(datos, n2).claves
  {
    if n1 < n2 {
      ClavesPorPrimeraAparicion(datos, n1, n2 - 1);
    }
  }

  /** Sum of the list lengths over the keys, in key order. */
  function LongitudTotal(claves: seq<string>, listas: map<string, seq<string>>): nat
    requires forall k :: k in claves ==> k in listas
  {
    if claves == [] then 0
    else LongitudTotal(claves[..|claves| - 1], listas) + |listas[claves[|claves| - 1]]|
  }

  lemma {:induction false} LongitudOtraClave(claves: seq<string>, listas: map<string, seq<string>>, c: string, v: seq<string>)
    requires forall k :: k in claves ==> k in listas
    requires c !in claves
    ensures LongitudTotal(claves, listas[c := v]) == LongitudTotal(claves, listas)
  {
    if claves != [] {
      LongitudOtraClave(claves[..|claves| - 1], listas, c, v);
    }
  }

  lemma {:induction false} LongitudAlargar(claves: seq<string>, listas: map<string, seq<string>>, c: string, p: string)
    requires forall k :: k in claves ==> k in listas
    requires forall a, b :: 0 <= a < b < |claves| ==> claves[a] != claves[b]
    requires c in claves
    ensures LongitudTotal(claves, listas[c := listas[c] + [p]]) == LongitudTotal(claves, listas) + 1
  {
    var pre := claves[..|claves| - 1];
    if claves[|claves| - 1] == c {
      assert c !in pre;
      LongitudOtraClave(pre, listas, c, listas[c] + [p]);
    } else {
      LongitudAlargar(pre, listas, c, p);
    }
  }

  lemma LongitudNuevaClave(claves: seq<string>, listas: map<string, seq<string>>, c: string, v: seq<string>)
    requires forall k :: k in claves ==> k in listas
    requires c !in claves
    ensures LongitudTotal(claves + [c], listas[c := v]) == LongitudTotal(claves, listas) + |v|
  {
    LongitudOtraClave(claves, listas, c, v);
    assert (claves + [c])[..|claves|] == claves;
  }

  /** One insertion adds exactly one value to the lists. */
  lemma TotalPaso(d: Diccionario, c: string, p: string)
    requires Valido(d)
    ensures Valido(Insertar(d, c, p))
    ensures LongitudTotal(Insertar(d, c, p).claves, Insertar(d, c, p).listas) == LongitudTotal(d.claves, d.listas) + 1
  {
    InsertarValido(d, c, p);
    if c in d.listas {
      LongitudAlargar(d.claves, d.listas, c, p);
    } else {
      LongitudNuevaClave(d.claves, d.listas, c, [p]);
    }
  }

  /** Every pair lands in exactly one list: the lists hold `n` values in all. */
  lemma {:induction false} TotalDeListas(datos: seq<string>, n: nat)
    requires 2 * n <= |datos|
    ensures Valido(DiccionarioDe(datos, n))
    ensures LongitudTotal(DiccionarioDe(datos, n).claves, DiccionarioDe(datos, n).listas) == n
  {
    if n > 0 {
      TotalDeListas(datos, n - 1);
      TotalPaso(DiccionarioDe(datos, n - 1), datos[2 * n - 2], datos[2 * n - 1]);
    }
  }

  /** The dictionary pipeline of DatosComuniadesAutonomasProvincias once the
      page cells are read: clean, pair, build. It succeeds exactly when the
      cleaned cells come in groups of four, since each key and each value is
      itself a joined pair of cells. */
  method DatosComuniadesAutonomasProvincias(celdas: seq<string>) returns (r: Result<Diccionario>)
    ensures r.Ok? <==> |Limpiar(celdas)| % 4 == 0
    ensures r.Err? ==> r.error == ParIncompleto
    ensures r.Ok? ==> var pares := Emparejar(Limpiar(celdas)).value;
      r.value == DiccionarioDe(pares, |pares| / 2)
  {
    var datos := Limpiar(celdas);
    Cuartos(|datos|);
    var pares := Emparejar(datos);
    if pares.Err? {
      return Err(pares.error);
    }
    r := DiccionarioComunidadProvincia(pares.value);
    if |datos| % 4 == 0 {
      assert |pares.value| % 2 == 0;
    } else {
      assert |pares.value| % 2 == 1;
    }
  }

  /** A count is a multiple of 4 exactly when it is even and halves to an
      even count. */
  lemma Cuartos(n: nat)
    ensures n % 4 == 0 <==> n % 2 == 0 && (n / 2) % 2 == 0
  {
    var q := n / 2;
    assert n == 2 * q + n % 2;
  }

  /** Reference definition of one list, read off the cleaned cells: the
      value cells `4m+2` and `4m+3`, joined by a space, of every group `m`
      whose key cells `4m` and `4m+1` join to `c`, in input order. */
  function ProvinciasDeCeldas(datos: seq<string>, n: nat, c: string): seq<string>
    requires 4 * n <= |datos|
  {
    if n == 0 then []
    else
      ProvinciasDeCeldas(datos, n - 1, c)
      + (if datos[4 * n - 4] + " " + datos[4 * n - 3] == c then [datos[4 * n - 2] + " " + datos[4 * n - 1]] else [])
  }

  /** The pair-level filter over the joined cells is the cell-level one. */
  lemma {:induction false} ProvinciasDeSonCeldas(datos: seq<string>, pares: seq<string>, n: nat, c: string)
    requires 4 * n <= |datos| && 2 * n <= |pares|
    requires forall m {:trigger pares[m]} :: 0 <= m < 2 * n ==> pares[m] == datos[2 * m] + " " + datos[2 * m + 1]
    ensures ProvinciasDe(pares, n, c) == ProvinciasDeCeldas(datos, n, c)
  {
    if n > 0 {
      ProvinciasDeSonCeldas(datos, pares, n - 1, c);
      assert pares[2 * n - 2] == datos[4 * n - 4] + " " + datos[4 * n - 3];
      assert pares[2 * n - 1] == datos[4 * n - 2] + " " + datos[4 * n - 1];
    }
  }

  /** A dictionary key is a region cell and the cell after it, joined by a
      space, `datos[4m] + " " + datos[4m+1]` for some `m`; its list holds
      the joined value cells `datos[4m+2] + " " + datos[4m+3]` of exactly
      those groups, in input order. */
  lemma ClavesSonCeldasUnidas(datos: seq<string>, c: string)
    requires |datos| % 4 == 0
    ensures var pares := Emparejar(datos).value;
      c in DiccionarioDe(pares, |pares| / 2).listas
      <==> exists m :: 0 <= m < |datos| / 4 && c == datos[4 * m] + " " + datos[4 * m + 1]
    ensures var pares := Emparejar(datos).value;
      c in DiccionarioDe(pares, |pares| / 2).listas
      ==> DiccionarioDe(pares, |pares| / 2).listas[c] == ProvinciasDeCeldas(datos, |datos| / 4, c)
  {
    var pares := Emparejar(datos).value;
    var n := |pares| / 2;
    assert n == |datos| / 4;
    ListasSonFiltro(pares, n, c);
    ProvinciasDeSonCeldas(datos, pares, n, c);
    forall m | 0 <= m < n
      ensures pares[2 * m] == datos[4 * m] + " " + datos[4 * m + 1]
    {
      assert pares[2 * m] == datos[2 * (2 * m)] + " " + datos[2 * (2 * m) + 1];
    }
  }

  /** `n` zeros: a row of `np.zeros`. */
  function Ceros(n: nat): (r: seq<real>)
    ensures |r| == n
    ensures forall k :: 0 <= k < n ==> r[k] == 0.0
  {
    seq(n, _ => 0.0)
  }

  /** `resultado[i] += poblaciones[j]`: elementwise sum of two rows. */
  function SumarFila(a: seq<real>, b: seq<real>): (r: seq<real>)
    requires |a| == |b|
    ensures |r| == |a|
    ensures forall k :: 0 <= k < |a| ==> r[k] == a[k] + b[k]
  {
    seq(|a|, k requires 0 <= k < |a| => a[k] + b[k])
  }

  /** The sum of the rows `j < n` whose label is in `lista` (a label that
      occurs several times is added as many times). */
  function SumaComunidad(provincias: seq<string>, poblaciones: Matrix, lista: seq<string>, cols: nat, n: nat): (r: seq<real>)
    requires n <= |provincias| <= |poblaciones| && Rectangular(poblaciones, cols)
    ensures |r| == cols
  {
    if n == 0 then Ceros(cols)
    else
      var s := SumaComunidad(provincias, poblaciones, lista, cols, n - 1);
      if provincias[n - 1] in lista then SumarFila(s, poblaciones[n - 1]) else s
  }

  /** AgruparProvinciasPorComunidadAutonoma: a zero buffer with one row per
      key, in key order, filled in place; row `i` ends as the sum of the
      province rows whose label is in the `i`-th key's list. */
  method AgruparProvinciasPorComunidadAutonoma(provincias: seq<string>, poblaciones: Matrix, cols: nat, d: Diccionario)
    returns (resultado: Matrix)
    requires |provincias| <= |poblaciones| && Rectangular(poblaciones, cols) && Valido(d)
    ensures |resultado| == |d.claves|
    ensures forall i :: 0 <= i < |d.claves| ==>
      resultado[i] == SumaComunidad(provincias, poblaciones, d.listas[d.claves[i]], cols, |provincias|)
  {
    var buffer := new seq<real>[|d.claves|](_ => Ceros(cols));
    for i := 0 to |d.claves|
      invariant forall a :: 0 <= a < i ==>
        buffer[a] == SumaComunidad(provincias, poblaciones, d.listas[d.claves[a]], cols, |provincias|)
      invariant forall a :: i <= a < buffer.Length ==> buffer[a] == Ceros(cols)
    {
      var lista := d.listas[d.claves[i]];
      for j := 0 to |provincias|
        invariant buffer[i] == SumaComunidad(provincias, poblaciones, lista, cols, j)
        invariant forall a :: 0 <= a < i ==>
          buffer[a] == SumaComunidad(provincias, poblaciones, d.listas[d.claves[a]], cols, |provincias|)
        invariant forall a :: i < a < buffer.Length ==> buffer[a] == Ceros(cols)
      {
        if provincias[j] in lista {
          buffer[i] := SumarFila(buffer[i], poblaciones[j]);
        }
      }
    }
    resultado := buffer[..];
  }

  /** A region none of whose provinces occurs among the labels gets zeros. */
  lemma {:induction false} ComunidadSinProvincias(provincias: seq<string>, poblaciones: Matrix, lista: seq<string>, cols: nat, n: nat)
    requires n <= |provincias| <= |poblaciones| && Rectangular(poblaciones, cols)
    requires forall j :: 0 <= j < n ==> provincias[j] !in lista
    ensures SumaComunidad(provincias, poblaciones, lista, cols, n) == Ceros(cols)
  {
    if n > 0 {
      ComunidadSinProvincias(provincias, poblaciones, lista, cols, n - 1);
    }
  }

  /** A province that is not in the list contributes nothing: changing its
      row leaves the region's sum as it was. */
  lemma {:induction false} ProvinciaAjenaNoCuenta(provincias: seq<string>, poblaciones: Matrix, lista: seq<string>,
                                                  cols: nat, n: nat, j: nat, v: seq<real>)
    requires n <= |provincias| <= |poblaciones| && Rectangular(poblaciones, cols)
    requires j < |poblaciones| && |v| == cols && (j < |provincias| ==> provincias[j] !in lista)
    ensures SumaComunidad(provincias, poblaciones[j := v], lista, cols, n)
         == SumaComunidad(provincias, poblaciones, lista, cols, n)
  {
    if n > 0 {
      ProvinciaAjenaNoCuenta(provincias, poblaciones, lista, cols, n - 1, j, v);
    }
  }

  /** The rows `j < n` whose label is in `lista`, in order, repeats kept. */
  function Coincidentes(provincias: seq<string>, poblaciones: Matrix, lista: seq<string>, n: nat): seq<seq<real>>
    requires n <= |provincias| <= |poblaciones|
  {
    if n == 0 then []
    else Coincidentes(provincias, poblaciones, lista, n - 1)
         + (if provincias[n - 1] in lista then [poblaciones[n - 1]] else [])
  }

  /** Column `k` of a list of rows. */
  function Columna(filas: seq<seq<real>>, cols: nat, k: nat): (c: seq<real>)
    requires Rectangular(filas, cols) && k < cols
    ensures |c| == |filas|
  {
    seq(|filas|, i requires 0 <= i < |filas| => filas[i][k])
  }

  /** Reference definition of a region row: column `k` is the plain sum of
      column `k` over the matching province rows. */
  lemma {:induction false} SumaComunidadEsSumaDeCoincidentes(provincias: seq<string>, poblaciones: Matrix,
                                                             lista: seq<string>, cols: nat, n: nat, k: nat)
    requires n <= |provincias| <= |poblaciones| && Rectangular(poblaciones, cols) && k < cols
    ensures Rectangular(Coincidentes(provincias, poblaciones, lista, n), cols)
    ensures SumaComunidad(provincias, poblaciones, lista, cols, n)[k]
         == Suma(Columna(Coincidentes(provincias, poblaciones, lista, n), cols, k))
  {
    if n == 0 {
    } else {
      SumaComunidadEsSumaDeCoincidentes(provincias, poblaciones, lista, cols, n - 1, k);
      var f0 := Coincidentes(provincias, poblaciones, lista, n - 1);
      var extra := if provincias[n - 1] in lista then [poblaciones[n - 1]] else [];
      assert Coincidentes(provincias, poblaciones, lista, n) == f0 + extra;
      assert Columna(f0 + extra, cols, k) == Columna(f0, cols, k) + Columna(extra, cols, k);
      SumaConcat(Columna(f0, cols, k), Columna(extra, cols, k));
      if extra != [] {
        assert Columna(extra, cols, k) == [poblaciones[n - 1][k]];
      }
    }
  }

  /** The mapping example: the cells R1 P1 R1 P2 R2 P3 give the keys R1, R2
      in that order, with R1 mapped to [P1, P2] and R2 to [P3]. */
  lemma EjemploDiccionario()
    ensures DiccionarioDe(["R1", "P1", "R1", "P2", "R2", "P3"], 3)
         == Diccionario(["R1", "R2"], map["R1" := ["P1", "P2"], "R2" := ["P3"]])
  {
    var datos := ["R1", "P1", "R1", "P2", "R2", "P3"];
    assert DiccionarioDe(datos, 1) == Diccionario(["R1"], map["R1" := ["P1"]]);
    assert ["P1"] + ["P2"] == ["P1", "P2"];
    assert DiccionarioDe(datos, 2) == Diccionario(["R1"], map["R1" := ["P1", "P2"]]);
  }

  /** The aggregation example: with rows [10, 20], [5, 5] and [100, 200]
      for P1, P2 and P3, region [P1, P2] sums to [15, 25] and region [P3]
      to [100, 200]. */
  lemma EjemploAgrupacion()
    ensures SumaComunidad(["P1", "P2", "P3"], [[10.0, 20.0], [5.0, 5.0], [100.0, 200.0]], ["P1", "P2"], 2, 3) == [15.0, 25.0]
    ensures SumaComunidad(["P1", "P2", "P3"], [[10.0, 20.0], [5.0, 5.0], [100.0, 200.0]], ["P3"], 2, 3) == [100.0, 200.0]
  {
    var prov := ["P1", "P2", "P3"];
    var pob := [[10.0, 20.0], [5.0, 5.0], [100.0, 200.0]];
    assert Ceros(2) == [0.0, 0.0];
    assert SumaComunidad(prov, pob, ["P1", "P2"], 2, 1) == [10.0, 20.0];
    assert SumaComunidad(prov, pob, ["P1", "P2"], 2, 2) == [15.0, 25.0];
    assert SumaComunidad(prov, pob, ["P3"], 2, 2) == [0.0, 0.0];
  }

  /** The total-row drop of R2(): `provincias[1:]` and
      `np.hstack((total, hombres, mujeres))[1:, :]`, which stay aligned.
      Named after the call in R4(); it models the inline steps of R2(). */
  function QuitarFilaTotales(provincias: seq<string>, total: Matrix, hombres: Matrix, mujeres: Matrix)
    : (r: (seq<string>, Matrix))
    requires |total| == |hombres| == |mujeres|
    ensures |r.0| == if |provincias| == 0 then 0 else |provincias| - 1
    ensures |r.1| == if |total| == 0 then 0 else |total| - 1
    ensures forall i :: 0 <= i < |r.0| ==> r.0[i] == provincias[i + 1]
    ensures forall i :: 0 <= i < |r.1| ==> r.1[i] == total[i + 1] + hombres[i + 1] + mujeres[i + 1]
  {
    var tabla := seq(|total|, i requires 0 <= i < |total| => total[i] + hombres[i] + mujeres[i]);
    (Slice(provincias, 1, |provincias|), Slice(tabla, 1, |tabla|))
  }

  /** `np.column_stack((comunidades, sumas))` with the keys in insertion
      order: row `i` is the `i`-th key followed by its sums. */
  function TablaComunidades(d: Diccionario, sumas: Matrix): (t: seq<seq<Cell>>)
    requires |sumas| == |d.claves|
    ensures |t| == |d.claves|
    ensures forall i :: 0 <= i < |t| ==> t[i] == [Etiqueta(d.claves[i])] + Numeros(sumas[i])
  {
    var t := Hstack(d.claves, [sumas]);
    assert forall i :: 0 <= i < |t| ==> t[i] == [Etiqueta(d.claves[i])] + Numeros(sumas[i]) by {
      forall i | 0 <= i < |t| ensures t[i] == [Etiqueta(d.claves[i])] + Numeros(sumas[i]) {
        HstackUno(d.claves, sumas, i);
      }
    }
    t
  }
}
