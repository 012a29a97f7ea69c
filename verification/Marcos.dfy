/** The frames of the paged memory, what a page keeps in one, and the frames that a set of pages takes. */
module Marcos {
  import opened Bytes
  import opened Secuencias
  import opened ModeloDePaginas

  /** A nodoPagina_t: the frame, whether it is modified, and when it was last written. */
  datatype Pagina = Pagina(nro: nat, modificada: bool, uso: real)

  datatype Segmento = Segmento(nombre: string, paginas: seq<Pagina>)

  const TAM_CLAVE: nat := 2
  const TAM_TIEMPO: nat := 8
  const CABECERA: nat := TAM_CLAVE + TAM_TIEMPO

  /** What guardarPaginaEnMP leaves in a frame. */
  function Imagen(clave: nat, imagen: seq<byte>, valor: seq<byte>, tam: nat): (r: seq<byte>)
    requires |imagen| == TAM_TIEMPO && |valor| <= tam
    ensures |r| == CABECERA + tam
  {
    EnBytes(clave, TAM_CLAVE) + imagen + (valor + Ceros(tam - |valor|))
  }

  function ClaveEn(marco: seq<byte>): nat
    requires |marco| >= CABECERA
  {
    DesdeBytes(marco[..TAM_CLAVE])
  }

  function TiempoEn(marco: seq<byte>): seq<byte>
    requires |marco| >= CABECERA
  {
    marco[TAM_CLAVE..CABECERA]
  }

  function ValorEn(marco: seq<byte>): seq<byte>
    requires |marco| >= CABECERA
  {
    HastaCero(marco[CABECERA..])
  }

  /** A frame gives back the key, the time and the value written in it. */
  lemma MarcoIdaYVuelta(clave: nat, imagen: seq<byte>, valor: seq<byte>, tam: nat)
    requires |imagen| == TAM_TIEMPO && |valor| <= tam && SinCeros(valor) && clave < 0x1_0000
    ensures var m := Imagen(clave, imagen, valor, tam);
            ClaveEn(m) == clave && TiempoEn(m) == imagen && ValorEn(m) == valor
  {
    var m := Imagen(clave, imagen, valor, tam);
    assert m[..TAM_CLAVE] == EnBytes(clave, TAM_CLAVE);
    EnteroIdaYVuelta(clave, TAM_CLAVE);
    assert Potencia256(1) == 256 && Potencia256(TAM_CLAVE) == 0x1_0000;
    assert m[TAM_CLAVE..CABECERA] == imagen;
    assert m[CABECERA..] == valor + Ceros(tam - |valor|);
    TextoIdaYVuelta(valor, Ceros(tam - |valor|));
  }

  /** Where each thing goes: two bytes of key, the lower first, eight of time, and the value filled up with zeros. */
  lemma EnElMarco(clave: nat, imagen: seq<byte>, valor: seq<byte>, tam: nat)
    requires |imagen| == 8 && |valor| <= tam
    ensures var m := Imagen(clave, imagen, valor, tam);
            && |m| == 10 + tam && m[0] as nat == clave % 256 && m[1] as nat == clave / 256 % 256
            && m[2..10] == imagen && m[10..10 + |valor|] == valor
            && forall k :: 10 + |valor| <= k < |m| ==> m[k] == 0
  {
    assert EnBytes(clave, 2)[1..] == EnBytes(clave / 256, 1);
  }

  function CeldaDe(p: Pagina, marcos: seq<seq<byte>>): Celda
    requires p.nro < |marcos| && |marcos[p.nro]| >= CABECERA
  {
    var m := marcos[p.nro];
    Celda(ClaveEn(m), ValorEn(m), TiempoEn(m), p.modificada, p.uso)
  }

  ghost predicate MarcosAnchos(marcos: seq<seq<byte>>)
  {
    forall f :: 0 <= f < |marcos| ==> |marcos[f]| >= CABECERA
  }

  ghost predicate EnMemoria(ps: seq<Pagina>, n: nat)
  {
    forall k :: 0 <= k < |ps| ==> ps[k].nro < n
  }

  ghost predicate TodasEnMemoria(ss: seq<Segmento>, n: nat)
  {
    forall i :: 0 <= i < |ss| ==> EnMemoria(ss[i].paginas, n)
  }

  function CeldasDe(ps: seq<Pagina>, marcos: seq<seq<byte>>): (r: seq<Celda>)
    requires MarcosAnchos(marcos) && EnMemoria(ps, |marcos|)
  {
    seq(|ps|, k requires 0 <= k < |ps| => CeldaDe(ps[k], marcos))
  }

  function TablasDe(ss: seq<Segmento>, marcos: seq<seq<byte>>): (r: seq<Tabla>)
    requires MarcosAnchos(marcos) && TodasEnMemoria(ss, |marcos|)
  {
    seq(|ss|, i requires 0 <= i < |ss| => Tabla(ss[i].nombre, CeldasDe(ss[i].paginas, marcos)))
  }

  /** The frames that the pages of a table take, each as often as it is taken. */
  ghost function Ocupados(ps: seq<Pagina>): multiset<nat>
  {
    if ps == [] then multiset{} else multiset{ps[0].nro} + Ocupados(ps[1..])
  }

  ghost function OcupadosPor(ss: seq<Segmento>): multiset<nat>
  {
    if ss == [] then multiset{} else Ocupados(ss[0].paginas) + OcupadosPor(ss[1..])
  }

  /** Pages and set bits are in bijection: a frame is taken once if its bit is set and not at all otherwise. */
  ghost predicate Biyeccion(ss: seq<Segmento>, bits: seq<bool>)
  {
    forall f: nat :: OcupadosPor(ss)[f] == if f < |bits| && bits[f] then 1 else 0
  }

  function PonerPaginas(ss: seq<Segmento>, i: nat, ps: seq<Pagina>): seq<Segmento>
    requires i < |ss|
  {
    ss[i := ss[i].(paginas := ps)]
  }

  lemma SumarAntes(x: multiset<nat>, a: multiset<nat>, b: multiset<nat>, c: multiset<nat>, d: multiset<nat>)
    requires a + b == c + d
    ensures (x + a) + b == (x + c) + d
  {
    assert (x + a) + b == x + (a + b) && (x + c) + d == x + (c + d);
  }

  lemma Cruzar(a: multiset<nat>, b: multiset<nat>, x: multiset<nat>)
    ensures (b + x) + a == (a + x) + b
  {
    assert (b + x) + a == (a + b) + x == (a + x) + b;
  }

  lemma ElPrimeroYLosDemas(s: Segmento, resto: seq<Segmento>, ss: seq<Segmento>)
    requires ss != [] && ss[0] == s && ss[1..] == resto
    ensures OcupadosPor(ss) == Ocupados(s.paginas) + OcupadosPor(resto)
  {
  }

  lemma {:induction false} OcupadosAlPoner(ss: seq<Segmento>, i: nat, ps: seq<Pagina>)
    requires i < |ss|
    ensures OcupadosPor(PonerPaginas(ss, i, ps)) + Ocupados(ss[i].paginas) == OcupadosPor(ss) + Ocupados(ps)
  {
    hide Ocupados, OcupadosPor;
    var r := PonerPaginas(ss, i, ps);
    ElPrimeroYLosDemas(ss[0], ss[1..], ss);
    if i > 0 {
      assert r[1..] == PonerPaginas(ss[1..], i - 1, ps);
      ElPrimeroYLosDemas(ss[0], r[1..], r);
      OcupadosAlPoner(ss[1..], i - 1, ps);
      SumarAntes(Ocupados(ss[0].paginas), OcupadosPor(r[1..]), Ocupados(ss[i].paginas), OcupadosPor(ss[1..]),
          Ocupados(ps));
    } else {
      ElPrimeroYLosDemas(r[0], ss[1..], r);
      Cruzar(Ocupados(ss[0].paginas), Ocupados(ps), OcupadosPor(ss[1..]));
    }
  }

  lemma {:induction false} OcupadosAlAgregar(ps: seq<Pagina>, p: Pagina)
    ensures Ocupados(ps + [p]) == Ocupados(ps) + multiset{p.nro}
  {
    if ps == [] {
      assert ps + [p] == [p] && [p][1..] == [];
    } else {
      OcupadosAlAgregar(ps[1..], p);
      assert (ps + [p])[1..] == ps[1..] + [p];
    }
  }

  lemma {:induction false} OcupadosAlQuitar(ps: seq<Pagina>, k: nat)
    requires k < |ps|
    ensures Ocupados(Quitar(ps, k)) + multiset{ps[k].nro} == Ocupados(ps)
  {
    if k > 0 {
      OcupadosAlQuitar(ps[1..], k - 1);
      assert Quitar(ps, k)[0] == ps[0] && Quitar(ps, k)[1..] == Quitar(ps[1..], k - 1);
      assert multiset{ps[0].nro} + Ocupados(Quitar(ps[1..], k - 1)) + multiset{ps[k].nro}
          == multiset{ps[0].nro} + (Ocupados(Quitar(ps[1..], k - 1)) + multiset{ps[k].nro});
    } else {
      assert Quitar(ps, 0) == ps[1..];
    }
  }

  /** A change to one page that leaves it in its frame takes no other frame. */
  lemma {:induction false} OcupadosAlCambiar(ps: seq<Pagina>, k: nat, p: Pagina)
    requires k < |ps| && p.nro == ps[k].nro
    ensures Ocupados(ps[k := p]) == Ocupados(ps)
  {
    if k > 0 {
      OcupadosAlCambiar(ps[1..], k - 1, p);
      assert ps[k := p][1..] == ps[1..][k - 1 := p];
    } else {
      assert ps[0 := p][1..] == ps[1..];
    }
  }

  lemma {:induction false} OcupadoSiiAlguna(ss: seq<Segmento>, f: nat)
    ensures f in OcupadosPor(ss) <==> exists i :: 0 <= i < |ss| && f in Ocupados(ss[i].paginas)
  {
    hide Ocupados;
    if ss != [] {
      OcupadoSiiAlguna(ss[1..], f);
      assert forall i :: 1 <= i < |ss| ==> ss[i] == ss[1..][i - 1];
      assert forall i :: 0 <= i < |ss[1..]| ==> ss[1..][i] == ss[i + 1];
    }
  }

  lemma {:induction false} OcupadoPorPagina(ps: seq<Pagina>, k: nat)
    requires k < |ps|
    ensures ps[k].nro in Ocupados(ps)
  {
    if k > 0 {
      OcupadoPorPagina(ps[1..], k - 1);
    }
  }

  lemma {:induction false} CuantosOcupan(ss: seq<Segmento>, marcos: seq<seq<byte>>)
    requires MarcosAnchos(marcos) && TodasEnMemoria(ss, |marcos|)
    ensures |OcupadosPor(ss)| == Cuantas(TablasDe(ss, marcos))
  {
    if ss != [] {
      assert forall i :: 0 <= i < |ss[1..]| ==> ss[1..][i] == ss[i + 1];
      CuantosOcupan(ss[1..], marcos);
      assert TablasDe(ss, marcos)[1..] == TablasDe(ss[1..], marcos);
      CuantosEnUna(ss[0].paginas);
    }
  }

  lemma {:induction false} CuantosEnUna(ps: seq<Pagina>)
    ensures |Ocupados(ps)| == |ps|
  {
    if ps != [] {
      CuantosEnUna(ps[1..]);
    }
  }

  function Unos(bits: seq<bool>): (r: nat)
    ensures r <= |bits|
  {
    if bits == [] then 0 else Unos(bits[..|bits| - 1]) + (if bits[|bits| - 1] then 1 else 0)
  }

  lemma {:induction false} UnosSonOcupados(m: multiset<nat>, bits: seq<bool>)
    requires forall f: nat :: m[f] == if f < |bits| && bits[f] then 1 else 0
    ensures |m| == Unos(bits)
  {
    if bits == [] {
      assert m == multiset{};
    } else {
      var u := |bits| - 1;
      var sin := m[u := 0];
      UnosSonOcupados(sin, bits[..u]);
      assert |m| == |sin| + m[u];
    }
  }

  lemma {:induction false} TodosUnos(bits: seq<bool>)
    ensures Unos(bits) == |bits| <==> forall f :: 0 <= f < |bits| ==> bits[f]
  {
    if bits != [] {
      TodosUnos(bits[..|bits| - 1]);
    }
  }

  /** A frame is free exactly when fewer cells are kept than there are frames. */
  lemma HayMarcoLibre(ss: seq<Segmento>, bits: seq<bool>, marcos: seq<seq<byte>>)
    requires MarcosAnchos(marcos) && TodasEnMemoria(ss, |marcos|) && Biyeccion(ss, bits) && |bits| == |marcos|
    ensures Cuantas(TablasDe(ss, marcos)) <= |bits|
    ensures (exists f :: 0 <= f < |bits| && !bits[f]) <==> Cuantas(TablasDe(ss, marcos)) < |bits|
  {
    CuantosOcupan(ss, marcos);
    UnosSonOcupados(OcupadosPor(ss), bits);
    TodosUnos(bits);
  }

  /** Every page lies in a frame of the memory. */
  lemma BiyeccionEnMemoria(ss: seq<Segmento>, bits: seq<bool>)
    requires Biyeccion(ss, bits)
    ensures TodasEnMemoria(ss, |bits|)
  {
    forall i, k | 0 <= i < |ss| && 0 <= k < |ss[i].paginas|
      ensures ss[i].paginas[k].nro < |bits|
    {
      OcupadoPorPagina(ss[i].paginas, k);
      OcupadoSiiAlguna(ss, ss[i].paginas[k].nro);
      assert ss[i].paginas[k].nro in OcupadosPor(ss);
    }
  }

  /** Writing in a frame that no page takes changes no cell. */
  lemma EscribirEnLibre(ss: seq<Segmento>, marcos: seq<seq<byte>>, f: nat, m: seq<byte>)
    requires MarcosAnchos(marcos) && TodasEnMemoria(ss, |marcos|) && f < |marcos| && |m| >= CABECERA
    requires f !in OcupadosPor(ss)
    ensures TablasDe(ss, marcos[f := m]) == TablasDe(ss, marcos)
  {
    forall i | 0 <= i < |ss|
      ensures CeldasDe(ss[i].paginas, marcos[f := m]) == CeldasDe(ss[i].paginas, marcos)
    {
      forall k | 0 <= k < |ss[i].paginas|
        ensures ss[i].paginas[k].nro != f
      {
        OcupadoPorPagina(ss[i].paginas, k);
        OcupadoSiiAlguna(ss, f);
      }
    }
  }

  lemma TablasAlPoner(ss: seq<Segmento>, marcos: seq<seq<byte>>, i: nat, ps: seq<Pagina>)
    requires MarcosAnchos(marcos) && TodasEnMemoria(ss, |marcos|) && i < |ss| && EnMemoria(ps, |marcos|)
    ensures TodasEnMemoria(PonerPaginas(ss, i, ps), |marcos|)
    ensures TablasDe(PonerPaginas(ss, i, ps), marcos) == Poner(TablasDe(ss, marcos), i, CeldasDe(ps, marcos))
  {
  }

  /** Two pages in one frame would count it twice. */
  lemma DosPaginasNo(ss: seq<Segmento>, bits: seq<bool>, i: nat, j: nat, c: nat, d: nat)
    requires Biyeccion(ss, bits) && i < |ss| && j < |ss[i].paginas| && c < |ss| && d < |ss[c].paginas|
             && (i, j) != (c, d)
    ensures ss[i].paginas[j].nro != ss[c].paginas[d].nro
  {
    var f := ss[i].paginas[j].nro;
    var r := SinPagina(ss, i, j);
    QuitarPagina(ss, i, j);
    assert (OcupadosPor(r) + multiset{f})[f] <= 1;
    assert f !in OcupadosPor(r);
    if ss[c].paginas[d].nro == f {
      var d' := if c == i && d > j then d - 1 else d;
      assert r[c].paginas[d'] == ss[c].paginas[d];
      OcupadoPorPagina(r[c].paginas, d');
      OcupadoSiiAlguna(r, f);
    }
  }

  function SinPagina(ss: seq<Segmento>, i: nat, j: nat): seq<Segmento>
    requires i < |ss| && j < |ss[i].paginas|
  {
    PonerPaginas(ss, i, Quitar(ss[i].paginas, j))
  }

  function ConPagina(ss: seq<Segmento>, i: nat, p: Pagina): seq<Segmento>
    requires i < |ss|
  {
    PonerPaginas(ss, i, ss[i].paginas + [p])
  }

  lemma QuitarPagina(ss: seq<Segmento>, i: nat, j: nat)
    requires i < |ss| && j < |ss[i].paginas|
    ensures OcupadosPor(SinPagina(ss, i, j)) + multiset{ss[i].paginas[j].nro} == OcupadosPor(ss)
  {
    var ps := ss[i].paginas;
    var f := multiset{ps[j].nro};
    OcupadosAlPoner(ss, i, Quitar(ps, j));
    OcupadosAlQuitar(ps, j);
    var r := OcupadosPor(SinPagina(ss, i, j));
    MasYMenos(r, Ocupados(ps), OcupadosPor(ss), Ocupados(Quitar(ps, j)), f);
  }

  lemma MasYMenos(r: multiset<nat>, a: multiset<nat>, o: multiset<nat>, b: multiset<nat>, f: multiset<nat>)
    requires r + a == o + b && a == b + f
    ensures r + f == o
  {
    forall x
      ensures (r + f)[x] == o[x]
    {
      assert (r + a)[x] == (o + b)[x];
    }
  }

  lemma AgregarPagina(ss: seq<Segmento>, i: nat, p: Pagina)
    requires i < |ss|
    ensures OcupadosPor(ConPagina(ss, i, p)) == OcupadosPor(ss) + multiset{p.nro}
  {
    var ps := ss[i].paginas;
    OcupadosAlPoner(ss, i, ps + [p]);
    OcupadosAlAgregar(ps, p);
    MasYMenos(OcupadosPor(ss), Ocupados(ps + [p]), OcupadosPor(ConPagina(ss, i, p)), Ocupados(ps), multiset{p.nro});
  }

  /** Writing in the frame of a page changes its cell and no other. */
  lemma EscribirEnPagina(ss: seq<Segmento>, bits: seq<bool>, marcos: seq<seq<byte>>, i: nat, j: nat, m: seq<byte>)
    requires MarcosAnchos(marcos) && TodasEnMemoria(ss, |marcos|) && Biyeccion(ss, bits) && |m| >= CABECERA
    requires i < |ss| && j < |ss[i].paginas|
    ensures var p := ss[i].paginas[j];
            TablasDe(ss, marcos[p.nro := m])
            == Poner(TablasDe(ss, marcos), i, CeldasDe(ss[i].paginas, marcos)[j := CeldaDe(p, marcos[p.nro := m])])
  {
    var p := ss[i].paginas[j];
    var nuevos := marcos[p.nro := m];
    forall c, d | 0 <= c < |ss| && 0 <= d < |ss[c].paginas| && (c, d) != (i, j)
      ensures CeldaDe(ss[c].paginas[d], nuevos) == CeldaDe(ss[c].paginas[d], marcos)
    {
      DosPaginasNo(ss, bits, i, j, c, d);
    }
    forall c | 0 <= c < |ss|
      ensures CeldasDe(ss[c].paginas, nuevos)
           == if c == i then CeldasDe(ss[i].paginas, marcos)[j := CeldaDe(p, nuevos)] else CeldasDe(ss[c].paginas,
               marcos)
    {
      var r := CeldasDe(ss[c].paginas, nuevos);
      forall d | 0 <= d < |ss[c].paginas|
        ensures r[d] == if (c, d) == (i, j) then CeldaDe(p, nuevos) else CeldasDe(ss[c].paginas, marcos)[d]
      {
      }
    }
  }

  /** A page written over in its own frame: its cell changes, and no other; the bitmap stays right. */
  lemma ReescribirPagina(ss: seq<Segmento>, bits: seq<bool>, marcos: seq<seq<byte>>, i: nat, j: nat, p: Pagina,
      m: seq<byte>)
    requires MarcosAnchos(marcos) && |bits| == |marcos| && Biyeccion(ss, bits) && |m| >= CABECERA
    requires i < |ss| && j < |ss[i].paginas| && p.nro == ss[i].paginas[j].nro && p.nro < |marcos|
    ensures TodasEnMemoria(ss, |marcos|)
    ensures var r := PonerPaginas(ss, i, ss[i].paginas[j := p]);
            var ts := TablasDe(ss, marcos);
            && Biyeccion(r, bits) && TodasEnMemoria(r, |marcos|)
            && TablasDe(r, marcos[p.nro := m]) == Poner(ts, i, ts[i].celdas[j := CeldaDe(p, marcos[p.nro := m])])
  {
    BiyeccionEnMemoria(ss, bits);
    MismosMarcos(ss, i, j, p);
    EscribirEnPagina(ss, bits, marcos, i, j, m);
    CambiarPagina(ss, marcos[p.nro := m], i, j, p);
    var nuevos, ts := marcos[p.nro := m], TablasDe(ss, marcos);
    var c, c' := CeldaDe(ss[i].paginas[j], nuevos), CeldaDe(p, nuevos);
    assert ts[i].celdas[j := c][j := c'] == ts[i].celdas[j := c'];
    assert Poner(Poner(ts, i, ts[i].celdas[j := c]), i, ts[i].celdas[j := c']) == Poner(ts, i, ts[i].celdas[j := c']);
  }

  lemma MismosMarcos(ss: seq<Segmento>, i: nat, j: nat, p: Pagina)
    requires i < |ss| && j < |ss[i].paginas| && p.nro == ss[i].paginas[j].nro
    ensures OcupadosPor(PonerPaginas(ss, i, ss[i].paginas[j := p])) == OcupadosPor(ss)
  {
    var ps := ss[i].paginas[j := p];
    OcupadosAlCambiar(ss[i].paginas, j, p);
    OcupadosAlPoner(ss, i, ps);
    MasYMenos(OcupadosPor(PonerPaginas(ss, i, ps)), Ocupados(ps), OcupadosPor(ss), Ocupados(ps), multiset{});
    assert OcupadosPor(PonerPaginas(ss, i, ps)) + multiset{} == OcupadosPor(PonerPaginas(ss, i, ps));
  }

  lemma CambiarPagina(ss: seq<Segmento>, marcos: seq<seq<byte>>, i: nat, j: nat, p: Pagina)
    requires MarcosAnchos(marcos) && TodasEnMemoria(ss, |marcos|) && i < |ss| && j < |ss[i].paginas| && p.nro < |marcos|
    ensures var r, ts := PonerPaginas(ss, i, ss[i].paginas[j := p]), TablasDe(ss, marcos);
            TodasEnMemoria(r, |marcos|) && TablasDe(r, marcos) == Poner(ts, i, ts[i].celdas[j := CeldaDe(p, marcos)])
  {
    CeldasAlCambiar(ss[i].paginas, j, p, marcos);
    TablasAlPoner(ss, marcos, i, ss[i].paginas[j := p]);
  }

  lemma CeldasAlCambiar(ps: seq<Pagina>, j: nat, p: Pagina, marcos: seq<seq<byte>>)
    requires MarcosAnchos(marcos) && EnMemoria(ps, |marcos|) && j < |ps| && p.nro < |marcos|
    ensures EnMemoria(ps[j := p], |marcos|)
    ensures CeldasDe(ps[j := p], marcos) == CeldasDe(ps, marcos)[j := CeldaDe(p, marcos)]
  {
  }

  lemma OcuparMarco(ss: seq<Segmento>, bits: seq<bool>, i: nat, p: Pagina)
    requires Biyeccion(ss, bits) && i < |ss| && p.nro < |bits| && !bits[p.nro]
    ensures Biyeccion(ConPagina(ss, i, p), bits[p.nro := true]) && p.nro !in OcupadosPor(ss)
  {
    hide Ocupados, OcupadosPor;
    AgregarPagina(ss, i, p);
    assert OcupadosPor(ss)[p.nro] == 0;
    forall f: nat
      ensures OcupadosPor(ConPagina(ss, i, p))[f] == if f < |bits| && bits[p.nro := true][f] then 1 else 0
    {
      assert (OcupadosPor(ss) + multiset{p.nro})[f] == OcupadosPor(ConPagina(ss, i, p))[f];
    }
  }

  /** A new page in a frame that was free. */
  lemma NuevaPagina(ss: seq<Segmento>, bits: seq<bool>, marcos: seq<seq<byte>>, i: nat, p: Pagina, m: seq<byte>)
    requires MarcosAnchos(marcos) && |bits| == |marcos| && Biyeccion(ss, bits) && |m| >= CABECERA
    requires i < |ss| && p.nro < |bits| && !bits[p.nro]
    ensures TodasEnMemoria(ss, |marcos|)
    ensures var r := ConPagina(ss, i, p);
            && Biyeccion(r, bits[p.nro := true]) && TodasEnMemoria(r, |marcos|)
            && TablasDe(r, marcos[p.nro := m]) == ConCelda(TablasDe(ss, marcos), i, CeldaDe(p, marcos[p.nro := m]))
  {
    BiyeccionEnMemoria(ss, bits);
    OcuparMarco(ss, bits, i, p);
    hide Ocupados, OcupadosPor, Biyeccion;
    EscribirEnLibre(ss, marcos, p.nro, m);
    var ps, nuevos := ss[i].paginas + [p], marcos[p.nro := m];
    TablasAlPoner(ss, nuevos, i, ps);
    assert CeldasDe(ps, nuevos) == CeldasDe(ss[i].paginas, nuevos) + [CeldaDe(p, nuevos)];
    assert CeldasDe(ss[i].paginas, nuevos) == TablasDe(ss, nuevos)[i].celdas;
  }

  lemma LiberarMarco(ss: seq<Segmento>, bits: seq<bool>, a: nat, b: nat)
    requires Biyeccion(ss, bits) && a < |ss| && b < |ss[a].paginas| && ss[a].paginas[b].nro < |bits|
    ensures bits[ss[a].paginas[b].nro] && Biyeccion(SinPagina(ss, a, b), bits[ss[a].paginas[b].nro := false])
  {
    hide Ocupados, OcupadosPor;
    var f := ss[a].paginas[b].nro;
    QuitarPagina(ss, a, b);
    assert (OcupadosPor(SinPagina(ss, a, b)) + multiset{f})[f] == OcupadosPor(ss)[f];
    forall g: nat
      ensures OcupadosPor(SinPagina(ss, a, b))[g] == if g < |bits| && bits[f := false][g] then 1 else 0
    {
      assert (OcupadosPor(SinPagina(ss, a, b)) + multiset{f})[g] == OcupadosPor(ss)[g];
    }
  }

  /** A page that goes leaves its frame free. */
  lemma PaginaMenos(ss: seq<Segmento>, bits: seq<bool>, marcos: seq<seq<byte>>, a: nat, b: nat)
    requires MarcosAnchos(marcos) && |bits| == |marcos| && Biyeccion(ss, bits)
    requires a < |ss| && b < |ss[a].paginas|
    ensures TodasEnMemoria(ss, |marcos|) && ss[a].paginas[b].nro < |bits|
    ensures var r, f := SinPagina(ss, a, b), ss[a].paginas[b].nro;
            && bits[f] && Biyeccion(r, bits[f := false]) && TodasEnMemoria(r, |marcos|)
            && TablasDe(r, marcos) == SinCelda(TablasDe(ss, marcos), a, b)
  {
    BiyeccionEnMemoria(ss, bits);
    var f := ss[a].paginas[b].nro;
    LiberarMarco(ss, bits, a, b);
    hide Ocupados, OcupadosPor, Biyeccion;
    var ps := Quitar(ss[a].paginas, b);
    TablasAlPoner(ss, marcos, a, ps);
    assert CeldasDe(ps, marcos) == Quitar(CeldasDe(ss[a].paginas, marcos), b);
  }
}
