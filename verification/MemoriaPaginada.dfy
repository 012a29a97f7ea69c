/** The memory process of Lissandra: one block of bytes cut into frames, a bitmap, and page tables by segment. */
module MemoriaPaginada {
  import opened Bytes
  import opened Secuencias
  import opened ModeloDePaginas
  import opened ReemplazoDePaginas
  import opened Marcos

  /** Where list_find stops in a list of segments, and in a list of pages. */
  function BuscarSegmento(ss: seq<Segmento>, nombre: string): (r: Option<nat>)
  {
    Buscar(ss, (s: Segmento) => s.nombre == nombre)
  }

  function BuscarPagina(ps: seq<Pagina>, marcos: seq<seq<byte>>, clave: nat): (r: Option<nat>)
    requires MarcosAnchos(marcos) && EnMemoria(ps, |marcos|)
    ensures r == IndiceClave(CeldasDe(ps, marcos), clave)
  {
    if ps == [] then None
    else
      assert CeldasDe(ps, marcos)[1..] == CeldasDe(ps[1..], marcos);
      if ClaveEn(marcos[ps[0].nro]) == clave then Some(0)
      else
        var r := BuscarPagina(ps[1..], marcos, clave);
        if r.Some? then Some(r.value + 1) else None
  }

  lemma {:induction false} MismoIndice(ss: seq<Segmento>, marcos: seq<seq<byte>>, nombre: string)
    requires MarcosAnchos(marcos) && TodasEnMemoria(ss, |marcos|)
    ensures IndiceTabla(TablasDe(ss, marcos), nombre) == BuscarSegmento(ss, nombre)
  {
    if ss != [] {
      assert forall i :: 0 <= i < |ss[1..]| ==> ss[1..][i] == ss[i + 1];
      MismoIndice(ss[1..], marcos, nombre);
      assert TablasDe(ss, marcos)[1..] == TablasDe(ss[1..], marcos);
    }
  }

  /** A slice of memory seen as frames. */
  function EnMarcos(mem: seq<byte>, n: nat, ancho: nat): (r: seq<seq<byte>>)
    requires n * ancho <= |mem|
    ensures |r| == n
    ensures forall f :: 0 <= f < n ==> |r[f]| == ancho
  {
    seq(n, f requires 0 <= f < n => Marco(mem, n, ancho, f))
  }

  function Marco(mem: seq<byte>, n: nat, ancho: nat, f: nat): (r: seq<byte>)
    requires n * ancho <= |mem| && f < n
    ensures |r| == ancho
  {
    MarcoEntra(n, ancho, f);
    mem[f * ancho..f * ancho + ancho]
  }

  lemma MarcoEntra(n: nat, ancho: nat, f: nat)
    requires f < n
    ensures 0 <= f * ancho && f * ancho + ancho <= n * ancho
  {
    assert (f + 1) * ancho == f * ancho + ancho;
    Monotona(f + 1, n, ancho);
  }

  lemma Monotona(a: nat, b: nat, x: nat)
    requires a <= b
    ensures 0 <= a * x <= b * x
  {
    assert b * x == a * x + (b - a) * x;
  }

  lemma AlMenosUno(total: nat, ancho: nat)
    requires total >= ancho > 0
    ensures total / ancho > 0 && (total / ancho) * ancho <= total
  {
    assert total == ancho * (total / ancho) + total % ancho;
  }

  /** Three copies one after the other leave what one copy of the three would. */
  lemma TresCopias(mem: seq<byte>, o: nat, x: seq<byte>, y: seq<byte>, z: seq<byte>)
    requires o + |x| + |y| + |z| <= |mem|
    ensures var p, q := o + |x|, o + |x| + |y|;
            var m1 := mem[..o] + x + mem[p..];
            var m2 := m1[..p] + y + m1[q..];
            m2[..q] + z + m2[q + |z|..] == mem[..o] + (x + y + z) + mem[q + |z|..]
  {
  }

  /** Writing one frame whole leaves the others as they were. */
  lemma EscribirMarco(mem: seq<byte>, n: nat, ancho: nat, f: nat, m: seq<byte>)
    requires n * ancho <= |mem| && f < n && |m| == ancho
    ensures 0 <= f * ancho && f * ancho + ancho <= |mem|
    ensures var r := mem[..f * ancho] + m + mem[f * ancho + ancho..];
            n * ancho <= |r| && EnMarcos(r, n, ancho) == EnMarcos(mem, n, ancho)[f := m]
  {
    MarcoEntra(n, ancho, f);
    var r := mem[..f * ancho] + m + mem[f * ancho + ancho..];
    forall g | 0 <= g < n
      ensures Marco(r, n, ancho, g) == if g == f then m else Marco(mem, n, ancho, g)
    {
      MarcoEntra(n, ancho, g);
      if g < f {
        MarcoEntra(f, ancho, g);
      } else if g > f {
        MarcoEntra(g, ancho, f);
      }
    }
  }

  class Memoria {
    const tamanioValue: nat
    const cantidadMarcos: nat
    const pMemoriaPrincipal: array<byte>
    const bitarrayMarcos: array<bool>
    var tablaDeSegmentos: seq<Segmento>
    /** What was sent to the file system by journals, in order. */
    var enviados: seq<Envio>

    predicate Formato()
    {
      && cantidadMarcos > 0 && bitarrayMarcos.Length == cantidadMarcos
      && cantidadMarcos * (CABECERA + tamanioValue) <= pMemoriaPrincipal.Length
    }

    function LosMarcos(): (r: seq<seq<byte>>)
      requires Formato()
      reads pMemoriaPrincipal
      ensures |r| == cantidadMarcos && MarcosAnchos(r)
    {
      EnMarcos(pMemoriaPrincipal[..], cantidadMarcos, CABECERA + tamanioValue)
    }

    ghost predicate Enlazada()
      requires Formato()
      reads this`tablaDeSegmentos, bitarrayMarcos
    {
      && Biyeccion(tablaDeSegmentos, bitarrayMarcos[..])
      && TodasEnMemoria(tablaDeSegmentos, cantidadMarcos)
    }

    ghost predicate Valid()
      reads this`tablaDeSegmentos, pMemoriaPrincipal, bitarrayMarcos
    {
      Formato() && Enlazada() && BienFormadas(Tablas())
    }

    ghost function Tablas(): seq<Tabla>
      requires Formato() && Enlazada()
      reads this`tablaDeSegmentos, pMemoriaPrincipal, bitarrayMarcos
    {
      TablasDe(tablaDeSegmentos, LosMarcos())
    }

    /** What the memory holds, without frames. */
    ghost function Modelo(): (m: ModeloDePaginas.Modelo)
      requires Formato() && Enlazada()
      reads this, pMemoriaPrincipal, bitarrayMarcos
    {
      ModeloDePaginas.Modelo(Tablas(), enviados)
    }

    constructor (tamanioMemoria: nat, tamanioValue: nat)
      requires tamanioMemoria >= CABECERA + tamanioValue
      ensures Valid() && this.tamanioValue == tamanioValue
      ensures Modelo() == ModeloDePaginas.Modelo([], [])
      ensures cantidadMarcos == tamanioMemoria / (CABECERA + tamanioValue)
      ensures fresh(pMemoriaPrincipal) && fresh(bitarrayMarcos)
    {
      var ancho := CABECERA + tamanioValue;
      this.tamanioValue := tamanioValue;
      cantidadMarcos := tamanioMemoria / ancho;
      pMemoriaPrincipal := new byte[tamanioMemoria](_ => 0);
      bitarrayMarcos := new bool[tamanioMemoria / ancho](_ => false);
      tablaDeSegmentos, enviados := [], [];
      new;
      AlMenosUno(tamanioMemoria, ancho);
    }

    /** memcpy into the memory. */
    method Memcpy(desde: nat, datos: seq<byte>)
      requires desde + |datos| <= pMemoriaPrincipal.Length
      modifies pMemoriaPrincipal
      ensures pMemoriaPrincipal[..] == old(pMemoriaPrincipal[..desde]) + datos
                + old(pMemoriaPrincipal[desde + |datos|..])
    {
      forall x | 0 <= x < |datos| {
        pMemoriaPrincipal[desde + x] := datos[x];
      }
    }

    /** Key, time and value go one after the other in the frame; the value is filled up with zeros. */
    method GuardarPaginaEnMP(f: nat, clave: nat, valor: seq<byte>, imagen: seq<byte>)
      requires Formato() && f < cantidadMarcos && |valor| <= tamanioValue && |imagen| == TAM_TIEMPO
      modifies pMemoriaPrincipal
      ensures LosMarcos() == old(LosMarcos())[f := Imagen(clave, imagen, valor, tamanioValue)]
    {
      var ancho := CABECERA + tamanioValue;
      ghost var mem := pMemoriaPrincipal[..];
      var x, z := EnBytes(clave, TAM_CLAVE), valor + Ceros(tamanioValue - |valor|);
      EscribirMarco(mem, cantidadMarcos, ancho, f, Imagen(clave, imagen, valor, tamanioValue));
      TresCopias(mem, f * ancho, x, imagen, z);
      Memcpy(f * ancho, x);
      Memcpy(f * ancho + TAM_CLAVE, imagen);
      Memcpy(f * ancho + CABECERA, z);
    }

    /** The first frame whose bit is clear, which it sets. */
    method SetearMarcoLibreEnBitarray() returns (f: Option<nat>)
      modifies bitarrayMarcos
      ensures f.Some? ==> f.value < bitarrayMarcos.Length && !old(bitarrayMarcos[f.value])
                          && bitarrayMarcos[..] == old(bitarrayMarcos[..])[f.value := true]
      ensures f.Some? ==> forall g :: 0 <= g < f.value ==> old(bitarrayMarcos[g])
      ensures f.None? ==> bitarrayMarcos[..] == old(bitarrayMarcos[..])
                          && forall g :: 0 <= g < bitarrayMarcos.Length ==> bitarrayMarcos[g]
    {
      var i := 0;
      while i < bitarrayMarcos.Length
        invariant 0 <= i <= bitarrayMarcos.Length
        invariant bitarrayMarcos[..] == old(bitarrayMarcos[..])
        invariant forall g :: 0 <= g < i ==> bitarrayMarcos[g]
      {
        if !bitarrayMarcos[i] {
          bitarrayMarcos[i] := true;
          return Some(i);
        }
        i := i + 1;
      }
      return None;
    }

    method LimpiarMarcos()
      modifies bitarrayMarcos
      ensures forall f :: 0 <= f < bitarrayMarcos.Length ==> !bitarrayMarcos[f]
    {
      var i := 0;
      while i < bitarrayMarcos.Length
        invariant 0 <= i <= bitarrayMarcos.Length
        invariant forall f :: 0 <= f < i ==> !bitarrayMarcos[f]
      {
        bitarrayMarcos[i] := false;
        i := i + 1;
      }
    }

    /** The LRU's scan: the unmodified page written longest ago, if there is one. */
    method BuscarVictima() returns (r: Option<(nat, nat)>)
      requires Valid()
      ensures r.Some? ==> EsVictima(Tablas(), r.value.0, r.value.1)
      ensures r.None? ==> !HayVictima(Tablas())
      ensures r.Some? ==> EsLaMasVieja(Tablas(), r.value.0, r.value.1)
      ensures r.None? ==> forall a: nat, b: nat :: !CedibleEn(Tablas(), a, b)
    {
      ghost var ts := Tablas();
      HayVictimaSii(ts);
      var paginaMenosUsada := TOPE;
      r := None;
      var i := 0;
      while i < |tablaDeSegmentos|
        invariant 0 <= i <= |tablaDeSegmentos|
        invariant EsVictimaHasta(ts, i, 0, r, paginaMenosUsada)
      {
        var paginas := tablaDeSegmentos[i].paginas;
        var j := 0;
        while j < |paginas|
          invariant 0 <= j <= |paginas|
          invariant EsVictimaHasta(ts, i, j, r, paginaMenosUsada)
        {
          assert ts[i].celdas[j].modificada == paginas[j].modificada && ts[i].celdas[j].uso == paginas[j].uso;
          if !paginas[j].modificada {
            if paginas[j].uso < paginaMenosUsada {
              paginaMenosUsada := paginas[j].uso;
              r := Some((i, j));
            }
          }
          j := j + 1;
        }
        i := i + 1;
      }
      HastaElFinal(ts, r, paginaMenosUsada);
    }

    /** What JOURNAL_MEMORIA sends: every page marked as modified, read back from its frame. */
    method EnviarModificadas()
      requires Valid()
      modifies this`enviados
      ensures enviados == old(enviados) + AEnviar(Tablas())
    {
      hide OcupadosPor, CeldaDe, BienFormadas, AEnviarDe;
      ghost var ts := Tablas();
      var i := 0;
      assert ts[..0] == [];
      while i < |tablaDeSegmentos|
        invariant 0 <= i <= |tablaDeSegmentos|
        invariant enviados == old(enviados) + AEnviar(ts[..i])
      {
        CuantasAlAgregar(ts[..i], ts[i]);
        EnviarDeUnSegmento(i);
        assert ts[..i + 1] == ts[..i] + [ts[i]];
        i := i + 1;
      }
      assert ts[..i] == ts;
    }

    method EnviarDeUnSegmento(i: nat)
      requires Valid() && i < |tablaDeSegmentos|
      modifies this`enviados
      ensures enviados == old(enviados) + AEnviarDe(tablaDeSegmentos[i].nombre, Tablas()[i].celdas)
    {
      var s := tablaDeSegmentos[i];
      ghost var cs := Tablas()[i].celdas;
      var j := 0;
      assert cs[..0] == [];
      while j < |s.paginas|
        invariant 0 <= j <= |s.paginas|
        invariant enviados == old(enviados) + AEnviarDe(s.nombre, cs[..j])
      {
        assert cs[j] == CeldaDe(s.paginas[j], LosMarcos());
        UnaCeldaMas(s.nombre, cs, j);
        if s.paginas[j].modificada {
          var m := LosMarcos()[s.paginas[j].nro];
          enviados := enviados + [Envio(s.nombre, ClaveEn(m), ValorEn(m), TiempoEn(m))];
        }
        j := j + 1;
      }
      assert cs[..j] == cs;
    }

    method Journal()
      requires Valid()
      modifies this, bitarrayMarcos
      ensures Valid() && Modelo() == ModeloDePaginas.Modelo([], old(enviados) + AEnviar(old(Tablas())))
      ensures forall f :: 0 <= f < cantidadMarcos ==> !bitarrayMarcos[f]
    {
      EnviarModificadas();
      tablaDeSegmentos := [];
      LimpiarMarcos();
    }

    /** The segment of a table, created if there is none. */
    method BuscarOCrearSegmento(nombre: string) returns (i: nat)
      requires Valid()
      modifies this`tablaDeSegmentos
      ensures Valid() && enviados == old(enviados)
      ensures Tablas() == ConTabla(old(Tablas()), nombre)
      ensures i < |tablaDeSegmentos| && IndiceTabla(Tablas(), nombre) == Some(i)
    {
      ghost var ts := Tablas();
      MismoIndice(tablaDeSegmentos, LosMarcos(), nombre);
      BuscarConTabla(ts, nombre, nombre, 0);
      var q := BuscarSegmento(tablaDeSegmentos, nombre);
      if q.Some? {
        i := q.value;
      } else {
        i := |tablaDeSegmentos|;
        SegmentoVacio(tablaDeSegmentos, LosMarcos(), nombre);
        tablaDeSegmentos := tablaDeSegmentos + [Segmento(nombre, [])];
        TablaEnSuLugar(Tablas(), i);
      }
    }

    /** The page of a key already in memory is written over; its mark is left as it was. */
    method Actualizar(i: nat, j: nat, clave: nat, valor: seq<byte>, ahora: Instante)
      requires Valid() && i < |tablaDeSegmentos| && j < |tablaDeSegmentos[i].paginas| && EsValor(clave, valor, ahora)
      modifies this`tablaDeSegmentos, pMemoriaPrincipal
      ensures Formato() && Enlazada() && enviados == old(enviados)
      ensures |tablaDeSegmentos| == |old(tablaDeSegmentos)| && |tablaDeSegmentos[i].paginas|
                == |old(tablaDeSegmentos[i].paginas)|
      ensures var ts := old(Tablas());
              Tablas() == Poner(ts, i, ts[i].celdas[j :=
                                   Celda(clave, valor, ahora.imagen, ts[i].celdas[j].modificada, ahora.valor)])
    {
      var p := tablaDeSegmentos[i].paginas[j].(uso := ahora.valor);
      ReescribirPagina(tablaDeSegmentos, bitarrayMarcos[..], LosMarcos(), i, j, p,
                       Imagen(clave, ahora.imagen, valor, tamanioValue));
      MarcoIdaYVuelta(clave, ahora.imagen, valor, tamanioValue);
      tablaDeSegmentos := PonerPaginas(tablaDeSegmentos, i, tablaDeSegmentos[i].paginas[j := p]);
      GuardarPaginaEnMP(p.nro, clave, valor, ahora.imagen);
    }

    ghost predicate EsValor(clave: nat, valor: seq<byte>, t: Instante)
    {
      clave < 0x1_0000 && |valor| <= tamanioValue && SinCeros(valor) && |t.imagen| == TAM_TIEMPO
    }

    /** A new page, marked as modified, in a frame whose bit this call or the LRU has just set aside. */
    method CrearPagina(i: nat, f: nat, ghost bits: seq<bool>, clave: nat, valor: seq<byte>, ts: Instante,
        ahora: Instante)
      requires Formato() && |bits| == cantidadMarcos && Biyeccion(tablaDeSegmentos, bits) && EsValor(clave, valor, ts)
      requires TodasEnMemoria(tablaDeSegmentos, cantidadMarcos)
      requires i < |tablaDeSegmentos| && f < |bits| && !bits[f] && bitarrayMarcos[..] == bits[f := true]
      modifies this`tablaDeSegmentos, pMemoriaPrincipal
      ensures Enlazada() && enviados == old(enviados)
      ensures Tablas() == ConCelda(old(TablasDe(tablaDeSegmentos, LosMarcos())), i,
                Celda(clave, valor, ts.imagen, true, ahora.valor))
      ensures tablaDeSegmentos == ConPagina(old(tablaDeSegmentos), i, Pagina(f, true, ahora.valor))
    {
      var p := Pagina(f, true, ahora.valor);
      NuevaPagina(tablaDeSegmentos, bits, LosMarcos(), i, p, Imagen(clave, ts.imagen, valor, tamanioValue));
      MarcoIdaYVuelta(clave, ts.imagen, valor, tamanioValue);
      GuardarPaginaEnMP(f, clave, valor, ts.imagen);
      tablaDeSegmentos := ConPagina(tablaDeSegmentos, i, p);
    }

    /** The LRU gives up its victim: the page goes, and its frame, still set, is the one to use. */
    method AlgoritmoLRU() returns (f: Option<nat>, ghost a: nat, ghost b: nat)
      requires Valid()
      modifies this`tablaDeSegmentos
      ensures f.None? ==> tablaDeSegmentos == old(tablaDeSegmentos) && !HayVictima(Tablas())
      ensures f.Some? ==> EsVictima(old(Tablas()), a, b) && f.value < cantidadMarcos && bitarrayMarcos[f.value]
      ensures f.Some? ==> Biyeccion(tablaDeSegmentos, bitarrayMarcos[..][f.value := false])
      ensures f.Some? ==> TodasEnMemoria(tablaDeSegmentos, cantidadMarcos)
                          && TablasDe(tablaDeSegmentos, LosMarcos()) == SinCelda(old(Tablas()), a, b)
    {
      a, b := 0, 0;
      var v := BuscarVictima();
      if v.None? {
        return None, 0, 0;
      }
      a, b := v.value.0, v.value.1;
      var i, j := v.value.0, v.value.1;
      PaginaMenos(tablaDeSegmentos, bitarrayMarcos[..], LosMarcos(), i, j);
      f := Some(tablaDeSegmentos[i].paginas[j].nro);
      tablaDeSegmentos := SinPagina(tablaDeSegmentos, i, j);
    }

    /** A key that is not in memory: in a free frame, in the LRU's, or after a journal that empties the memory. */
    method InsertarNueva(i: nat, nombre: string, clave: nat, valor: seq<byte>, ts: Instante, ahora: Instante)
      returns (i': nat, j: nat)
      requires Valid() && EsValor(clave, valor, ts) && i < |tablaDeSegmentos|
      requires IndiceTabla(Tablas(), nombre) == Some(i) && IndiceClave(Tablas()[i].celdas, clave).None?
      modifies this, pMemoriaPrincipal, bitarrayMarcos
      ensures Formato() && Enlazada()
      ensures InsertadaNueva(old(Modelo()), cantidadMarcos, i, nombre,
                Celda(clave, valor, ts.imagen, true, ahora.valor), Modelo())
      ensures i' < |tablaDeSegmentos| && j < |tablaDeSegmentos[i'].paginas|
      ensures Tablas()[i'].nombre == nombre && Tablas()[i'].celdas[j].clave == clave
    {
      hide CeldaDe, OcupadosPor, Biyeccion, EsVictima, HayVictima, AEnviar;
      ghost var bits := bitarrayMarcos[..];
      HayMarcoLibre(tablaDeSegmentos, bits, LosMarcos());
      var f := SetearMarcoLibreEnBitarray();
      if f.Some? {
        CrearPagina(i, f.value, bits, clave, valor, ts, ahora);
        i', j := i, |tablaDeSegmentos[i].paginas| - 1;
      } else {
        i', j := ReemplazarOVaciar(i, nombre, clave, valor, ts, ahora);
      }
    }

    method ReemplazarOVaciar(i: nat, nombre: string, clave: nat, valor: seq<byte>, ts: Instante, ahora: Instante)
      returns (i': nat, j: nat)
      requires Valid() && EsValor(clave, valor, ts) && i < |tablaDeSegmentos|
      requires IndiceTabla(Tablas(), nombre) == Some(i) && Cuantas(Tablas()) >= cantidadMarcos
      modifies this, pMemoriaPrincipal, bitarrayMarcos
      ensures Formato() && Enlazada()
      ensures InsertadaNueva(old(Modelo()), cantidadMarcos, i, nombre,
                Celda(clave, valor, ts.imagen, true, ahora.valor), Modelo())
      ensures i' < |tablaDeSegmentos| && j < |tablaDeSegmentos[i'].paginas|
      ensures Tablas()[i'].nombre == nombre && Tablas()[i'].celdas[j].clave == clave
    {
      ghost var a, b, bits := 0, 0, bitarrayMarcos[..];
      var f;
      f, a, b := AlgoritmoLRU();
      if f.Some? {
        CrearPagina(i, f.value, bits[f.value := false], clave, valor, ts, ahora);
        i', j := i, |tablaDeSegmentos[i].paginas| - 1;
      } else {
        i', j := VaciarEInsertar(nombre, clave, valor, ts, ahora);
      }
    }

    method VaciarEInsertar(nombre: string, clave: nat, valor: seq<byte>, ts: Instante, ahora: Instante)
      returns (i: nat, j: nat)
      requires Valid() && EsValor(clave, valor, ts)
      modifies this, pMemoriaPrincipal, bitarrayMarcos
      ensures Formato() && Enlazada()
      ensures Modelo() == ModeloDePaginas.Modelo([Tabla(nombre, [Celda(clave, valor, ts.imagen, true, ahora.valor)])],
                                                 old(enviados) + AEnviar(old(Tablas())))
      ensures i < |tablaDeSegmentos| && j < |tablaDeSegmentos[i].paginas|
      ensures Tablas()[i].nombre == nombre && Tablas()[i].celdas[j].clave == clave
    {
      hide OcupadosPor, AEnviar, CeldaDe, BienFormadas;
      Journal();
      i := BuscarOCrearSegmento(nombre);
      ghost var bits := bitarrayMarcos[..];
      assert !bits[0] && Tablas() == [Tabla(nombre, [])] && i == 0;
      var f := SetearMarcoLibreEnBitarray();
      assert f.Some? by {
        assert bitarrayMarcos[..][0] == bitarrayMarcos[0];
      }
      CrearPagina(i, f.value, bits, clave, valor, ts, ahora);
      assert Tablas() == [Tabla(nombre, [] + [Celda(clave, valor, ts.imagen, true, ahora.valor)])];
      assert [] + [Celda(clave, valor, ts.imagen, true, ahora.valor)]
          == [Celda(clave, valor, ts.imagen, true, ahora.valor)];
      j := |tablaDeSegmentos[i].paginas| - 1;
    }

    /**
     Inserts a key or writes over it.  With no frame free the LRU gives up an unmodified page; with none
     of those either, a journal empties the memory.
     */
    method InsertarOActualizar(nombre: string, clave: nat, valor: seq<byte>, ts: Instante, ahora: Instante)
      returns (i: nat, j: nat)
      requires Valid() && EsValor(clave, valor, ts) && EsValor(clave, valor, ahora)
      modifies this, pMemoriaPrincipal, bitarrayMarcos
      ensures Valid() && Insertado(old(Modelo()), cantidadMarcos, nombre, clave, valor, ts, ahora, Modelo())
      ensures InsertoSegunElLugar(old(Modelo()), cantidadMarcos, nombre, clave, valor, ts, ahora, Modelo())
      ensures IndiceTabla(Tablas(), nombre) == Some(i) && i < |tablaDeSegmentos|
      ensures IndiceClave(Tablas()[i].celdas, clave) == Some(j) && j < |tablaDeSegmentos[i].paginas|
    {
      ghost var m := Modelo();
      HayMarcoLibre(tablaDeSegmentos, bitarrayMarcos[..], LosMarcos());
      BuscarConTabla(m.tablas, nombre, nombre, clave);
      i := BuscarOCrearSegmento(nombre);
      var k := BuscarPagina(tablaDeSegmentos[i].paginas, LosMarcos(), clave);
      if k.Some? {
        j := k.value;
        Actualizar(i, j, clave, valor, ahora);
      } else {
        i, j := InsertarNueva(i, nombre, clave, valor, ts, ahora);
      }
      InsertarBien(m, cantidadMarcos, nombre, clave, valor, ts, ahora, Modelo());
      InsertarSegunElLugar(m, cantidadMarcos, nombre, clave, valor, ts, ahora, Modelo());
      TablaEnSuLugar(Tablas(), i);
      ClaveEnSuLugar(Tablas()[i].celdas, j);
    }

    /** INSERT_MEMORIA: the key is what fits in 16 bits of it, and a value that is too long is refused. */
    method Insertar(nombre: string, clave: int, valor: seq<byte>, ts: Instante, ahora: Instante)
        returns (r: Option<(nat, nat)>)
      requires Valid() && SinCeros(valor) && |ts.imagen| == |ahora.imagen| == TAM_TIEMPO
      modifies this, pMemoriaPrincipal, bitarrayMarcos
      ensures Valid() && Paso(old(Modelo()), cantidadMarcos, tamanioValue,
                              Evento.Insertar(nombre, clave % 0x1_0000, valor, ts, ahora), Modelo())
      ensures r.Some? <==> |valor| <= tamanioValue
      ensures r.Some? ==> IndiceTabla(Tablas(), nombre) == Some(r.value.0) && r.value.0 < |tablaDeSegmentos|
      ensures r.Some? ==> IndiceClave(Tablas()[r.value.0].celdas, clave % 0x1_0000) == Some(r.value.1)
                          && r.value.1 < |tablaDeSegmentos[r.value.0].paginas|
    {
      if |valor| > tamanioValue {
        return None;
      }
      var i, j := InsertarOActualizar(nombre, clave % 0x1_0000, valor, ts, ahora);
      return Some((i, j));
    }

    /** SEL_INS_MEM: a record that the file system answered is inserted, and its page marked as not modified. */
    method Traer(nombre: string, clave: int, valor: seq<byte>, ts: Instante, ahora: Instante)
      requires Valid() && SinCeros(valor) && |ts.imagen| == |ahora.imagen| == TAM_TIEMPO
      modifies this, pMemoriaPrincipal, bitarrayMarcos
      ensures Valid() && Paso(old(Modelo()), cantidadMarcos, tamanioValue,
                              Evento.Traer(nombre, clave % 0x1_0000, valor, ts, ahora), Modelo())
    {
      var r := Insertar(nombre, clave, valor, ts, ahora);
      if r.Some? {
        ghost var medio := Modelo();
        Desmarcar(r.value.0, r.value.1);
        BuscarDesmarcada(medio.tablas, nombre, clave % 0x1_0000, nombre, 0);
        assert Modelo() == medio.(tablas := Desmarcada(medio.tablas, nombre, clave % 0x1_0000));
      }
    }

    method Desmarcar(i: nat, j: nat)
      requires Valid() && i < |tablaDeSegmentos| && j < |tablaDeSegmentos[i].paginas|
      modifies this`tablaDeSegmentos
      ensures Formato() && Enlazada()
      ensures var ts := old(Tablas());
              Tablas() == Poner(ts, i, ts[i].celdas[j := ts[i].celdas[j].(modificada := false)])
    {
      var p := tablaDeSegmentos[i].paginas[j].(modificada := false);
      MismosMarcos(tablaDeSegmentos, i, j, p);
      CambiarPagina(tablaDeSegmentos, LosMarcos(), i, j, p);
      tablaDeSegmentos := PonerPaginas(tablaDeSegmentos, i, tablaDeSegmentos[i].paginas[j := p]);
    }

    /**
     SELECT_MEMORIA: looks for the table under its name in upper case; None sends the request on to
     the file system.
     */
    method Seleccionar(nombre: string, clave: int) returns (r: Option<(seq<byte>, seq<byte>)>)
      requires Valid()
      ensures var c := BuscarCelda(Tablas(), Mayusculas(nombre), clave % 0x1_0000);
              r == if c.Some? then Some((c.value.valor, c.value.imagen)) else None
    {
      MismoIndice(tablaDeSegmentos, LosMarcos(), Mayusculas(nombre));
      var i := BuscarSegmento(tablaDeSegmentos, Mayusculas(nombre));
      if i.None? {
        return None;
      }
      var j := BuscarPagina(tablaDeSegmentos[i.value].paginas, LosMarcos(), clave % 0x1_0000);
      if j.None? {
        return None;
      }
      var m := LosMarcos()[tablaDeSegmentos[i.value].paginas[j.value].nro];
      return Some((ValorEn(m), TiempoEn(m)));
    }

    /** DROP_MEMORIA: the segment goes with its pages, and the bits of their frames are cleared. */
    method Drop(nombre: string)
      requires Valid()
      modifies this`tablaDeSegmentos, bitarrayMarcos
      ensures Valid() && Modelo() == old(Modelo()).(tablas := SinTabla(old(Tablas()), nombre))
    {
      hide OcupadosPor, Ocupados, BienFormadas, BuscarSegmentoSinCaja;
      ghost var ts, ss, bits := Tablas(), tablaDeSegmentos, bitarrayMarcos[..];
      MismoIndiceSinCaja(ss, LosMarcos(), nombre);
      BuscarSinTabla(ts, nombre, nombre, 0);
      var i := BuscarSegmentoSinCaja(tablaDeSegmentos, nombre);
      if i.Some? {
        SegmentoMenos(ss, bits, LosMarcos(), i.value);
        var paginas := tablaDeSegmentos[i.value].paginas;
        tablaDeSegmentos := Quitar(tablaDeSegmentos, i.value);
        LiberarMarcos(paginas);
        assert Tablas() == SinTabla(ts, nombre);
      }
    }

    /** One request, as a step of the model. */
    method Atender(e: Evento)
      requires Valid() && EventoBien(e)
      modifies this, pMemoriaPrincipal, bitarrayMarcos
      ensures Valid() && Paso(old(Modelo()), cantidadMarcos, tamanioValue, e, Modelo())
    {
      hide Insertado, BienFormadas, Biyeccion, TodasEnMemoria, Desmarcada, SinTabla, AEnviar, TablasDe;
      match e
      case Insertar(nombre, clave, valor, ts, ahora) =>
        var _ := Insertar(nombre, clave, valor, ts, ahora);
      case Traer(nombre, clave, valor, ts, ahora) =>
        Traer(nombre, clave, valor, ts, ahora);
      case Journal =>
        Journal();
      case Drop(nombre) =>
        Drop(nombre);
    }

    method LiberarMarcos(paginas: seq<Pagina>)
      requires EnMemoria(paginas, bitarrayMarcos.Length)
      modifies bitarrayMarcos
      ensures bitarrayMarcos[..] == Liberados(old(bitarrayMarcos[..]), paginas)
    {
      var k := 0;
      while k < |paginas|
        invariant 0 <= k <= |paginas|
        invariant bitarrayMarcos[..] == Liberados(old(bitarrayMarcos[..]), paginas[..k])
      {
        assert paginas[..k + 1][..k] == paginas[..k];
        bitarrayMarcos[paginas[k].nro] := false;
        k := k + 1;
      }
      assert paginas[..k] == paginas;
    }
  }

  /** How a key that is not in memory gets in, from the tables with its own already there. */
  ghost predicate InsertadaNueva(m: ModeloDePaginas.Modelo, n: nat, i: nat, nombre: string, nueva: Celda,
      r: ModeloDePaginas.Modelo)
    requires i < |m.tablas|
  {
    if Cuantas(m.tablas) < n then r == m.(tablas := ConCelda(m.tablas, i, nueva))
    else if HayVictima(m.tablas) then
      exists a: nat, b: nat :: EsVictima(m.tablas, a, b) && r
          == m.(tablas := ConCelda(SinCelda(m.tablas, a, b), i, nueva))
    else r == ModeloDePaginas.Modelo([Tabla(nombre, [nueva])], m.enviados + AEnviar(m.tablas))
  }

  /** The scan has seen everything before (i, j): what it keeps is the victim among that. */
  ghost predicate EsVictimaHasta(ts: seq<Tabla>, i: nat, j: nat, r: Option<(nat, nat)>, uso: real)
  {
    && (r.None? ==> uso == TOPE)
    && (r.Some? ==> Reemplazable(ts, r.value.0, r.value.1) && Antes(r.value.0, r.value.1, i, j))
    && (r.Some? ==> uso == ts[r.value.0].celdas[r.value.1].uso)
    && forall c: nat, d: nat :: Reemplazable(ts, c, d) && Antes(c, d, i, j) ==>
         r.Some? && uso <= ts[c].celdas[d].uso && (Antes(c, d, r.value.0, r.value.1) ==> uso < ts[c].celdas[d].uso)
  }

  lemma HastaElFinal(ts: seq<Tabla>, r: Option<(nat, nat)>, uso: real)
    requires EsVictimaHasta(ts, |ts|, 0, r, uso)
    ensures r.Some? ==> EsVictima(ts, r.value.0, r.value.1)
    ensures r.None? ==> !HayVictima(ts)
  {
  }

  lemma {:induction false} UnaCeldaMas(nombre: string, cs: seq<Celda>, j: nat)
    requires j < |cs|
    ensures AEnviarDe(nombre, cs[..j + 1]) == AEnviarDe(nombre, cs[..j]) +
            (if cs[j].modificada then [Envio(nombre, cs[j].clave, cs[j].valor, cs[j].imagen)] else [])
  {
    if j > 0 {
      UnaCeldaMas(nombre, cs[1..], j - 1);
      assert cs[..j + 1][1..] == cs[1..][..j] && cs[..j][1..] == cs[1..][..j - 1];
    } else {
      assert cs[..1] == [cs[0]] && cs[..0] == [] && [cs[0]][1..] == [];
    }
  }

  lemma SegmentoVacio(ss: seq<Segmento>, marcos: seq<seq<byte>>, nombre: string)
    requires MarcosAnchos(marcos) && TodasEnMemoria(ss, |marcos|)
    ensures OcupadosPor(ss + [Segmento(nombre, [])]) == OcupadosPor(ss)
    ensures TablasDe(ss + [Segmento(nombre, [])], marcos) == TablasDe(ss, marcos) + [Tabla(nombre, [])]
  {
    NadaOcupa(ss, Segmento(nombre, []));
    assert CeldasDe([], marcos) == [];
  }

  lemma {:induction false} NadaOcupa(ss: seq<Segmento>, s: Segmento)
    requires s.paginas == []
    ensures OcupadosPor(ss + [s]) == OcupadosPor(ss)
  {
    var r := ss + [s];
    if ss == [] {
      assert r == [s] && r[1..] == [];
    } else {
      NadaOcupa(ss[1..], s);
      assert r[1..] == ss[1..] + [s];
    }
  }

  function Mayusculas(s: string): string
  {
    seq(|s|, i requires 0 <= i < |s| => if 'a' <= s[i] <= 'z' then s[i] - 'a' + 'A' else s[i])
  }

  /** Upper case: equal but for capitals, without small letters, and what was so already is left as it was. */
  lemma LasMayusculas(s: string)
    ensures IgualesSinCaja(s, Mayusculas(s))
    ensures forall i :: 0 <= i < |Mayusculas(s)| ==> !('a' <= Mayusculas(s)[i] <= 'z')
    ensures Mayusculas(s) == s <==> forall i :: 0 <= i < |s| ==> !('a' <= s[i] <= 'z')
    ensures forall i :: 0 <= i < |s| && !('a' <= s[i] <= 'z') ==> Mayusculas(s)[i] == s[i]
  {
    var r := Mayusculas(s);
    forall i | 0 <= i < |s|
      ensures MismaLetra(s[i], r[i])
    {
    }
    IgualesSii(s, r);
  }

  /**
   A select of the same name and key finds what was just inserted when the name is already in upper case.
   Otherwise it looks elsewhere, and finds there what it would have found before or nothing.
   */
  lemma SeleccionarTrasInsertar(m: ModeloDePaginas.Modelo, n: nat, nombre: string, clave: nat, valor: seq<byte>,
                                ts: Instante, ahora: Instante, r: ModeloDePaginas.Modelo)
    requires ModeloDePaginas.Memoria(m, n) && n > 0 && Insertado(m, n, nombre, clave, valor, ts, ahora, r)
    ensures Mayusculas(nombre) == nombre ==>
              BuscarCelda(r.tablas, Mayusculas(nombre), clave).Some?
              && BuscarCelda(r.tablas, Mayusculas(nombre), clave).value.valor == valor
    ensures Mayusculas(nombre) != nombre ==> SigueOSeFue(m, r, Mayusculas(nombre), clave)
  {
    InsertarBien(m, n, nombre, clave, valor, ts, ahora, r);
  }

  function BuscarSegmentoSinCaja(ss: seq<Segmento>, nombre: string): (r: Option<nat>)
  {
    Buscar(ss, (s: Segmento) => IgualesSinCaja(s.nombre, nombre))
  }

  lemma {:induction false} MismoIndiceSinCaja(ss: seq<Segmento>, marcos: seq<seq<byte>>, nombre: string)
    requires MarcosAnchos(marcos) && TodasEnMemoria(ss, |marcos|)
    ensures IndiceSinCaja(TablasDe(ss, marcos), nombre) == BuscarSegmentoSinCaja(ss, nombre)
  {
    if ss != [] {
      assert forall i :: 0 <= i < |ss[1..]| ==> ss[1..][i] == ss[i + 1];
      MismoIndiceSinCaja(ss[1..], marcos, nombre);
      assert TablasDe(ss, marcos)[1..] == TablasDe(ss[1..], marcos);
    }
  }

  /** The bitmap with the frames of some pages cleared. */
  ghost function Liberados(bits: seq<bool>, ps: seq<Pagina>): (r: seq<bool>)
    requires EnMemoria(ps, |bits|)
    ensures |r| == |bits|
  {
    if ps == [] then bits else Liberados(bits, ps[..|ps| - 1])[ps[|ps| - 1].nro := false]
  }

  lemma {:induction false} QuedanLosDemas(bits: seq<bool>, ps: seq<Pagina>, f: nat)
    requires EnMemoria(ps, |bits|) && f < |bits|
    ensures Liberados(bits, ps)[f] == (bits[f] && f !in Ocupados(ps))
  {
    if ps != [] {
      var u := |ps| - 1;
      QuedanLosDemas(bits, ps[..u], f);
      assert ps == ps[..u] + [ps[u]];
      OcupadosAlAgregar(ps[..u], ps[u]);
    }
  }

  lemma {:induction false} QuitarSegmento(ss: seq<Segmento>, i: nat)
    requires i < |ss|
    ensures OcupadosPor(Quitar(ss, i)) + Ocupados(ss[i].paginas) == OcupadosPor(ss)
  {
    hide Ocupados, OcupadosPor;
    ElPrimeroYLosDemas(ss[0], ss[1..], ss);
    if i > 0 {
      var r := Quitar(ss, i);
      assert r[0] == ss[0] && r[1..] == Quitar(ss[1..], i - 1);
      ElPrimeroYLosDemas(ss[0], r[1..], r);
      QuitarSegmento(ss[1..], i - 1);
      SumarAntes(Ocupados(ss[0].paginas), OcupadosPor(r[1..]), Ocupados(ss[i].paginas), OcupadosPor(ss[1..]),
          multiset{});
      assert OcupadosPor(ss) + multiset{} == OcupadosPor(ss)
          && OcupadosPor(ss[1..]) + multiset{} == OcupadosPor(ss[1..]);
    } else {
      assert Quitar(ss, 0) == ss[1..];
    }
  }

  /** Without the segment, and with the bits of its pages cleared, pages and bits are still in bijection. */
  lemma SegmentoMenos(ss: seq<Segmento>, bits: seq<bool>, marcos: seq<seq<byte>>, i: nat)
    requires MarcosAnchos(marcos) && |bits| == |marcos| && Biyeccion(ss, bits) && i < |ss|
    requires TodasEnMemoria(ss, |marcos|)
    ensures var r := Quitar(ss, i);
            && Biyeccion(r, Liberados(bits, ss[i].paginas)) && TodasEnMemoria(r, |marcos|)
            && TablasDe(r, marcos) == Quitar(TablasDe(ss, marcos), i)
  {
    hide OcupadosPor, Ocupados, Liberados;
    var r := Quitar(ss, i);
    BitsDelSegmento(ss, bits, i);
    assert forall k :: 0 <= k < |r| ==> r[k] == ss[if k < i then k else k + 1];
    assert TablasDe(r, marcos) == Quitar(TablasDe(ss, marcos), i);
  }

  lemma BitsDelSegmento(ss: seq<Segmento>, bits: seq<bool>, i: nat)
    requires Biyeccion(ss, bits) && i < |ss| && EnMemoria(ss[i].paginas, |bits|)
    ensures Biyeccion(Quitar(ss, i), Liberados(bits, ss[i].paginas))
  {
    hide OcupadosPor, Ocupados, Liberados;
    var r, libres := Quitar(ss, i), Liberados(bits, ss[i].paginas);
    QuitarSegmento(ss, i);
    forall f: nat
      ensures OcupadosPor(r)[f] == if f < |libres| && libres[f] then 1 else 0
    {
      assert (OcupadosPor(r) + Ocupados(ss[i].paginas))[f] == OcupadosPor(ss)[f];
      if f < |bits| {
        QuedanLosDemas(bits, ss[i].paginas, f);
      }
    }
  }

  /** Keys of 16 bits, values that are C strings, and doubles of eight bytes. */
  ghost predicate EventoBien(e: Evento)
  {
    e.Insertar? || e.Traer? ==>
      e.clave < 0x1_0000 && SinCeros(e.valor) && |e.ts.imagen| == |e.ahora.imagen| == TAM_TIEMPO
  }

  /**
   A whole run of requests on a new memory is a run of the model, so what holds of those holds of the
   frames and the bitmap: `ms` is what the memory held after each request.
   */
  method Correr(tamanioMemoria: nat, tamanioValue: nat, es: seq<Evento>)
      returns (m: Memoria, ghost ms: seq<ModeloDePaginas.Modelo>)
    requires tamanioMemoria >= CABECERA + tamanioValue
    requires forall i :: 0 <= i < |es| ==> EventoBien(es[i])
    ensures fresh(m) && m.Valid() && m.cantidadMarcos == tamanioMemoria / (CABECERA + tamanioValue)
    ensures Corrida(ms, es, m.cantidadMarcos, tamanioValue)
    ensures ms[0] == ModeloDePaginas.Modelo([], []) && ms[|es|] == m.Modelo()
  {
    hide EventoBien, Paso;
    m := new Memoria(tamanioMemoria, tamanioValue);
    ms := [m.Modelo()];
    assert es[..0] == [] && Corrida(ms, [], m.cantidadMarcos, tamanioValue);
    var i := 0;
    while i < |es|
      invariant 0 <= i <= |es| && fresh(m) && fresh(m.pMemoriaPrincipal) && fresh(m.bitarrayMarcos)
      invariant m.Valid() && m.tamanioValue == tamanioValue && m.cantidadMarcos
                  == tamanioMemoria / (CABECERA + tamanioValue)
      invariant |ms| == i + 1 && Corrida(ms, es[..i], m.cantidadMarcos, tamanioValue)
      invariant ms[0] == ModeloDePaginas.Modelo([], []) && ms[i] == m.Modelo()
    {
      m.Atender(es[i]);
      UnPasoMas(ms, es[..i], m.cantidadMarcos, tamanioValue, es[i], m.Modelo());
      ms := ms + [m.Modelo()];
      assert es[..i] + [es[i]] == es[..i + 1];
      i := i + 1;
    }
    assert es[..i] == es;
  }

  lemma UnPasoMas(ms: seq<ModeloDePaginas.Modelo>, es: seq<Evento>, n: nat, tam: nat, e: Evento,
      r: ModeloDePaginas.Modelo)
    requires Corrida(ms, es, n, tam) && Paso(ms[|es|], n, tam, e, r)
    ensures Corrida(ms + [r], es + [e], n, tam)
  {
    assert (ms + [r])[..|es| + 1] == ms && (es + [e])[..|es|] == es;
  }
}
