/**
 Which pages an insert takes out of a full memory, by the pages alone: when there is one to give up, which
 one it is, and what is sent when there is none.
 */
module ReemplazoDePaginas {
  import opened Bytes
  import opened Secuencias
  import opened ModeloDePaginas

  /** Not modified, and used before the time that no reading of the clock comes to. */
  predicate SePuedeCeder(c: Celda)
  {
    !c.modificada && c.uso < 99999999999999.0
  }

  ghost predicate CedibleEn(ts: seq<Tabla>, a: nat, b: nat)
  {
    a < |ts| && b < |ts[a].celdas| && SePuedeCeder(ts[a].celdas[b])
  }

  /** Of those that may be given up, the one used longest ago and, of several of those, the first of the tables. */
  ghost predicate EsLaMasVieja(ts: seq<Tabla>, a: nat, b: nat)
  {
    && CedibleEn(ts, a, b)
    && (forall c: nat, d: nat :: CedibleEn(ts, c, d) ==>
          && ts[a].celdas[b].uso <= ts[c].celdas[d].uso
          && (c < a || (c == a && d < b) ==> ts[a].celdas[b].uso < ts[c].celdas[d].uso))
  }

  /** The scan has seen everything before (i, j), and keeps the oldest of that. */
  ghost predicate LaMasViejaHasta(ts: seq<Tabla>, i: nat, j: nat, r: Option<(nat, nat)>)
  {
    && (r.Some? ==> CedibleEn(ts, r.value.0, r.value.1) && Antes(r.value.0, r.value.1, i, j))
    && (forall c: nat, d: nat :: CedibleEn(ts, c, d) && Antes(c, d, i, j) ==>
          && r.Some? && ts[r.value.0].celdas[r.value.1].uso <= ts[c].celdas[d].uso
          && (Antes(c, d, r.value.0, r.value.1) ==> ts[r.value.0].celdas[r.value.1].uso < ts[c].celdas[d].uso))
  }

  /** Where there is a page that may be given up there is an oldest. */
  lemma LaMasVieja(ts: seq<Tabla>) returns (r: Option<(nat, nat)>)
    ensures r.Some? ==> EsLaMasVieja(ts, r.value.0, r.value.1)
    ensures r.None? ==> forall a: nat, b: nat :: !CedibleEn(ts, a, b)
  {
    r := None;
    var i := 0;
    while i < |ts|
      invariant 0 <= i <= |ts| && LaMasViejaHasta(ts, i, 0, r)
    {
      var j := 0;
      while j < |ts[i].celdas|
        invariant 0 <= j <= |ts[i].celdas| && LaMasViejaHasta(ts, i, j, r)
      {
        if SePuedeCeder(ts[i].celdas[j]) {
          if r.None? || ts[i].celdas[j].uso < ts[r.value.0].celdas[r.value.1].uso {
            r := Some((i, j));
          }
        }
        j := j + 1;
      }
      i := i + 1;
    }
  }

  /** The LRU finds a page exactly when there is one not modified and used before that time: the oldest of them. */
  lemma HayVictimaSii(ts: seq<Tabla>)
    ensures HayVictima(ts) <==> exists a: nat, b: nat :: CedibleEn(ts, a, b)
    ensures forall a: nat, b: nat :: EsVictima(ts, a, b) <==> EsLaMasVieja(ts, a, b)
  {
    forall a: nat, b: nat
      ensures Reemplazable(ts, a, b) <==> CedibleEn(ts, a, b)
    {
    }
    var r := LaMasVieja(ts);
    if r.Some? {
      assert EsVictima(ts, r.value.0, r.value.1);
    }
  }

  /** Under every key but this one the memory finds what it found. */
  ghost predicate SoloCambia(antes: seq<Tabla>, despues: seq<Tabla>, nombre: string, clave: nat)
  {
    forall otro: string, otra: nat ::
      (otro, otra) != (nombre, clave) ==> BuscarCelda(despues, otro, otra) == BuscarCelda(antes, otro, otra)
  }

  /** Under every key but these two the memory finds what it found, and under the second nothing. */
  ghost predicate SeFueUna(antes: seq<Tabla>, despues: seq<Tabla>, nombre: string, clave: nat, t: string, k: nat)
  {
    && (t, k) != (nombre, clave) && BuscarCelda(despues, t, k).None?
    && (forall otro: string, otra: nat ::
          (otro, otra) != (nombre, clave) && (otro, otra) != (t, k) ==>
            BuscarCelda(despues, otro, otra) == BuscarCelda(antes, otro, otra))
  }

  ghost predicate SoloEsta(despues: seq<Tabla>, nombre: string, clave: nat)
  {
    forall otro: string, otra: nat :: (otro, otra) != (nombre, clave) ==> BuscarCelda(despues, otro, otra).None?
  }

  /** The oldest page has gone. */
  ghost predicate SeFueLaMasVieja(antes: seq<Tabla>, despues: seq<Tabla>, nombre: string, clave: nat)
  {
    exists a: nat, b: nat ::
      EsLaMasVieja(antes, a, b)
      && SeFueUna(antes, despues, nombre, clave, antes[a].nombre, antes[a].celdas[b].clave)
  }

  /** What is found under the key: the value, and the time it came with or, if it was there, that of the clock. */
  function LaInsertada(antes: Option<Celda>, clave: nat, valor: seq<byte>, ts: Instante, ahora: Instante): Celda
  {
    match antes
    case Some(c) => Celda(clave, valor, ahora.imagen, c.modificada, ahora.valor)
    case None => Celda(clave, valor, ts.imagen, true, ahora.valor)
  }

  /**
   An insert, by what is found before and after it.  With room, or over a key that is there, nothing else
   changes; a full memory gives up the oldest page that may be given up, without sending anything; and
   when there is none it sends what was modified and keeps the new page alone.
   */
  ghost predicate InsertoSegunElLugar(m: Modelo, n: nat, nombre: string, clave: nat, valor: seq<byte>, ts: Instante,
      ahora: Instante, r: Modelo)
  {
    var antes := BuscarCelda(m.tablas, nombre, clave);
    && BuscarCelda(r.tablas, nombre, clave) == Some(LaInsertada(antes, clave, valor, ts, ahora))
    && if antes.Some? || Cuantas(m.tablas) < n then
         r.enviados == m.enviados && SoloCambia(m.tablas, r.tablas, nombre, clave)
       else if exists a: nat, b: nat :: CedibleEn(m.tablas, a, b) then
         r.enviados == m.enviados && SeFueLaMasVieja(m.tablas, r.tablas, nombre, clave)
       else
         r.enviados == m.enviados + AEnviar(m.tablas) && SoloEsta(r.tablas, nombre, clave)
  }

  /** The empty table that an insert may add changes no page's place. */
  lemma ConTablaNoMueve(ts: seq<Tabla>, nombre: string)
    ensures forall a: nat, b: nat :: CedibleEn(ConTabla(ts, nombre), a, b) <==> CedibleEn(ts, a, b)
    ensures forall a: nat :: a < |ts| ==> ConTabla(ts, nombre)[a] == ts[a]
  {
    var r := ConTabla(ts, nombre);
    assert forall a :: 0 <= a < |ts| ==> r[a] == ts[a];
    assert |r| > |ts| ==> r[|ts|].celdas == [];
  }

  lemma ClaveQueEsta(ts: seq<Tabla>, nombre: string, clave: nat)
    requires IndiceTabla(ts, nombre).Some?
    ensures var i := IndiceTabla(ts, nombre).value;
            var j := IndiceClave(ts[i].celdas, clave);
            && (BuscarCelda(ts, nombre, clave).Some? <==> j.Some?) && ts[i].nombre == nombre
            && (j.Some? ==> BuscarCelda(ts, nombre, clave) == Some(ts[i].celdas[j.value])
                            && ts[i].celdas[j.value].clave == clave)
  {
  }

  lemma AlActualizar(m: Modelo, nombre: string, clave: nat, valor: seq<byte>, ts: Instante, ahora: Instante, r: Modelo)
    requires BienFormadas(m.tablas) && BuscarCelda(m.tablas, nombre, clave).Some?
    requires var base := ConTabla(m.tablas, nombre);
             var i := IndiceTabla(base, nombre).value;
             var j := IndiceClave(base[i].celdas, clave);
             j.Some? && r == m.(tablas := Poner(base, i, base[i].celdas[j.value :=
                                base[i].celdas[j.value].(valor := valor, imagen := ahora.imagen, uso := ahora.valor)]))
    ensures BuscarCelda(r.tablas, nombre, clave) ==
            Some(LaInsertada(BuscarCelda(m.tablas, nombre, clave), clave, valor, ts, ahora))
    ensures r.enviados == m.enviados && SoloCambia(m.tablas, r.tablas, nombre, clave)
  {
    var base := ConTabla(m.tablas, nombre);
    var i := IndiceTabla(base, nombre).value;
    var j := IndiceClave(base[i].celdas, clave).value;
    var c := base[i].celdas[j].(valor := valor, imagen := ahora.imagen, uso := ahora.valor);
    BuscarConTabla(m.tablas, nombre, nombre, clave);
    ClaveQueEsta(base, nombre, clave);
    TablaEnSuLugar(base, i);
    forall otro: string, otra: nat
      ensures BuscarCelda(r.tablas, otro, otra) ==
              if (otro, otra) == (nombre, clave) then Some(c) else BuscarCelda(m.tablas, otro, otra)
    {
      BuscarConTabla(m.tablas, nombre, otro, otra);
      ClavesAlCambiar(base[i].celdas, j, c, otra);
      BuscarTrasPoner(base, i, base[i].celdas[j := c], otro, otra);
    }
  }

  lemma AlAgregar(base: seq<Tabla>, i: nat, nueva: Celda)
    requires BienFormadas(base) && i < |base| && IndiceClave(base[i].celdas, nueva.clave).None?
    ensures BuscarCelda(ConCelda(base, i, nueva), base[i].nombre, nueva.clave) == Some(nueva)
    ensures SoloCambia(base, ConCelda(base, i, nueva), base[i].nombre, nueva.clave)
  {
    forall otro: string, otra: nat
      ensures BuscarCelda(ConCelda(base, i, nueva), otro, otra) ==
              if (otro, otra) == (base[i].nombre, nueva.clave) then Some(nueva) else BuscarCelda(base, otro, otra)
    {
      BuscarAgregada(base, i, nueva, otro, otra);
    }
  }

  lemma AlReemplazar(base: seq<Tabla>, a: nat, b: nat, i: nat, nueva: Celda)
    requires BienFormadas(base) && a < |base| && b < |base[a].celdas| && i < |base|
    requires IndiceClave(base[i].celdas, nueva.clave).None?
    ensures var r := ConCelda(SinCelda(base, a, b), i, nueva);
            && BuscarCelda(r, base[i].nombre, nueva.clave) == Some(nueva)
            && SeFueUna(base, r, base[i].nombre, nueva.clave, base[a].nombre, base[a].celdas[b].clave)
  {
    var sin := SinCelda(base, a, b);
    TablaEnSuLugar(base, a);
    TablaEnSuLugar(base, i);
    ClaveEnSuLugar(base[a].celdas, b);
    ClavesAlQuitar(base[a].celdas, b, nueva.clave);
    BuscarQuitada(base, a, b, base[i].nombre, nueva.clave);
    BuscarAgregada(sin, i, nueva, base[i].nombre, nueva.clave);
    forall otro: string, otra: nat | (otro, otra) != (base[i].nombre, nueva.clave)
      ensures BuscarCelda(ConCelda(sin, i, nueva), otro, otra) ==
              if (otro, otra) == (base[a].nombre, base[a].celdas[b].clave) then None else BuscarCelda(base, otro, otra)
    {
      BuscarReemplazada(base, a, b, i, nueva, otro, otra);
    }
  }

  lemma AlCeder(m: Modelo, nombre: string, nueva: Celda, r: Modelo)
    requires BienFormadas(m.tablas)
    requires var base := ConTabla(m.tablas, nombre);
             var i := IndiceTabla(base, nombre).value;
             && IndiceClave(base[i].celdas, nueva.clave).None?
             && exists a: nat, b: nat :: EsVictima(base, a, b)
                 && r == m.(tablas := ConCelda(SinCelda(base, a, b), i, nueva))
    ensures r.enviados == m.enviados && BuscarCelda(r.tablas, nombre, nueva.clave) == Some(nueva)
    ensures SeFueLaMasVieja(m.tablas, r.tablas, nombre, nueva.clave)
  {
    var base := ConTabla(m.tablas, nombre);
    var i := IndiceTabla(base, nombre).value;
    var a: nat, b: nat :| EsVictima(base, a, b) && r == m.(tablas := ConCelda(SinCelda(base, a, b), i, nueva));
    HayVictimaSii(base);
    TrasCeder(m.tablas, nombre, nueva, a, b, r.tablas);
  }

  lemma TrasCeder(ts: seq<Tabla>, nombre: string, nueva: Celda, a: nat, b: nat, r: seq<Tabla>)
    requires BienFormadas(ts) && EsLaMasVieja(ConTabla(ts, nombre), a, b)
    requires var base := ConTabla(ts, nombre);
             var i := IndiceTabla(base, nombre).value;
             IndiceClave(base[i].celdas, nueva.clave).None? && r == ConCelda(SinCelda(base, a, b), i, nueva)
    ensures BuscarCelda(r, nombre, nueva.clave) == Some(nueva) && SeFueLaMasVieja(ts, r, nombre, nueva.clave)
  {
    var base := ConTabla(ts, nombre);
    EstaEnLaBase(ts, nombre, a, b);
    hide EsLaMasVieja, SeFueUna, SeFueLaMasVieja;
    MismasCeldas(ts, nombre);
    AlReemplazar(base, a, b, IndiceTabla(base, nombre).value, nueva);
    FueLaMasVieja(ts, nombre, r, nueva.clave, a, b);
  }

  /** Every insert leaves the memory so. */
  lemma InsertarSegunElLugar(m: Modelo, n: nat, nombre: string, clave: nat, valor: seq<byte>, ts: Instante,
      ahora: Instante, r: Modelo)
    requires BienFormadas(m.tablas) && Insertado(m, n, nombre, clave, valor, ts, ahora, r)
    ensures InsertoSegunElLugar(m, n, nombre, clave, valor, ts, ahora, r)
  {
    hide BienFormadas, EsVictima, EsLaMasVieja, CedibleEn, SoloCambia, SeFueUna, HayVictima, AEnviar;
    var base := ConTabla(m.tablas, nombre);
    var i := IndiceTabla(base, nombre).value;
    var j := IndiceClave(base[i].celdas, clave);
    var nueva := Celda(clave, valor, ts.imagen, true, ahora.valor);
    BuscarConTabla(m.tablas, nombre, nombre, clave);
    ClaveQueEsta(base, nombre, clave);
    MismasCeldas(m.tablas, nombre);
    if j.Some? {
      AlActualizar(m, nombre, clave, valor, ts, ahora, r);
    } else if Cuantas(m.tablas) < n {
      AlAgregar(base, i, nueva);
      DesdeLaBase(m.tablas, nombre, r.tablas, clave);
    } else {
      HayVictimaSii(base);
      ConTablaNoMueve(m.tablas, nombre);
      if HayVictima(base) {
        AlCeder(m, nombre, nueva, r);
      } else {
        QuedaSola(nombre, nueva);
      }
    }
  }

  lemma EstaEnLaBase(ts: seq<Tabla>, nombre: string, a: nat, b: nat)
    requires EsLaMasVieja(ConTabla(ts, nombre), a, b)
    ensures EsLaMasVieja(ts, a, b) && a < |ts| && b < |ts[a].celdas| && ConTabla(ts, nombre)[a] == ts[a]
  {
    ConTablaNoMueve(ts, nombre);
  }

  lemma MismasCeldas(ts: seq<Tabla>, nombre: string)
    requires BienFormadas(ts)
    ensures AEnviar(ConTabla(ts, nombre)) == AEnviar(ts)
    ensures forall otro, clave :: BuscarCelda(ConTabla(ts, nombre), otro, clave) == BuscarCelda(ts, otro, clave)
  {
    forall otro, clave
      ensures BuscarCelda(ConTabla(ts, nombre), otro, clave) == BuscarCelda(ts, otro, clave)
      ensures AEnviar(ConTabla(ts, nombre)) == AEnviar(ts)
    {
      BuscarConTabla(ts, nombre, otro, clave);
    }
    BuscarConTabla(ts, nombre, nombre, 0);
  }

  lemma DesdeLaBase(ts: seq<Tabla>, nombre: string, r: seq<Tabla>, clave: nat)
    requires BienFormadas(ts) && SoloCambia(ConTabla(ts, nombre), r, nombre, clave)
    ensures SoloCambia(ts, r, nombre, clave)
  {
    MismasCeldas(ts, nombre);
  }

  lemma FueLaMasVieja(ts: seq<Tabla>, nombre: string, r: seq<Tabla>, clave: nat, a: nat, b: nat)
    requires BienFormadas(ts) && EsLaMasVieja(ts, a, b)
    requires SeFueUna(ts, r, nombre, clave, ts[a].nombre, ts[a].celdas[b].clave)
          || SeFueUna(ConTabla(ts, nombre), r, nombre, clave, ts[a].nombre, ts[a].celdas[b].clave)
    ensures SeFueLaMasVieja(ts, r, nombre, clave)
  {
    MismasCeldas(ts, nombre);
    assert SeFueUna(ts, r, nombre, clave, ts[a].nombre, ts[a].celdas[b].clave);
  }

  lemma QuedaSola(nombre: string, nueva: Celda)
    ensures BuscarCelda([Tabla(nombre, [nueva])], nombre, nueva.clave) == Some(nueva)
    ensures SoloEsta([Tabla(nombre, [nueva])], nombre, nueva.clave)
  {
    var ts := [Tabla(nombre, [nueva])];
    assert ts[0].nombre == nombre && ts[0].celdas[0] == nueva;
    TablaEnSuLugar(ts, 0);
    ClaveEnSuLugar(ts[0].celdas, 0);
  }
}
