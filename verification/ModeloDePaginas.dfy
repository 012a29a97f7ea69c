/**
 What the paged memory of a Lissandra memory process holds, without frames: tables of cells, of
 which at most so many fit, and what has been sent to the file system.
 */
module ModeloDePaginas {
  import opened Bytes
  import opened Secuencias

  /** A page last used at this time or later is never chosen by the LRU. */
  const TOPE: real := 99999999999999.0

  /** A reading of the clock: the number, and the bytes of the double that holds it. */
  datatype Instante = Instante(valor: real, imagen: seq<byte>)

  datatype Celda = Celda(clave: nat, valor: seq<byte>, imagen: seq<byte>, modificada: bool, uso: real)

  datatype Tabla = Tabla(nombre: string, celdas: seq<Celda>)

  /** An insert sent to the file system by a journal. */
  datatype Envio = Envio(tabla: string, clave: nat, valor: seq<byte>, imagen: seq<byte>)

  datatype Modelo = Modelo(tablas: seq<Tabla>, enviados: seq<Envio>)

  function IndiceTabla(ts: seq<Tabla>, nombre: string): (r: Option<nat>)
  {
    Buscar(ts, (t: Tabla) => t.nombre == nombre)
  }

  function IndiceClave(cs: seq<Celda>, clave: nat): (r: Option<nat>)
  {
    Buscar(cs, (c: Celda) => c.clave == clave)
  }

  /** What a SELECT finds. */
  function BuscarCelda(ts: seq<Tabla>, nombre: string, clave: nat): (r: Option<Celda>)
  {
    var i := IndiceTabla(ts, nombre);
    if i.None? then None
    else
      var j := IndiceClave(ts[i.value].celdas, clave);
      if j.None? then None else Some(ts[i.value].celdas[j.value])
  }

  function Cuantas(ts: seq<Tabla>): nat
  {
    if ts == [] then 0 else |ts[0].celdas| + Cuantas(ts[1..])
  }

  ghost predicate NombresDistintos(ts: seq<Tabla>)
  {
    forall i, j :: 0 <= i < j < |ts| ==> ts[i].nombre != ts[j].nombre
  }

  ghost predicate ClavesDistintas(cs: seq<Celda>)
  {
    forall i, j :: 0 <= i < j < |cs| ==> cs[i].clave != cs[j].clave
  }

  ghost predicate BienFormadas(ts: seq<Tabla>)
  {
    NombresDistintos(ts) && forall i :: 0 <= i < |ts| ==> ClavesDistintas(ts[i].celdas)
  }

  /** The inserts a journal sends: the modified cells, table by table. */
  function AEnviarDe(nombre: string, cs: seq<Celda>): seq<Envio>
  {
    if cs == [] then []
    else
      (if cs[0].modificada then [Envio(nombre, cs[0].clave, cs[0].valor, cs[0].imagen)] else [])
          + AEnviarDe(nombre, cs[1..])
  }

  function AEnviar(ts: seq<Tabla>): seq<Envio>
  {
    if ts == [] then [] else AEnviarDe(ts[0].nombre, ts[0].celdas) + AEnviar(ts[1..])
  }

  /** The cell at (a, b) comes before the one at (c, d) in the order of the scan. */
  ghost predicate Antes(a: nat, b: nat, c: nat, d: nat)
  {
    a < c || (a == c && b < d)
  }

  ghost predicate Reemplazable(ts: seq<Tabla>, a: nat, b: nat)
  {
    a < |ts| && b < |ts[a].celdas| && !ts[a].celdas[b].modificada && ts[a].celdas[b].uso < TOPE
  }

  /** The cell the LRU takes: the unmodified one used longest ago, and the first of those. */
  ghost predicate EsVictima(ts: seq<Tabla>, a: nat, b: nat)
  {
    && Reemplazable(ts, a, b)
    && forall c: nat, d: nat :: Reemplazable(ts, c, d) ==>
         ts[a].celdas[b].uso <= ts[c].celdas[d].uso && (Antes(c, d, a, b) ==> ts[a].celdas[b].uso < ts[c].celdas[d].uso)
  }

  function Poner(ts: seq<Tabla>, i: nat, cs: seq<Celda>): seq<Tabla>
    requires i < |ts|
  {
    ts[i := ts[i].(celdas := cs)]
  }

  function SinCelda(ts: seq<Tabla>, a: nat, b: nat): seq<Tabla>
    requires a < |ts| && b < |ts[a].celdas|
  {
    Poner(ts, a, Quitar(ts[a].celdas, b))
  }

  function ConCelda(ts: seq<Tabla>, i: nat, c: Celda): seq<Tabla>
    requires i < |ts|
  {
    Poner(ts, i, ts[i].celdas + [c])
  }

  /** The segment of a table is created the first time it is needed. */
  function ConTabla(ts: seq<Tabla>, nombre: string): (r: seq<Tabla>)
    ensures IndiceTabla(r, nombre).Some?
  {
    if IndiceTabla(ts, nombre).Some? then ts
    else
      var r := ts + [Tabla(nombre, [])];
      assert r[|ts|].nombre == nombre;
      r
  }

  /** How an insert leaves the memory, given how many cells fit in it. */
  ghost predicate Insertado(m: Modelo, n: nat, nombre: string, clave: nat, valor: seq<byte>, ts: Instante,
      ahora: Instante, r: Modelo)
  {
    var base := ConTabla(m.tablas, nombre);
    var i := IndiceTabla(base, nombre).value;
    var j := IndiceClave(base[i].celdas, clave);
    var nueva := Celda(clave, valor, ts.imagen, true, ahora.valor);
    if j.Some? then
      r == m.(tablas := Poner(base, i, base[i].celdas[j.value :=
                          base[i].celdas[j.value].(valor := valor, imagen := ahora.imagen, uso := ahora.valor)]))
    else if Cuantas(m.tablas) < n then r == m.(tablas := ConCelda(base, i, nueva))
    else if HayVictima(base) then
      exists a: nat, b: nat :: EsVictima(base, a, b) && r == m.(tablas := ConCelda(SinCelda(base, a, b), i, nueva))
    else r == Modelo([Tabla(nombre, [nueva])], m.enviados + AEnviar(base))
  }

  ghost predicate HayVictima(ts: seq<Tabla>)
  {
    exists a: nat, b: nat :: EsVictima(ts, a, b)
  }

  lemma TablaEnSuLugar(ts: seq<Tabla>, i: nat)
    requires NombresDistintos(ts) && i < |ts|
    ensures IndiceTabla(ts, ts[i].nombre) == Some(i)
  {
  }

  lemma ClaveEnSuLugar(cs: seq<Celda>, j: nat)
    requires ClavesDistintas(cs) && j < |cs|
    ensures IndiceClave(cs, cs[j].clave) == Some(j)
  {
  }

  /** Changing the cells of one table changes what is found there and nowhere else. */
  lemma BuscarTrasPoner(ts: seq<Tabla>, i: nat, cs: seq<Celda>, nombre: string, clave: nat)
    requires BienFormadas(ts) && i < |ts| && ClavesDistintas(cs)
    ensures BienFormadas(Poner(ts, i, cs))
    ensures BuscarCelda(Poner(ts, i, cs), nombre, clave) ==
            if nombre != ts[i].nombre then BuscarCelda(ts, nombre, clave)
            else if IndiceClave(cs, clave).Some? then Some(cs[IndiceClave(cs, clave).value]) else None
  {
    var r := Poner(ts, i, cs);
    assert forall k :: 0 <= k < |ts| ==> r[k].nombre == ts[k].nombre;
    assert NombresDistintos(r);
    TablaEnSuLugar(r, i);
    TablaEnSuLugar(ts, i);
    var k := IndiceTabla(ts, nombre);
    if k.Some? {
      TablaEnSuLugar(r, k.value);
    } else {
      assert IndiceTabla(r, nombre).None?;
    }
  }

  lemma ClavesAlAgregar(cs: seq<Celda>, c: Celda, clave: nat)
    requires ClavesDistintas(cs) && IndiceClave(cs, c.clave).None?
    ensures ClavesDistintas(cs + [c])
    ensures IndiceClave(cs + [c], clave) == if clave == c.clave then Some(|cs|) else IndiceClave(cs, clave)
  {
    var r := cs + [c];
    assert ClavesDistintas(r);
    ClaveEnSuLugar(r, |cs|);
    var k := IndiceClave(cs, clave);
    if k.Some? {
      assert r[k.value] == cs[k.value];
      ClaveEnSuLugar(r, k.value);
    }
  }

  lemma ClavesAlQuitar(cs: seq<Celda>, j: nat, clave: nat)
    requires ClavesDistintas(cs) && j < |cs|
    ensures ClavesDistintas(Quitar(cs, j))
    ensures clave == cs[j].clave ==> IndiceClave(Quitar(cs, j), clave).None?
    ensures clave != cs[j].clave ==>
              var k, k' := IndiceClave(cs, clave), IndiceClave(Quitar(cs, j), clave);
              (k.None? <==> k'.None?) && (k.Some? ==> Quitar(cs, j)[k'.value] == cs[k.value])
  {
    var r := Quitar(cs, j);
    assert forall k :: 0 <= k < |r| ==> r[k] == cs[if k < j then k else k + 1];
    assert ClavesDistintas(r);
    var k := IndiceClave(cs, clave);
    if k.Some? && k.value != j {
      var k' := if k.value < j then k.value else k.value - 1;
      assert r[k'] == cs[k.value];
      ClaveEnSuLugar(r, k');
    }
  }

  lemma ClavesAlCambiar(cs: seq<Celda>, j: nat, c: Celda, clave: nat)
    requires ClavesDistintas(cs) && j < |cs| && c.clave == cs[j].clave
    ensures ClavesDistintas(cs[j := c])
    ensures IndiceClave(cs[j := c], clave) == IndiceClave(cs, clave)
  {
    var r := cs[j := c];
    assert forall k :: 0 <= k < |r| ==> r[k].clave == cs[k].clave;
    assert ClavesDistintas(r);
    var k := IndiceClave(cs, clave);
    if k.Some? {
      ClaveEnSuLugar(r, k.value);
    }
  }

  lemma BuscarConTabla(ts: seq<Tabla>, nombre: string, otro: string, clave: nat)
    requires BienFormadas(ts)
    ensures BienFormadas(ConTabla(ts, nombre))
    ensures BuscarCelda(ConTabla(ts, nombre), otro, clave) == BuscarCelda(ts, otro, clave)
    ensures Cuantas(ConTabla(ts, nombre)) == Cuantas(ts)
    ensures AEnviar(ConTabla(ts, nombre)) == AEnviar(ts)
  {
    if IndiceTabla(ts, nombre).None? {
      var r := ConTabla(ts, nombre);
      CuantasAlAgregar(ts, Tabla(nombre, []));
      assert NombresDistintos(r);
      assert r[|ts|].celdas == [];
      var k := IndiceTabla(ts, otro);
      if k.Some? {
        assert r[k.value] == ts[k.value];
        TablaEnSuLugar(r, k.value);
      } else if otro == nombre {
        TablaEnSuLugar(r, |ts|);
      } else {
        assert IndiceTabla(r, otro).None?;
      }
    }
  }

  lemma {:induction false} CuantasAlAgregar(ts: seq<Tabla>, t: Tabla)
    ensures Cuantas(ts + [t]) == Cuantas(ts) + |t.celdas|
    ensures AEnviar(ts + [t]) == AEnviar(ts) + AEnviarDe(t.nombre, t.celdas)
  {
    if ts == [] {
      assert ts + [t] == [t] && [t][1..] == [];
    } else {
      CuantasAlAgregar(ts[1..], t);
      assert (ts + [t])[1..] == ts[1..] + [t];
    }
  }

  lemma {:induction false} CuantasAlPoner(ts: seq<Tabla>, i: nat, cs: seq<Celda>)
    requires i < |ts|
    ensures Cuantas(Poner(ts, i, cs)) == Cuantas(ts) - |ts[i].celdas| + |cs|
  {
    if i > 0 {
      CuantasAlPoner(ts[1..], i - 1, cs);
      assert Poner(ts, i, cs)[1..] == Poner(ts[1..], i - 1, cs);
    } else {
      assert Poner(ts, i, cs)[1..] == ts[1..];
    }
  }

  ghost predicate EsDe(e: Envio, nombre: string, c: Celda)
  {
    c.modificada && e == Envio(nombre, c.clave, c.valor, c.imagen)
  }

  lemma {:induction false} EnviosDeUnaTabla(nombre: string, cs: seq<Celda>, e: Envio)
    ensures e in AEnviarDe(nombre, cs) <==> exists j :: 0 <= j < |cs| && EsDe(e, nombre, cs[j])
  {
    if cs != [] {
      EnviosDeUnaTabla(nombre, cs[1..], e);
      assert forall j :: 1 <= j < |cs| ==> cs[j] == cs[1..][j - 1];
      assert forall j :: 0 <= j < |cs[1..]| ==> cs[1..][j] == cs[j + 1];
    }
  }

  lemma {:induction false} EnviosDeAlgunaTabla(ts: seq<Tabla>, e: Envio)
    ensures e in AEnviar(ts) <==> exists i :: 0 <= i < |ts| && e in AEnviarDe(ts[i].nombre, ts[i].celdas)
  {
    if ts != [] {
      EnviosDeAlgunaTabla(ts[1..], e);
      assert forall i :: 1 <= i < |ts| ==> ts[i] == ts[1..][i - 1];
      assert forall i :: 0 <= i < |ts[1..]| ==> ts[1..][i] == ts[i + 1];
    }
  }

  /** A journal sends exactly the cells marked as modified, as they are. */
  lemma SeEnviaLoModificado(ts: seq<Tabla>, e: Envio)
    requires BienFormadas(ts)
    ensures e in AEnviar(ts) <==>
            var c := BuscarCelda(ts, e.tabla, e.clave);
            c.Some? && EsDe(e, e.tabla, c.value)
  {
    EnviosDeAlgunaTabla(ts, e);
    if i :| 0 <= i < |ts| && e in AEnviarDe(ts[i].nombre, ts[i].celdas) {
      EnviosDeUnaTabla(ts[i].nombre, ts[i].celdas, e);
      var j :| 0 <= j < |ts[i].celdas| && EsDe(e, ts[i].nombre, ts[i].celdas[j]);
      TablaEnSuLugar(ts, i);
      ClaveEnSuLugar(ts[i].celdas, j);
    }
    var c := BuscarCelda(ts, e.tabla, e.clave);
    if c.Some? && EsDe(e, e.tabla, c.value) {
      var i := IndiceTabla(ts, e.tabla).value;
      EnviosDeUnaTabla(ts[i].nombre, ts[i].celdas, e);
    }
  }

  /** And each of them once. */
  lemma {:induction false} CadaUnoUnaVez(ts: seq<Tabla>)
    requires BienFormadas(ts)
    ensures SinRepetidos(AEnviar(ts))
  {
    if ts != [] {
      var resto := ts[1..];
      assert forall i :: 0 <= i < |resto| ==> resto[i] == ts[i + 1];
      CadaUnoUnaVez(resto);
      UnaVezEnLaTabla(ts[0].nombre, ts[0].celdas);
      var a, b := AEnviarDe(ts[0].nombre, ts[0].celdas), AEnviar(resto);
      forall e | e in a
        ensures e !in b
      {
        EnviosDeUnaTabla(ts[0].nombre, ts[0].celdas, e);
        EnviosDeAlgunaTabla(resto, e);
        if i :| 0 <= i < |resto| && e in AEnviarDe(resto[i].nombre, resto[i].celdas) {
          EnviosDeUnaTabla(resto[i].nombre, resto[i].celdas, e);
        }
      }
      JuntosSinRepetidos(a, b);
    }
  }

  lemma {:induction false} UnaVezEnLaTabla(nombre: string, cs: seq<Celda>)
    requires ClavesDistintas(cs)
    ensures SinRepetidos(AEnviarDe(nombre, cs))
  {
    if cs != [] {
      var resto := cs[1..];
      assert forall j :: 0 <= j < |resto| ==> resto[j] == cs[j + 1];
      UnaVezEnLaTabla(nombre, resto);
      var e := Envio(nombre, cs[0].clave, cs[0].valor, cs[0].imagen);
      EnviosDeUnaTabla(nombre, resto, e);
      assert e !in AEnviarDe(nombre, resto);
      JuntosSinRepetidos([e], AEnviarDe(nombre, resto));
    }
  }

  lemma JuntosSinRepetidos<T>(a: seq<T>, b: seq<T>)
    requires SinRepetidos(a) && SinRepetidos(b) && forall i :: 0 <= i < |a| ==> a[i] !in b
    ensures SinRepetidos(a + b)
  {
  }

  /** What an insert does to what is found under any other key: nothing, or it goes, and if modified it is sent. */
  ghost predicate SigueOSeFue(m: Modelo, r: Modelo, otro: string, otra: nat)
  {
    var antes, despues := BuscarCelda(m.tablas, otro, otra), BuscarCelda(r.tablas, otro, otra);
    || despues == antes
    || (despues.None? && antes.Some? && (antes.value.modificada ==> EnvioSuValor(m, r, otro, otra)))
  }

  /** What was inserted is what is found, marked as modified if it is new and as it was if it was there. */
  ghost predicate QuedoInsertado(m: Modelo, r: Modelo, nombre: string, clave: nat, valor: seq<byte>)
  {
    var antes, despues := BuscarCelda(m.tablas, nombre, clave), BuscarCelda(r.tablas, nombre, clave);
    && despues.Some? && despues.value.valor == valor && despues.value.clave == clave
    && despues.value.modificada == (antes.Some? ==> antes.value.modificada)
  }

  /**
   An insert is found afterwards, loses no modified cell that it does not send, and keeps tables and
   keys unique and the cells as many as fit.
   */
  lemma InsertarBien(m: Modelo, n: nat, nombre: string, clave: nat, valor: seq<byte>, ts: Instante, ahora: Instante,
      r: Modelo)
    requires BienFormadas(m.tablas) && Cuantas(m.tablas) <= n && n > 0
    requires Insertado(m, n, nombre, clave, valor, ts, ahora, r)
    ensures BienFormadas(r.tablas) && Cuantas(r.tablas) <= n
    ensures QuedoInsertado(m, r, nombre, clave, valor)
    ensures forall otro: string, otra: nat :: (otro, otra) != (nombre, clave) ==> SigueOSeFue(m, r, otro, otra)
  {
    var base := ConTabla(m.tablas, nombre);
    BuscarConTabla(m.tablas, nombre, nombre, clave);
    var i := IndiceTabla(base, nombre).value;
    var j := IndiceClave(base[i].celdas, clave);
    var nueva := Celda(clave, valor, ts.imagen, true, ahora.valor);
    if j.Some? {
      InsertarActualiza(m, nombre, clave, valor, ahora, r);
    } else if Cuantas(m.tablas) < n {
      AgregarCelda(base, i, nueva);
      forall otro: string, otra: nat | (otro, otra) != (nombre, clave)
        ensures SigueOSeFue(m, r, otro, otra)
      {
        BuscarConTabla(m.tablas, nombre, otro, otra);
        BuscarAgregada(base, i, nueva, otro, otra);
      }
      BuscarAgregada(base, i, nueva, nombre, clave);
    } else if HayVictima(base) {
      InsertarReemplaza(m, nombre, nueva, r);
    } else {
      InsertarTrasJournal(m, nombre, nueva, r);
    }
  }

  lemma AgregarCelda(ts: seq<Tabla>, i: nat, c: Celda)
    requires BienFormadas(ts) && i < |ts| && IndiceClave(ts[i].celdas, c.clave).None?
    ensures BienFormadas(ConCelda(ts, i, c)) && Cuantas(ConCelda(ts, i, c)) == Cuantas(ts) + 1
  {
    ClavesAlAgregar(ts[i].celdas, c, c.clave);
    BuscarTrasPoner(ts, i, ts[i].celdas + [c], ts[i].nombre, c.clave);
    CuantasAlPoner(ts, i, ts[i].celdas + [c]);
  }

  lemma BuscarAgregada(ts: seq<Tabla>, i: nat, c: Celda, nombre: string, clave: nat)
    requires BienFormadas(ts) && i < |ts| && IndiceClave(ts[i].celdas, c.clave).None?
    ensures BuscarCelda(ConCelda(ts, i, c), nombre, clave)
         == if (nombre, clave) == (ts[i].nombre, c.clave) then Some(c) else BuscarCelda(ts, nombre, clave)
  {
    TablaEnSuLugar(ts, i);
    ClavesAlAgregar(ts[i].celdas, c, clave);
    BuscarTrasPoner(ts, i, ts[i].celdas + [c], nombre, clave);
  }

  lemma BuscarQuitada(ts: seq<Tabla>, a: nat, b: nat, nombre: string, clave: nat)
    requires BienFormadas(ts) && a < |ts| && b < |ts[a].celdas|
    ensures BienFormadas(SinCelda(ts, a, b)) && Cuantas(SinCelda(ts, a, b)) == Cuantas(ts) - 1
    ensures BuscarCelda(SinCelda(ts, a, b), nombre, clave)
         == if (nombre, clave) == (ts[a].nombre, ts[a].celdas[b].clave) then None else BuscarCelda(ts, nombre, clave)
  {
    TablaEnSuLugar(ts, a);
    ClavesAlQuitar(ts[a].celdas, b, clave);
    BuscarTrasPoner(ts, a, Quitar(ts[a].celdas, b), nombre, clave);
    CuantasAlPoner(ts, a, Quitar(ts[a].celdas, b));
  }

  lemma InsertarActualiza(m: Modelo, nombre: string, clave: nat, valor: seq<byte>, ahora: Instante, r: Modelo)
    requires BienFormadas(m.tablas)
    requires var base := ConTabla(m.tablas, nombre);
             var i := IndiceTabla(base, nombre).value;
             var j := IndiceClave(base[i].celdas, clave);
             j.Some? && r == m.(tablas := Poner(base, i, base[i].celdas[j.value :=
                                base[i].celdas[j.value].(valor := valor, imagen := ahora.imagen, uso := ahora.valor)]))
    ensures BienFormadas(r.tablas) && Cuantas(r.tablas) == Cuantas(m.tablas)
    ensures QuedoInsertado(m, r, nombre, clave, valor)
    ensures forall otro: string, otra: nat :: (otro, otra) != (nombre, clave) ==> SigueOSeFue(m, r, otro, otra)
  {
    var base := ConTabla(m.tablas, nombre);
    var i := IndiceTabla(base, nombre).value;
    var j := IndiceClave(base[i].celdas, clave).value;
    var c := base[i].celdas[j].(valor := valor, imagen := ahora.imagen, uso := ahora.valor);
    CuantasAlPoner(base, i, base[i].celdas[j := c]);
    forall otro: string, otra: nat
      ensures BienFormadas(r.tablas) && Cuantas(r.tablas) == Cuantas(m.tablas)
      ensures BuscarCelda(r.tablas, otro, otra) == if (otro, otra)
                == (nombre, clave) then Some(c) else BuscarCelda(m.tablas, otro, otra)
      ensures BuscarCelda(base, otro, otra) == BuscarCelda(m.tablas, otro, otra)
    {
      BuscarConTabla(m.tablas, nombre, otro, otra);
      ClavesAlCambiar(base[i].celdas, j, c, otra);
      BuscarTrasPoner(base, i, base[i].celdas[j := c], otro, otra);
      TablaEnSuLugar(base, i);
    }
  }

  lemma InsertarReemplaza(m: Modelo, nombre: string, nueva: Celda, r: Modelo)
    requires BienFormadas(m.tablas) && nueva.modificada
    requires var base := ConTabla(m.tablas, nombre);
             var i := IndiceTabla(base, nombre).value;
             && IndiceClave(base[i].celdas, nueva.clave).None?
             && exists a: nat, b: nat :: EsVictima(base, a, b)
                 && r == m.(tablas := ConCelda(SinCelda(base, a, b), i, nueva))
    ensures BienFormadas(r.tablas) && Cuantas(r.tablas) == Cuantas(m.tablas)
    ensures QuedoInsertado(m, r, nombre, nueva.clave, nueva.valor)
    ensures forall otro: string, otra: nat :: (otro, otra) != (nombre, nueva.clave) ==> SigueOSeFue(m, r, otro, otra)
  {
    var base := ConTabla(m.tablas, nombre);
    var i := IndiceTabla(base, nombre).value;
    var a: nat, b: nat :| EsVictima(base, a, b) && r == m.(tablas := ConCelda(SinCelda(base, a, b), i, nueva));
    var sin := SinCelda(base, a, b);
    BuscarConTabla(m.tablas, nombre, nombre, nueva.clave);
    BuscarQuitada(base, a, b, nombre, nueva.clave);
    ClavesAlQuitar(base[a].celdas, b, nueva.clave);
    assert sin[i].nombre == nombre && IndiceClave(sin[i].celdas, nueva.clave).None?;
    AgregarCelda(sin, i, nueva);
    BuscarAgregada(sin, i, nueva, nombre, nueva.clave);
    TablaEnSuLugar(base, a);
    ClaveEnSuLugar(base[a].celdas, b);
    forall otro: string, otra: nat | (otro, otra) != (nombre, nueva.clave)
      ensures SigueOSeFue(m, r, otro, otra)
    {
      BuscarConTabla(m.tablas, nombre, otro, otra);
      BuscarReemplazada(base, a, b, i, nueva, otro, otra);
    }
  }

  lemma BuscarReemplazada(base: seq<Tabla>, a: nat, b: nat, i: nat, nueva: Celda, otro: string, otra: nat)
    requires BienFormadas(base) && a < |base| && b < |base[a].celdas| && i < |base|
    requires IndiceClave(SinCelda(base, a, b)[i].celdas, nueva.clave).None?
             && (otro, otra) != (base[i].nombre, nueva.clave)
    ensures BuscarCelda(ConCelda(SinCelda(base, a, b), i, nueva), otro, otra)
         == if (otro, otra) == (base[a].nombre, base[a].celdas[b].clave) then None else BuscarCelda(base, otro, otra)
  {
    BuscarQuitada(base, a, b, otro, otra);
    BuscarAgregada(SinCelda(base, a, b), i, nueva, otro, otra);
  }

  lemma InsertarTrasJournal(m: Modelo, nombre: string, nueva: Celda, r: Modelo)
    requires BienFormadas(m.tablas) && nueva.modificada && BuscarCelda(m.tablas, nombre, nueva.clave).None?
    requires r == Modelo([Tabla(nombre, [nueva])], m.enviados + AEnviar(ConTabla(m.tablas, nombre)))
    ensures BienFormadas(r.tablas) && Cuantas(r.tablas) == 1
    ensures QuedoInsertado(m, r, nombre, nueva.clave, nueva.valor)
    ensures forall otro: string, otra: nat :: (otro, otra) != (nombre, nueva.clave) ==> SigueOSeFue(m, r, otro, otra)
  {
    assert r.tablas[0].celdas[0] == nueva && r.tablas[1..] == [];
    TablaEnSuLugar(r.tablas, 0);
    ClaveEnSuLugar(r.tablas[0].celdas, 0);
    BuscarConTabla(m.tablas, nombre, nombre, nueva.clave);
    forall otro: string, otra: nat | (otro, otra) != (nombre, nueva.clave)
      ensures SigueOSeFue(m, r, otro, otra)
    {
      TrasJournalNoQueda(m, AEnviar(m.tablas), otro, otra);
      assert BuscarCelda(r.tablas, otro, otra).None?;
      assert r.enviados[|m.enviados|..] == AEnviar(m.tablas);
    }
  }

  /** Whatever is modified when a journal runs is among what it sends. */
  lemma TrasJournalNoQueda(m: Modelo, envios: seq<Envio>, otro: string, otra: nat)
    requires BienFormadas(m.tablas) && envios == AEnviar(m.tablas)
    ensures var antes := BuscarCelda(m.tablas, otro, otra);
            antes.Some? && antes.value.modificada ==> Envio(otro, otra, antes.value.valor, antes.value.imagen) in envios
  {
    var antes := BuscarCelda(m.tablas, otro, otra);
    if antes.Some? {
      SeEnviaLoModificado(m.tablas, Envio(otro, otra, antes.value.valor, antes.value.imagen));
    }
  }

  /** The page just brought from the file system is marked as not modified, whatever it was before. */
  function Desmarcada(ts: seq<Tabla>, nombre: string, clave: nat): seq<Tabla>
  {
    var i := IndiceTabla(ts, nombre);
    if i.None? then ts
    else
      var j := IndiceClave(ts[i.value].celdas, clave);
      if j.None? then ts
      else Poner(ts, i.value, ts[i.value].celdas[j.value := ts[i.value].celdas[j.value].(modificada := false)])
  }

  function IndiceSinCaja(ts: seq<Tabla>, nombre: string): (r: Option<nat>)
  {
    Buscar(ts, (t: Tabla) => IgualesSinCaja(t.nombre, nombre))
  }

  /** A drop looks for its table without regard to upper and lower case, and takes the first. */
  function SinTabla(ts: seq<Tabla>, nombre: string): seq<Tabla>
  {
    var i := IndiceSinCaja(ts, nombre);
    if i.None? then ts else Quitar(ts, i.value)
  }

  datatype Evento =
    | Insertar(nombre: string, clave: nat, valor: seq<byte>, ts: Instante, ahora: Instante)
    | Traer(nombre: string, clave: nat, valor: seq<byte>, ts: Instante, ahora: Instante)
    | Journal
    | Drop(nombre: string)

  /** One operation on a memory of n frames and values of at most tam bytes. */
  ghost predicate Paso(m: Modelo, n: nat, tam: nat, e: Evento, r: Modelo)
  {
    match e
    case Insertar(nombre, clave, valor, ts, ahora) =>
      if |valor| > tam then r == m else Insertado(m, n, nombre, clave, valor, ts, ahora, r)
    case Traer(nombre, clave, valor, ts, ahora) =>
      if |valor| > tam then r == m
      else exists medio :: Insertado(m, n, nombre, clave, valor, ts, ahora, medio)
                        && r == medio.(tablas := Desmarcada(medio.tablas, nombre, clave))
    case Journal => r == Modelo([], m.enviados + AEnviar(m.tablas))
    case Drop(nombre) => r == m.(tablas := SinTabla(m.tablas, nombre))
  }

  lemma BuscarDesmarcada(ts: seq<Tabla>, nombre: string, clave: nat, otro: string, otra: nat)
    requires BienFormadas(ts)
    ensures BienFormadas(Desmarcada(ts, nombre, clave)) && Cuantas(Desmarcada(ts, nombre, clave)) == Cuantas(ts)
    ensures BuscarCelda(Desmarcada(ts, nombre, clave), otro, otra) ==
            var c := BuscarCelda(ts, otro, otra);
            if (otro, otra) == (nombre, clave) && c.Some? then Some(c.value.(modificada := false)) else c
  {
    var i := IndiceTabla(ts, nombre);
    if i.Some? {
      var j := IndiceClave(ts[i.value].celdas, clave);
      if j.Some? {
        var c := ts[i.value].celdas[j.value].(modificada := false);
        ClavesAlCambiar(ts[i.value].celdas, j.value, c, otra);
        BuscarTrasPoner(ts, i.value, ts[i.value].celdas[j.value := c], otro, otra);
        CuantasAlPoner(ts, i.value, ts[i.value].celdas[j.value := c]);
      }
    }
  }

  lemma {:induction false} CuantasAlQuitar(ts: seq<Tabla>, i: nat)
    requires i < |ts|
    ensures Cuantas(Quitar(ts, i)) == Cuantas(ts) - |ts[i].celdas|
  {
    if i > 0 {
      CuantasAlQuitar(ts[1..], i - 1);
      assert Quitar(ts, i)[0] == ts[0] && Quitar(ts, i)[1..] == Quitar(ts[1..], i - 1);
    } else {
      assert Quitar(ts, i) == ts[1..];
    }
  }

  lemma BuscarSinTabla(ts: seq<Tabla>, nombre: string, otro: string, clave: nat)
    requires BienFormadas(ts)
    ensures BienFormadas(SinTabla(ts, nombre)) && Cuantas(SinTabla(ts, nombre)) <= Cuantas(ts)
    ensures BuscarCelda(SinTabla(ts, nombre), otro, clave) ==
            var i := IndiceSinCaja(ts, nombre);
            if i.Some? && ts[i.value].nombre == otro then None else BuscarCelda(ts, otro, clave)
  {
    var i := IndiceSinCaja(ts, nombre);
    if i.Some? {
      BuscarSinLaTabla(ts, i.value, otro, clave);
    }
  }

  lemma BuscarSinLaTabla(ts: seq<Tabla>, i: nat, otro: string, clave: nat)
    requires BienFormadas(ts) && i < |ts|
    ensures BienFormadas(Quitar(ts, i)) && Cuantas(Quitar(ts, i)) <= Cuantas(ts)
    ensures BuscarCelda(Quitar(ts, i), otro, clave) == if ts[i].nombre
              == otro then None else BuscarCelda(ts, otro, clave)
  {
    CuantasAlQuitar(ts, i);
    IndiceAlQuitar(ts, i, otro);
    var r := Quitar(ts, i);
    assert forall k :: 0 <= k < |r| ==> r[k] == ts[if k < i then k else k + 1];
  }

  lemma IndiceAlQuitar(ts: seq<Tabla>, i: nat, otro: string)
    requires i < |ts| && NombresDistintos(ts)
    ensures NombresDistintos(Quitar(ts, i))
    ensures ts[i].nombre == otro ==> IndiceTabla(ts, otro) == Some(i) && IndiceTabla(Quitar(ts, i), otro).None?
    ensures ts[i].nombre != otro ==>
              var k, k' := IndiceTabla(ts, otro), IndiceTabla(Quitar(ts, i), otro);
              (k.None? <==> k'.None?) && (k.Some? ==> Quitar(ts, i)[k'.value] == ts[k.value])
  {
    var r := Quitar(ts, i);
    assert forall k :: 0 <= k < |r| ==> r[k] == ts[if k < i then k else k + 1];
    assert NombresDistintos(r);
    TablaEnSuLugar(ts, i);
    var k := IndiceTabla(ts, otro);
    if k.Some? && k.value != i {
      var k' := if k.value < i then k.value else k.value - 1;
      assert r[k'] == ts[k.value];
      TablaEnSuLugar(r, k');
    }
  }

  /** The operation drops the table with this name. */
  ghost predicate BorraLaTabla(m: Modelo, e: Evento, nombre: string)
  {
    e.Drop? && IndiceSinCaja(m.tablas, e.nombre).Some? && m.tablas[IndiceSinCaja(m.tablas, e.nombre).value].nombre
        == nombre
  }

  ghost predicate TraeLaClave(e: Evento, tam: nat, nombre: string, clave: nat)
  {
    e.Traer? && |e.valor| <= tam && e.nombre == nombre && e.clave == clave
  }

  ghost predicate EstaModificada(m: Modelo, nombre: string, clave: nat)
  {
    var c := BuscarCelda(m.tablas, nombre, clave);
    c.Some? && c.value.modificada
  }

  /** What m holds of this key, marked as modified, is among what was sent on the way to r. */
  ghost predicate EnvioSuValor(m: Modelo, r: Modelo, nombre: string, clave: nat)
  {
    var c := BuscarCelda(m.tablas, nombre, clave);
    c.Some? && m.enviados <= r.enviados && Envio(nombre, clave, c.value.valor,
        c.value.imagen) in r.enviados[|m.enviados|..]
  }

  ghost predicate Memoria(m: Modelo, n: nat)
  {
    BienFormadas(m.tablas) && Cuantas(m.tablas) <= n
  }

  /** Every operation keeps tables and keys unique and the cells as many as fit, and only adds to what was sent. */
  lemma PasoConserva(m: Modelo, n: nat, tam: nat, e: Evento, r: Modelo)
    requires Memoria(m, n) && n > 0 && Paso(m, n, tam, e, r)
    ensures Memoria(r, n) && m.enviados <= r.enviados
  {
    match e
    case Insertar(nombre, clave, valor, ts, ahora) =>
      if |valor| <= tam {
        InsertarBien(m, n, nombre, clave, valor, ts, ahora, r);
      }
    case Traer(nombre, clave, valor, ts, ahora) =>
      if |valor| <= tam {
        var medio :| Insertado(m, n, nombre, clave, valor, ts, ahora, medio)
                  && r == medio.(tablas := Desmarcada(medio.tablas, nombre, clave));
        InsertarBien(m, n, nombre, clave, valor, ts, ahora, medio);
        BuscarDesmarcada(medio.tablas, nombre, clave, nombre, clave);
      }
    case Journal =>
    case Drop(nombre) => BuscarSinTabla(m.tablas, nombre, "", 0);
  }

  /**
   A modified cell stays modified, or is sent, or its table is dropped, or the key is brought again from
   the file system over it.
   */
  lemma LoModificadoNoSePierde(m: Modelo, n: nat, tam: nat, e: Evento, r: Modelo, nombre: string, clave: nat)
    requires Memoria(m, n) && n > 0 && Paso(m, n, tam, e, r) && EstaModificada(m, nombre, clave)
    ensures EstaModificada(r, nombre, clave) || EnvioSuValor(m, r, nombre, clave)
         || BorraLaTabla(m, e, nombre) || TraeLaClave(e, tam, nombre, clave)
  {
    match e
    case Insertar(otro, otra, valor, ts, ahora) =>
      if |valor| <= tam {
        InsertarBien(m, n, otro, otra, valor, ts, ahora, r);
        if (nombre, clave) != (otro, otra) {
          assert SigueOSeFue(m, r, nombre, clave);
        }
      }
    case Traer(otro, otra, valor, ts, ahora) =>
      if |valor| <= tam && (nombre, clave) != (otro, otra) {
        var medio :| Insertado(m, n, otro, otra, valor, ts, ahora, medio)
                  && r == medio.(tablas := Desmarcada(medio.tablas, otro, otra));
        InsertarBien(m, n, otro, otra, valor, ts, ahora, medio);
        assert SigueOSeFue(m, medio, nombre, clave);
        BuscarDesmarcada(medio.tablas, otro, otra, nombre, clave);
      }
    case Journal =>
      TrasJournalNoQueda(m, AEnviar(m.tablas), nombre, clave);
      assert r.enviados[|m.enviados|..] == AEnviar(m.tablas);
    case Drop(otro) => BuscarSinTabla(m.tablas, otro, nombre, clave);
  }

  /**
   Bringing a key that is in memory and modified loses the change: its cell takes the value brought,
   is no longer marked, and nothing is sent.
   */
  lemma TraerPisaLoModificado(m: Modelo, n: nat, tam: nat, e: Evento, r: Modelo)
    requires Memoria(m, n) && n > 0 && e.Traer? && |e.valor| <= tam && Paso(m, n, tam, e, r)
    requires EstaModificada(m, e.nombre, e.clave)
    ensures var c := BuscarCelda(r.tablas, e.nombre, e.clave);
            c.Some? && !c.value.modificada && c.value.valor == e.valor && r.enviados == m.enviados
  {
    var medio :| Insertado(m, n, e.nombre, e.clave, e.valor, e.ts, e.ahora, medio)
              && r == medio.(tablas := Desmarcada(medio.tablas, e.nombre, e.clave));
    InsertarBien(m, n, e.nombre, e.clave, e.valor, e.ts, e.ahora, medio);
    BuscarDesmarcada(medio.tablas, e.nombre, e.clave, e.nombre, e.clave);
    BuscarConTabla(m.tablas, e.nombre, e.nombre, e.clave);
  }

  /** A run of operations. */
  ghost predicate Corrida(ms: seq<Modelo>, es: seq<Evento>, n: nat, tam: nat)
  {
    && |ms| == |es| + 1
    && (es != [] ==> Corrida(ms[..|es|], es[..|es| - 1], n, tam) && Paso(ms[|es| - 1], n, tam, es[|es| - 1], ms[|es|]))
  }

  /**
   At some step of the run the key was modified and then no longer: that step sent the value it held, and the
   end of the run still has it among what was sent.
   */
  ghost predicate SalioConSuValor(ms: seq<Modelo>, nombre: string, clave: nat)
  {
    exists j :: 0 <= j < |ms| - 1 && SalioEn(ms, j, nombre, clave)
  }

  ghost predicate SalioEn(ms: seq<Modelo>, j: nat, nombre: string, clave: nat)
    requires j < |ms| - 1
  {
    && EstaModificada(ms[j], nombre, clave) && !EstaModificada(ms[j + 1], nombre, clave)
    && EnvioSuValor(ms[j], ms[j + 1], nombre, clave)
    && ms[0].enviados <= ms[j].enviados && ms[j + 1].enviados <= ms[|ms| - 1].enviados
  }

  /**
   In a run that neither drops the table nor brings the key, what was modified at its start is modified at
   its end, or the value it held when it left the memory has been sent.
   */
  lemma {:induction false} LoModificadoLlega(ms: seq<Modelo>, es: seq<Evento>, n: nat, tam: nat, nombre: string,
      clave: nat)
    requires Corrida(ms, es, n, tam) && n > 0 && Memoria(ms[0], n)
    requires EstaModificada(ms[0], nombre, clave)
    requires forall k :: 0 <= k < |es| ==>
               !BorraLaTabla(ms[k], es[k], nombre) && !TraeLaClave(es[k], tam, nombre, clave)
    ensures Memoria(ms[|es|], n) && ms[0].enviados <= ms[|es|].enviados
    ensures EstaModificada(ms[|es|], nombre, clave) || SalioConSuValor(ms, nombre, clave)
  {
    hide Paso, Memoria, BorraLaTabla, TraeLaClave, EstaModificada, EnvioSuValor;
    if es != [] {
      var u := |es| - 1;
      LoModificadoLlega(ms[..|es|], es[..u], n, tam, nombre, clave);
      PasoConserva(ms[u], n, tam, es[u], ms[|es|]);
      if EstaModificada(ms[u], nombre, clave) {
        LoModificadoNoSePierde(ms[u], n, tam, es[u], ms[|es|], nombre, clave);
        assert EstaModificada(ms[|es|], nombre, clave) || SalioEn(ms, u, nombre, clave);
      } else {
        var j :| 0 <= j < u && SalioEn(ms[..|es|], j, nombre, clave);
        assert SalioEn(ms, j, nombre, clave);
      }
    }
  }
}
