/**
 Whole runs of the broker's cache: what is stored, sent again and evicted from the first request on,
 and what a subscriber that comes late is sent of it.
 */
module CorridasDeMemoria {
  import opened Bytes
  import opened Secuencias
  import opened Particiones
  import opened EstadoDeMemoria
  import opened BusquedaDeParticion
  import opened BrokerMemoria
  import Serializacion

  /** What reaches the cache: a message to keep, or one kept that is sent again. */
  datatype Pedido =
    | Guardar(id: nat, timestamp: nat, codOp: nat, contenido: Serializacion.Contenido)
    | Reenviar(cual: nat, timestamp: nat)

  /** The kept message is the one this request brought, its bytes where they were written. */
  ghost predicate EsDe(g: Guardado, p: Pedido, minimo: nat)
  {
    && p.Guardar? && g.id == p.id && g.codOp == p.codOp
    && g.largo == Serializacion.TamMsg(p.contenido, minimo)
    && g.largo <= |g.bytes| && Serializacion.ImagenEnCache(p.contenido) <= g.bytes[..g.largo]
  }

  ghost predicate EsDeAlguno(g: Guardado, ps: seq<Pedido>, minimo: nat)
  {
    exists i :: 0 <= i < |ps| && EsDe(g, ps[i], minimo)
  }

  ghost predicate TodosSonDe(gs: seq<Guardado>, ps: seq<Pedido>, minimo: nat)
  {
    forall k :: 0 <= k < |gs| ==> EsDeAlguno(gs[k], ps, minimo)
  }

  ghost predicate Entra(cfg: Config, n: nat, minimo: nat, p: Pedido)
  {
    p.Guardar? ==> Redondeo(cfg, Serializacion.TamMsg(p.contenido, minimo)) <= n
  }

  /** The modes and frequencies in which a run on a new cache fails no request that fits it. */
  ghost predicate SinFallas(cfg: Config, pliega: bool)
  {
    cfg.buddy || cfg.frecuencia == 1 || cfg.frecuencia == -1 || (pliega && cfg.frecuencia != 0)
  }

  /**
   Going by the messages kept before it: the request fits the memory, and every compaction that the search
   for its partition comes to can be made.
   */
  ghost predicate SeAtiende(r: Regla, minimo: nat, ms: seq<Mensaje>, p: Pedido)
    requires Clasifica(r.clasificar)
  {
    p.Guardar? ==>
      && Entra(r.cfg, r.n, minimo, p)
      && TodasSePueden(r, Busqueda(r, ms, Redondeo(r.cfg, Serializacion.TamMsg(p.contenido, minimo))).compactadas)
  }

  /** The messages kept after a request, going by those kept before it. */
  ghost predicate Paso(r: Regla, minimo: nat, antes: seq<Mensaje>, p: Pedido, despues: seq<Mensaje>)
    requires Clasifica(r.clasificar)
  {
    match p
    case Guardar(id, timestamp, codOp, contenido) =>
      var largo := Serializacion.TamMsg(contenido, minimo);
      && despues != []
      && var m := despues[|despues| - 1];
      && m == Mensaje(id, timestamp, codOp, largo, m.particion)
      && TrasGuardar(r, antes, Redondeo(r.cfg, largo), m, despues)
    case Reenviar(cual, timestamp) =>
      despues == if cual < |antes| && !r.cfg.fifo then antes[cual := antes[cual].(timestamp := timestamp)] else antes
  }

  /** What a run keeps after each of the requests served, the first of ps, from a new cache on. */
  ghost predicate EsCorrida(r: Regla, minimo: nat, ps: seq<Pedido>, h: seq<seq<Mensaje>>)
    requires Clasifica(r.clasificar)
  {
    && 1 <= |h| <= |ps| + 1 && h[0] == []
    && (forall i :: 0 <= i < |h| - 1 ==> SeAtiende(r, minimo, h[i], ps[i]) && Paso(r, minimo, h[i], ps[i], h[i + 1]))
  }

  lemma SiguenSiendoDe(gs: seq<Guardado>, ps: seq<Pedido>, p: Pedido, minimo: nat, gs': seq<Guardado>)
    requires TodosSonDe(gs, ps, minimo)
    requires forall k :: 0 <= k < |gs'| ==> gs'[k] in gs || EsDe(gs'[k], p, minimo)
    ensures TodosSonDe(gs', ps + [p], minimo)
  {
    forall k | 0 <= k < |gs'|
      ensures EsDeAlguno(gs'[k], ps + [p], minimo)
    {
      if gs'[k] in gs {
        var j :| 0 <= j < |gs| && gs[j] == gs'[k];
        var i :| 0 <= i < |ps| && EsDe(gs[j], ps[i], minimo);
        assert EsDe(gs'[k], (ps + [p])[i], minimo);
      } else {
        assert EsDe(gs'[k], (ps + [p])[|ps|], minimo);
      }
    }
  }

  /** What stays after an eviction was there before it. */
  lemma LosQueQuedanEstaban(gs: seq<Guardado>, orden: seq<Guardado>, k: nat)
    requires MismosElementos(orden, gs) && k <= |orden|
    ensures forall j :: k <= j < |orden| ==> orden[j] in gs
  {
    forall j | k <= j < |orden|
      ensures orden[j] in gs
    {
      assert orden[j] in multiset(orden);
    }
  }

  /**
   One request. It is served exactly when it fits the memory and every compaction it comes to can be made;
   then it is the last kept, and every other was kept before and is as it was.
   */
  method AtenderUno(m: Memoria, minimo: nat, ghost antes: seq<Pedido>, p: Pedido) returns (ok: bool)
    requires m.Valid() && m.SinRestos({}) && TodosSonDe(m.Guardados(), antes, minimo)
    modifies m, m.cache
    ensures ok <==> SeAtiende(m.LaRegla(), minimo, old(m.mensajes), p)
    ensures SinFallas(m.cfg, m.pliega) && (!m.cfg.buddy && m.cfg.frecuencia == 1 ==> |old(m.libres)| <= 1) ==>
              (ok <==> Entra(m.cfg, m.cache.Length, minimo, p))
    ensures ok ==> m.Valid() && m.SinRestos({}) && TodosSonDe(m.Guardados(), antes + [p], minimo)
    ensures ok ==> Paso(m.LaRegla(), minimo, old(m.mensajes), p, m.mensajes)
    ensures ok && !m.cfg.buddy && m.cfg.frecuencia == 1 && |old(m.libres)| <= 1 ==> |m.libres| <= 1
    ensures ok && p.Guardar? ==> m.mensajes != [] && EsDe(m.Guardados()[|m.mensajes| - 1], p, minimo)
    ensures p.Reenviar? ==> ok && m.libres == old(m.libres) && m.cache[..] == old(m.cache[..])
    ensures p.Reenviar? && (m.cfg.fifo || p.cual >= |old(m.mensajes)|) ==> m.mensajes == old(m.mensajes)
    ensures p.Reenviar? && !m.cfg.fifo && p.cual < |old(m.mensajes)| ==>
              m.mensajes == old(m.mensajes)[p.cual := old(m.mensajes)[p.cual].(timestamp := p.timestamp)]
  {
    hide Coherente, Limpia, Imagen, Serializacion.ImagenEnCache, Serializacion.TamMsg, Historia, Clasifica, Busqueda,
        TodasSePueden, TrasGuardar;
    ghost var gs := m.Guardados();
    match p
    case Guardar(id, timestamp, codOp, contenido) =>
      Serializacion.LoEscritoEntra(contenido, minimo);
      TamPositivo(contenido, minimo);
      ghost var orden, ordenMensajes, k;
      ok, orden, ordenMensajes, k := m.Almacenar(id, timestamp, codOp, Serializacion.TamMsg(contenido, minimo),
                                                 Serializacion.ImagenEnCache(contenido));
      if ok {
        LosQueQuedanEstaban(gs, orden, k);
        ghost var n := |orden| - k;
        assert EsDe(m.Guardados()[n], p, minimo);
        forall j | 0 <= j < n
          ensures m.Guardados()[j] in gs
        {
          assert m.Guardados()[..n][j] == orden[k..][j];
        }
        SiguenSiendoDe(gs, antes, p, minimo, m.Guardados());
      }
    case Reenviar(cual, timestamp) =>
      ok := true;
      if cual < |m.mensajes| && !m.cfg.fifo {
        m.ActualizarTimestamp(cual, timestamp);
        OtroTimestamp(gs, antes, minimo, cual, timestamp);
        gs := gs[cual := gs[cual].(timestamp := timestamp)];
      }
      SiguenSiendoDe(gs, antes, p, minimo, gs);
  }

  lemma TamPositivo(c: Serializacion.Contenido, minimo: nat)
    ensures Serializacion.TamMsg(c, minimo) > 0
  {
  }

  lemma OtroTimestamp(gs: seq<Guardado>, ps: seq<Pedido>, minimo: nat, cual: nat, timestamp: nat)
    requires TodosSonDe(gs, ps, minimo) && cual < |gs|
    ensures TodosSonDe(gs[cual := gs[cual].(timestamp := timestamp)], ps, minimo)
  {
    var r := gs[cual := gs[cual].(timestamp := timestamp)];
    forall k | 0 <= k < |r|
      ensures EsDeAlguno(r[k], ps, minimo)
    {
      var i :| 0 <= i < |ps| && EsDe(gs[k], ps[i], minimo);
      assert EsDe(r[k], ps[i], minimo);
    }
  }

  /**
   A whole run on a new cache. It goes on until a request that cannot be served, going by the messages kept
   before it; with buddies, with a compaction frequency of 1 or -1 or with compactions that fold, that is one
   that does not fit the memory. At its end every message kept is one that was brought, with its bytes, and no
   byte is left of the others.
   */
  method Atender(cfg: Config, n: nat, minimo: nat, ps: seq<Pedido>, clasificar: seq<Mensaje> -> seq<Mensaje>,
                 pliega: bool) returns (m: Memoria, ok: bool, ghost h: seq<seq<Mensaje>>)
    requires ConfigValida(cfg, n) && Clasifica(clasificar)
    ensures fresh(m) && m.LaRegla() == Regla(cfg, n, clasificar, pliega)
    ensures EsCorrida(Regla(cfg, n, clasificar, pliega), minimo, ps, h)
    ensures ok <==> |h| == |ps| + 1
    ensures ok ==> m.mensajes == h[|ps|]
    ensures !ok ==> !SeAtiende(Regla(cfg, n, clasificar, pliega), minimo, h[|h| - 1], ps[|h| - 1])
    ensures SinFallas(cfg, pliega) ==> (ok <==> forall i :: 0 <= i < |ps| ==> Entra(cfg, n, minimo, ps[i]))
    ensures ok ==> m.Valid() && m.SinRestos({}) && TodosSonDe(m.Guardados(), ps, minimo)
    ensures ok && ps != [] && ps[|ps| - 1].Guardar? ==>
              m.mensajes != [] && EsDe(m.Guardados()[|m.mensajes| - 1], ps[|ps| - 1], minimo)
  {
    hide Coherente, Limpia, Imagen, EsDe, Entra, Clasifica, SeAtiende, Paso, SinFallas, ConfigValida;
    ghost var r := Regla(cfg, n, clasificar, pliega);
    m := new Memoria(cfg, n, clasificar, pliega);
    ok, h := true, [[]];
    var i := 0;
    assert ps[..0] == [];
    while i < |ps|
      invariant 0 <= i <= |ps| && fresh(m) && fresh(m.cache) && m.LaRegla() == r
      invariant m.Valid() && m.SinRestos({}) && TodosSonDe(m.Guardados(), ps[..i], minimo)
      invariant !cfg.buddy && cfg.frecuencia == 1 ==> |m.libres| <= 1
      invariant SinFallas(cfg, pliega) ==> forall j :: 0 <= j < i ==> Entra(cfg, n, minimo, ps[j])
      invariant |h| == i + 1 && h[i] == m.mensajes && EsCorrida(r, minimo, ps, h)
      invariant i > 0 && ps[i - 1].Guardar? ==>
                  m.mensajes != [] && EsDe(m.Guardados()[|m.mensajes| - 1], ps[i - 1], minimo)
    {
      ok := AtenderUno(m, minimo, ps[..i], ps[i]);
      if !ok {
        return;
      }
      h := h + [m.mensajes];
      assert ps[..i] + [ps[i]] == ps[..i + 1];
      i := i + 1;
    }
    assert ps[..|ps|] == ps;
  }

  /**
   A message that is still in the cache, whatever was evicted or moved since it came, is sent as it was
   brought: a subscriber reads its contents and its identifier, if and only if they can be read back.
   */
  lemma SeReenviaLoGuardado(g: Guardado, p: Pedido, minimo: nat)
    requires EsDe(g, p, minimo) && Serializacion.EsContenido(p.contenido) && p.id < Serializacion.U32
    requires g.largo < Serializacion.U32 - 0x200
    ensures 4 <= g.largo <= |g.bytes|
    ensures var r := Serializacion.Serie(Serializacion.TipoDe(p.contenido), g.id, g.bytes[..g.largo]);
            r.Some? && Serializacion.Lectura(Serializacion.TipoDe(p.contenido), r.value)
                         == Some(Serializacion.Esperado(p.contenido, p.id))
            <==> Serializacion.SeLeeBien(p.contenido)
  {
    var imagen, mensaje := Serializacion.ImagenEnCache(p.contenido), g.bytes[..g.largo];
    var sobra := mensaje[|imagen|..];
    assert mensaje == imagen + sobra;
    Serializacion.IdaYVuelta(p.contenido, p.id, sobra);
  }
}
