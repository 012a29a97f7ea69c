/**
 The state the broker's cache must be in, as predicates over its two lists: the free
 partitions and the stored messages.
 */
module EstadoDeMemoria {
  import opened Bytes
  import opened Potencias
  import opened Secuencias
  import opened Particiones

  /** The '_' that memset leaves in free bytes. */
  const VACIO: byte := 95

  /**
   The keys of broker.config that decide allocation. `frecuencia` is FRECUENCIA_COMPACTACION,
   where -1 means to compact only once no message is left.
   */
  datatype Config = Config(buddy: bool, bestFit: bool, fifo: bool, frecuencia: int)

  /** What memset does to the bytes of a partition. */
  ghost predicate EnBlanco(antes: seq<byte>, despues: seq<byte>, b: Bloque)
  {
    |antes| == |despues| && forall x :: 0 <= x < |antes| ==> despues[x] == if b.Tiene(x) then VACIO else antes[x]
  }

  ghost predicate IgualOEnBlanco(antes: seq<byte>, despues: seq<byte>)
  {
    |antes| == |despues| && forall x :: 0 <= x < |antes| ==> despues[x] == antes[x] || despues[x] == VACIO
  }

  lemma IgualEsIgualOEnBlanco(c: seq<byte>)
    ensures IgualOEnBlanco(c, c)
  {
  }

  /** Nothing of a message that is gone is left: the bytes of no used partition are blank. */
  ghost predicate Limpia(cache: seq<byte>, usados: set<Bloque>)
  {
    forall x :: 0 <= x < |cache| ==> cache[x] == VACIO || Cubierto(x, usados)
  }

  lemma LimpiaAlReservar(antes: seq<byte>, despues: seq<byte>, usados: set<Bloque>, mas: set<Bloque>)
    requires Limpia(antes, usados) && IgualOEnBlanco(antes, despues)
    ensures Limpia(despues, usados + mas)
  {
    forall x | 0 <= x < |antes| && Cubierto(x, usados)
      ensures Cubierto(x, usados + mas)
    {
      var b :| b in usados && b.Tiene(x);
      assert b in usados + mas;
    }
  }

  lemma LimpiaAlLiberar(antes: seq<byte>, despues: seq<byte>, usados: set<Bloque>, b: Bloque)
    requires Limpia(antes, usados + {b}) && EnBlanco(antes, despues, b)
    ensures Limpia(despues, usados)
  {
    forall x | 0 <= x < |antes| && !b.Tiene(x) && Cubierto(x, usados + {b})
      ensures Cubierto(x, usados)
    {
      var u :| u in usados + {b} && u.Tiene(x);
      assert u in usados;
    }
  }

  /** With the free bytes blank there is nothing left outside the messages. */
  lemma LimpiaPorLasLibres(cache: seq<byte>, libres: set<Bloque>, usados: set<Bloque>)
    requires Mosaico(libres, usados, |cache|)
    requires forall f, x :: f in libres && 0 <= x < |cache| && f.Tiene(x) ==> cache[x] == VACIO
    ensures Limpia(cache, usados)
  {
    forall x | 0 <= x < |cache| && cache[x] != VACIO
      ensures Cubierto(x, usados)
    {
      assert Cubierto(x, libres + usados);
      var b :| b in libres + usados && b.Tiene(x);
      assert b in usados;
    }
  }

  /** A t_msg: `largo` is mensaje_length; `particion` holds mensaje and particion_length. */
  datatype Mensaje = Mensaje(id: nat, timestamp: nat, codOp: nat, largo: nat, particion: Bloque)

  /** What a stored message is to its readers, wherever its partition lies. */
  datatype Guardado = Guardado(id: nat, timestamp: nat, codOp: nat, largo: nat, tam: nat, bytes: seq<byte>)

  function Bloques(ms: seq<Mensaje>): seq<Bloque>
  {
    seq(|ms|, i requires 0 <= i < |ms| => ms[i].particion)
  }

  function Foto(m: Mensaje, cache: seq<byte>): Guardado
  {
    Guardado(m.id, m.timestamp, m.codOp, m.largo, m.particion.tam,
             if m.particion.Fin() <= |cache| then cache[m.particion.pos..m.particion.Fin()] else [])
  }

  function Imagen(ms: seq<Mensaje>, cache: seq<byte>): (r: seq<Guardado>)
    ensures |r| == |ms|
  {
    seq(|ms|, i requires 0 <= i < |ms| => Foto(ms[i], cache))
  }

  /** The bytes written at the start of a partition are the first of its message. */
  lemma FotoDeLoEscrito(m: Mensaje, cache: seq<byte>, datos: seq<byte>)
    requires m.particion.Fin() <= |cache| && |datos| <= m.particion.tam
    requires cache[m.particion.pos..m.particion.pos + |datos|] == datos
    ensures |Foto(m, cache).bytes| == m.particion.tam && Foto(m, cache).bytes[..|datos|] == datos
  {
  }

  /** Bytes outside every partition do not show in the image. */
  lemma ImagenIgual(ms: seq<Mensaje>, c: seq<byte>, d: seq<byte>)
    requires |c| == |d|
    requires forall k, x :: 0 <= k < |ms| && 0 <= x < |c| && ms[k].particion.Tiene(x) ==> c[x] == d[x]
    ensures Imagen(ms, c) == Imagen(ms, d)
  {
    forall k | 0 <= k < |ms|
      ensures Foto(ms[k], c) == Foto(ms[k], d)
    {
      var p := ms[k].particion;
      if p.Fin() <= |c| {
        assert forall x :: p.pos <= x < p.Fin() ==> p.Tiene(x);
        assert c[p.pos..p.Fin()] == d[p.pos..p.Fin()];
      }
    }
  }

  ghost predicate Canonico(buddy: bool, libres: set<Bloque>, usados: set<Bloque>, n: nat)
  {
    if buddy then CanonicoBuddy(libres, usados, n) else CanonicoDinamico(libres, usados, n)
  }

  ghost function Usados(ms: seq<Mensaje>): set<Bloque>
  {
    Conj(Bloques(ms))
  }

  ghost predicate ConfigValida(cfg: Config, n: nat)
  {
    && n > 0
    && (cfg.buddy ==> EsPotencia(n) && n >= 2)
    && cfg.frecuencia >= -1
  }

  /**
   The invariant of PARTICIONES_LIBRES (ls) and MENSAJES (ms). `reservados` is the partition
   handed out by the search and not yet added to MENSAJES, if any.
   */
  ghost predicate Coherente(cfg: Config, n: nat, ls: seq<Bloque>, ms: seq<Mensaje>, reservados: set<Bloque>)
  {
    && ConfigValida(cfg, n)
    && SinRepetidos(ls)
    && SinRepetidos(Bloques(ms))
    && Usados(ms) !! reservados
    && Canonico(cfg.buddy, Conj(ls), Usados(ms) + reservados, n)
    && (forall m :: m in ms ==> m.largo <= m.particion.tam && (cfg.buddy || m.largo == m.particion.tam))
  }

  /** obtener_tam_particion: the size of the partition for a message of `tam` bytes. */
  function Redondeo(cfg: Config, tam: nat): (r: nat)
    ensures r >= tam
    ensures cfg.buddy ==> r >= 2 && EsPotencia(r)
  {
    if cfg.buddy then
      PotenciaDePow2(Exponente(tam));
      Pow2(Exponente(tam))
    else
      tam
  }

  /** t is the least power of two of at least 2 that holds tam bytes. */
  ghost predicate EsLaMenorPotencia(t: nat, tam: nat)
  {
    && EsPotencia(t) && t >= 2 && t >= tam
    && forall p: nat :: EsPotencia(p) && p >= 2 && p >= tam ==> t <= p
  }

  /** Some power of two of at least 2 holds tam bytes and fits in n. */
  ghost predicate HayPotencia(tam: nat, n: nat)
  {
    exists p: nat :: EsPotencia(p) && p >= 2 && tam <= p <= n
  }

  /** What a partition takes: the bytes of the message or, with buddies, the least power of two that holds them. */
  lemma RedondeoEsElMenor(cfg: Config, tam: nat, n: nat)
    ensures !cfg.buddy ==> Redondeo(cfg, tam) == tam
    ensures cfg.buddy ==> EsLaMenorPotencia(Redondeo(cfg, tam), tam)
    ensures cfg.buddy ==> (Redondeo(cfg, tam) <= n <==> HayPotencia(tam, n))
  {
    if cfg.buddy {
      forall p: nat | EsPotencia(p) && p >= 2 && p >= tam
        ensures Redondeo(cfg, tam) <= p
      {
        RedondeoMinimo(tam, p);
      }
    }
  }

  /** The search rounds the size it is given, which obtener_tam_particion has rounded already. */
  lemma RedondeoIdempotente(cfg: Config, tam: nat)
    ensures Redondeo(cfg, Redondeo(cfg, tam)) == Redondeo(cfg, tam)
  {
    if cfg.buddy {
      RedondeoDePotencia(Redondeo(cfg, tam));
    }
  }

  /** A stretch no message touches where a partition of that size may be placed. */
  ghost predicate Hueco(cfg: Config, n: nat, usados: set<Bloque>, b: Bloque)
  {
    && 0 < b.tam && b.Fin() <= n
    && (cfg.buddy ==> Alineado(b))
    && Libre(b, usados)
  }

  ghost predicate HayLugar(cfg: Config, n: nat, ms: seq<Mensaje>, t: nat)
  {
    exists p: nat :: Hueco(cfg, n, Usados(ms), Bloque(p, t))
  }

  /** A free block is large enough exactly when the messages leave room. */
  lemma HayLugarSiiHayLibre(cfg: Config, n: nat, ls: seq<Bloque>, ms: seq<Mensaje>, t: nat)
    requires Coherente(cfg, n, ls, ms, {})
    requires t > 0 && (cfg.buddy ==> EsPotencia(t))
    ensures HayLugar(cfg, n, ms, t) <==> exists f :: f in ls && t <= f.tam
  {
    hide SinVecinos, SinCompanieros, SinRepetidos, Cubierto;
    var libres, usados := Conj(ls), Usados(ms);
    assert usados + {} == usados;
    if HayLugar(cfg, n, ms, t) {
      var p: nat :| Hueco(cfg, n, usados, Bloque(p, t));
      var f: Bloque;
      if cfg.buddy {
        f := RegionLibreBuddy(libres, usados, n, Bloque(p, t));
      } else {
        f := RegionLibreDinamica(libres, usados, n, Bloque(p, t));
      }
      assert f in ls && t <= f.tam;
    }
    if exists f :: f in ls && t <= f.tam {
      var f :| f in ls && t <= f.tam;
      assert f in libres;
      if cfg.buddy {
        PotenciaDivide(t, f.tam);
        MultiploDeDivisor(f.pos, f.tam, t);
      }
      assert Hueco(cfg, n, usados, Bloque(f.pos, t));
    }
  }

  lemma MultiploDeDivisor(p: nat, s: nat, t: nat)
    requires t > 0 && s > 0 && p % s == 0 && s % t == 0
    ensures p % t == 0
  {
    var i, j := p / s, s / t;
    assert p == i * s && s == j * t;
    assert i * (j * t) == (i * j) * t;
    Multiplo(t, i * j);
  }

  lemma BloquesQuitar(ms: seq<Mensaje>, i: nat)
    requires i < |ms|
    ensures Bloques(Quitar(ms, i)) == Quitar(Bloques(ms), i)
  {
  }

  lemma BloquesAgregar(ms: seq<Mensaje>, m: Mensaje)
    ensures Bloques(ms + [m]) == Bloques(ms) + [m.particion]
  {
  }

  /** Reordering the message list keeps the invariant. */
  lemma CoherenteReordenado(cfg: Config, n: nat, ls: seq<Bloque>, ms: seq<Mensaje>, ms': seq<Mensaje>)
    requires Coherente(cfg, n, ls, ms, {}) && MismosElementos(ms, ms')
    ensures Coherente(cfg, n, ls, ms', {})
  {
    ConjDePermutacion(ms, ms');
    BloquesPermutados(ms, ms');
    ConjDePermutacion(Bloques(ms), Bloques(ms'));
    forall m | m in ms'
      ensures m in ms
    {
      assert m in Conj(ms');
    }
  }

  lemma BloquesPermutados(ms: seq<Mensaje>, ms': seq<Mensaje>)
    requires MismosElementos(ms, ms')
    ensures MismosElementos(Bloques(ms), Bloques(ms'))
  {
    var f := (m: Mensaje) => m.particion;
    MapearPermutado(ms, ms', f);
    assert Bloques(ms) == Mapear(ms, f) && Bloques(ms') == Mapear(ms', f);
  }

  lemma ImagenPermutada(ms: seq<Mensaje>, ms': seq<Mensaje>, cache: seq<byte>)
    requires MismosElementos(ms, ms')
    ensures MismosElementos(Imagen(ms, cache), Imagen(ms', cache))
  {
    var f := (m: Mensaje) => Foto(m, cache);
    MapearPermutado(ms, ms', f);
    assert Imagen(ms, cache) == Mapear(ms, f) && Imagen(ms', cache) == Mapear(ms', f);
  }

  /** Taking the first message off the list leaves its partition reserved. */
  lemma SacarPrimero(cfg: Config, n: nat, ls: seq<Bloque>, ms: seq<Mensaje>)
    requires Coherente(cfg, n, ls, ms, {}) && ms != []
    ensures Coherente(cfg, n, ls, ms[1..], {ms[0].particion})
    ensures Libre(ms[0].particion, Usados(ms[1..])) && ms[0].particion.Fin() <= n
  {
    BloquesQuitar(ms, 0);
    assert Quitar(ms, 0) == ms[1..];
    ConjQuitar(Bloques(ms), 0);
    var p := ms[0].particion;
    assert p == Bloques(ms)[0];
    assert p in Usados(ms);
    assert Usados(ms[1..]) + {p} == Usados(ms) + {};
  }

  /** Adding the message for a reserved partition. */
  lemma PonerUltimo(cfg: Config, n: nat, ls: seq<Bloque>, ms: seq<Mensaje>, m: Mensaje)
    requires Coherente(cfg, n, ls, ms, {m.particion})
    requires m.largo <= m.particion.tam && (cfg.buddy || m.largo == m.particion.tam)
    ensures Coherente(cfg, n, ls, ms + [m], {}) && Usados(ms + [m]) + {} == Usados(ms) + {m.particion}
  {
    BloquesAgregar(ms, m);
    assert m.particion !in Bloques(ms) by {
      assert m.particion !in Usados(ms);
    }
    ConjAgregar(Bloques(ms), m.particion);
    assert Usados(ms + [m]) + {} == Usados(ms) + {m.particion};
  }

  /** An eviction blanks the partition of the message it takes, so nothing is left of it. */
  lemma QuedaLimpia(cola: seq<Mensaje>, ms: seq<Mensaje>, c: seq<byte>, c': seq<byte>)
    requires MismosElementos(cola, ms) && cola != [] && Limpia(c, Usados(ms) + {})
    requires EnBlanco(c, c', cola[0].particion)
    ensures Limpia(c', Usados(cola[1..]) + {})
  {
    BloquesPermutados(ms, cola);
    ConjDePermutacion(Bloques(ms), Bloques(cola));
    var usados := Usados(cola[1..]);
    assert Bloques(cola) == [cola[0].particion] + Bloques(cola[1..]);
    assert Usados(ms) + {} == usados + {cola[0].particion} && usados + {} == usados;
    LimpiaAlLiberar(c, c', usados, cola[0].particion);
  }

  lemma SinMensajesUnaLibre(cfg: Config, n: nat, ls: seq<Bloque>)
    requires Coherente(cfg, n, ls, [], {})
    ensures ls == [Bloque(0, n)]
  {
    assert Usados([]) + {} == {};
    VacioEsEntera(cfg.buddy, Conj(ls), n);
    CardinalConj(ls);
    assert ls[0] in Conj(ls);
  }

  /** The free partitions depend on the partitions of the messages alone, not on how they came to be there. */
  lemma LibresSegunUsados(cfg: Config, n: nat, ls: seq<Bloque>, ms: seq<Mensaje>, ls': seq<Bloque>, ms': seq<Mensaje>)
    requires Coherente(cfg, n, ls, ms, {}) && Coherente(cfg, n, ls', ms', {}) && Usados(ms) == Usados(ms')
    ensures Conj(ls) == Conj(ls')
  {
    if cfg.buddy {
      UnicidadBuddy(Conj(ls), Conj(ls'), Usados(ms) + {}, n);
    } else {
      UnicidadDinamica(Conj(ls), Conj(ls'), Usados(ms) + {}, n);
    }
  }

  /** With no message left there is room exactly for what fits the whole memory. */
  lemma SinMensajesHayLugar(cfg: Config, n: nat, ls: seq<Bloque>, t: nat)
    requires Coherente(cfg, n, ls, [], {}) && t > 0 && (cfg.buddy ==> EsPotencia(t))
    ensures HayLugar(cfg, n, [], t) <==> t <= n
  {
    SinMensajesUnaLibre(cfg, n, ls);
    HayLugarSiiHayLibre(cfg, n, ls, [], t);
    assert ls[0] in ls;
  }

  /** With a message left there is no room for the whole memory. */
  lemma ConMensajesNoEntraTodo(cfg: Config, n: nat, ls: seq<Bloque>, ms: seq<Mensaje>, reservados: set<Bloque>)
    requires Coherente(cfg, n, ls, ms, reservados) && ms != []
    ensures !HayLugar(cfg, n, ms, n)
  {
    var u := ms[0].particion;
    assert Bloques(ms)[0] == u && u in Usados(ms) + reservados;
    assert forall p: nat :: Hueco(cfg, n, Usados(ms), Bloque(p, n)) ==> Disjuntos(Bloque(p, n), u);
  }

  // ---- replacement order ----

  /**
   `orden` is the order in which the elements of `antes` are given up, k of them so far: list
   order under FIFO, some order by timestamp under LRU.
   */
  ghost predicate Reemplazo<T>(fifo: bool, antes: seq<T>, orden: seq<T>, k: nat, clave: T -> int)
  {
    && k <= |orden|
    && MismosElementos(orden, antes)
    && (fifo || k == 0 ==> orden == antes)
    && (!fifo && k > 0 ==> Ordenado(orden, clave))
  }

  /** Under LRU each eviction sorts what is left again. */
  lemma UnReemplazoMas<T>(fifo: bool, antes: seq<T>, orden: seq<T>, k: nat, cola: seq<T>, clave: T -> int)
      returns (orden': seq<T>)
    requires Reemplazo(fifo, antes, orden, k, clave) && k < |orden|
    requires if fifo then cola == orden[k..] else MismosElementos(cola, orden[k..]) && Ordenado(cola, clave)
    ensures orden' == orden[..k] + cola
    ensures Reemplazo(fifo, antes, orden', k + 1, clave)
    ensures cola != [] && orden'[k + 1..] == cola[1..]
    ensures orden'[k..] == cola
  {
    orden' := orden[..k] + cola;
    ConjDePermutacion(cola, orden[k..]);
    assert orden == orden[..k] + orden[k..];
    if !fifo {
      forall i, j | 0 <= i < j < |orden'|
        ensures clave(orden'[i]) <= clave(orden'[j])
      {
        if i < k {
          if j < k {
            assert clave(orden[i]) <= clave(orden[j]);
          } else {
            assert orden'[j] == cola[j - k];
            assert orden'[j] in Conj(cola);
            assert orden'[j] in orden[k..];
            var l :| 0 <= l < |orden| - k && orden[k..][l] == orden'[j];
            assert clave(orden[i]) <= clave(orden[k + l]);
          }
        } else {
          assert clave(cola[i - k]) <= clave(cola[j - k]);
        }
      }
    }
  }

  /** Room depends on the partitions in use, not on the order of the list. */
  lemma HayLugarReordenado(cfg: Config, n: nat, ms: seq<Mensaje>, ms': seq<Mensaje>, t: nat)
    requires MismosElementos(ms, ms')
    ensures HayLugar(cfg, n, ms, t) <==> HayLugar(cfg, n, ms', t)
  {
    BloquesPermutados(ms, ms');
    ConjDePermutacion(Bloques(ms), Bloques(ms'));
  }

  /** After fewer evictions than k, in the given order, no room was left. */
  ghost predicate SinLugarAntes(cfg: Config, n: nat, orden: seq<Mensaje>, k: nat, t: nat)
    requires k <= |orden|
  {
    forall j :: 0 <= j < k ==> !HayLugar(cfg, n, orden[j..], t)
  }

  lemma SinLugarUnoMas(cfg: Config, n: nat, orden: seq<Mensaje>, k: nat, cola: seq<Mensaje>, t: nat)
    requires k < |orden| && MismosElementos(cola, orden[k..])
    requires SinLugarAntes(cfg, n, orden, k, t) && !HayLugar(cfg, n, orden[k..], t)
    ensures |cola| == |orden| - k
    ensures SinLugarAntes(cfg, n, orden[..k] + cola, k + 1, t)
  {
    ConjDePermutacion(cola, orden[k..]);
    var orden' := orden[..k] + cola;
    forall j | 0 <= j < k + 1
      ensures !HayLugar(cfg, n, orden'[j..], t)
    {
      assert orden[j..] == orden[j..k] + orden[k..];
      assert orden'[j..] == orden[j..k] + cola;
      HayLugarReordenado(cfg, n, orden[j..], orden'[j..], t);
    }
  }

  /** What an eviction removed, seen as stored messages. */
  lemma ColaDeGuardados(fifo: bool, previos: seq<Mensaje>, cola: seq<Mensaje>, cache: seq<byte>)
    requires MismosElementos(cola, previos)
    requires if fifo then cola == previos else Ordenado(cola, (m: Mensaje) => m.timestamp)
    ensures MismosElementos(Imagen(cola, cache), Imagen(previos, cache))
    ensures if fifo then Imagen(cola, cache) == Imagen(previos, cache)
            else Ordenado(Imagen(cola, cache), (g: Guardado) => g.timestamp)
  {
    ImagenPermutada(cola, previos, cache);
    var claveM := (m: Mensaje) => m.timestamp;
    var claveG := (g: Guardado) => g.timestamp;
    var im := Imagen(cola, cache);
    if !fifo {
      forall i, j | 0 <= i < j < |im|
        ensures claveG(im[i]) <= claveG(im[j])
      {
        assert claveM(cola[i]) <= claveM(cola[j]);
      }
    }
  }

  /**
   What a request has evicted so far: the first k of `orden`, leaving `guardados`. In buddy mode,
   where nothing moves, the same over the message list, and no shorter prefix would have done.
   */
  ghost predicate Historia(cfg: Config, n: nat, guardados0: seq<Guardado>, mensajes0: seq<Mensaje>, t: nat,
                           orden: seq<Guardado>, ordenMensajes: seq<Mensaje>, k: nat,
                           guardados: seq<Guardado>, mensajes: seq<Mensaje>)
  {
    && Reemplazo(cfg.fifo, guardados0, orden, k, (g: Guardado) => g.timestamp)
    && guardados == orden[k..]
    && (cfg.buddy ==>
          && Reemplazo(cfg.fifo, mensajes0, ordenMensajes, k, (m: Mensaje) => m.timestamp)
          && mensajes == ordenMensajes[k..]
          && SinLugarAntes(cfg, n, ordenMensajes, k, t))
  }

  /** One more eviction, from the list `previos`: `cola` is that list as the algorithm ordered it. */
  lemma HistoriaAvanza(cfg: Config, n: nat, guardados0: seq<Guardado>, mensajes0: seq<Mensaje>, t: nat,
                       orden: seq<Guardado>, ordenMensajes: seq<Mensaje>, k: nat,
                       previos: seq<Mensaje>, cache: seq<byte>, cola: seq<Mensaje>,
                       guardados: seq<Guardado>, mensajes: seq<Mensaje>)
      returns (orden': seq<Guardado>, ordenMensajes': seq<Mensaje>)
    requires Historia(cfg, n, guardados0, mensajes0, t, orden, ordenMensajes, k, Imagen(previos, cache), previos)
    requires !HayLugar(cfg, n, previos, t)
    requires MismosElementos(cola, previos) && cola != []
    requires if cfg.fifo then cola == previos else Ordenado(cola, (m: Mensaje) => m.timestamp)
    requires guardados == Imagen(cola, cache)[1..]
    requires cfg.buddy ==> mensajes == cola[1..]
    ensures Historia(cfg, n, guardados0, mensajes0, t, orden', ordenMensajes', k + 1, guardados, mensajes)
  {
    ConjDePermutacion(cola, previos);
    ColaDeGuardados(cfg.fifo, previos, cola, cache);
    orden' := UnReemplazoMas(cfg.fifo, guardados0, orden, k, Imagen(cola, cache), (g: Guardado) => g.timestamp);
    ordenMensajes' := ordenMensajes;
    if cfg.buddy {
      SinLugarUnoMas(cfg, n, ordenMensajes, k, cola, t);
      ordenMensajes' := UnReemplazoMas(cfg.fifo, mensajes0, ordenMensajes, k, cola, (m: Mensaje) => m.timestamp);
    }
  }

  /** Bytes written where no listed message lies, then the message listed, extend the image by it. */
  lemma ImagenAgregada(ms: seq<Mensaje>, m: Mensaje, c: seq<byte>)
    ensures Imagen(ms + [m], c) == Imagen(ms, c) + [Foto(m, c)]
  {
    var im := Imagen(ms + [m], c);
    assert forall k :: 0 <= k < |ms| ==> (ms + [m])[k] == ms[k];
  }
}
