/**
 The search for a free partition over the list of messages alone: which free stretches they leave, what a
 compaction makes of them, and which compactions a request comes to before it finds room or crashes.
 */
module BusquedaDeParticion {
  import opened Potencias
  import opened Secuencias
  import opened Particiones
  import opened EstadoDeMemoria
  import opened Corrimiento
  import opened Compactacion

  // ---- the free stretches ----

  /** A stretch where a partition may be placed that lies in no larger one. */
  ghost predicate EsTramo(cfg: Config, n: nat, usados: set<Bloque>, b: Bloque)
  {
    && Hueco(cfg, n, usados, b)
    && forall c :: Hueco(cfg, n, usados, c) && b.Dentro(c) ==> c == b
  }

  ghost function Tramos(cfg: Config, n: nat, ms: seq<Mensaje>): set<Bloque>
  {
    set p: nat, t: nat | p < n && t <= n && EsTramo(cfg, n, Usados(ms), Bloque(p, t)) :: Bloque(p, t)
  }

  lemma SonHuecos(cfg: Config, n: nat, ls: seq<Bloque>, ms: seq<Mensaje>)
    requires Coherente(cfg, n, ls, ms, {})
    ensures forall b :: b in Conj(ls) ==> Hueco(cfg, n, Usados(ms), b)
  {
    assert Usados(ms) + {} == Usados(ms);
  }

  lemma DentroDeUnaLibre(cfg: Config, n: nat, ls: seq<Bloque>, ms: seq<Mensaje>, b: Bloque) returns (f: Bloque)
    requires Coherente(cfg, n, ls, ms, {}) && Hueco(cfg, n, Usados(ms), b)
    ensures f in Conj(ls) && b.Dentro(f)
    ensures forall g :: g in Conj(ls) && g.Dentro(f) ==> g == f
  {
    assert Usados(ms) + {} == Usados(ms);
    if cfg.buddy {
      f := RegionLibreBuddy(Conj(ls), Usados(ms), n, b);
    } else {
      f := RegionLibreDinamica(Conj(ls), Usados(ms), n, b);
    }
    forall g | g in Conj(ls) && g.Dentro(f)
      ensures g == f
    {
      assert g != f ==> Disjuntos(g, f);
    }
  }

  /** The list of free partitions holds the maximal free stretches, each once. */
  lemma LibresSonTramos(cfg: Config, n: nat, ls: seq<Bloque>, ms: seq<Mensaje>)
    requires Coherente(cfg, n, ls, ms, {})
    ensures Conj(ls) == Tramos(cfg, n, ms) && |ls| == |Tramos(cfg, n, ms)|
  {
    hide Coherente, Hueco;
    var tr := Tramos(cfg, n, ms);
    SonHuecos(cfg, n, ls, ms);
    forall b | b in Conj(ls)
      ensures b in tr
    {
      forall c | Hueco(cfg, n, Usados(ms), c) && b.Dentro(c)
        ensures c == b
      {
        var f := DentroDeUnaLibre(cfg, n, ls, ms, c);
      }
      DeHueco(cfg, n, Usados(ms), b);
      assert EsTramo(cfg, n, Usados(ms), Bloque(b.pos, b.tam));
    }
    forall b | b in tr
      ensures b in Conj(ls)
    {
      var f := DentroDeUnaLibre(cfg, n, ls, ms, b);
    }
    CardinalLibres(cfg, n, ls, ms);
  }

  lemma DeHueco(cfg: Config, n: nat, usados: set<Bloque>, b: Bloque)
    requires Hueco(cfg, n, usados, b)
    ensures b.pos < n && 0 < b.tam <= n
  {
  }

  lemma CardinalLibres(cfg: Config, n: nat, ls: seq<Bloque>, ms: seq<Mensaje>)
    requires Coherente(cfg, n, ls, ms, {})
    ensures |Conj(ls)| == |ls|
  {
    CardinalConj(ls);
  }

  // ---- compaction ----

  /** The first two in the order of their positions. */
  ghost predicate SonLasPrimeras(tr: set<Bloque>, a: Bloque, b: Bloque)
  {
    && a in tr && b in tr && a.Fin() < b.pos && 0 < b.tam
    && forall f :: f in tr ==> f == a || f == b || b.Fin() <= f.pos
  }

  /** The messages once the free stretches, k of them, have been folded into the last, the first two at a time. */
  ghost function Plegados(cfg: Config, n: nat, ms: seq<Mensaje>, k: nat): (r: seq<Mensaje>)
    ensures |r| == |ms|
    decreases k
  {
    if k > 1 && exists a, b :: SonLasPrimeras(Tramos(cfg, n, ms), a, b) then
      var a, b :| SonLasPrimeras(Tramos(cfg, n, ms), a, b);
      Plegados(cfg, n, Acercados(ms, a, b), k - 1)
    else ms
  }

  lemma UnaNoSePliega(cfg: Config, n: nat, ms: seq<Mensaje>)
    ensures Plegados(cfg, n, ms, 1) == ms
  {
  }

  ghost function Compactados(cfg: Config, n: nat, ms: seq<Mensaje>): (r: seq<Mensaje>)
    ensures |r| == |ms|
  {
    Plegados(cfg, n, ms, |Tramos(cfg, n, ms)|)
  }

  /** Folding the head pair of the sorted list of free partitions. */
  lemma PlegarLasPrimeras(cfg: Config, n: nat, ls: seq<Bloque>, ms: seq<Mensaje>)
    requires Coherente(cfg, n, ls, ms, {}) && !cfg.buddy && |ls| >= 2 && Ordenado(ls, (b: Bloque) => b.pos)
    ensures Plegados(cfg, n, ms, |ls|) == Plegados(cfg, n, Acercados(ms, ls[0], ls[1]), |ls| - 1)
  {
    hide Mosaico, SinVecinos, Acercados;
    LibresSonTramos(cfg, n, ls, ms);
    SonLasDosPrimeras(cfg, n, ls, ms);
    var tr := Tramos(cfg, n, ms);
    forall a, b | SonLasPrimeras(tr, a, b)
      ensures a == ls[0] && b == ls[1]
    {
      assert ls[0] in tr && ls[1] in tr;
    }
  }

  lemma SonLasDosPrimeras(cfg: Config, n: nat, ls: seq<Bloque>, ms: seq<Mensaje>)
    requires Coherente(cfg, n, ls, ms, {}) && !cfg.buddy && |ls| >= 2 && Ordenado(ls, (b: Bloque) => b.pos)
    ensures SonLasPrimeras(Conj(ls), ls[0], ls[1])
  {
    assert Usados(ms) + {} == Usados(ms);
    VecinasConsecutivas(ls, Usados(ms), n, 0);
    VecinasOrdenadas(ls, 0);
    OrdenadoEsPorInicio(ls);
    forall f | f in Conj(ls)
      ensures f == ls[0] || f == ls[1] || ls[1].Fin() <= f.pos
    {
      var k :| 0 <= k < |ls| && ls[k] == f;
      assert k > 0 ==> ls[0].pos <= ls[k].pos;
    }
  }

  // ---- the requests ----

  /** The order by timestamp that list_sort leaves; what it does with ties is its own. */
  ghost predicate Clasifica(f: seq<Mensaje> -> seq<Mensaje>)
  {
    forall ms :: MismosElementos(f(ms), ms) && Ordenado(f(ms), (m: Mensaje) => m.timestamp)
  }

  /**
   What decides the course of a search: the configuration, the size of the memory, how list_sort
   orders the messages and whether a compaction folds any number of free partitions (`pliega`) or,
   as written in the source, one or two.
   */
  datatype Regla = Regla(cfg: Config, n: nat, clasificar: seq<Mensaje> -> seq<Mensaje>, pliega: bool)

  /** A compaction of these messages does not use a partition that is not there. */
  ghost predicate SePuedeCompactar(r: Regla, ms: seq<Mensaje>)
  {
    1 <= |Tramos(r.cfg, r.n, ms)| && (r.pliega || |Tramos(r.cfg, r.n, ms)| <= 2)
  }

  /** The first-fit or best-fit choice among the free stretches that hold t bytes. */
  ghost predicate Elegida(cfg: Config, tr: set<Bloque>, f: Bloque, t: nat)
  {
    && f in tr && t <= f.tam
    && (forall g :: g in tr && t <= g.tam ==> if cfg.bestFit then f.tam <= g.tam else f.pos <= g.pos)
  }

  /** The block is where the fit of the configuration places it among these messages. */
  ghost predicate EnSuLugar(r: Regla, ms: seq<Mensaje>, b: Bloque)
  {
    exists f :: Elegida(r.cfg, Tramos(r.cfg, r.n, ms), f, b.tam) && b.pos == f.pos
  }

  /** Compaction before an eviction: with the count past the frequency, or with no message left under -1. */
  predicate TocaAntes(cfg: Config, count: nat, cantMensajes: nat)
  {
    && !cfg.buddy
    && ((cfg.frecuencia != -1 && count > cfg.frecuencia) || (cfg.frecuencia == -1 && cantMensajes == 0))
  }

  /** Compaction after an eviction: when as many have been made as the frequency says. */
  predicate TocaDespues(cfg: Config, count: nat)
  {
    !cfg.buddy && count == cfg.frecuencia
  }

  /** The list as the replacement algorithm leaves it before it removes the first. */
  ghost function Cola(r: Regla, ms: seq<Mensaje>): (q: seq<Mensaje>)
    requires Clasifica(r.clasificar)
    ensures MismosElementos(q, ms) && |q| == |ms|
  {
    if r.cfg.fifo then ms
    else
      ConjDePermutacion(r.clasificar(ms), ms);
      r.clasificar(ms)
  }

  /** How a search goes: the messages that each of its compactions meets and, unless it crashes, those left. */
  datatype Marcha = Marcha(compactadas: seq<seq<Mensaje>>, quedan: Option<seq<Mensaje>>)

  ghost function Con(ms: seq<Mensaje>, m: Marcha): Marcha
  {
    Marcha([ms] + m.compactadas, m.quedan)
  }

  /** A turn of the loop, with no room for t bytes and `count` as the source counts the turns. */
  ghost function Vuelta(r: Regla, ms: seq<Mensaje>, t: nat, count: nat): Marcha
    requires Clasifica(r.clasificar)
    decreases |ms|, 1
  {
    if !TocaAntes(r.cfg, count, |ms|) then Desalojo(r, ms, t, count)
    else if !SePuedeCompactar(r, ms) then Marcha([ms], None)
    else
      var c := Compactados(r.cfg, r.n, ms);
      Con(ms, if HayLugar(r.cfg, r.n, c, t) then Marcha([], Some(c)) else Desalojo(r, c, t, 1))
  }

  /** The eviction of a turn, the compaction that may follow it, and the search after them. */
  ghost function Desalojo(r: Regla, ms: seq<Mensaje>, t: nat, count: nat): Marcha
    requires Clasifica(r.clasificar)
    decreases |ms|, 0
  {
    if ms == [] then Marcha([], None)
    else
      var q := Cola(r, ms)[1..];
      if !TocaDespues(r.cfg, count) then
        if HayLugar(r.cfg, r.n, q, t) then Marcha([], Some(q)) else Vuelta(r, q, t, count + 1)
      else if !SePuedeCompactar(r, q) then Marcha([q], None)
      else
        var c := Compactados(r.cfg, r.n, q);
        Con(q, if HayLugar(r.cfg, r.n, c, t) then Marcha([], Some(c)) else Vuelta(r, c, t, count + 1))
  }

  /** A whole search for t bytes. */
  ghost function Busqueda(r: Regla, ms: seq<Mensaje>, t: nat): Marcha
    requires Clasifica(r.clasificar)
  {
    if HayLugar(r.cfg, r.n, ms, t) then Marcha([], Some(ms)) else Vuelta(r, ms, t, 1)
  }

  /** The messages are those the search left and, last and where the fit places it, the one it was made for. */
  ghost predicate TrasGuardar(r: Regla, antes: seq<Mensaje>, t: nat, m: Mensaje, despues: seq<Mensaje>)
    requires Clasifica(r.clasificar)
  {
    var q := Busqueda(r, antes, t).quedan;
    q.Some? && despues == q.value + [m] && m.particion.tam == t && EnSuLugar(r, q.value, m.particion)
  }

  ghost predicate TodasSePueden(r: Regla, cs: seq<seq<Mensaje>>)
  {
    forall k :: 0 <= k < |cs| ==> SePuedeCompactar(r, cs[k])
  }

  /** It ends with room exactly when the request fits the memory and all its compactions can be made. */
  ghost predicate BuenaMarcha(r: Regla, m: Marcha, t: nat)
  {
    && (m.quedan.Some? <==> t <= r.n && TodasSePueden(r, m.compactadas))
    && (m.quedan.Some? ==> HayLugar(r.cfg, r.n, m.quedan.value, t))
  }

  lemma LugarSinMensajes(cfg: Config, n: nat, ms: seq<Mensaje>, t: nat)
    requires t > 0 && (cfg.buddy ==> EsPotencia(t))
    ensures HayLugar(cfg, n, ms, t) ==> t <= n
    ensures t <= n ==> HayLugar(cfg, n, [], t)
  {
    if t <= n {
      assert Bloques([]) == [];
      assert Hueco(cfg, n, Usados([]), Bloque(0, t));
    }
  }

  lemma ConUnaMas(r: Regla, ms: seq<Mensaje>, m: Marcha, t: nat)
    requires BuenaMarcha(r, m, t) && SePuedeCompactar(r, ms)
    ensures BuenaMarcha(r, Con(ms, m), t)
  {
    hide SePuedeCompactar;
    var cs := [ms] + m.compactadas;
    assert forall k :: 0 <= k < |m.compactadas| ==> cs[k + 1] == m.compactadas[k];
    assert cs[0] == ms;
  }

  lemma UnaQueNo(r: Regla, ms: seq<Mensaje>, t: nat)
    requires !SePuedeCompactar(r, ms)
    ensures BuenaMarcha(r, Marcha([ms], None), t)
  {
    assert [ms][0] == ms;
  }

  lemma {:induction false} BuenaVuelta(r: Regla, ms: seq<Mensaje>, t: nat, count: nat)
    requires Clasifica(r.clasificar) && t > 0 && (r.cfg.buddy ==> EsPotencia(t)) && !HayLugar(r.cfg, r.n, ms, t)
    ensures BuenaMarcha(r, Vuelta(r, ms, t, count), t)
    decreases |ms|, 1
  {
    hide SePuedeCompactar, HayLugar, Compactados, Clasifica;
    if !TocaAntes(r.cfg, count, |ms|) {
      BuenDesalojo(r, ms, t, count);
    } else if !SePuedeCompactar(r, ms) {
      UnaQueNo(r, ms, t);
    } else {
      var c := Compactados(r.cfg, r.n, ms);
      LugarSinMensajes(r.cfg, r.n, c, t);
      if !HayLugar(r.cfg, r.n, c, t) {
        BuenDesalojo(r, c, t, 1);
        ConUnaMas(r, ms, Desalojo(r, c, t, 1), t);
      } else {
        ConUnaMas(r, ms, Marcha([], Some(c)), t);
      }
    }
  }

  lemma {:induction false} BuenDesalojo(r: Regla, ms: seq<Mensaje>, t: nat, count: nat)
    requires Clasifica(r.clasificar) && t > 0 && (r.cfg.buddy ==> EsPotencia(t)) && !HayLugar(r.cfg, r.n, ms, t)
    ensures BuenaMarcha(r, Desalojo(r, ms, t, count), t)
    decreases |ms|, 0
  {
    hide SePuedeCompactar, HayLugar, Compactados, Clasifica;
    LugarSinMensajes(r.cfg, r.n, ms, t);
    if ms != [] {
      var q := Cola(r, ms)[1..];
      LugarSinMensajes(r.cfg, r.n, q, t);
      if !TocaDespues(r.cfg, count) {
        if !HayLugar(r.cfg, r.n, q, t) {
          BuenaVuelta(r, q, t, count + 1);
        }
      } else if !SePuedeCompactar(r, q) {
        UnaQueNo(r, q, t);
      } else {
        var c := Compactados(r.cfg, r.n, q);
        LugarSinMensajes(r.cfg, r.n, c, t);
        if !HayLugar(r.cfg, r.n, c, t) {
          BuenaVuelta(r, c, t, count + 1);
          ConUnaMas(r, q, Vuelta(r, c, t, count + 1), t);
        } else {
          ConUnaMas(r, q, Marcha([], Some(c)), t);
        }
      }
    }
  }

  /**
   A search finds room exactly when the request fits the memory and every compaction it comes to meets
   one or two maximal free stretches (or, folding, one at least).
   */
  lemma SeEncuentraSii(r: Regla, ms: seq<Mensaje>, t: nat)
    requires Clasifica(r.clasificar) && t > 0 && (r.cfg.buddy ==> EsPotencia(t))
    ensures BuenaMarcha(r, Busqueda(r, ms, t), t)
  {
    hide SePuedeCompactar, HayLugar, Compactados, Clasifica, Vuelta;
    LugarSinMensajes(r.cfg, r.n, ms, t);
    if !HayLugar(r.cfg, r.n, ms, t) {
      BuenaVuelta(r, ms, t, 1);
    }
  }

  // ---- when compactions are made ----

  ghost predicate TiemposCrecientes(ms: seq<Mensaje>)
  {
    forall i, j :: 0 <= i < j < |ms| ==> ms[i].timestamp < ms[j].timestamp
  }

  /** The replacement algorithm takes the messages as they are listed. */
  ghost predicate EnOrden(cfg: Config, ms: seq<Mensaje>)
  {
    cfg.fifo || TiemposCrecientes(ms)
  }

  lemma PrimeroDelOrden(s: seq<Mensaje>, t: seq<Mensaje>, clave: Mensaje -> int)
    requires MismosElementos(t, s) && Ordenado(t, clave) && TiemposCrecientes(s) && s != [] && t != []
    requires forall m :: clave(m) == m.timestamp
    ensures t[0] == s[0]
  {
    assert s[0] in multiset(t) && t[0] in multiset(s);
    var i :| 0 <= i < |t| && t[i] == s[0];
    var j :| 0 <= j < |s| && s[j] == t[0];
    assert i > 0 ==> clave(t[0]) <= clave(t[i]);
  }

  lemma OrdenadoElResto(t: seq<Mensaje>, clave: Mensaje -> int)
    requires Ordenado(t, clave) && t != []
    ensures Ordenado(t[1..], clave)
  {
    forall a, b | 0 <= a < b < |t| - 1
      ensures clave(t[1..][a]) <= clave(t[1..][b])
    {
      assert clave(t[a + 1]) <= clave(t[b + 1]);
    }
  }

  lemma MismoResto(s: seq<Mensaje>, t: seq<Mensaje>)
    requires MismosElementos(t, s) && s != [] && t != [] && s[0] == t[0]
    ensures MismosElementos(t[1..], s[1..])
  {
    assert t == [t[0]] + t[1..] && s == [s[0]] + s[1..];
    assert multiset(t[1..]) == multiset(t) - multiset{t[0]};
    assert multiset(s[1..]) == multiset(s) - multiset{t[0]};
  }

  /** Of messages used at different times there is one order by timestamp. */
  lemma {:induction false} UnSoloOrden(s: seq<Mensaje>, t: seq<Mensaje>, clave: Mensaje -> int)
    requires MismosElementos(t, s) && Ordenado(t, clave) && TiemposCrecientes(s)
    requires forall m :: clave(m) == m.timestamp
    ensures t == s
    decreases |s|
  {
    hide Ordenado;
    ConjDePermutacion(t, s);
    if s != [] {
      PrimeroDelOrden(s, t, clave);
      OrdenadoElResto(t, clave);
      MismoResto(s, t);
      UnSoloOrden(s[1..], t[1..], clave);
    }
  }

  lemma ColaEnOrden(r: Regla, ms: seq<Mensaje>)
    requires Clasifica(r.clasificar) && EnOrden(r.cfg, ms)
    ensures Cola(r, ms) == ms
  {
    if !r.cfg.fifo {
      UnSoloOrden(ms, r.clasificar(ms), (m: Mensaje) => m.timestamp);
    }
  }

  /** Until the frequency is reached, evictions follow the list and nothing moves. */
  lemma {:induction false} DesalojosSeguidos(r: Regla, ms: seq<Mensaje>, t: nat, count: nat, k: nat)
    requires Clasifica(r.clasificar) && EnOrden(r.cfg, ms) && 1 <= count && k <= |ms|
    requires r.cfg.buddy || r.cfg.frecuencia == -1 || r.cfg.frecuencia >= count + k
    requires SinLugarAntes(r.cfg, r.n, ms, k, t)
    requires !HayLugar(r.cfg, r.n, ms[k..], t)
    ensures Vuelta(r, ms, t, count) == Vuelta(r, ms[k..], t, count + k)
    decreases k
  {
    hide SePuedeCompactar, HayLugar, Compactados, Clasifica, Cola;
    if k == 0 {
      assert ms[0..] == ms;
    } else {
      var q := ms[1..];
      ColaEnOrden(r, ms);
      forall j | 0 <= j < k - 1
        ensures !HayLugar(r.cfg, r.n, q[j..], t)
      {
        assert q[j..] == ms[j + 1..];
      }
      assert q[k - 1..] == ms[k..] && q == q[0..];
      DesalojosSeguidos(r, q, t, count + 1, k - 1);
    }
  }

  /**
   The first compaction of a request meets the messages left once the first of the list, as many as the
   frequency says, have gone; and none is made if room appears before.
   */
  lemma LaPrimeraCompactacion(r: Regla, ms: seq<Mensaje>, t: nat, k: nat)
    requires Clasifica(r.clasificar) && !r.cfg.buddy && EnOrden(r.cfg, ms) && 1 <= r.cfg.frecuencia && k <= |ms|
    requires SinLugarAntes(r.cfg, r.n, ms, k, t)
    ensures k == r.cfg.frecuencia ==>
              Busqueda(r, ms, t).compactadas != [] && Busqueda(r, ms, t).compactadas[0] == ms[k..]
    ensures k < r.cfg.frecuencia && HayLugar(r.cfg, r.n, ms[k..], t) ==> Busqueda(r, ms, t) == Marcha([], Some(ms[k..]))
  {
    hide SePuedeCompactar, HayLugar, Compactados, Clasifica, Cola;
    assert ms[0..] == ms;
    if 0 < k <= r.cfg.frecuencia {
      LaUltimaAntes(r, ms, t, k);
    }
  }

  /** The k-th eviction of a request that has not compacted yet. */
  lemma LaUltimaAntes(r: Regla, ms: seq<Mensaje>, t: nat, k: nat)
    requires Clasifica(r.clasificar) && EnOrden(r.cfg, ms) && 1 <= k <= |ms|
    requires r.cfg.buddy || r.cfg.frecuencia == -1 || r.cfg.frecuencia >= k
    requires SinLugarAntes(r.cfg, r.n, ms, k, t)
    ensures Busqueda(r, ms, t) == Desalojo(r, ms[k - 1..], t, k)
    ensures Cola(r, ms[k - 1..])[1..] == ms[k..]
  {
    hide SePuedeCompactar, HayLugar, Compactados, Clasifica, Cola;
    assert ms[0..] == ms;
    DesalojosSeguidos(r, ms, t, 1, k - 1);
    ColaEnOrden(r, ms[k - 1..]);
    assert ms[k - 1..][1..] == ms[k..];
  }

  /** With buddies, or with a frequency of -1, room is made by evictions alone: the fewest, in order. */
  lemma SoloDesalojos(r: Regla, ms: seq<Mensaje>, t: nat, k: nat)
    requires Clasifica(r.clasificar) && EnOrden(r.cfg, ms) && k <= |ms|
    requires r.cfg.buddy || r.cfg.frecuencia == -1
    requires SinLugarAntes(r.cfg, r.n, ms, k, t) && HayLugar(r.cfg, r.n, ms[k..], t)
    ensures Busqueda(r, ms, t) == Marcha([], Some(ms[k..]))
  {
    hide SePuedeCompactar, HayLugar, Compactados, Clasifica, Cola;
    assert ms[0..] == ms;
    if 0 < k {
      LaUltimaAntes(r, ms, t, k);
    }
  }

  /**
   After as many evictions as the frequency says there is a compaction; if it makes no room, there is another
   at once, and the search goes on from what that leaves as if it were a new one.
   */
  lemma DespuesDeCompactar(r: Regla, ms: seq<Mensaje>, t: nat, f: nat, c: seq<Mensaje>)
    requires Clasifica(r.clasificar) && !r.cfg.buddy && EnOrden(r.cfg, ms)
    requires 1 <= f <= |ms| && r.cfg.frecuencia == f
    requires SinLugarAntes(r.cfg, r.n, ms, f, t)
    requires SePuedeCompactar(r, ms[f..]) && c == Compactados(r.cfg, r.n, ms[f..])
    ensures HayLugar(r.cfg, r.n, c, t) ==> Busqueda(r, ms, t) == Marcha([ms[f..]], Some(c))
    ensures !HayLugar(r.cfg, r.n, c, t) && !SePuedeCompactar(r, c) ==> Busqueda(r, ms, t) == Marcha([ms[f..], c], None)
    ensures !HayLugar(r.cfg, r.n, c, t) && SePuedeCompactar(r, c) ==>
              var resto := Busqueda(r, Compactados(r.cfg, r.n, c), t);
              Busqueda(r, ms, t) == Marcha([ms[f..], c] + resto.compactadas, resto.quedan)
  {
    hide SePuedeCompactar, HayLugar, Compactados, Clasifica, Cola;
    LaUltimaAntes(r, ms, t, f);
    if !HayLugar(r.cfg, r.n, c, t) && SePuedeCompactar(r, c) {
      var resto := Busqueda(r, Compactados(r.cfg, r.n, c), t);
      assert [ms[f..], c] + resto.compactadas == [ms[f..]] + ([c] + resto.compactadas);
    }
  }

  /** With a frequency of 0 there is a compaction before each eviction. */
  lemma AntesDeCadaUno(r: Regla, ms: seq<Mensaje>, t: nat, c: seq<Mensaje>)
    requires Clasifica(r.clasificar) && !r.cfg.buddy && r.cfg.frecuencia == 0
    requires !HayLugar(r.cfg, r.n, ms, t) && SePuedeCompactar(r, ms)
    requires c == Compactados(r.cfg, r.n, ms) && EnOrden(r.cfg, c)
    ensures HayLugar(r.cfg, r.n, c, t) ==> Busqueda(r, ms, t) == Marcha([ms], Some(c))
    ensures !HayLugar(r.cfg, r.n, c, t) && c != [] ==>
              var resto := Busqueda(r, c[1..], t);
              Busqueda(r, ms, t) == Marcha([ms] + resto.compactadas, resto.quedan)
  {
    hide SePuedeCompactar, HayLugar, Compactados, Clasifica, Cola;
    ColaEnOrden(r, c);
    if !HayLugar(r.cfg, r.n, c, t) && c != [] {
      assert Vuelta(r, c[1..], t, 2) == Vuelta(r, c[1..], t, 1);
      assert Desalojo(r, c, t, 1) == Busqueda(r, c[1..], t);
    }
  }
}
