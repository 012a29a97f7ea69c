/** mover_particion over the message list: which message is next, and what its bytes become. */
module Compactacion {
  import opened Bytes
  import opened Secuencias
  import opened Particiones
  import opened EstadoDeMemoria
  import opened Corrimiento

  function CorreMensaje(m: Mensaje, desde: nat, hasta: nat, d: nat): Mensaje
  {
    m.(particion := Corre(m.particion, desde, hasta, d))
  }

  function CorreMensajes(ms: seq<Mensaje>, desde: nat, hasta: nat, d: nat): (r: seq<Mensaje>)
    ensures |r| == |ms|
  {
    seq(|ms|, k requires 0 <= k < |ms| => CorreMensaje(ms[k], desde, hasta, d))
  }

  /** The messages once those between the free partitions a and b have been moved up to a's start. */
  function Acercados(ms: seq<Mensaje>, a: Bloque, b: Bloque): (r: seq<Mensaje>)
    ensures |r| == |ms|
  {
    CorreMensajes(ms, a.Fin(), b.pos, a.tam)
  }

  lemma BloquesCorridos(ms: seq<Mensaje>, desde: nat, hasta: nat, d: nat)
    ensures Bloques(CorreMensajes(ms, desde, hasta, d)) == CorreTodos(Bloques(ms), desde, hasta, d)
  {
  }

  /** No message straddles e. */
  ghost predicate Borde(ms: seq<Mensaje>, e: nat)
  {
    forall k :: 0 <= k < |ms| ==> e <= ms[k].particion.pos || ms[k].particion.Fin() <= e
  }

  ghost predicate Mosaiquea(libres: set<Bloque>, ms: seq<Mensaje>, n: nat)
  {
    SinRepetidos(Bloques(ms)) && Mosaico(libres, Usados(ms), n)
  }

  lemma EnUsados(ms: seq<Mensaje>, k: nat)
    requires k < |ms|
    ensures ms[k].particion in Usados(ms)
  {
    assert Bloques(ms)[k] == ms[k].particion;
  }

  lemma BordeInicial(libres: set<Bloque>, ms: seq<Mensaje>, n: nat, a: Bloque)
    requires Mosaiquea(libres, ms, n) && a in libres
    ensures Borde(ms, a.Fin())
  {
    forall k | 0 <= k < |ms|
      ensures a.Fin() <= ms[k].particion.pos || ms[k].particion.Fin() <= a.Fin()
    {
      EnUsados(ms, k);
      assert Disjuntos(a, ms[k].particion);
    }
  }

  /** While the next free partition is not reached, some message starts at e. */
  lemma HayMensajeEn(libres: set<Bloque>, ms: seq<Mensaje>, n: nat, a: Bloque, b: Bloque, e: nat) returns (k: nat)
    requires Mosaiquea(libres, ms, n) && Consecutivas(libres, a, b)
    requires a.Fin() <= e < b.pos && Borde(ms, e)
    ensures k < |ms| && ms[k].particion.pos == e
  {
    assert Cubierto(e, libres + Usados(ms));
    var u :| u in libres + Usados(ms) && u.Tiene(e);
    assert u in Usados(ms);
    k :| 0 <= k < |ms| && Bloques(ms)[k] == u;
  }

  /** Passing over the message at e moves the border to its end. */
  lemma PasarMensaje(libres: set<Bloque>, ms: seq<Mensaje>, n: nat, a: Bloque, b: Bloque, e: nat, k: nat)
    requires Mosaiquea(libres, ms, n) && Consecutivas(libres, a, b)
    requires a.Fin() <= e < b.pos && k < |ms| && ms[k].particion.pos == e
    ensures e < ms[k].particion.Fin() <= b.pos
    ensures Borde(ms, ms[k].particion.Fin())
    ensures forall j :: 0 <= j < |ms| && e <= ms[j].particion.pos < ms[k].particion.Fin() ==> j == k
  {
    var u := ms[k].particion;
    EnUsados(ms, k);
    Ubicacion(libres, Usados(ms), n, a, b, u);
    forall j | 0 <= j < |ms| && j != k
      ensures Disjuntos(ms[j].particion, u) && 0 < ms[j].particion.tam
    {
      EnUsados(ms, j);
      assert Bloques(ms)[j] != Bloques(ms)[k];
    }
  }

  /** One turn of the loop: the message found at e is the only one that moves. */
  lemma CorrerUnoMas(ms: seq<Mensaje>, desde: nat, e: nat, f: nat, d: nat, k: nat, m: Mensaje)
    requires 0 < d <= desde <= e < f && k < |ms|
    requires CorreMensajes(ms, desde, e, d)[k].particion.pos == e
    requires forall j :: 0 <= j < |ms| && e <= ms[j].particion.pos < f ==> j == k
    requires m == ms[k].(particion := Bloque(e - d, ms[k].particion.tam))
    ensures ms[k].particion.pos == e
    ensures CorreMensajes(ms, desde, e, d)[k := m] == CorreMensajes(ms, desde, f, d)
  {
    var r := CorreMensajes(ms, desde, e, d);
    forall j | 0 <= j < |ms|
      ensures r[k := m][j] == CorreMensajes(ms, desde, f, d)[j]
    {
    }
  }

  /** memmove carries every message's bytes along. */
  lemma ImagenCorrida(libres: set<Bloque>, ms: seq<Mensaje>, n: nat, a: Bloque, b: Bloque, c: seq<byte>, c': seq<byte>)
    requires Mosaiquea(libres, ms, n) && Consecutivas(libres, a, b)
    requires |c| == |c'| == n
    requires forall x :: 0 <= x < n && !(a.pos <= x < b.pos - a.tam) ==> c'[x] == c[x]
    requires forall x :: a.pos <= x < b.pos - a.tam ==> c'[x] == c[x + a.tam]
    ensures Imagen(CorreMensajes(ms, a.Fin(), b.pos, a.tam), c') == Imagen(ms, c)
  {
    var ms' := CorreMensajes(ms, a.Fin(), b.pos, a.tam);
    forall k | 0 <= k < |ms|
      ensures Foto(ms'[k], c') == Foto(ms[k], c)
    {
      var u, v := ms[k].particion, ms'[k].particion;
      EnUsados(ms, k);
      Ubicacion(libres, Usados(ms), n, a, b, u);
      assert u.Fin() <= n && v.Fin() <= n;
      assert c'[v.pos..v.Fin()] == c[u.pos..u.Fin()];
    }
  }

  /** Two neighbours of the sorted free list have only messages between them. */
  lemma VecinasConsecutivas(ls: seq<Bloque>, usados: set<Bloque>, n: nat, i: nat)
    requires SinRepetidos(ls) && CanonicoDinamico(Conj(ls), usados, n)
    requires Ordenado(ls, (b: Bloque) => b.pos) && i + 1 < |ls|
    ensures Consecutivas(Conj(ls), ls[i], ls[i + 1]) && ls[i + 1].Fin() <= n
  {
    var libres := Conj(ls);
    var a, b := ls[i], ls[i + 1];
    assert a in libres && b in libres && a != b;
    VecinasOrdenadas(ls, i);
    assert Disjuntos(a, b) && a.Fin() != b.pos;
    forall f | f in libres
      ensures f == a || f == b || f.Fin() <= a.pos || b.Fin() <= f.pos
    {
      assert f.pos <= a.pos || b.pos <= f.pos;
      assert f == a || Disjuntos(f, a);
      assert f == b || Disjuntos(f, b);
    }
  }

  lemma VecinasOrdenadas(ls: seq<Bloque>, i: nat)
    requires Ordenado(ls, (b: Bloque) => b.pos) && i + 1 < |ls|
    ensures ls[i].pos <= ls[i + 1].pos
    ensures forall f :: f in ls ==> f.pos <= ls[i].pos || ls[i + 1].pos <= f.pos
  {
    OrdenadoEsPorInicio(ls);
  }

  ghost predicate PorInicio(ls: seq<Bloque>)
  {
    forall i, j :: 0 <= i < j < |ls| ==> ls[i].pos <= ls[j].pos
  }

  lemma OrdenadoEsPorInicio(ls: seq<Bloque>)
    ensures Ordenado(ls, (b: Bloque) => b.pos) <==> PorInicio(ls)
  {
    var clave := (b: Bloque) => b.pos;
    if PorInicio(ls) {
      forall i, j | 0 <= i < j < |ls|
        ensures clave(ls[i]) <= clave(ls[j])
      {
        assert ls[i].pos <= ls[j].pos;
      }
    }
    if Ordenado(ls, clave) {
      forall i, j | 0 <= i < j < |ls|
        ensures ls[i].pos <= ls[j].pos
      {
        assert clave(ls[i]) <= clave(ls[j]);
      }
    }
  }

  /** The free list once the partition at i has been taken in by its neighbour is still in order. */
  lemma SigueOrdenada(ls: seq<Bloque>, i: nat)
    requires Ordenado(ls, (b: Bloque) => b.pos) && i + 1 < |ls|
    requires ls[i].Fin() <= ls[i + 1].pos
    ensures Ordenado(Quitar(ls[i + 1 := Crecida(ls[i], ls[i + 1])], i), (b: Bloque) => b.pos)
  {
    var r := Quitar(ls[i + 1 := Crecida(ls[i], ls[i + 1])], i);
    OrdenadoEsPorInicio(ls);
    OrdenadoEsPorInicio(r);
    assert forall k :: 0 <= k < i ==> r[k] == ls[k];
    assert forall k :: i < k < |r| ==> r[k] == ls[k + 1];
    assert ls[i].pos <= r[i].pos <= ls[i + 1].pos;
  }

  /** The free bytes of a list of partitions. */
  function SumaTam(ls: seq<Bloque>): nat
  {
    if ls == [] then 0 else ls[0].tam + SumaTam(ls[1..])
  }

  lemma {:induction false} SumaTamQuitar(ls: seq<Bloque>, i: nat)
    requires i < |ls|
    ensures SumaTam(ls) == ls[i].tam + SumaTam(Quitar(ls, i))
  {
    if i == 0 {
      assert Quitar(ls, 0) == ls[1..];
    } else {
      SumaTamQuitar(ls[1..], i - 1);
      assert Quitar(ls, i)[1..] == Quitar(ls[1..], i - 1);
    }
  }

  lemma {:induction false} SumaTamPermutada(s: seq<Bloque>, t: seq<Bloque>)
    requires MismosElementos(s, t)
    ensures SumaTam(s) == SumaTam(t)
    decreases |s|
  {
    if s == [] {
      assert |multiset(t)| == 0;
    } else {
      assert s[0] in multiset(t);
      var i :| 0 <= i < |t| && t[i] == s[0];
      MultisetQuitar(s, 0);
      MultisetQuitar(t, i);
      assert multiset(Quitar(s, 0)) == multiset(s) - multiset{s[0]};
      assert multiset(Quitar(t, i)) == multiset(t) - multiset{s[0]};
      SumaTamPermutada(Quitar(s, 0), Quitar(t, i));
      SumaTamQuitar(s, 0);
      SumaTamQuitar(t, i);
    }
  }

  /** Taking the first partition into the second keeps the sum and the last end. */
  lemma PlegarUna(ls: seq<Bloque>)
    requires |ls| >= 2 && ls[0].Fin() <= ls[1].pos
    ensures var r := Quitar(ls[1 := Crecida(ls[0], ls[1])], 0);
            SumaTam(r) == SumaTam(ls) && r[|r| - 1].Fin() == ls[|ls| - 1].Fin() && |r| == |ls| - 1
  {
    var r := Quitar(ls[1 := Crecida(ls[0], ls[1])], 0);
    assert r == [Crecida(ls[0], ls[1])] + ls[2..];
    assert ls[1..][1..] == ls[2..];
    assert r[1..] == ls[2..];
  }
}
