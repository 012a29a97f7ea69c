/**
 Blocks of the broker's cache and what a set of free blocks must be, given the blocks that
 hold messages. Offsets are relative to CACHE.
 */
module Particiones {
  import opened Potencias

  /** A stretch [pos, pos + tam) of the cache (t_particion_libre, and the partition of a t_msg). */
  datatype Bloque = Bloque(pos: nat, tam: nat) {
    function Fin(): nat { pos + tam }

    predicate Tiene(x: int) { pos <= x < Fin() }

    predicate Dentro(b: Bloque) { b.pos <= pos && Fin() <= b.Fin() }
  }

  predicate Disjuntos(a: Bloque, b: Bloque)
  {
    a.Fin() <= b.pos || b.Fin() <= a.pos
  }

  ghost predicate Libre(b: Bloque, usados: set<Bloque>)
  {
    forall u :: u in usados ==> Disjuntos(b, u)
  }

  ghost predicate Cubierto(x: int, s: set<Bloque>)
  {
    exists b :: b in s && b.Tiene(x)
  }

  /** Free and used blocks tile [0, n): inside it, apart from each other, and leaving no hole. */
  ghost predicate Mosaico(libres: set<Bloque>, usados: set<Bloque>, n: nat)
  {
    && libres !! usados
    && (forall b :: b in libres + usados ==> 0 < b.tam && b.Fin() <= n)
    && (forall a, b :: a in libres + usados && b in libres + usados && a != b ==> Disjuntos(a, b))
    && (forall x :: 0 <= x < n ==> Cubierto(x, libres + usados))
  }

  // ---- dynamic partitions ----

  ghost predicate SinVecinos(libres: set<Bloque>)
  {
    forall a, b :: a in libres && b in libres ==> a.Fin() != b.pos
  }

  ghost predicate CanonicoDinamico(libres: set<Bloque>, usados: set<Bloque>, n: nat)
  {
    Mosaico(libres, usados, n) && SinVecinos(libres)
  }

  // ---- buddy system ----

  predicate Alineado(b: Bloque)
  {
    b.tam > 0 && EsPotencia(b.tam) && b.pos % b.tam == 0
  }

  /** The buddy: to the left of an odd block, to the right of an even one. */
  function Companiero(b: Bloque): Bloque
    requires Alineado(b)
  {
    if (b.pos / b.tam) % 2 == 1 then
      ImparTieneIzquierda(b);
      Bloque(b.pos - b.tam, b.tam)
    else
      Bloque(b.pos + b.tam, b.tam)
  }

  lemma ImparTieneIzquierda(b: Bloque)
    requires Alineado(b) && (b.pos / b.tam) % 2 == 1
    ensures b.tam <= b.pos
  {
  }

  function Unido(b: Bloque): Bloque
    requires Alineado(b)
  {
    var c := Companiero(b);
    Bloque(if b.pos > c.pos then c.pos else b.pos, b.tam + c.tam)
  }

  ghost predicate Alineados(s: set<Bloque>)
  {
    forall b :: b in s ==> Alineado(b)
  }

  ghost predicate SinCompanieros(libres: set<Bloque>)
    requires Alineados(libres)
  {
    forall b :: b in libres ==> Companiero(b) !in libres
  }

  ghost predicate CanonicoBuddy(libres: set<Bloque>, usados: set<Bloque>, n: nat)
  {
    && EsPotencia(n)
    && Mosaico(libres, usados, n)
    && Alineados(libres + usados)
    && SinCompanieros(libres)
  }

  /** Two aligned blocks are apart or nested. */
  lemma Anidados(a: Bloque, b: Bloque)
    requires Alineado(a) && Alineado(b) && a.tam <= b.tam
    ensures Disjuntos(a, b) || a.Dentro(b)
  {
    PotenciaDivide(a.tam, b.tam);
    var m := b.tam / a.tam;
    var i := a.pos / a.tam;
    var j := b.pos / b.tam;
    assert b.tam == m * a.tam;
    assert a.pos == i * a.tam;
    assert b.pos == j * b.tam;
    MultiplosAnidados(i, j, m, a.tam);
  }

  lemma CompanieroEsMutuo(b: Bloque)
    requires Alineado(b)
    ensures Alineado(Companiero(b))
    ensures Companiero(b).tam == b.tam
    ensures Disjuntos(b, Companiero(b))
    ensures Companiero(b) != b
    ensures Companiero(Companiero(b)) == b
  {
    var q := b.pos / b.tam;
    assert b.pos == q * b.tam;
    if q % 2 == 1 {
      ImparTieneIzquierda(b);
      SumaModulo(b.pos - b.tam, b.tam);
    } else {
      SumaModulo(b.pos, b.tam);
    }
  }

  lemma PosicionPar(p: nat, t: nat)
    requires t > 0 && p % t == 0
    ensures (p / t) % 2 == 1 ==> p >= t && (p - t) % (2 * t) == 0
    ensures (p / t) % 2 == 0 ==> p % (2 * t) == 0
  {
    var q := p / t;
    var h := q / 2;
    assert p == q * t;
    if q % 2 == 1 {
      assert (2 * h + 1) * t == h * (2 * t) + t;
    } else {
      assert (2 * h) * t == h * (2 * t);
    }
    Multiplo(2 * t, h);
  }

  lemma UnidoEsAlineado(b: Bloque)
    requires Alineado(b)
    ensures Alineado(Unido(b))
    ensures b.Dentro(Unido(b)) && Companiero(b).Dentro(Unido(b))
    ensures forall x :: Unido(b).Tiene(x) <==> b.Tiene(x) || Companiero(b).Tiene(x)
    ensures Unido(b).tam == 2 * b.tam
  {
    CompanieroEsMutuo(b);
    PosicionPar(b.pos, b.tam);
    assert (2 * b.tam) / 2 == b.tam;
  }

  function MitadIzquierda(b: Bloque): Bloque { Bloque(b.pos, b.tam / 2) }

  function MitadDerecha(b: Bloque): Bloque { Bloque(b.pos + b.tam / 2, b.tam / 2) }

  lemma Mitades(b: Bloque)
    requires Alineado(b) && b.tam > 1
    ensures Alineado(MitadIzquierda(b)) && Alineado(MitadDerecha(b))
    ensures Companiero(MitadIzquierda(b)) == MitadDerecha(b)
    ensures Companiero(MitadDerecha(b)) == MitadIzquierda(b)
  {
    var q := b.pos / b.tam;
    var h := b.tam / 2;
    assert b.pos == q * b.tam;
    assert b.pos == (2 * q) * h by {
      assert q * (2 * h) == (2 * q) * h;
    }
    Multiplo(h, 2 * q);
    SumaModulo(b.pos, h);
  }

  /** In canonical form an aligned stretch without messages lies inside one free block. */
  lemma {:induction false} RegionLibreBuddy(libres: set<Bloque>, usados: set<Bloque>, n: nat, b: Bloque)
      returns (f: Bloque)
    requires CanonicoBuddy(libres, usados, n)
    requires Alineado(b) && b.Fin() <= n && Libre(b, usados)
    ensures f in libres && b.Dentro(f)
    decreases b.tam
  {
    if b.tam == 1 {
      assert Cubierto(b.pos, libres + usados);
      f :| f in libres + usados && f.Tiene(b.pos);
    } else {
      var l, r := MitadIzquierda(b), MitadDerecha(b);
      Mitades(b);
      assert l.Dentro(b) && r.Dentro(b);
      assert Libre(l, usados) && Libre(r, usados);
      var fl := RegionLibreBuddy(libres, usados, n, l);
      var fr := RegionLibreBuddy(libres, usados, n, r);
      if fl.tam < b.tam && fr.tam < b.tam {
        Justo(l, fl, b.tam);
        Justo(r, fr, b.tam);
        assert false;
      }
      f := if fl.tam < b.tam then fr else fl;
      Anidados(b, f);
    }
  }

  /** An aligned block around a half of b, smaller than b, is that half. */
  lemma Justo(h: Bloque, f: Bloque, t: nat)
    requires Alineado(h) && Alineado(f) && h.Dentro(f) && f.tam < t && 2 * h.tam == t
    ensures f == h
  {
    if h.tam < f.tam {
      PotenciaMayorAlMenosDoble(h.tam, f.tam);
    }
  }

  /** The same for dynamic partitions, for any stretch at all. */
  lemma RegionLibreDinamica(libres: set<Bloque>, usados: set<Bloque>, n: nat, b: Bloque)
      returns (f: Bloque)
    requires CanonicoDinamico(libres, usados, n)
    requires 0 < b.tam && b.Fin() <= n && Libre(b, usados)
    ensures f in libres && b.Dentro(f)
  {
    assert Cubierto(b.pos, libres + usados);
    f :| f in libres + usados && f.Tiene(b.pos);
    assert f in libres;
    if f.Fin() < b.Fin() {
      assert Cubierto(f.Fin(), libres + usados);
      var g :| g in libres + usados && g.Tiene(f.Fin());
    }
  }

  /** The buddy free set is a function of the used set. */
  lemma UnicidadBuddy(f1: set<Bloque>, f2: set<Bloque>, usados: set<Bloque>, n: nat)
    requires CanonicoBuddy(f1, usados, n) && CanonicoBuddy(f2, usados, n)
    ensures f1 == f2
  {
    forall b | b in f1
      ensures b in f2
    {
      EnElOtroBuddy(f1, f2, usados, n, b);
    }
    forall b | b in f2
      ensures b in f1
    {
      EnElOtroBuddy(f2, f1, usados, n, b);
    }
  }

  lemma EnElOtroBuddy(f1: set<Bloque>, f2: set<Bloque>, usados: set<Bloque>, n: nat, b: Bloque)
    requires CanonicoBuddy(f1, usados, n) && CanonicoBuddy(f2, usados, n) && b in f1
    ensures b in f2
  {
    var c := RegionLibreBuddy(f2, usados, n, b);
    var d := RegionLibreBuddy(f1, usados, n, c);
    assert d == b by {
      assert b.Tiene(b.pos) && d.Tiene(b.pos);
    }
  }

  /** The dynamic free set is a function of the used set as well. */
  lemma UnicidadDinamica(f1: set<Bloque>, f2: set<Bloque>, usados: set<Bloque>, n: nat)
    requires CanonicoDinamico(f1, usados, n) && CanonicoDinamico(f2, usados, n)
    ensures f1 == f2
  {
    forall b | b in f1
      ensures b in f2
    {
      EnElOtroDinamico(f1, f2, usados, n, b);
    }
    forall b | b in f2
      ensures b in f1
    {
      EnElOtroDinamico(f2, f1, usados, n, b);
    }
  }

  lemma EnElOtroDinamico(f1: set<Bloque>, f2: set<Bloque>, usados: set<Bloque>, n: nat, b: Bloque)
    requires CanonicoDinamico(f1, usados, n) && CanonicoDinamico(f2, usados, n) && b in f1
    ensures b in f2
  {
    var c := RegionLibreDinamica(f2, usados, n, b);
    var d := RegionLibreDinamica(f1, usados, n, c);
    assert d == b by {
      assert b.Tiene(b.pos) && d.Tiene(b.pos);
    }
  }

  /** Without messages the only canonical free set is the whole memory. */
  lemma VacioEsEntera(buddy: bool, libres: set<Bloque>, n: nat)
    requires n > 0
    requires if buddy then CanonicoBuddy(libres, {}, n) else CanonicoDinamico(libres, {}, n)
    ensures libres == {Bloque(0, n)}
  {
    var entera := {Bloque(0, n)};
    assert Mosaico(entera, {}, n) by {
      forall x | 0 <= x < n
        ensures Cubierto(x, entera + {})
      {
        assert Bloque(0, n) in entera + {} && Bloque(0, n).Tiene(x);
      }
    }
    if buddy {
      CompanieroEsMutuo(Bloque(0, n));
      UnicidadBuddy(libres, entera, {}, n);
    } else {
      UnicidadDinamica(libres, entera, {}, n);
    }
  }
}
