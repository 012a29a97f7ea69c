/**
 mover_particion on the tiling: the messages between two consecutive free partitions slide
 down over the first one, and the second one grows by its size.
 */
module Corrimiento {
  import opened Bytes
  import opened Secuencias
  import opened Particiones

  /** Where a block goes when those starting in [desde, hasta) slide down by d. */
  function Corre(b: Bloque, desde: nat, hasta: nat, d: nat): Bloque
  {
    if desde <= b.pos < hasta && d <= b.pos then Bloque(b.pos - d, b.tam) else b
  }

  function CorreTodos(bs: seq<Bloque>, desde: nat, hasta: nat, d: nat): (r: seq<Bloque>)
    ensures |r| == |bs|
  {
    seq(|bs|, k requires 0 <= k < |bs| => Corre(bs[k], desde, hasta, d))
  }

  /** a and b are free, a before b, with only messages between them. */
  ghost predicate Consecutivas(libres: set<Bloque>, a: Bloque, b: Bloque)
  {
    && a in libres && b in libres && a.Fin() < b.pos
    && (forall f :: f in libres ==> f == a || f == b || f.Fin() <= a.pos || b.Fin() <= f.pos)
  }

  function Crecida(a: Bloque, b: Bloque): Bloque
    requires a.tam <= b.pos
  {
    Bloque(b.pos - a.tam, a.tam + b.tam)
  }

  /** A message lies before a, between a and b, or after b. */
  lemma Ubicacion(libres: set<Bloque>, usados: set<Bloque>, n: nat, a: Bloque, b: Bloque, u: Bloque)
    requires Mosaico(libres, usados, n) && Consecutivas(libres, a, b) && u in usados
    ensures u.Fin() <= a.pos || (a.Fin() <= u.pos && u.Fin() <= b.pos) || b.Fin() <= u.pos
  {
  }

  lemma CorreSeparados(libres: set<Bloque>, usados: set<Bloque>, n: nat, a: Bloque, b: Bloque, u: Bloque, v: Bloque)
    requires Mosaico(libres, usados, n) && Consecutivas(libres, a, b) && u in usados
    requires v in usados && v != u
    ensures Disjuntos(Corre(u, a.Fin(), b.pos, a.tam), Corre(v, a.Fin(), b.pos, a.tam))
  {
    Ubicacion(libres, usados, n, a, b, u);
    Ubicacion(libres, usados, n, a, b, v);
    assert Disjuntos(u, v);
  }

  lemma CorreApartaLibres(libres: set<Bloque>, usados: set<Bloque>, n: nat, a: Bloque, b: Bloque, u: Bloque, f: Bloque)
    requires Mosaico(libres, usados, n) && Consecutivas(libres, a, b) && u in usados
    requires f in libres - {a, b} + {Crecida(a, b)}
    ensures Disjuntos(Corre(u, a.Fin(), b.pos, a.tam), f)
  {
    Ubicacion(libres, usados, n, a, b, u);
    if f in libres {
      assert Disjuntos(u, f);
    }
  }

  lemma LibresSeparadas(libres: set<Bloque>, usados: set<Bloque>, n: nat, a: Bloque, b: Bloque)
    requires Mosaico(libres, usados, n) && Consecutivas(libres, a, b)
    ensures Crecida(a, b) !in libres - {a, b}
    ensures forall f :: f in libres - {a, b} ==> Disjuntos(f, Crecida(a, b))
  {
  }

  /** Every byte is still in some block: the one that held the byte it comes from. */
  lemma CorreCubre(libres: set<Bloque>, bs: seq<Bloque>, n: nat, a: Bloque, b: Bloque, x: nat)
    requires Mosaico(libres, Conj(bs), n) && Consecutivas(libres, a, b) && x < n
    ensures Cubierto(x, libres - {a, b} + {Crecida(a, b)} + Conj(CorreTodos(bs, a.Fin(), b.pos, a.tam)))
  {
    var c := Crecida(a, b);
    var nuevos := libres - {a, b} + {c};
    var bs' := CorreTodos(bs, a.Fin(), b.pos, a.tam);
    if c.Tiene(x) {
      assert c in nuevos + Conj(bs');
    } else {
      var y := if a.pos <= x < c.pos then x + a.tam else x;
      assert Cubierto(y, libres + Conj(bs));
      var u :| u in libres + Conj(bs) && u.Tiene(y);
      if u in libres {
        assert u in nuevos + Conj(bs') && u.Tiene(x);
      } else {
        var k :| 0 <= k < |bs| && bs[k] == u;
        Ubicacion(libres, Conj(bs), n, a, b, u);
        assert bs'[k] == Corre(u, a.Fin(), b.pos, a.tam) && bs'[k].Tiene(x);
        assert bs'[k] in nuevos + Conj(bs');
      }
    }
  }

  lemma CorridosSeparados(libres: set<Bloque>, bs: seq<Bloque>, n: nat, a: Bloque, b: Bloque)
    requires Mosaico(libres, Conj(bs), n) && SinRepetidos(bs) && Consecutivas(libres, a, b)
    ensures SinRepetidos(CorreTodos(bs, a.Fin(), b.pos, a.tam))
    ensures var bs' := CorreTodos(bs, a.Fin(), b.pos, a.tam);
            forall j, k :: 0 <= j < |bs'| && 0 <= k < |bs'| && j != k ==> Disjuntos(bs'[j], bs'[k])
  {
    var bs' := CorreTodos(bs, a.Fin(), b.pos, a.tam);
    forall j, k | 0 <= j < |bs| && 0 <= k < |bs| && j != k
      ensures bs'[j] != bs'[k] && Disjuntos(bs'[j], bs'[k])
    {
      CorreSeparados(libres, Conj(bs), n, a, b, bs[j], bs[k]);
      assert bs[j] in Conj(bs);
    }
  }

  lemma CorridosBien(libres: set<Bloque>, bs: seq<Bloque>, n: nat, a: Bloque, b: Bloque)
    requires Mosaico(libres, Conj(bs), n) && Consecutivas(libres, a, b)
    ensures var bs' := CorreTodos(bs, a.Fin(), b.pos, a.tam);
            && (forall k :: 0 <= k < |bs'| ==> 0 < bs'[k].tam && bs'[k].Fin() <= n)
            && (forall k, f :: 0 <= k < |bs'| && f in libres - {a, b} + {Crecida(a, b)} ==> Disjuntos(bs'[k], f))
  {
    var bs' := CorreTodos(bs, a.Fin(), b.pos, a.tam);
    forall k | 0 <= k < |bs|
      ensures 0 < bs'[k].tam && bs'[k].Fin() <= n
    {
      assert bs[k] in Conj(bs);
    }
    forall k, f | 0 <= k < |bs| && f in libres - {a, b} + {Crecida(a, b)}
      ensures Disjuntos(bs'[k], f)
    {
      CorreApartaLibres(libres, Conj(bs), n, a, b, bs[k], f);
    }
  }

  lemma CreceSinVecinos(libres: set<Bloque>, usados: set<Bloque>, n: nat, a: Bloque, b: Bloque)
    requires CanonicoDinamico(libres, usados, n) && Consecutivas(libres, a, b)
    ensures SinVecinos(libres - {a, b} + {Crecida(a, b)})
  {
  }

  /** Sliding keeps the canonical tiling. */
  lemma CorrerConserva(libres: set<Bloque>, bs: seq<Bloque>, n: nat, a: Bloque, b: Bloque)
    requires CanonicoDinamico(libres, Conj(bs), n) && SinRepetidos(bs) && Consecutivas(libres, a, b)
    ensures SinRepetidos(CorreTodos(bs, a.Fin(), b.pos, a.tam))
    ensures CanonicoDinamico(libres - {a, b} + {Crecida(a, b)}, Conj(CorreTodos(bs, a.Fin(), b.pos, a.tam)), n)
  {
    var bs' := CorreTodos(bs, a.Fin(), b.pos, a.tam);
    var nuevos := libres - {a, b} + {Crecida(a, b)};
    CreceSinVecinos(libres, Conj(bs), n, a, b);
    CorridosSeparados(libres, bs, n, a, b);
    CorridosBien(libres, bs, n, a, b);
    LibresSeparadas(libres, Conj(bs), n, a, b);
    forall x: nat | x < n
      ensures Cubierto(x, nuevos + Conj(bs'))
    {
      CorreCubre(libres, bs, n, a, b, x);
    }
    MosaicoPorIndices(nuevos, bs', n);
  }

  lemma MosaicoPorIndices(libres: set<Bloque>, bs: seq<Bloque>, n: nat)
    requires forall f :: f in libres ==> 0 < f.tam && f.Fin() <= n
    requires forall f, g :: f in libres && g in libres && f != g ==> Disjuntos(f, g)
    requires forall k :: 0 <= k < |bs| ==> 0 < bs[k].tam && bs[k].Fin() <= n
    requires forall j, k :: 0 <= j < |bs| && 0 <= k < |bs| && j != k ==> Disjuntos(bs[j], bs[k])
    requires forall k, f :: 0 <= k < |bs| && f in libres ==> Disjuntos(bs[k], f)
    requires forall x: nat :: x < n ==> Cubierto(x, libres + Conj(bs))
    ensures Mosaico(libres, Conj(bs), n)
  {
    forall u | u in Conj(bs)
      ensures u !in libres && 0 < u.tam && u.Fin() <= n
    {
      var k :| 0 <= k < |bs| && bs[k] == u;
      assert !Disjuntos(bs[k], u);
    }
    forall u, v | u in libres + Conj(bs) && v in libres + Conj(bs) && u != v
      ensures Disjuntos(u, v)
    {
      if u in Conj(bs) && v in Conj(bs) {
        var j :| 0 <= j < |bs| && bs[j] == u;
        var k :| 0 <= k < |bs| && bs[k] == v;
        assert j != k;
      }
    }
  }
}
