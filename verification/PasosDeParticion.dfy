/**
 What splitting, taking, releasing and joining one block does to the free and used sets.
 `actual` is the block an operation is working on: only it may break the canonical form.
 */
module PasosDeParticion {
  import opened Potencias
  import opened Secuencias
  import opened Particiones

  ghost predicate CasiBuddy(libres: set<Bloque>, usados: set<Bloque>, n: nat, actual: Bloque)
  {
    && EsPotencia(n)
    && actual in libres
    && Mosaico(libres, usados, n)
    && Alineados(libres + usados)
    && (forall b :: b in libres && Companiero(b) in libres ==> b == actual || Companiero(b) == actual)
  }

  ghost predicate CasiDinamico(libres: set<Bloque>, usados: set<Bloque>, n: nat, actual: Bloque)
  {
    && actual in libres
    && Mosaico(libres, usados, n)
    && (forall a, b :: a in libres && b in libres && a.Fin() == b.pos ==> a == actual || b == actual)
  }

  lemma PuntosAparte(a: Bloque, b: Bloque)
    requires 0 < a.tam && 0 < b.tam
    requires forall x :: a.Tiene(x) ==> !b.Tiene(x)
    ensures Disjuntos(a, b)
  {
    assert a.Tiene(a.pos) && b.Tiene(b.pos);
    assert a.Tiene(b.pos) ==> !b.Tiene(b.pos);
  }

  /** What only covers bytes of `salen` is apart from every other block. */
  lemma SinSolape(libres: set<Bloque>, usados: set<Bloque>, n: nat, salen: set<Bloque>, a: Bloque, b: Bloque)
    requires Mosaico(libres, usados, n) && salen <= libres
    requires 0 < a.tam && b in (libres - salen) + usados
    requires forall x :: a.Tiene(x) ==> Cubierto(x, salen)
    ensures Disjuntos(a, b)
  {
    assert b in libres + usados && b !in salen;
    forall x | a.Tiene(x)
      ensures !b.Tiene(x)
    {
      assert Cubierto(x, salen);
      var s :| s in salen && s.Tiene(x);
      assert s in libres + usados && s != b;
    }
    PuntosAparte(a, b);
  }

  /** Replacing free blocks by others that cover the same bytes keeps the tiling. */
  lemma CambioDeLibres(libres: set<Bloque>, usados: set<Bloque>, n: nat, salen: set<Bloque>, entran: set<Bloque>)
    requires Mosaico(libres, usados, n) && salen <= libres
    requires forall b :: b in entran ==> 0 < b.tam
    requires forall a, b :: a in entran && b in entran && a != b ==> Disjuntos(a, b)
    requires forall b, x :: b in entran && b.Tiene(x) ==> Cubierto(x, salen)
    requires forall b, x :: b in salen && b.Tiene(x) ==> Cubierto(x, entran)
    ensures Mosaico(libres - salen + entran, usados, n)
  {
    var nuevos := libres - salen + entran;
    forall b | b in entran
      ensures b.Fin() <= n
    {
      assert b.Tiene(b.Fin() - 1);
    }
    forall a, b | a in entran && b in (libres - salen) + usados
      ensures Disjuntos(a, b)
    {
      SinSolape(libres, usados, n, salen, a, b);
    }
    forall b | b in entran
      ensures b !in usados
    {
      assert !Disjuntos(b, b);
    }
    forall a, b | a in nuevos + usados && b in nuevos + usados && a != b
      ensures Disjuntos(a, b)
    {
      assert a in entran || a in (libres - salen) + usados;
      assert b in entran || b in (libres - salen) + usados;
    }
    forall x | 0 <= x < n
      ensures Cubierto(x, nuevos + usados)
    {
      CambioCubre(libres, usados, n, salen, entran, x);
    }
  }

  lemma CambioCubre(libres: set<Bloque>, usados: set<Bloque>, n: nat, salen: set<Bloque>, entran: set<Bloque>, x: nat)
    requires Mosaico(libres, usados, n) && salen <= libres && x < n
    requires forall b, x :: b in salen && b.Tiene(x) ==> Cubierto(x, entran)
    ensures Cubierto(x, libres - salen + entran + usados)
  {
    assert Cubierto(x, libres + usados);
    var b :| b in libres + usados && b.Tiene(x);
    if b in salen {
      assert Cubierto(x, entran);
      var c :| c in entran && c.Tiene(x);
      assert c in libres - salen + entran + usados;
    } else {
      assert b in libres - salen + entran + usados;
    }
  }

  /** Moving a block between the two sets keeps the tiling. */
  lemma CambioDeLado(libres: set<Bloque>, usados: set<Bloque>, n: nat, b: Bloque)
    requires Mosaico(libres, usados, n)
    ensures b in libres ==> Mosaico(libres - {b}, usados + {b}, n)
    ensures b in usados ==> Mosaico(libres + {b}, usados - {b}, n)
  {
    if b in libres {
      assert (libres - {b}) + (usados + {b}) == libres + usados;
    }
    if b in usados {
      assert (libres + {b}) + (usados - {b}) == libres + usados;
    }
  }

  // ---- buddy system ----

  lemma TomarBuddy(libres: set<Bloque>, usados: set<Bloque>, n: nat, b: Bloque)
    requires CasiBuddy(libres, usados, n, b)
    ensures CanonicoBuddy(libres - {b}, usados + {b}, n)
  {
    CambioDeLado(libres, usados, n, b);
  }

  lemma LiberarBuddy(libres: set<Bloque>, usados: set<Bloque>, n: nat, b: Bloque)
    requires CanonicoBuddy(libres, usados, n) && b in usados
    ensures CasiBuddy(libres + {b}, usados - {b}, n, b)
  {
    CambioDeLado(libres, usados, n, b);
  }

  /** Halving the working block leaves the left half as working block. */
  lemma PartirBuddy(libres: set<Bloque>, usados: set<Bloque>, n: nat, b: Bloque)
    requires CasiBuddy(libres, usados, n, b) && b.tam > 1
    ensures CasiBuddy(libres - {b} + {MitadIzquierda(b), MitadDerecha(b)}, usados, n, MitadIzquierda(b))
    ensures MitadDerecha(b) !in libres && MitadIzquierda(b) !in libres
  {
    var l, r := MitadIzquierda(b), MitadDerecha(b);
    Mitades(b);
    MosaicoCortado(libres, usados, n, b, l, r);
    var nuevos := libres - {b} + {l, r};
    forall c | c in nuevos && Companiero(c) in nuevos
      ensures c == l || Companiero(c) == l
    {
      if Companiero(c) == r {
        CompanieroEsMutuo(c);
      }
    }
  }

  /** Joining the working block with its buddy makes the union the working block. */
  lemma UnirBuddy(libres: set<Bloque>, usados: set<Bloque>, n: nat, b: Bloque)
    requires CasiBuddy(libres, usados, n, b) && Companiero(b) in libres
    ensures CasiBuddy(libres - {b, Companiero(b)} + {Unido(b)}, usados, n, Unido(b))
    ensures Unido(b) !in libres
  {
    var c, u := Companiero(b), Unido(b);
    UnidoEsAlineado(b);
    CompanieroEsMutuo(b);
    forall x | b.Tiene(x) || c.Tiene(x)
      ensures Cubierto(x, {u})
    {
      assert u.Tiene(x);
    }
    forall x | u.Tiene(x)
      ensures Cubierto(x, {b, c})
    {
      assert b.Tiene(x) || c.Tiene(x);
    }
    CambioDeLibres(libres, usados, n, {b, c}, {u});
    assert !Disjuntos(u, b) && u != b;
  }

  lemma SinCompanieroEsCanonico(libres: set<Bloque>, usados: set<Bloque>, n: nat, b: Bloque)
    requires CasiBuddy(libres, usados, n, b) && Companiero(b) !in libres
    ensures CanonicoBuddy(libres, usados, n)
  {
    forall c | c in libres
      ensures Companiero(c) !in libres
    {
      CompanieroEsMutuo(c);
    }
  }

  // ---- dynamic partitions ----

  lemma MosaicoCortado(libres: set<Bloque>, usados: set<Bloque>, n: nat, f: Bloque, l: Bloque, r: Bloque)
    requires Mosaico(libres, usados, n) && f in libres
    requires l.pos == f.pos && l.Fin() == r.pos && r.Fin() == f.Fin() && 0 < l.tam && 0 < r.tam
    ensures Mosaico(libres - {f} + {l, r}, usados, n)
    ensures l !in libres && r !in libres
  {
    forall x | f.Tiene(x)
      ensures Cubierto(x, {l, r})
    {
      assert l.Tiene(x) || r.Tiene(x);
    }
    forall x | l.Tiene(x) || r.Tiene(x)
      ensures Cubierto(x, {f})
    {
      assert f.Tiene(x);
    }
    CambioDeLibres(libres, usados, n, {f}, {l, r});
    assert !Disjuntos(l, f) && !Disjuntos(r, f) && l != f && r != f;
  }

  lemma RestoSinVecinos(libres: set<Bloque>, usados: set<Bloque>, n: nat, f: Bloque, r: Bloque)
    requires CanonicoDinamico(libres, usados, n) && f in libres
    requires f.pos < r.pos < f.Fin() && r.Fin() == f.Fin()
    ensures SinVecinos(libres - {f} + {r})
  {
  }

  /** Taking the first t bytes of a free block. */
  lemma TomarDinamica(libres: set<Bloque>, usados: set<Bloque>, n: nat, f: Bloque, t: nat)
    requires CanonicoDinamico(libres, usados, n) && f in libres && 0 < t <= f.tam
    ensures t == f.tam ==> CanonicoDinamico(libres - {f}, usados + {f}, n)
    ensures t < f.tam ==>
              && Bloque(f.pos + t, f.tam - t) !in libres
              && CanonicoDinamico(libres - {f} + {Bloque(f.pos + t, f.tam - t)}, usados + {Bloque(f.pos, t)}, n)
  {
    if t == f.tam {
      CambioDeLado(libres, usados, n, f);
    } else {
      var l, r := Bloque(f.pos, t), Bloque(f.pos + t, f.tam - t);
      MosaicoCortado(libres, usados, n, f, l, r);
      CambioDeLado(libres - {f} + {l, r}, usados, n, l);
      RestoSinVecinos(libres, usados, n, f, r);
      assert libres - {f} + {l, r} - {l} == libres - {f} + {r};
    }
  }

  lemma LiberarDinamica(libres: set<Bloque>, usados: set<Bloque>, n: nat, b: Bloque)
    requires CanonicoDinamico(libres, usados, n) && b in usados
    ensures CasiDinamico(libres + {b}, usados - {b}, n, b)
  {
    CambioDeLado(libres, usados, n, b);
  }

  /** Joining two adjacent free blocks, one of them the working one. */
  lemma UnirDinamica(libres: set<Bloque>, usados: set<Bloque>, n: nat, a: Bloque, b: Bloque, actual: Bloque)
    requires CasiDinamico(libres, usados, n, actual)
    requires a in libres && b in libres && a.Fin() == b.pos && (actual == a || actual == b)
    ensures CasiDinamico(libres - {a, b} + {Bloque(a.pos, a.tam + b.tam)}, usados, n, Bloque(a.pos, a.tam + b.tam))
    ensures Bloque(a.pos, a.tam + b.tam) !in libres
  {
    var u := Bloque(a.pos, a.tam + b.tam);
    forall x | a.Tiene(x) || b.Tiene(x)
      ensures Cubierto(x, {u})
    {
      assert u.Tiene(x);
    }
    forall x | u.Tiene(x)
      ensures Cubierto(x, {a, b})
    {
      assert a.Tiene(x) || b.Tiene(x);
    }
    CambioDeLibres(libres, usados, n, {a, b}, {u});
    assert u.Tiene(a.pos) && a.Tiene(a.pos);
  }

  lemma SinLadosEsCanonico(libres: set<Bloque>, usados: set<Bloque>, n: nat, b: Bloque)
    requires CasiDinamico(libres, usados, n, b)
    requires forall c :: c in libres ==> c.Fin() != b.pos && b.Fin() != c.pos
    ensures CanonicoDinamico(libres, usados, n)
  {
  }

  /** Giving back a block with a free one only on its right. */
  lemma DevolverConDerecha(libres: set<Bloque>, usados: set<Bloque>, n: nat, b: Bloque, d: Bloque)
    requires CanonicoDinamico(libres, usados + {b}, n) && b !in usados
    requires d in libres && d.pos == b.Fin() && forall c :: c in libres ==> c.Fin() != b.pos
    ensures CanonicoDinamico(libres - {d} + {Bloque(b.pos, b.tam + d.tam)}, usados, n)
    ensures Bloque(b.pos, b.tam + d.tam) !in libres
  {
    var u := Bloque(b.pos, b.tam + d.tam);
    LiberarDinamica(libres, usados + {b}, n, b);
    assert usados + {b} - {b} == usados;
    UnirDinamica(libres + {b}, usados, n, b, d, b);
    assert libres + {b} - {b, d} + {u} == libres - {d} + {u};
    SinLadosEsCanonico(libres - {d} + {u}, usados, n, u);
  }

  /** Giving back a block with a free one only on its left. */
  lemma DevolverConIzquierda(libres: set<Bloque>, usados: set<Bloque>, n: nat, b: Bloque, i: Bloque)
    requires CanonicoDinamico(libres, usados + {b}, n) && b !in usados
    requires i in libres && i.Fin() == b.pos && forall c :: c in libres ==> c.pos != b.Fin()
    ensures CanonicoDinamico(libres - {i} + {Bloque(i.pos, i.tam + b.tam)}, usados, n)
    ensures Bloque(i.pos, i.tam + b.tam) !in libres
  {
    var u := Bloque(i.pos, i.tam + b.tam);
    LiberarDinamica(libres, usados + {b}, n, b);
    assert usados + {b} - {b} == usados;
    UnirDinamica(libres + {b}, usados, n, i, b, b);
    assert libres + {b} - {i, b} + {u} == libres - {i} + {u};
    SinLadosEsCanonico(libres - {i} + {u}, usados, n, u);
  }

  lemma CrecerADerecha(libres: set<Bloque>, usados: set<Bloque>, n: nat, m: Bloque, d: Bloque)
    requires CasiDinamico(libres, usados, n, m)
    requires d in libres && d.pos == m.Fin() && forall c :: c in libres ==> c.Fin() != m.pos
    ensures CanonicoDinamico(libres - {m, d} + {Bloque(m.pos, m.tam + d.tam)}, usados, n)
    ensures Bloque(m.pos, m.tam + d.tam) !in libres
  {
    var u := Bloque(m.pos, m.tam + d.tam);
    UnirDinamica(libres, usados, n, m, d, m);
    SinLadosEsCanonico(libres - {m, d} + {u}, usados, n, u);
  }

  /** Giving back a block with a free one on each side. */
  lemma DevolverConAmbas(libres: set<Bloque>, usados: set<Bloque>, n: nat, b: Bloque, d: Bloque, i: Bloque)
    requires CanonicoDinamico(libres, usados + {b}, n) && b !in usados
    requires d in libres && d.pos == b.Fin() && i in libres && i.Fin() == b.pos
    ensures CanonicoDinamico(libres - {i, d} + {Bloque(i.pos, i.tam + b.tam + d.tam)}, usados, n)
    ensures Bloque(i.pos, i.tam + b.tam + d.tam) !in libres
    ensures i != d
  {
    var m := Bloque(i.pos, i.tam + b.tam);
    var u := Bloque(i.pos, i.tam + b.tam + d.tam);
    LiberarDinamica(libres, usados + {b}, n, b);
    assert usados + {b} - {b} == usados;
    UnirDinamica(libres + {b}, usados, n, i, b, b);
    assert libres + {b} - {i, b} + {m} == libres - {i} + {m};
    CrecerADerecha(libres - {i} + {m}, usados, n, m, d);
    assert libres - {i} + {m} - {m, d} + {u} == libres - {i, d} + {u};
    assert u.pos == i.pos && u.tam != i.tam;
  }

  /** Giving back a block with no free one beside it. */
  lemma DevolverSuelta(libres: set<Bloque>, usados: set<Bloque>, n: nat, b: Bloque)
    requires CanonicoDinamico(libres, usados + {b}, n) && b !in usados
    requires forall c :: c in libres ==> c.Fin() != b.pos && c.pos != b.Fin()
    ensures CanonicoDinamico(libres + {b}, usados, n)
  {
    LiberarDinamica(libres, usados + {b}, n, b);
    assert usados + {b} - {b} == usados;
    SinLadosEsCanonico(libres + {b}, usados, n, b);
  }

  // ---- the same over the free list ----

  lemma MismaPosicion(libres: set<Bloque>, usados: set<Bloque>, n: nat, a: Bloque, b: Bloque)
    requires Mosaico(libres, usados, n) && a in libres && b in libres && a.pos == b.pos
    ensures a == b
  {
  }

  ghost predicate ListaCanonica(ls: seq<Bloque>, usados: set<Bloque>, n: nat)
  {
    SinRepetidos(ls) && CanonicoDinamico(Conj(ls), usados, n)
  }

  lemma JuntarDerecha(ls: seq<Bloque>, usados: set<Bloque>, n: nat, b: Bloque, d: nat, u: Bloque)
    requires ListaCanonica(ls, usados + {b}, n) && b !in usados
    requires d < |ls| && ls[d].pos == b.Fin() && forall k :: 0 <= k < |ls| ==> ls[k].Fin() != b.pos
    requires u.pos == b.pos && u.tam == b.tam + ls[d].tam
    ensures ListaCanonica(ls[d := u], usados, n)
  {
    assert ls[d] in Conj(ls);
    DevolverConDerecha(Conj(ls), usados, n, b, ls[d]);
    assert u !in Conj(ls);
    ConjCambiar(ls, d, u);
  }

  lemma JuntarIzquierda(ls: seq<Bloque>, usados: set<Bloque>, n: nat, b: Bloque, i: nat, u: Bloque)
    requires ListaCanonica(ls, usados + {b}, n) && b !in usados
    requires i < |ls| && ls[i].Fin() == b.pos && forall k :: 0 <= k < |ls| ==> ls[k].pos != b.Fin()
    requires u.pos == ls[i].pos && u.tam == ls[i].tam + b.tam
    ensures ListaCanonica(ls[i := u], usados, n)
  {
    assert ls[i] in Conj(ls);
    DevolverConIzquierda(Conj(ls), usados, n, b, ls[i]);
    assert u !in Conj(ls);
    ConjCambiar(ls, i, u);
  }

  lemma AmbasSonDistintas(ls: seq<Bloque>, usados: set<Bloque>, n: nat, b: Bloque, d: nat, i: nat)
    requires ListaCanonica(ls, usados + {b}, n)
    requires d < |ls| && ls[d].pos == b.Fin() && i < |ls| && ls[i].Fin() == b.pos
    ensures d != i
  {
    assert ls[d] in Conj(ls);
  }

  /** The right neighbour is looked up again (index k) once the left one has grown. */
  lemma JuntarAmbas(ls: seq<Bloque>, usados: set<Bloque>, n: nat, b: Bloque, d: nat, i: nat, u: Bloque, k: nat)
    requires ListaCanonica(ls, usados + {b}, n) && b !in usados
    requires d < |ls| && ls[d].pos == b.Fin() && i < |ls| && ls[i].Fin() == b.pos
    requires u == Bloque(ls[i].pos, ls[i].tam + b.tam + ls[d].tam)
    requires k < |ls| && ls[i := u][k].pos == b.Fin()
    ensures ListaCanonica(Quitar(ls[i := u], k), usados, n)
    ensures |ls| >= 2
  {
    var libres := Conj(ls);
    assert ls[i] in libres && ls[d] in libres && ls[k] in libres;
    DevolverConAmbas(libres, usados, n, b, ls[d], ls[i]);
    assert u !in libres;
    ConjCambiar(ls, i, u);
    assert k != i by {
      assert 0 < ls[i].tam;
    }
    MismaPosicion(libres, usados + {b}, n, ls[k], ls[d]);
    ConjQuitar(ls[i := u], k);
    assert libres - {ls[i]} + {u} - {ls[d]} == libres - {ls[i], ls[d]} + {u};
  }

  lemma JuntarNada(ls: seq<Bloque>, usados: set<Bloque>, n: nat, b: Bloque)
    requires ListaCanonica(ls, usados + {b}, n) && b !in usados
    requires forall k :: 0 <= k < |ls| ==> ls[k].pos != b.Fin() && ls[k].Fin() != b.pos
    ensures ListaCanonica(ls + [b], usados, n)
  {
    forall c | c in Conj(ls)
      ensures c.pos != b.Fin() && c.Fin() != b.pos
    {
      assert c in ls;
    }
    DevolverSuelta(Conj(ls), usados, n, b);
    assert b !in Conj(ls);
    ConjAgregar(ls, b);
  }
}
