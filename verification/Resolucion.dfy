/**
 The search for exchanges repeated to its end, over what the trainers are and the order in which they
 wait: which pair it picks, what the exchange leaves, and when no exchange of the run fails.
 */
module Resolucion {
  import opened Secuencias
  import opened Leyes
  import opened Entrenadores
  import opened Tratos

  /** What the search goes by: the trainers, and those in BLOCKED in the order of the queue. */
  datatype Cuadro = Cuadro(fotos: seq<Foto>, orden: seq<nat>)

  ghost predicate EnRango(s: seq<nat>, n: nat)
  {
    forall k :: 0 <= k < |s| ==> s[k] < n
  }

  ghost predicate EsOrden(c: Cuadro)
  {
    && SinRepetidos(c.orden) && EnRango(c.orden, |c.fotos|)
    && (forall i :: 0 <= i < |c.fotos| ==> (i in c.orden <==> c.fotos[i].estado == BLOCKED))
  }

  /** Leaves its place in the queue, and joins the end of it if it stays. */
  function PasaAlFinal<T(==)>(q: seq<T>, t: T, sigue: bool): seq<T>
  {
    Sacar(q, t) + (if sigue then [t] else [])
  }

  ghost predicate Quiere(f: seq<Foto>, a: nat, b: nat)
    requires a < |f| && b < |f|
  {
    LoQueTomaria(f[a].ficha.faltan, f[b].ficha.sobran).Some?
  }

  /** list_filter over the queue: those that hold something in excess and are free. */
  ghost function Ofrecen(f: seq<Foto>, orden: seq<nat>): (r: seq<nat>)
    requires EnRango(orden, |f|)
    ensures forall k :: 0 <= k < |r| ==> r[k] in orden && r[k] < |f| && f[r[k]].ficha.sobran != []
    ensures forall k :: 0 <= k < |orden| && f[orden[k]].ficha.sobran != [] && !f[orden[k]].ocupado ==> orden[k] in r
  {
    if orden == [] then []
    else if f[orden[0]].ficha.sobran != [] && !f[orden[0]].ocupado then [orden[0]] + Ofrecen(f, orden[1..])
    else Ofrecen(f, orden[1..])
  }

  /** The inner loop: the first with which one wants something of the other. */
  ghost function ConQuien(f: seq<Foto>, a: nat, resto: seq<nat>): (r: Option<nat>)
    requires a < |f| && EnRango(resto, |f|)
    ensures r.Some? ==> r.value in resto && r.value < |f| && (Quiere(f, a, r.value) || Quiere(f, r.value, a))
    ensures r.None? ==> forall k :: 0 <= k < |resto| ==> !Quiere(f, a, resto[k]) && !Quiere(f, resto[k], a)
  {
    if resto == [] then None
    else if Quiere(f, a, resto[0]) || Quiere(f, resto[0], a) then Some(resto[0])
    else ConQuien(f, a, resto[1..])
  }

  /** The two loops: who moves and who waits. */
  ghost function Eleccion(f: seq<Foto>, cs: seq<nat>): Option<(nat, nat)>
    requires EnRango(cs, |f|)
  {
    if cs == [] then None
    else
      match ConQuien(f, cs[0], cs[1..])
      case Some(b) => Some(if Quiere(f, cs[0], b) then (cs[0], b) else (b, cs[0]))
      case None => Eleccion(f, cs[1..])
  }

  /** The pair that algoritmoDeteccionDeadlock finds, if any. */
  ghost function ParElegido(c: Cuadro): Option<(nat, nat)>
    requires EsOrden(c)
  {
    Eleccion(c.fotos, Ofrecen(c.fotos, c.orden))
  }

  lemma {:induction false} OfrecenUnaVez(f: seq<Foto>, orden: seq<nat>)
    requires EnRango(orden, |f|) && SinRepetidos(orden)
    ensures SinRepetidos(Ofrecen(f, orden))
  {
    if orden != [] {
      OfrecenUnaVez(f, orden[1..]);
      assert orden[0] !in orden[1..];
    }
  }

  lemma {:induction false} EleccionSirve(f: seq<Foto>, cs: seq<nat>)
    requires EnRango(cs, |f|) && SinRepetidos(cs)
    ensures Eleccion(f, cs).Some? ==>
              var (m, e) := Eleccion(f, cs).value;
              m in cs && e in cs && m != e && m < |f| && e < |f| && Quiere(f, m, e)
    ensures Eleccion(f, cs).None? ==>
              forall a, b :: 0 <= a < b < |cs| ==> !Quiere(f, cs[a], cs[b]) && !Quiere(f, cs[b], cs[a])
  {
    if cs != [] {
      EleccionSirve(f, cs[1..]);
      assert cs[0] !in cs[1..];
      if Eleccion(f, cs).None? {
        forall a, b | 0 <= a < b < |cs|
          ensures !Quiere(f, cs[a], cs[b]) && !Quiere(f, cs[b], cs[a])
        {
          if a == 0 {
            assert cs[1..][b - 1] == cs[b];
          } else {
            assert cs[1..][a - 1] == cs[a] && cs[1..][b - 1] == cs[b];
          }
        }
      }
    }
  }

  ghost predicate NadaEntreLosDos(f: seq<Foto>, a: nat, b: nat)
    requires a < |f| && b < |f|
  {
    !Quiere(f, a, b) && !Quiere(f, b, a)
  }

  /** The first y of the list with which a trades, or none. */
  lemma {:induction false} ElPrimeroConQuien(f: seq<Foto>, a: nat, resto: seq<nat>, y: nat)
    requires a < |f| && EnRango(resto, |f|) && y <= |resto|
    requires forall b :: 0 <= b < y ==> NadaEntreLosDos(f, a, resto[b])
    requires y < |resto| ==> !NadaEntreLosDos(f, a, resto[y])
    ensures ConQuien(f, a, resto) == if y < |resto| then Some(resto[y]) else None
  {
    hide Quiere;
    if y > 0 {
      assert NadaEntreLosDos(f, a, resto[0]);
      ElPrimeroConQuien(f, a, resto[1..], y - 1);
    }
  }

  /** The pair is the first, in the order of the loops, of which one wants something of the other. */
  lemma {:induction false} LaPrimeraEleccion(f: seq<Foto>, cs: seq<nat>, x: nat, y: nat)
    requires EnRango(cs, |f|) && x < y < |cs| && !NadaEntreLosDos(f, cs[x], cs[y])
    requires forall a, b :: 0 <= a < x && a < b < |cs| ==> NadaEntreLosDos(f, cs[a], cs[b])
    requires forall b :: x < b < y ==> NadaEntreLosDos(f, cs[x], cs[b])
    ensures Eleccion(f, cs) == Some(if Quiere(f, cs[x], cs[y]) then (cs[x], cs[y]) else (cs[y], cs[x]))
  {
    hide Quiere, NadaEntreLosDos, ConQuien;
    if x == 0 {
      ElPrimeroConQuien(f, cs[0], cs[1..], y - 1);
    } else {
      ElPrimeroConQuien(f, cs[0], cs[1..], |cs| - 1);
      LaPrimeraEleccion(f, cs[1..], x - 1, y - 1);
    }
  }

  /** Those two may exchange. */
  ghost function ElPar(c: Cuadro): (r: (nat, nat))
    requires EsOrden(c) && ParElegido(c).Some?
    ensures PuedenIntercambiar(c.fotos, r.0, r.1)
  {
    OfrecenUnaVez(c.fotos, c.orden);
    EleccionSirve(c.fotos, Ofrecen(c.fotos, c.orden));
    ParElegido(c).value
  }

  /** With everybody quiet the search finds nothing exactly when there is nothing to exchange. */
  lemma NadaQueElegir(c: Cuadro, globales: multiset<string>)
    requires EsOrden(c) && Quietos(c.fotos) && Coherentes(c.fotos, globales)
    ensures ParElegido(c).None? <==> NadaPorIntercambiar(c.fotos)
  {
    hide LoQueTomaria, Eleccion, Coherentes;
    var f, cs := c.fotos, Ofrecen(c.fotos, c.orden);
    OfrecenUnaVez(f, c.orden);
    EleccionSirve(f, cs);
    if ParElegido(c).None? {
      forall a, b | 0 <= a < |f| && 0 <= b < |f| && a != b && PuedeOfrecer(f[a]) && PuedeOfrecer(f[b])
        ensures f[a].ficha.faltan !! multiset(f[b].ficha.sobran)
      {
        assert a in c.orden && b in c.orden;
        assert a in cs && b in cs;
        var i :| 0 <= i < |cs| && cs[i] == a;
        var j :| 0 <= j < |cs| && cs[j] == b;
        assert !Quiere(f, cs[i], cs[j]);
      }
    } else {
        HayPareja(f, globales, ElPar(c).0, ElPar(c).1);
    }
  }

  // ---- one exchange ----

  /** The exchange of the pair: the mover goes to the end of the queue or out of it, the other stays or goes out. */
  ghost function TrasElTrato(c: Cuadro, anula: bool): Cuadro
    requires EsOrden(c) && ParElegido(c).Some?
  {
    var (m, e) := ElPar(c);
    var f := FotosTrasIntercambiar(c.fotos, m, e, anula);
    var sinMueve := PasaAlFinal(c.orden, m, f[m].estado == BLOCKED);
    Cuadro(f, if f[e].estado == BLOCKED then sinMueve else Sacar(sinMueve, e))
  }

  lemma SaleDelOrden(fotos: seq<Foto>, orden: seq<nat>, i: nat, f: Foto)
    requires EsOrden(Cuadro(fotos, orden)) && i < |fotos| && f.estado != BLOCKED
    ensures EsOrden(Cuadro(fotos[i := f], Sacar(orden, i)))
  {
    if i in orden {
      SacarUnico(orden, i);
      var r := Sacar(orden, i);
      forall j | 0 <= j < |fotos| && j != i
        ensures j in r <==> j in orden
      {
        if j in orden {
          var k :| 0 <= k < |orden| && orden[k] == j;
        }
      }
    }
  }

  lemma PasaEnElOrden(fotos: seq<Foto>, orden: seq<nat>, i: nat, f: Foto)
    requires EsOrden(Cuadro(fotos, orden)) && i < |fotos|
    ensures EsOrden(Cuadro(fotos[i := f], PasaAlFinal(orden, i, f.estado == BLOCKED)))
  {
    var fuera := f.(estado := NEW);
    SaleDelOrden(fotos, orden, i, fuera);
    var r := Sacar(orden, i);
    assert i !in r by {
      assert i in r <==> fotos[i := fuera][i].estado == BLOCKED;
    }
    assert r + [] == r;
    forall j | 0 <= j < |fotos|
      ensures j in r + [i] <==> j in r || j == i
      ensures j in r <==> j != i && fotos[j].estado == BLOCKED
    {
      assert fotos[i := fuera][j].estado == BLOCKED <==> j in r;
    }
  }

  /** One that was not waiting, or that goes out of the queue once it has joined its end. */
  lemma AlFinalYAfuera(fotos: seq<Foto>, orden: seq<nat>, i: nat)
    requires EsOrden(Cuadro(fotos, orden)) && i < |fotos|
    ensures Sacar(PasaAlFinal(orden, i, true), i) == PasaAlFinal(orden, i, false)
    ensures fotos[i].estado != BLOCKED ==> PasaAlFinal(orden, i, true) == orden + [i]
  {
    var r := Sacar(orden, i);
    SaleDelOrden(fotos, orden, i, fotos[i].(estado := NEW));
    assert i !in r by {
      assert i in r <==> fotos[i := fotos[i].(estado := NEW)][i].estado == BLOCKED;
    }
    SacarElUltimo(r, i);
    assert r + [] == r;
  }

  lemma {:induction false} SacarElUltimo<T>(r: seq<T>, x: T)
    requires x !in r
    ensures Sacar(r + [x], x) == r
  {
    if r == [] {
    } else {
      SacarElUltimo(r[1..], x);
      assert (r + [x])[1..] == r[1..] + [x] && x !in r[1..];
      assert (r + [x])[0] == r[0] != x;
    }
  }

  lemma SigueElOrden(c: Cuadro, anula: bool)
    requires EsOrden(c) && ParElegido(c).Some?
    ensures EsOrden(TrasElTrato(c, anula))
  {
    hide LoQueTomaria, ParElegido, Intercambiado, EsOrden, PasaAlFinal, Sacar;
    var (m, e) := ElPar(c);
    var f := FotosTrasIntercambiar(c.fotos, m, e, anula);
    PasaEnElOrden(c.fotos, c.orden, m, f[m]);
    var uno := Cuadro(c.fotos[m := f[m]], PasaAlFinal(c.orden, m, f[m].estado == BLOCKED));
    assert uno.fotos[e := f[e]] == f;
    if f[e].estado == BLOCKED {
      MismoEstado(uno, e, f[e]);
    } else {
      SaleDelOrden(uno.fotos, uno.orden, e, f[e]);
    }
  }

  lemma MismoEstado(c: Cuadro, i: nat, f: Foto)
    requires EsOrden(c) && i < |c.fotos| && f.estado == c.fotos[i].estado
    ensures EsOrden(c.(fotos := c.fotos[i := f]))
  {
  }

  lemma UnTratoMas(c: Cuadro, globales: multiset<string>, anula: bool)
    requires EsOrden(c) && ParElegido(c).Some? && Coherentes(c.fotos, globales)
    ensures EsOrden(TrasElTrato(c, anula)) && Coherentes(TrasElTrato(c, anula).fotos, globales)
    ensures |Faltantes(FichasDe(TrasElTrato(c, anula).fotos))| < |Faltantes(FichasDe(c.fotos))|
    ensures Quietos(c.fotos) ==> Quietos(TrasElTrato(c, anula).fotos)
  {
    hide EsOrden, ParElegido, Coherentes, Faltantes, FotosTrasIntercambiar, Quietos;
    SigueElOrden(c, anula);
    UnIntercambio(c.fotos, globales, ElPar(c).0, ElPar(c).1, anula);
  }

  // ---- the same, said of the lists and of the queue ----

  /** The first lacks something of what the second holds in excess. */
  ghost predicate LeFaltaAlgoDe(a: Ficha, b: Ficha)
  {
    exists k :: 0 <= k < |b.sobran| && b.sobran[k] in a.faltan
  }

  /** Two of the queue that are free and hold something in excess, one of which lacks something of the other's. */
  ghost predicate SonPareja(f: seq<Foto>, a: nat, b: nat)
    requires a < |f| && b < |f|
  {
    && f[a].ficha.sobran != [] && !f[a].ocupado && f[b].ficha.sobran != [] && !f[b].ocupado
    && (LeFaltaAlgoDe(f[a].ficha, f[b].ficha) || LeFaltaAlgoDe(f[b].ficha, f[a].ficha))
  }

  /** The pair at those places of the queue is the first: none has one before, or the same one and another before. */
  ghost predicate EsLaPareja(f: seq<Foto>, orden: seq<nat>, x: nat, y: nat)
    requires EnRango(orden, |f|)
  {
    && x < y < |orden| && SonPareja(f, orden[x], orden[y])
    && (forall a, b :: 0 <= a < x && a < b < |orden| ==> !SonPareja(f, orden[a], orden[b]))
    && (forall b :: x < b < y ==> !SonPareja(f, orden[x], orden[b]))
  }

  lemma QuererEsQueFalte(f: seq<Foto>, a: nat, b: nat)
    requires a < |f| && b < |f|
    ensures Quiere(f, a, b) <==> LeFaltaAlgoDe(f[a].ficha, f[b].ficha)
  {
    var faltan, sobran := f[a].ficha.faltan, f[b].ficha.sobran;
    if Quiere(f, a, b) {
      assert LoQueTomaria(faltan, sobran).value in sobran;
    }
    assert forall k :: 0 <= k < |sobran| ==> sobran[k] in multiset(sobran);
  }

  /** The place in the queue of the one the inner loop stops at. */
  lemma {:induction false} LugarDelOtro(f: seq<Foto>, a: nat, resto: seq<nat>) returns (y: nat)
    requires a < |f| && EnRango(resto, |f|)
    ensures y <= |resto| && forall b :: 0 <= b < y ==> !SonPareja(f, a, resto[b])
    ensures y < |resto| ==> SonPareja(f, a, resto[y])
    ensures y < |resto| ==> f[a].ficha.sobran != [] && !f[a].ocupado
    ensures f[a].ficha.sobran != [] && !f[a].ocupado ==>
              ConQuien(f, a, Ofrecen(f, resto)) == if y < |resto| then Some(resto[y]) else None
  {
    hide Quiere, LeFaltaAlgoDe;
    if resto == [] {
      y := 0;
    } else {
      QuererEsQueFalte(f, a, resto[0]);
      QuererEsQueFalte(f, resto[0], a);
      if SonPareja(f, a, resto[0]) {
        y := 0;
      } else {
        y := LugarDelOtro(f, a, resto[1..]);
        y := y + 1;
      }
    }
  }

  /** A first trainer that is in no pair leaves the first pair what it was. */
  lemma ParejaConUnoAntes(f: seq<Foto>, orden: seq<nat>, x: nat, y: nat)
    requires orden != [] && EnRango(orden, |f|) && EnRango(orden[1..], |f|) && EsLaPareja(f, orden[1..], x, y)
    requires forall b :: 0 <= b < |orden| - 1 ==> !SonPareja(f, orden[0], orden[1..][b])
    ensures EsLaPareja(f, orden, x + 1, y + 1) && orden[x + 1] == orden[1..][x] && orden[y + 1] == orden[1..][y]
  {
    hide SonPareja;
    assert forall k :: 1 <= k < |orden| ==> orden[k] == orden[1..][k - 1];
  }

  /** The first trainer is in the first pair if it is in one. */
  lemma ParejaConElPrimero(f: seq<Foto>, orden: seq<nat>, y: nat)
    requires y < |orden| - 1 && EnRango(orden, |f|) && SonPareja(f, orden[0], orden[1..][y])
    requires forall b :: 0 <= b < y ==> !SonPareja(f, orden[0], orden[1..][b])
    ensures EsLaPareja(f, orden, 0, y + 1)
  {
    hide SonPareja;
    assert forall k :: 1 <= k < |orden| ==> orden[k] == orden[1..][k - 1];
  }

  /** The loops over those that offer something stop at the first pair of the queue. */
  lemma {:induction false} LugaresDelPar(f: seq<Foto>, orden: seq<nat>) returns (x: nat, y: nat)
    requires EnRango(orden, |f|) && Eleccion(f, Ofrecen(f, orden)).Some?
    ensures EsLaPareja(f, orden, x, y)
    ensures Eleccion(f, Ofrecen(f, orden)).value ==
            if LeFaltaAlgoDe(f[orden[x]].ficha, f[orden[y]].ficha) then (orden[x], orden[y]) else (orden[y], orden[x])
  {
    hide Quiere, LeFaltaAlgoDe, ConQuien, EsLaPareja, SonPareja;
    var o, resto := orden[0], orden[1..];
    y := LugarDelOtro(f, o, resto);
    assert ([o] + Ofrecen(f, resto))[1..] == Ofrecen(f, resto);
    if y < |resto| {
      ParejaConElPrimero(f, orden, y);
      QuererEsQueFalte(f, o, resto[y]);
      return 0, y + 1;
    }
    x, y := LugaresDelPar(f, resto);
    ParejaConUnoAntes(f, orden, x, y);
    x, y := x + 1, y + 1;
  }

  /** What the one that moves takes, and what it gives: what the other first lacks or, if nothing, its own first. */
  ghost predicate SeDan(m: Ficha, e: Ficha, toma: string, da: string)
  {
    && EsElPrimeroQueFalta(toma, m.faltan, e.sobran)
    && if LeFaltaAlgoDe(e, m) then EsElPrimeroQueFalta(da, e.faltan, m.sobran) else m.sobran != [] && da == m.sobran[0]
  }

  /** One has given da out of its excess, and has gained toma, which it lacked. */
  ghost predicate SeLlevo(antes: Ficha, toma: string, da: string, despues: Ficha)
  {
    && despues.tiene == antes.tiene + multiset{toma} && despues.faltan == antes.faltan - multiset{toma}
    && SinUno(antes.sobran, da, despues.sobran) && despues.maximo == antes.maximo
  }

  /** One has given da out of its excess, and holds toma, which it did not lack, as the last of it. */
  ghost predicate SeQuedoCon(antes: Ficha, toma: string, da: string, despues: Ficha)
  {
    && despues.tiene == antes.tiene && despues.faltan == antes.faltan && despues.maximo == antes.maximo
    && despues.sobran != [] && despues.sobran[|despues.sobran| - 1] == toma
    && SinUno(antes.sobran, da, despues.sobran[..|despues.sobran| - 1])
  }

  /** In BLOCKED, or in FINISHED with nothing lacked, and free. */
  ghost predicate EnSuLugarYLibre(f: Foto)
  {
    !f.ocupado && f.estado == if f.ficha.faltan == multiset{} then FINISHED else BLOCKED
  }

  /** The queue once i has left its place and, if it still waits, joined the end. */
  ghost predicate PasoAlFinal(antes: seq<nat>, i: nat, espera: bool, despues: seq<nat>)
  {
    if espera then
      despues != [] && despues[|despues| - 1] == i && SinUno(antes, i, despues[..|despues| - 1])
    else SinUno(antes, i, despues)
  }

  /** From one state to the other m and e have exchanged toma and da, and nothing else has changed. */
  ghost predicate Cambiaron(c: Cuadro, d: Cuadro, m: nat, e: nat, toma: string, da: string, anula: bool)
    requires m < |c.fotos| && e < |c.fotos| && m != e
  {
    && |d.fotos| == |c.fotos|
    && (forall k :: 0 <= k < |c.fotos| && k != m && k != e ==> d.fotos[k] == c.fotos[k])
    && SeDan(c.fotos[m].ficha, c.fotos[e].ficha, toma, da)
    && SeLlevo(c.fotos[m].ficha, toma, da, d.fotos[m].ficha)
    && (if da in c.fotos[e].ficha.faltan then SeLlevo(c.fotos[e].ficha, da, toma, d.fotos[e].ficha)
        else SeQuedoCon(c.fotos[e].ficha, da, toma, d.fotos[e].ficha))
    && EnSuLugarYLibre(d.fotos[m]) && d.fotos[m].nota == (if anula then Nulo else Liberado)
    && EnSuLugarYLibre(d.fotos[e]) && d.fotos[e].nota == Nulo
    && exists medio :: PasoAlFinal(c.orden, m, d.fotos[m].estado == BLOCKED, medio)
                       && if d.fotos[e].estado == BLOCKED then d.orden == medio else SinUno(medio, e, d.orden)
  }

  /** Of the first pair of the queue m moves: the first of the two, if it lacks something of the other's. */
  ghost predicate LesToca(c: Cuadro, m: nat, e: nat)
    requires EsOrden(c)
    ensures LesToca(c, m, e) ==> m < |c.fotos| && e < |c.fotos| && m != e
  {
    exists x: nat, y: nat ::
      && EsLaPareja(c.fotos, c.orden, x, y)
      && if LeFaltaAlgoDe(c.fotos[c.orden[x]].ficha, c.fotos[c.orden[y]].ficha) then m == c.orden[x] && e == c.orden[y]
         else m == c.orden[y] && e == c.orden[x]
  }

  /** What the search picks and when its exchange goes well. */
  lemma ALosQueLesToca(c: Cuadro)
    requires EsOrden(c) && ParElegido(c).Some?
    ensures LesToca(c, ElPar(c).0, ElPar(c).1)
    ensures var (m, e) := ElPar(c);
            SaleBien(c.fotos, m, e) <==>
            LeFaltaAlgoDe(c.fotos[e].ficha, c.fotos[m].ficha) || c.fotos[e].nota == Nulo
  {
    hide Ofrecen, Eleccion, LeFaltaAlgoDe, EsLaPareja;
    var (m, e) := ElPar(c);
    var x, y := LugaresDelPar(c.fotos, c.orden);
    QuererEsQueFalte(c.fotos, e, m);
  }

  lemma LosDemasEnOrden(q: seq<nat>, x: nat, espera: bool)
    ensures PasoAlFinal(q, x, espera, PasaAlFinal(q, x, espera))
  {
    hide Sacar, SinUno;
    SacarDejaElResto(q, x);
    assert Sacar(q, x) + [] == Sacar(q, x);
    assert (Sacar(q, x) + [x])[..|Sacar(q, x)|] == Sacar(q, x);
  }

  lemma LoQueSeDan(m: Ficha, e: Ficha)
    requires LoQueTomaria(m.faltan, e.sobran).Some? && m.sobran != []
    ensures SeDan(m, e, Trato(m, e).0, Trato(m, e).1)
  {
    TomaElPrimero(m.faltan, e.sobran);
    TomaElPrimero(e.faltan, m.sobran);
    var q := LoQueTomaria(e.faltan, m.sobran);
    assert q.Some? ==> q.value in m.sobran;
    assert forall k :: 0 <= k < |m.sobran| ==> m.sobran[k] in multiset(m.sobran);
  }

  lemma LoQueLesQueda(f: Ficha, da: string, toma: string)
    ensures toma in f.faltan ==> SeLlevo(f, toma, da, Intercambiado(f, da, toma))
    ensures toma !in f.faltan ==> SeQuedoCon(f, toma, da, Intercambiado(f, da, toma))
  {
    hide Sacar, SinUno;
    SacarDejaElResto(f.sobran, da);
    var r := Sacar(f.sobran, da);
    assert (r + [toma])[..|r|] == r;
  }

  /** What the exchange of the pair leaves: their lists, their states, their notes and the queue. */
  lemma ElCambio(c: Cuadro, anula: bool)
    requires EsOrden(c) && ParElegido(c).Some?
    ensures var (m, e) := ElPar(c);
            var (toma, da) := Trato(c.fotos[m].ficha, c.fotos[e].ficha);
            Cambiaron(c, TrasElTrato(c, anula), m, e, toma, da, anula)
  {
    hide Sacar, SinUno, ParElegido, EsOrden, Trato, LoQueTomaria, SeLlevo, SeQuedoCon, SeDan, Intercambiado;
    var (m, e) := ElPar(c);
    var (toma, da) := Trato(c.fotos[m].ficha, c.fotos[e].ficha);
    var d := TrasElTrato(c, anula);
    LoQueSeDan(c.fotos[m].ficha, c.fotos[e].ficha);
    LoQueLesQueda(c.fotos[m].ficha, da, toma);
    LoQueLesQueda(c.fotos[e].ficha, toma, da);
    var medio := PasaAlFinal(c.orden, m, d.fotos[m].estado == BLOCKED);
    LosDemasEnOrden(c.orden, m, d.fotos[m].estado == BLOCKED);
    SacarDejaElResto(medio, e);
    assert PasoAlFinal(c.orden, m, d.fotos[m].estado == BLOCKED, medio);
    assert if d.fotos[e].estado == BLOCKED then d.orden == medio else SinUno(medio, e, d.orden);
    assert d.fotos[m].ficha == Intercambiado(c.fotos[m].ficha, da, toma);
  }

  /** The pair whose turn it is was found; it goes well if the one that waits lacks something or has kept no name. */
  ghost predicate SeEncontraron(c: Cuadro, ok: bool)
    requires EsOrden(c)
  {
    exists m: nat, e: nat ::
      && LesToca(c, m, e)
      && (ok <==> LeFaltaAlgoDe(c.fotos[e].ficha, c.fotos[m].ficha) || c.fotos[e].nota == Nulo)
  }

  /** The pair whose turn it was has exchanged what the lists say, and nothing else has changed. */
  ghost predicate HuboCambio(c: Cuadro, d: Cuadro, anula: bool)
    requires EsOrden(c)
  {
    exists m: nat, e: nat, toma, da :: LesToca(c, m, e) && Cambiaron(c, d, m, e, toma, da, anula)
  }

  /** A turn of the search, by the lists and the queue. */
  lemma LaRonda(c: Cuadro, anula: bool)
    requires EsOrden(c) && ParElegido(c).Some?
    ensures SeEncontraron(c, SaleBien(c.fotos, ElPar(c).0, ElPar(c).1))
    ensures HuboCambio(c, TrasElTrato(c, anula), anula)
  {
    hide EsOrden, LesToca, Cambiaron, ParElegido, Trato, TrasElTrato, SaleBien, LeFaltaAlgoDe;
    ALosQueLesToca(c);
    ElCambio(c, anula);
  }

  // ---- the whole run ----

  /** No exchange of the run that starts here fails, going by the lists and the queue alone. */
  ghost predicate Resuelve(c: Cuadro, globales: multiset<string>, anula: bool)
    requires EsOrden(c) && Coherentes(c.fotos, globales)
    decreases |Faltantes(FichasDe(c.fotos))|
  {
    ParElegido(c).Some? ==>
      (UnTratoMas(c, globales, anula);
       SaleBien(c.fotos, ElPar(c).0, ElPar(c).1) && Resuelve(TrasElTrato(c, anula), globales, anula))
  }

  ghost predicate SinLiberadas(f: seq<Foto>)
  {
    forall k :: 0 <= k < |f| ==> f[k].nota != Liberado
  }

  lemma CambiarSinLiberar(f: seq<Foto>, i: nat, g: Foto)
    requires i < |f| && g.nota == f[i].nota
    ensures SinLiberadas(f) ==> SinLiberadas(f[i := g])
  {
  }

  lemma UnaMasSinLiberar(f: seq<Foto>, g: Foto)
    requires g.nota != Liberado
    ensures SinLiberadas(f) ==> SinLiberadas(f + [g])
  {
  }

  /** An exchange that also nulls the note leaves no freed name behind. */
  lemma SiguenSinLiberadas(c: Cuadro)
    requires EsOrden(c) && ParElegido(c).Some? && SinLiberadas(c.fotos)
    ensures SinLiberadas(TrasElTrato(c, true).fotos)
  {
    hide LoQueTomaria, Intercambiado, ParElegido, EsOrden;
  }

  /** With the note nulled after use every run ends well. */
  lemma {:induction false} AnulandoSeResuelve(c: Cuadro, globales: multiset<string>)
    requires EsOrden(c) && Coherentes(c.fotos, globales) && Quietos(c.fotos) && SinLiberadas(c.fotos)
    ensures Resuelve(c, globales, true)
    decreases |Faltantes(FichasDe(c.fotos))|
  {
    hide EsOrden, ParElegido, Coherentes, TrasElTrato, LoQueTomaria, Faltantes;
    if ParElegido(c).Some? {
        UnTratoMas(c, globales, true);
      SiguenSinLiberadas(c);
      HayPareja(c.fotos, globales, ElPar(c).0, ElPar(c).1);
      AnulandoSeResuelve(TrasElTrato(c, true), globales);
    }
  }

  /** Nobody that waits has more than one pokemon in excess, or a name kept from an exchange. */
  ghost predicate UnoDeMas(f: seq<Foto>)
  {
    forall k :: 0 <= k < |f| && f[k].estado == BLOCKED ==> |f[k].ficha.sobran| <= 1 && f[k].nota == Nulo
  }

  /** Then a trainer that moves has all it wanted, and the one that waited has no more than it had. */
  lemma SigueUnoDeMas(c: Cuadro, anula: bool)
    requires EsOrden(c) && ParElegido(c).Some? && Coherentes(c.fotos, multiset{}) && UnoDeMas(c.fotos)
    ensures UnoDeMas(TrasElTrato(c, anula).fotos)
  {
    hide LoQueTomaria, ParElegido, EsOrden, Faltantes, Sobrantes, Intercambiado, Trato;
    var (m, e) := ElPar(c);
    CapturasQueQuedan(FichasDe(c.fotos), multiset{});
    assert FichasDe(c.fotos)[m] == c.fotos[m].ficha;
    AmbosConUno(c.fotos[m].ficha, c.fotos[e].ficha);
  }

  lemma AmbosConUno(m: Ficha, e: Ficha)
    requires LoQueTomaria(m.faltan, e.sobran).Some? && Equilibrada(m) && m.maximo == 0
    requires |m.sobran| == 1 && |e.sobran| <= 1
    ensures Satisfecha(Intercambiado(m, Trato(m, e).1, Trato(m, e).0))
    ensures |Intercambiado(e, Trato(m, e).0, Trato(m, e).1).sobran| <= 1
  {
    hide LoQueTomaria;
    UnoSolo(m.faltan, Trato(m, e).0);
    assert e.sobran == [Trato(m, e).0];
  }

  lemma UnoSolo(m: multiset<string>, x: string)
    requires |m| == 1 && x in m
    ensures m - multiset{x} == multiset{}
  {
    assert |m - multiset{x}| == 0;
  }

  /** As the source does it, every run from such a state ends well. */
  lemma {:induction false} UnoDeMasSeResuelve(c: Cuadro, anula: bool)
    requires EsOrden(c) && Coherentes(c.fotos, multiset{}) && UnoDeMas(c.fotos)
    ensures Resuelve(c, multiset{}, anula)
    decreases |Faltantes(FichasDe(c.fotos))|
  {
    hide EsOrden, ParElegido, Coherentes, TrasElTrato, LoQueTomaria, Faltantes;
    if ParElegido(c).Some? {
        UnTratoMas(c, multiset{}, anula);
      SigueUnoDeMas(c, anula);
      UnoDeMasSeResuelve(TrasElTrato(c, anula), anula);
    }
  }

  // ---- histories ----

  /** From one state to the next by the exchange the search picks. */
  ghost predicate UnPaso(antes: Cuadro, despues: Cuadro, anula: bool)
  {
    && EsOrden(antes) && ParElegido(antes).Some?
    && SaleBien(antes.fotos, ElPar(antes).0, ElPar(antes).1)
    && despues == TrasElTrato(antes, anula)
  }

  ghost predicate EsHistoria(h: seq<Cuadro>, anula: bool)
  {
    && h != []
    && (|h| > 1 ==> EsHistoria(h[..|h| - 1], anula) && UnPaso(h[|h| - 2], h[|h| - 1], anula))
  }

  lemma EmpiezaLaHistoria(c: Cuadro, anula: bool)
    ensures EsHistoria([c], anula)
  {
  }

  lemma UnPasoMas(h: seq<Cuadro>, c: Cuadro, anula: bool)
    requires EsHistoria(h, anula) && UnPaso(h[|h| - 1], c, anula)
    ensures EsHistoria(h + [c], anula)
  {
    hide UnPaso;
    assert (h + [c])[..|h|] == h;
  }

  lemma LaMetaTrasUnPaso(antes: Cuadro, despues: Cuadro, anula: bool)
    requires UnPaso(antes, despues, anula)
    ensures |antes.fotos| == |despues.fotos|
    ensures forall k :: 0 <= k < |antes.fotos| ==> Meta(despues.fotos[k].ficha) == Meta(antes.fotos[k].ficha)
  {
    hide LoQueTomaria, Meta, Recibido, ParElegido, EsOrden;
    var f := antes.fotos;
    var (m, e) := ElPar(antes);
    var t := Trato(f[m].ficha, f[e].ficha);
    RecibirNoMueveLaMeta(Entregado(f[m].ficha, t.1), t.0);
    RecibirNoMueveLaMeta(Entregado(f[e].ficha, t.0), t.1);
    EntregarNoMueveLaMeta(f[m].ficha, t.1);
    EntregarNoMueveLaMeta(f[e].ficha, t.0);
  }

  /** What each trainer is to end up with does not change in a run of exchanges. */
  lemma {:induction false} LaMetaNoSeMueve(h: seq<Cuadro>, anula: bool)
    requires EsHistoria(h, anula)
    ensures |h[|h| - 1].fotos| == |h[0].fotos|
    ensures forall k :: 0 <= k < |h[0].fotos| ==> Meta(h[|h| - 1].fotos[k].ficha) == Meta(h[0].fotos[k].ficha)
  {
    hide UnPaso, Meta;
    if |h| > 1 {
      var n := |h| - 1;
      LaMetaNoSeMueve(h[..n], anula);
      LaMetaTrasUnPaso(h[n - 1], h[n], anula);
    }
  }
}
