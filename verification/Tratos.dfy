/**
 What each trainer of a Team is at a moment, and what a capture or an exchange makes of it.
 */
module Tratos {
  import opened Secuencias
  import opened Leyes
  import opened Entrenadores

  /** A trainer as its queue and the laws see it. */
  datatype Foto = Foto(estado: Estado, ocupado: bool, nota: Puntero, ficha: Ficha)

  /** What each queue says of its trainers. */
  ghost predicate EnSuCola(f: Foto)
  {
    && (f.estado == NEW ==> f.ficha.sobran == [])
    && (f.estado == FINISHED ==> Satisfecha(f.ficha))
    && (f.estado in {READY, EXECUTE, BLOCKED} ==> !Satisfecha(f.ficha))
    && (!f.ocupado ==> !f.nota.Nombre?)
  }

  ghost function FichasDe(fotos: seq<Foto>): seq<Ficha>
  {
    seq(|fotos|, i requires 0 <= i < |fotos| => fotos[i].ficha)
  }

  /** Each trainer is where it should be, and together they obey the laws. */
  ghost predicate Coherentes(fotos: seq<Foto>, globales: multiset<string>)
  {
    && (forall i :: 0 <= i < |fotos| ==> EnSuCola(fotos[i]))
    && Leyes.Leyes(FichasDe(fotos), globales)
  }

  ghost function TrasIntercambiar(f: Ficha, da: string, toma: string, nota: Puntero): Foto
  {
    var ficha := Intercambiado(f, da, toma);
    Foto(if Satisfecha(ficha) then FINISHED else BLOCKED, false, nota, ficha)
  }

  /** What the first takes of the second, and what it gives in return. */
  ghost function Trato(m: Ficha, e: Ficha): (r: (string, string))
    requires LoQueTomaria(m.faltan, e.sobran).Some? && m.sobran != []
    ensures r.0 in m.faltan && r.0 in multiset(e.sobran) && r.1 in multiset(m.sobran)
  {
    var q := LoQueTomaria(e.faltan, m.sobran);
    assert m.sobran == [m.sobran[0]] + m.sobran[1..];
    (LoQueTomaria(m.faltan, e.sobran).value, if q.Some? then q.value else m.sobran[0])
  }

  ghost predicate PuedenIntercambiar(fotos: seq<Foto>, m: nat, e: nat)
  {
    && m < |fotos| && e < |fotos| && m != e && fotos[m].estado == fotos[e].estado == BLOCKED
    && LoQueTomaria(fotos[m].ficha.faltan, fotos[e].ficha.sobran).Some? && fotos[m].ficha.sobran != []
  }

  /** The notes the search leaves in the pair it found. */
  ghost function Anotadas(fotos: seq<Foto>, m: nat, e: nat): (r: seq<Foto>)
    requires PuedenIntercambiar(fotos, m, e)
  {
    var t := Trato(fotos[m].ficha, fotos[e].ficha);
    var leSirve := LoQueTomaria(fotos[e].ficha.faltan, fotos[m].ficha.sobran).Some?;
    fotos[m := fotos[m].(nota := Nombre(t.0))][e := fotos[e].(nota := if leSirve then Nombre(t.1) else fotos[e].nota)]
  }

  /** The one that waits wants something of the one that moves, or has not kept a name it no longer owns. */
  ghost predicate SaleBien(fotos: seq<Foto>, m: nat, e: nat)
    requires PuedenIntercambiar(fotos, m, e)
  {
    LoQueTomaria(fotos[e].ficha.faltan, fotos[m].ficha.sobran).Some? || fotos[e].nota == Nulo
  }

  lemma HayPareja(fotos: seq<Foto>, globales: multiset<string>, m: nat, e: nat)
    requires Coherentes(fotos, globales) && PuedenIntercambiar(fotos, m, e)
    ensures !NadaPorIntercambiar(fotos)
    ensures !fotos[e].ocupado ==> !fotos[e].nota.Nombre?
    ensures Equilibrada(fotos[m].ficha)
  {
    hide LoQueTomaria, Equilibrada;
    assert fotos[e].ficha.sobran != [];
    assert EnSuCola(fotos[e]);
    assert Equilibrada(FichasDe(fotos)[m]);
  }

  ghost function FotosTrasIntercambiar(fotos: seq<Foto>, m: nat, e: nat, anula: bool): seq<Foto>
    requires PuedenIntercambiar(fotos, m, e)
  {
    var t := Trato(fotos[m].ficha, fotos[e].ficha);
    fotos[m := TrasIntercambiar(fotos[m].ficha, t.1, t.0, NotaUsada(anula))]
         [e := TrasIntercambiar(fotos[e].ficha, t.0, t.1, Nulo)]
  }

  /** Nobody is on the move, and everybody is free. */
  ghost predicate Quietos(fotos: seq<Foto>)
  {
    forall k :: 0 <= k < |fotos| ==> !fotos[k].ocupado && fotos[k].estado != READY && fotos[k].estado != EXECUTE
  }

  /** No blocked trainer wants what another blocked one holds in excess, when both have something to give. */
  ghost predicate NadaPorIntercambiar(fotos: seq<Foto>)
  {
    forall a, b ::
      0 <= a < |fotos| && 0 <= b < |fotos| && a != b && PuedeOfrecer(fotos[a]) && PuedeOfrecer(fotos[b]) ==>
        fotos[a].ficha.faltan !! multiset(fotos[b].ficha.sobran)
  }

  ghost predicate PuedeOfrecer(f: Foto)
  {
    f.estado == BLOCKED && f.ficha.sobran != []
  }

  /** An exchange keeps the laws, leaves each trainer in its place, and brings the Team nearer to its objectives. */
  lemma UnIntercambio(fotos: seq<Foto>, globales: multiset<string>, m: nat, e: nat, anula: bool)
    requires Coherentes(fotos, globales) && PuedenIntercambiar(fotos, m, e)
    ensures Coherentes(FotosTrasIntercambiar(fotos, m, e, anula), globales)
    ensures |Faltantes(FichasDe(FotosTrasIntercambiar(fotos, m, e, anula)))| < |Faltantes(FichasDe(fotos))|
    ensures Quietos(fotos) ==> Quietos(FotosTrasIntercambiar(fotos, m, e, anula))
  {
    hide Faltantes, Sobrantes, Intercambiado, LoQueTomaria, Equilibrada, LeyGlobal;
    var t := Trato(fotos[m].ficha, fotos[e].ficha);
    var r := FotosTrasIntercambiar(fotos, m, e, anula);
    IntercambioConserva(FichasDe(fotos), globales, m, e, t.0, t.1);
    assert FichasDe(r) == FichasDe(fotos)[m := Intercambiado(fotos[m].ficha, t.1,
        t.0)][e := Intercambiado(fotos[e].ficha, t.0, t.1)];
  }

  /** With nothing left to capture and everybody quiet, there is nothing to exchange exactly when all are satisfied. */
  lemma NadaSiiSatisfechos(fotos: seq<Foto>)
    requires Coherentes(fotos, multiset{}) && Quietos(fotos)
    ensures NadaPorIntercambiar(fotos) <==> forall k :: 0 <= k < |fotos| ==> Satisfecha(fotos[k].ficha)
    ensures NadaPorIntercambiar(fotos) ==> forall k :: 0 <= k < |fotos| ==> fotos[k].ficha.sobran == []
  {
    hide Equilibrada, Faltantes, Sobrantes;
    var fs := FichasDe(fotos);
    SinIntercambioSiiSatisfechos(fs);
    if a :| 0 <= a < |fotos| && !Satisfecha(fotos[a].ficha) {
      var b := HayIntercambio(fs, a);
      assert EnSuCola(fotos[a]) && EnSuCola(fotos[b]);
      assert PuedeOfrecer(fotos[a]) && PuedeOfrecer(fotos[b]);
      assert LeSirve(fs, a, b);
    } else {
      assert forall k :: 0 <= k < |fs| ==> fs[k] == fotos[k].ficha && Satisfecha(fs[k]);
      assert forall k :: 0 <= k < |fs| ==> fs[k].sobran == [];
    }
  }

  ghost function TrasCapturar(f: Foto, s: string): Foto
  {
    var ficha := Capturado(f.ficha, s);
    Foto(if Satisfecha(ficha) then FINISHED else BLOCKED, false, f.nota, ficha)
  }

  lemma UnaCaptura(fotos: seq<Foto>, globales: multiset<string>, i: nat, s: string)
    requires Coherentes(fotos, globales) && i < |fotos| && s in globales && fotos[i].ficha.maximo != 0
    requires !fotos[i].ocupado
    ensures Coherentes(fotos[i := TrasCapturar(fotos[i], s)], globales - multiset{s})
  {
    hide Equilibrada, Faltantes, Sobrantes, Capturado;
    CapturaConserva(FichasDe(fotos), globales, i, s);
    assert EnSuCola(fotos[i]);
    var f := TrasCapturar(fotos[i], s);
    assert FichasDe(fotos[i := f]) == FichasDe(fotos)[i := f.ficha];
  }

  /** A free trainer that may still capture lacks something, so it may wait among those that are blocked. */
  lemma PuedeBloquearse(fotos: seq<Foto>, globales: multiset<string>, i: nat)
    requires Coherentes(fotos, globales) && i < |fotos| && fotos[i].ficha.maximo != 0
    ensures Coherentes(fotos[i := fotos[i].(estado := BLOCKED)], globales)
  {
    var f := fotos[i].ficha;
    assert EnSuCola(fotos[i]) && Equilibrada(FichasDe(fotos)[i]);
    assert |f.faltan| > 0;
    SinCambioDeFicha(fotos, globales, i, fotos[i].(estado := BLOCKED));
  }

  lemma SinCambioDeFicha(fotos: seq<Foto>, globales: multiset<string>, i: nat, f: Foto)
    requires Coherentes(fotos, globales) && i < |fotos| && EnSuCola(f) && f.ficha == fotos[i].ficha
    ensures Coherentes(fotos[i := f], globales)
  {
    assert FichasDe(fotos[i := f]) == FichasDe(fotos);
  }

  lemma UnoMas(fotos: seq<Foto>, f: Foto, globales: multiset<string>)
    requires Coherentes(fotos, globales) && EnSuCola(f) && Equilibrada(f.ficha) && f.ficha.sobran == []
    ensures Coherentes(fotos + [f], globales + f.ficha.faltan)
  {
    hide Equilibrada, EnSuCola, Faltantes, Sobrantes;
    assert FichasDe(fotos + [f]) == FichasDe(fotos) + [f.ficha];
    SumarFicha(FichasDe(fotos), f.ficha);
    var s := Sobrantes(FichasDe(fotos));
    assert (globales + s) + f.ficha.faltan == (globales + f.ficha.faltan) + s;
  }
}
