/**
 A Team before its exchanges: what the configuration says of each trainer, and what its captures make of
 them, in whatever order they come.
 */
module Capturas {
  import opened Secuencias
  import opened Leyes
  import opened Entrenadores
  import opened Tratos
  import opened Resolucion

  /** A trainer as the configuration gives it: what it is to get and what it starts with. */
  datatype Planilla = Planilla(objetivos: seq<string>, obtenidos: seq<string>)

  /** An attempt by a trainer at a species, and whether it succeeds. */
  datatype Captura = Captura(quien: nat, especie: string, exito: bool)

  /** It does not start with more of a species than it is to get. */
  ghost predicate SinExceso(p: Planilla)
  {
    forall s :: s in multiset(p.objetivos) ==> multiset(p.obtenidos)[s] <= multiset(p.objetivos)[s]
  }

  ghost function LeFalta(p: Planilla): multiset<string>
  {
    multiset(p.objetivos) - multiset(p.obtenidos)
  }

  /** What it started with, and what it lacked of its objectives. */
  ghost function LoQueLeToca(p: Planilla): multiset<string>
  {
    multiset(p.obtenidos) + LeFalta(p)
  }

  ghost function FotoInicial(p: Planilla): Foto
  {
    Foto(NEW, false, Nulo, Ficha(multiset(p.obtenidos), LeFalta(p), [], |LeFalta(p)|))
  }

  /** The Team of a configuration. */
  ghost function Inicio(ps: seq<Planilla>): Cuadro
  {
    Cuadro(seq(|ps|, i requires 0 <= i < |ps| => FotoInicial(ps[i])), [])
  }

  ghost function LoQueFalta(ps: seq<Planilla>): multiset<string>
  {
    if ps == [] then multiset{} else LoQueFalta(ps[..|ps| - 1]) + LeFalta(ps[|ps| - 1])
  }

  lemma InicioConUnoMas(ps: seq<Planilla>, p: Planilla)
    ensures Inicio(ps + [p]) == Cuadro(Inicio(ps).fotos + [FotoInicial(p)], [])
    ensures LoQueFalta(ps + [p]) == LoQueFalta(ps) + LeFalta(p)
  {
    assert (ps + [p])[..|ps|] == ps;
  }

  /** A state from which the captures and the exchanges of the Team are defined. */
  ghost predicate EnRegla(c: Cuadro, globales: multiset<string>)
  {
    EsOrden(c) && Coherentes(c.fotos, globales) && Quietos(c.fotos)
  }

  lemma FotoInicialEnRegla(p: Planilla)
    ensures EnSuCola(FotoInicial(p)) && Equilibrada(FotoInicial(p).ficha)
  {
  }

  lemma NadieCoherente()
    ensures Coherentes(Inicio([]).fotos, LoQueFalta([]))
  {
    assert FichasDe(Inicio([]).fotos) == [];
  }

  lemma {:induction false} InicioCoherente(ps: seq<Planilla>)
    ensures Coherentes(Inicio(ps).fotos, LoQueFalta(ps))
  {
    hide Coherentes, EnSuCola, Equilibrada, Leyes.Leyes, Inicio, LoQueFalta, LeFalta;
    if ps == [] {
      NadieCoherente();
    } else {
      var antes, p := ps[..|ps| - 1], ps[|ps| - 1];
      assert ps == antes + [p];
      InicioCoherente(antes);
      InicioConUnoMas(antes, p);
      FotoInicialEnRegla(p);
      UnoMas(Inicio(antes).fotos, FotoInicial(p), LoQueFalta(antes));
    }
  }

  lemma InicioEnRegla(ps: seq<Planilla>)
    ensures EnRegla(Inicio(ps), LoQueFalta(ps)) && SinLiberadas(Inicio(ps).fotos)
  {
    hide Coherentes;
    InicioCoherente(ps);
  }

  // ---- captures ----

  /** It may still capture: the others the planner does not send. */
  ghost predicate PuedeIntentar(c: Cuadro, i: nat)
  {
    i < |c.fotos| && c.fotos[i].ficha.maximo != 0
  }

  /** The capture made or missed, the trainer waits again, at the end of the queue, unless it wants nothing more. */
  ghost function Intento(c: Cuadro, i: nat, s: string, exito: bool): Cuadro
    requires i < |c.fotos|
  {
    var f := if exito then TrasCapturar(c.fotos[i], s) else c.fotos[i].(estado := BLOCKED);
    Cuadro(c.fotos[i := f], PasaAlFinal(c.orden, i, f.estado == BLOCKED))
  }

  /** The capture made by one that waits: it goes out of the queue if it wants nothing more. */
  ghost function ConLaCaptura(c: Cuadro, i: nat, s: string): Cuadro
    requires i < |c.fotos|
  {
    var f := TrasCapturar(c.fotos[i], s);
    Cuadro(c.fotos[i := f], if f.estado == BLOCKED then c.orden else Sacar(c.orden, i))
  }

  /** Going out to capture and making the capture, one after the other. */
  lemma IntentoConExito(c: Cuadro, i: nat, s: string)
    requires EsOrden(c) && i < |c.fotos|
    ensures ConLaCaptura(Intento(c, i, s, false), i, s) == Intento(c, i, s, true)
  {
    hide EsOrden, Sacar, PasaAlFinal, Capturado, Satisfecha;
    AlFinalYAfuera(c.fotos, c.orden, i);
  }

  /** Captured, and one less that may be: with what the trainer has if it lacked it, and else the last of its excess. */
  ghost predicate Capturo(antes: Ficha, s: string, despues: Ficha)
  {
    && despues.maximo == antes.maximo - 1
    && if s in antes.faltan then
         && despues.tiene == antes.tiene + multiset{s} && despues.faltan == antes.faltan - multiset{s}
         && despues.sobran == antes.sobran
       else
         && despues.tiene == antes.tiene && despues.faltan == antes.faltan
         && despues.sobran == antes.sobran + [s]
  }

  /** The i-th has been out for s: it alone has changed, and the others wait in their order. */
  ghost predicate SalioPor(c: Cuadro, d: Cuadro, i: nat, s: string, exito: bool)
    requires i < |c.fotos|
  {
    && |d.fotos| == |c.fotos| && (forall k :: 0 <= k < |c.fotos| && k != i ==> d.fotos[k] == c.fotos[k])
    && EnSuLugarYLibre(d.fotos[i]) && d.fotos[i].nota == c.fotos[i].nota
    && (if exito then Capturo(c.fotos[i].ficha, s, d.fotos[i].ficha) else d.fotos[i].ficha == c.fotos[i].ficha)
    && PasoAlFinal(c.orden, i, d.fotos[i].estado == BLOCKED, d.orden)
  }

  lemma LaFichaTrasCapturar(f: Foto, s: string)
    ensures Capturo(f.ficha, s, TrasCapturar(f, s).ficha) && EnSuLugarYLibre(TrasCapturar(f, s))
  {
  }

  lemma ElIntento(c: Cuadro, globales: multiset<string>, i: nat, s: string, exito: bool)
    requires Coherentes(c.fotos, globales) && i < |c.fotos| && !c.fotos[i].ocupado && c.fotos[i].ficha.maximo != 0
    ensures SalioPor(c, Intento(c, i, s, exito), i, s, exito)
  {
    hide Capturo, EnSuLugarYLibre, PasaAlFinal, PasoAlFinal, Coherentes, Capturado, Satisfecha;
    var d := Intento(c, i, s, exito);
    LosDemasEnOrden(c.orden, i, d.fotos[i].estado == BLOCKED);
    if exito {
      LaFichaTrasCapturar(c.fotos[i], s);
    } else {
      AlgoLeFalta(c.fotos, globales, i);
    }
  }

  lemma AlgoLeFalta(fotos: seq<Foto>, globales: multiset<string>, i: nat)
    requires Coherentes(fotos, globales) && i < |fotos| && fotos[i].ficha.maximo != 0 && !fotos[i].ocupado
    ensures EnSuLugarYLibre(fotos[i].(estado := BLOCKED))
  {
    assert Equilibrada(FichasDe(fotos)[i]);
    assert |fotos[i].ficha.faltan| > 0;
  }

  lemma LaCaptura(c: Cuadro, i: nat, s: string)
    requires i < |c.fotos| && !c.fotos[i].ocupado
    ensures var d := ConLaCaptura(c, i, s);
            && |d.fotos| == |c.fotos| && Capturo(c.fotos[i].ficha, s, d.fotos[i].ficha) && EnSuLugarYLibre(d.fotos[i])
            && if d.fotos[i].estado == BLOCKED then d.orden == c.orden else SinUno(c.orden, i, d.orden)
  {
    hide Sacar, SinUno, Capturo, EnSuLugarYLibre, Capturado;
    SacarDejaElResto(c.orden, i);
    LaFichaTrasCapturar(c.fotos[i], s);
  }

  ghost function TrasCaptura(c: Cuadro, x: Captura): Cuadro
  {
    if PuedeIntentar(c, x.quien) then Intento(c, x.quien, x.especie, x.exito) else c
  }

  ghost function TrasCapturas(c: Cuadro, cs: seq<Captura>): Cuadro
    decreases |cs|
  {
    if cs == [] then c else TrasCapturas(TrasCaptura(c, cs[0]), cs[1..])
  }

  /** How many each trainer may still capture. */
  ghost function Cupos(fotos: seq<Foto>): seq<int>
  {
    seq(|fotos|, i requires 0 <= i < |fotos| => fotos[i].ficha.maximo)
  }

  /** The capture is made: it is by one that may still capture, and it succeeds. */
  predicate TieneEfecto(cupos: seq<int>, x: Captura)
  {
    x.quien < |cupos| && cupos[x.quien] != 0 && x.exito
  }

  /** The species of the captures that take effect, each trainer making no more than it may. */
  function Efectivas(cupos: seq<int>, cs: seq<Captura>): seq<string>
    decreases |cs|
  {
    if cs == [] then []
    else if TieneEfecto(cupos, cs[0]) then
      [cs[0].especie] + Efectivas(cupos[cs[0].quien := cupos[cs[0].quien] - 1], cs[1..])
    else Efectivas(cupos, cs[1..])
  }

  /** The guards of the planner: with everybody quiet, only those that may still capture pass them. */
  lemma LaGuarda(c: Cuadro, globales: multiset<string>, i: nat)
    requires EnRegla(c, globales) && i < |c.fotos|
    ensures PuedeIntentar(c, i) <==>
            c.fotos[i].estado in {NEW, BLOCKED} && !c.fotos[i].ocupado && c.fotos[i].ficha.maximo != 0
  {
    assert EnSuCola(c.fotos[i]) && Equilibrada(FichasDe(c.fotos)[i]);
  }

  /** What is left of what the Team needs once the captures that take effect have been made. */
  ghost function LoQueQueda(c: Cuadro, globales: multiset<string>, cs: seq<Captura>): multiset<string>
  {
    globales - multiset(Efectivas(Cupos(c.fotos), cs))
  }

  lemma CuposTrasCaptura(c: Cuadro, x: Captura)
    ensures TieneEfecto(Cupos(c.fotos), x) <==> PuedeIntentar(c, x.quien) && x.exito
    ensures Cupos(TrasCaptura(c, x).fotos) == if TieneEfecto(Cupos(c.fotos), x) then
              Cupos(c.fotos)[x.quien := Cupos(c.fotos)[x.quien] - 1] else Cupos(c.fotos)
  {
    var r := Cupos(TrasCaptura(c, x).fotos);
    assert |r| == |c.fotos|;
  }

  /** What x takes of what the Team needs. */
  ghost function LoCapturado(c: Cuadro, x: Captura): multiset<string>
  {
    if TieneEfecto(Cupos(c.fotos), x) then multiset{x.especie} else multiset{}
  }

  lemma UnaCapturaEnRegla(c: Cuadro, globales: multiset<string>, x: Captura)
    requires EnRegla(c, globales) && LoCapturado(c, x) <= globales
    ensures EnRegla(TrasCaptura(c, x), globales - LoCapturado(c, x))
    ensures SinLiberadas(c.fotos) ==> SinLiberadas(TrasCaptura(c, x).fotos)
  {
    hide Coherentes, EsOrden, PasaAlFinal, Capturado;
    CuposTrasCaptura(c, x);
    assert globales - multiset{} == globales;
    if PuedeIntentar(c, x.quien) {
      var f := TrasCaptura(c, x).fotos[x.quien];
      if x.exito {
        UnaCaptura(c.fotos, globales, x.quien, x.especie);
      } else {
        PuedeBloquearse(c.fotos, globales, x.quien);
      }
      PasaEnElOrden(c.fotos, c.orden, x.quien, f);
    }
  }

  /** Captures in any order that ask for no more than is needed keep the laws. */
  lemma {:induction false} CapturasEnRegla(c: Cuadro, globales: multiset<string>, cs: seq<Captura>)
    requires EnRegla(c, globales) && multiset(Efectivas(Cupos(c.fotos), cs)) <= globales
    ensures EnRegla(TrasCapturas(c, cs), LoQueQueda(c, globales, cs))
    ensures SinLiberadas(c.fotos) ==> SinLiberadas(TrasCapturas(c, cs).fotos)
    decreases |cs|
  {
    hide EnRegla, TrasCaptura, SinLiberadas, LoCapturado, Efectivas;
    if cs != [] {
      var f := multiset(Efectivas(Cupos(TrasCaptura(c, cs[0]).fotos), cs[1..]));
      LaPrimeraEfectiva(c, cs);
      RestarPorPartes(globales, f, LoCapturado(c, cs[0]));
      UnaCapturaEnRegla(c, globales, cs[0]);
      CapturasEnRegla(TrasCaptura(c, cs[0]), globales - LoCapturado(c, cs[0]), cs[1..]);
    } else {
      SinCapturas(c);
      assert globales - multiset{} == globales;
    }
  }

  lemma RestarPorPartes(g: multiset<string>, f: multiset<string>, m: multiset<string>)
    ensures f + m <= g <==> m <= g && f <= g - m
    ensures f + m <= g ==> (g - m) - f == g - (f + m)
  {
    if m <= g && f <= g - m {
      assert (g - m) + m == g;
    }
  }

  lemma SinCapturas(c: Cuadro)
    ensures multiset(Efectivas(Cupos(c.fotos), [])) == multiset{}
  {
  }

  lemma LaPrimeraEfectiva(c: Cuadro, cs: seq<Captura>)
    requires cs != []
    ensures multiset(Efectivas(Cupos(c.fotos), cs))
         == multiset(Efectivas(Cupos(TrasCaptura(c, cs[0]).fotos), cs[1..]))
            + LoCapturado(c, cs[0])
  {
    hide TrasCaptura, Cupos, PuedeIntentar;
    CuposTrasCaptura(c, cs[0]);
  }

  /** Whoever captures, what each is to end up with does not change. */
  lemma {:induction false} LaMetaTrasCapturas(c: Cuadro, cs: seq<Captura>)
    ensures |TrasCapturas(c, cs).fotos| == |c.fotos|
    ensures forall k :: 0 <= k < |c.fotos| ==> Meta(TrasCapturas(c, cs).fotos[k].ficha) == Meta(c.fotos[k].ficha)
    decreases |cs|
  {
    hide Recibido, Meta;
    if cs != [] {
      LaMetaTrasCapturas(TrasCaptura(c, cs[0]), cs[1..]);
      if PuedeIntentar(c, cs[0].quien) {
        CapturarNoMueveLaMeta(c.fotos[cs[0].quien].ficha, cs[0].especie);
      }
    }
  }

  lemma CapturarNoMueveLaMeta(f: Ficha, s: string)
    ensures Meta(Capturado(f, s)) == Meta(f)
  {
    RecibirNoMueveLaMeta(f, s);
  }

  /** No capture takes effect on a species that the Team no longer needs. */
  ghost predicate Alcanza(ps: seq<Planilla>, cs: seq<Captura>)
  {
    multiset(Efectivas(Cupos(Inicio(ps).fotos), cs)) <= LoQueFalta(ps)
  }

  /** All that the Team needed has been captured, and nothing else. */
  ghost predicate TodoCapturado(ps: seq<Planilla>, cs: seq<Captura>)
  {
    multiset(Efectivas(Cupos(Inicio(ps).fotos), cs)) == LoQueFalta(ps)
  }

  /** A Team with everything captured is one from which the exchanges can be run. */
  lemma ListoParaIntercambiar(ps: seq<Planilla>, cs: seq<Captura>)
    requires TodoCapturado(ps, cs)
    ensures EnRegla(TrasCapturas(Inicio(ps), cs), multiset{}) && SinLiberadas(TrasCapturas(Inicio(ps), cs).fotos)
  {
    hide EnRegla, SinLiberadas, Efectivas, LoQueFalta;
    InicioEnRegla(ps);
    CapturasEnRegla(Inicio(ps), LoQueFalta(ps), cs);
    assert LoQueFalta(ps) - LoQueFalta(ps) == multiset{};
  }

  /** Going by the configuration and the captures alone: no exchange of the run that follows them fails. */
  ghost predicate TodosTerminan(ps: seq<Planilla>, cs: seq<Captura>, anula: bool)
    requires TodoCapturado(ps, cs)
  {
    ListoParaIntercambiar(ps, cs);
    Resuelve(TrasCapturas(Inicio(ps), cs), multiset{}, anula)
  }

  /** With the note nulled after use, every Team that captures what it needed has all its trainers end. */
  lemma AnulandoTerminan(ps: seq<Planilla>, cs: seq<Captura>)
    requires TodoCapturado(ps, cs)
    ensures TodosTerminan(ps, cs, true)
  {
    hide Efectivas, LoQueFalta, TrasCapturas, Inicio, Resuelve;
    ListoParaIntercambiar(ps, cs);
    AnulandoSeResuelve(TrasCapturas(Inicio(ps), cs), multiset{});
  }

  /** As the source does it, so does every Team whose captures leave nobody with more than one in excess. */
  lemma ConUnoDeMasTerminan(ps: seq<Planilla>, cs: seq<Captura>)
    requires TodoCapturado(ps, cs) && UnoDeMas(TrasCapturas(Inicio(ps), cs).fotos)
    ensures TodosTerminan(ps, cs, false)
  {
    hide Efectivas, LoQueFalta, TrasCapturas, Inicio, Resuelve, UnoDeMas;
    ListoParaIntercambiar(ps, cs);
    UnoDeMasSeResuelve(TrasCapturas(Inicio(ps), cs), false);
  }
}
