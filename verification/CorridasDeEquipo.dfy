/** A Team from its configuration to its end: captures in any order, and then the exchanges. */
module CorridasDeEquipo {
  import opened Secuencias
  import opened Objetivos
  import opened Leyes
  import opened Entrenadores
  import opened Tratos
  import opened Resolucion
  import opened Capturas
  import opened Colas
  import opened Team

  method Reunir(ps: seq<Planilla>, anula: bool) returns (e: Equipo)
    requires forall i :: 0 <= i < |ps| ==> SinExceso(ps[i])
    ensures fresh(e) && e.Valid() && fresh(e.todos) && e.anula == anula
    ensures e.Actual() == Inicio(ps) && Contenido(e.objetivosGlobales) == LoQueFalta(ps)
  {
    hide Coherentes, SonColas, Contenido, ListaValida, SinExceso, FotoInicial, LeFalta, EsOrden, Inscriptos;
    e := new Equipo(anula);
    var i := 0;
    assert ps[..0] == [];
    while i < |ps|
      invariant 0 <= i <= |ps| && fresh(e) && e.Valid() && fresh(e.todos) && e.anula == anula
      invariant e.Actual() == Inicio(ps[..i]) && Contenido(e.objetivosGlobales) == LoQueFalta(ps[..i])
    {
      var _ := e.AgregarEntrenador(ps[i]);
      InicioConUnoMas(ps[..i], ps[i]);
      assert ps[..i] + [ps[i]] == ps[..i + 1];
      i := i + 1;
    }
    assert ps[..i] == ps;
  }

  /**
   An attempt at a capture.  It is made only by a trainer that is free, not on the move and may still
   capture, and it fails exactly on a success with a species that the Team no longer needs.
   */
  method UnaCapturaMas(e: Equipo, c: Captura) returns (ok: bool)
    requires e.Valid() && Quietos(e.Actual().fotos)
    modifies e, e.todos
    ensures ok <==>
            old(PuedeIntentar(e.Actual(), c.quien) && c.exito ==> c.especie in Contenido(e.objetivosGlobales))
    ensures ok ==> e.Valid() && e.todos == old(e.todos) && e.Actual() == TrasCaptura(old(e.Actual()), c)
    ensures ok ==>
              Contenido(e.objetivosGlobales) == old(Contenido(e.objetivosGlobales)) - LoCapturado(old(e.Actual()), c)
  {
    hide Coherentes, SonColas, Contenido, ListaValida, Intento, EsOrden, Quietos;
    ghost var antes, g := e.Actual(), Contenido(e.objetivosGlobales);
    ok := true;
    CuposTrasCaptura(antes, c);
    assert g - multiset{} == g;
    if c.quien < |e.todos| {
      var t := e.todos[c.quien];
      LaGuarda(antes, g, c.quien);
      assert antes.fotos[c.quien] == FotoDe(t);
      if t.estado in {NEW, BLOCKED} && !t.estaOcupado && t.cantidadMaxima != 0 {
        ok := e.Capturar(c.quien, c.especie, c.exito);
      }
    }
  }

  /**
   Captures by whoever may still make them.  They can all be made exactly when those that take effect,
   counted with their repetitions, are among what the Team was still to capture.
   */
  method HacerCapturas(e: Equipo, cs: seq<Captura>) returns (ok: bool)
    requires e.Valid() && Quietos(e.Actual().fotos)
    modifies e, e.todos
    ensures ok <==> multiset(Efectivas(Cupos(old(e.Actual()).fotos), cs)) <= old(Contenido(e.objetivosGlobales))
    ensures ok ==> e.Valid() && e.todos == old(e.todos) && e.Actual() == TrasCapturas(old(e.Actual()), cs)
    ensures ok ==> Contenido(e.objetivosGlobales) == old(LoQueQueda(e.Actual(), Contenido(e.objetivosGlobales), cs))
  {
    hide Coherentes, SonColas, Contenido, ListaValida, TrasCaptura, LoCapturado, Efectivas, EsOrden, Quietos,
        Inscriptos, Cupos;
    ok := true;
    var i := 0;
    ghost var c, g := e.Actual(), Contenido(e.objetivosGlobales);
    ghost var f := multiset(Efectivas(Cupos(c.fotos), cs));
    assert cs[0..] == cs;
    while i < |cs|
      invariant 0 <= i <= |cs| && e.Valid() && e.todos == old(e.todos) && Quietos(e.Actual().fotos)
      invariant TrasCapturas(e.Actual(), cs[i..]) == TrasCapturas(c, cs)
      invariant var quedan := multiset(Efectivas(Cupos(e.Actual().fotos), cs[i..]));
                && (quedan <= Contenido(e.objetivosGlobales) <==> f <= g)
                && (f <= g ==> Contenido(e.objetivosGlobales) - quedan == g - f)
    {
      ghost var a, r := e.Actual(), Contenido(e.objetivosGlobales);
      LaPrimeraEfectiva(a, cs[i..]);
      RestarPorPartes(r, multiset(Efectivas(Cupos(TrasCaptura(a, cs[i]).fotos), cs[i + 1..])), LoCapturado(a, cs[i]));
      assert cs[i..][1..] == cs[i + 1..];
      LoCapturadoAlcanza(a, r, cs[i]);
      ok := UnaCapturaMas(e, cs[i]);
      if !ok {
        return;
      }
      UnaCapturaEnRegla(a, r, cs[i]);
      i := i + 1;
    }
    SinCapturas(e.Actual());
    assert cs[i..] == [];
    assert Contenido(e.objetivosGlobales) - multiset{} == Contenido(e.objetivosGlobales);
  }

  lemma LoCapturadoAlcanza(c: Cuadro, g: multiset<string>, x: Captura)
    ensures LoCapturado(c, x) <= g <==> PuedeIntentar(c, x.quien) && x.exito ==> x.especie in g
  {
    CuposTrasCaptura(c, x);
  }

  /** The trainer is left wanting nothing, with nothing in excess, and with what was to be its own. */
  ghost predicate Termino(t: Entrenador, p: Planilla)
    reads t
  {
    && t.objetivos == [] && t.noNecesitados == []
    && ListaValida(t.obtenidos) && Contenido(t.obtenidos) == LoQueLeToca(p)
  }

  lemma CumplidoTermino(t: Entrenador, ps: seq<Planilla>, cs: seq<Captura>, k: nat)
    requires k < |ps| && |TrasCapturas(Inicio(ps), cs).fotos| == |ps|
    requires Cumplido(t, TrasCapturas(Inicio(ps), cs).fotos[k])
    ensures Termino(t, ps[k])
  {
    hide TrasCapturas, Contenido;
    LaMetaTrasCapturas(Inicio(ps), cs);
  }

  /** With nothing outside its objectives to start with, what is to be its own is its objectives. */
  lemma LeTocanSusObjetivos(p: Planilla)
    requires multiset(p.obtenidos) <= multiset(p.objetivos)
    ensures SinExceso(p) && LoQueLeToca(p) == multiset(p.objetivos)
  {
  }

  /**
   A whole run, by the configuration and the captures alone.  The captures can be made exactly when none
   that takes effect is of a species no longer needed; and, once all that was needed has been captured,
   the run ends with every trainer holding exactly what the configuration says, whoever captured it,
   exactly when no exchange of those that the order of the captures leads to meets a freed name.
   */
  method Correr(ps: seq<Planilla>, cs: seq<Captura>, anula: bool) returns (e: Equipo, capturo: bool, ok: bool)
    requires forall i :: 0 <= i < |ps| ==> SinExceso(ps[i])
    ensures fresh(e) && (capturo <==> Alcanza(ps, cs)) && (capturo ==> |e.todos| == |ps|)
    ensures capturo ==> (e.objetivosGlobales == [] <==> TodoCapturado(ps, cs))
    ensures TodoCapturado(ps, cs) ==> capturo && (ok <==> TodosTerminan(ps, cs, anula))
    ensures TodoCapturado(ps, cs) && anula ==> ok
    ensures TodoCapturado(ps, cs) && UnoDeMas(TrasCapturas(Inicio(ps), cs).fotos) ==> ok
    ensures TodoCapturado(ps, cs) && ok ==> forall k :: 0 <= k < |ps| ==> Termino(e.todos[k], ps[k])
  {
    hide Coherentes, SonColas, Contenido, ListaValida, EsHistoria, Cumplido, Termino, Inscriptos, Faltantes, Efectivas,
        LoQueFalta, FotoInicial, Cupos, EsOrden, TrasCapturas, Resuelve, UnoDeMas, SinExceso, Quietos;
    e := Reunir(ps, anula);
    InicioEnRegla(ps);
    capturo := HacerCapturas(e, cs);
    ok := true;
    if capturo {
      LaMetaTrasCapturas(Inicio(ps), cs);
      NadaQueda(LoQueFalta(ps), multiset(Efectivas(Cupos(Inicio(ps).fotos), cs)));
      SinObjetivosSatisfecho(e.objetivosGlobales);
      if e.objetivosGlobales == [] {
        ListoParaIntercambiar(ps, cs);
        ghost var h;
        ok, h := e.ResolverDeadlocks();
        if ok {
          forall k | 0 <= k < |ps|
            ensures Termino(e.todos[k], ps[k])
          {
            CumplidoTermino(e.todos[k], ps, cs, k);
          }
        }
      }
    }
  }

  lemma NadaQueda(g: multiset<string>, f: multiset<string>)
    ensures f <= g ==> (g - f == multiset{} <==> f == g)
    ensures f == g ==> f <= g
  {
    if f <= g && g - f == multiset{} {
      assert (g - f) + f == g;
    }
  }
}
