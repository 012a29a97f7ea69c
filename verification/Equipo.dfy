/**
 The Team: its trainers, the five queues they move through, what is still to be captured, and the
 search that resolves deadlocks by exchanges.
 */
module Team {
  import opened Secuencias
  import opened Objetivos
  import opened Leyes
  import opened Entrenadores
  import opened Tratos
  import opened Resolucion
  import opened Capturas
  import opened Colas

  class Equipo {
    var todos: seq<Entrenador>
    /** The five global queues, each under the state of the trainers it holds. */
    var colas: map<Estado, seq<Entrenador>>
    var objetivosGlobales: seq<Nodo>
    /** Whether an exchange nulls the note it has freed.  The source only frees it: there this is false. */
    const anula: bool

    ghost predicate Valid()
      reads this, todos
    {
      && Inscriptos(todos) && SonColas(colas, todos, FotosDe(todos))
      && ListaValida(objetivosGlobales) && Coherentes(FotosDe(todos), Contenido(objetivosGlobales))
      && (anula ==> SinLiberadas(FotosDe(todos)))
    }

    /** The trainers and, by their places in the Team, those in BLOCKED. */
    ghost function Actual(): (c: Cuadro)
      requires Valid()
      reads this, todos
      ensures EsOrden(c) && c.fotos == FotosDe(todos)
    {
      var q, fotos := colas[BLOCKED], FotosDe(todos);
      assert EsCola(q, todos, fotos, BLOCKED);
      OrdenEsOrden(q, todos, fotos);
      Cuadro(fotos, OrdenDe(q, todos))
    }

    constructor (anula: bool)
      ensures Valid() && this.anula == anula && Actual() == Inicio([]) && Contenido(objetivosGlobales) == multiset{}
      ensures todos == []
    {
      todos, objetivosGlobales := [], [];
      this.anula := anula;
      colas := map[NEW := [], READY := [], EXECUTE := [], BLOCKED := [], FINISHED := []];
      new;
      forall e
        ensures e in colas && colas[e] == []
      {
        match e { case NEW => case READY => case EXECUTE => case BLOCKED => case FINISHED => }
      }
      NadieCoherente();
      assert FotosDe(todos) == Inicio([]).fotos;
    }

    /** list_remove_by_condition on a queue, by the trainer's identity. */
    method Desencolar(t: Entrenador)
      requires t.estado in colas
      modifies this`colas
      ensures colas == old(colas)[t.estado := Sacar(old(colas)[t.estado], t)]
    {
      colas := colas[t.estado := Sacar(colas[t.estado], t)];
    }

    method Encolar(t: Entrenador, e: Estado)
      requires e in colas
      modifies this`colas, t`estado
      ensures t.estado == e && colas == old(colas)[e := old(colas)[e] + [t]]
    {
      t.estado := e;
      colas := colas[e := colas[e] + [t]];
    }

    /** A trainer of the configuration joins the Team, and its objectives the Team's. */
    method AgregarEntrenador(p: Planilla) returns (t: Entrenador)
      requires Valid() && SinExceso(p)
      modifies this
      ensures Valid() && fresh(t) && todos == old(todos) + [t]
      ensures Actual() == Cuadro(old(Actual()).fotos + [FotoInicial(p)], old(Actual()).orden)
      ensures Contenido(objetivosGlobales) == old(Contenido(objetivosGlobales)) + LeFalta(p)
    {
      hide Contenido, ListaValida, SonColas, Coherentes, EsOrden;
      t := new Entrenador(p.objetivos, p.obtenidos);
      RecienLlegado(t, p);
      Incorporar(t);
    }

    /** The last of the trainers and of those in NEW. */
    method Incorporar(t: Entrenador)
      requires Valid() && t !in todos && t.Valid() && t.noNecesitados == []
      requires t.estado == NEW && !t.estaOcupado && t.pokemonACambiar == Nulo
      modifies this
      ensures Valid() && todos == old(todos) + [t]
      ensures Actual() == Cuadro(old(Actual()).fotos + [FotoDe(t)], old(Actual()).orden)
      ensures Contenido(objetivosGlobales) == old(Contenido(objetivosGlobales)) + t.Faltan()
    {
      hide Contenido, ListaValida, SonColas, Coherentes, Equilibrada, EsOrden, OrdenDe, FotosDe, SinLiberadas,
          DelEquipo;
      ghost var fotos, antes, c, f := FotosDe(todos), todos, colas, FotoDe(t);
      LlegaNuevo(c, antes, fotos, t, f);
      UnoMas(fotos, f, Contenido(objetivosGlobales));
      BloqueadosDelEquipo(c, antes, fotos);
      OrdenConUnoMas(c[BLOCKED], antes, t);
      HayCincoColas(c, antes, fotos);
      UnaMasSinLiberar(fotos, f);
      FotosConUnoMas(antes, t);
      objetivosGlobales := Absorber(objetivosGlobales, t.objetivos);
      todos := todos + [t];
      colas := colas[NEW := colas[NEW] + [t]];
    }

    /**
     A trainer that is free and may still capture goes for a pokemon and learns whether it caught it.
     READY and EXECUTE are passed through on the way, and a failed attempt only forgets the CATCH; the
     capture that succeeds updates the Team's objectives first, and fails on a species the Team no
     longer needs.
     */
    method Capturar(i: nat, s: string, exito: bool) returns (ok: bool)
      requires Valid() && i < |todos| && todos[i].estado in {NEW, BLOCKED}
      requires !todos[i].estaOcupado && todos[i].cantidadMaxima != 0
      modifies this`colas, this`objetivosGlobales, todos[i]
      ensures ok <==> exito ==> s in old(Contenido(objetivosGlobales))
      ensures ok ==> Valid() && todos == old(todos) && Actual() == Intento(old(Actual()), i, s, exito)
      ensures ok ==> SalioPor(old(Actual()), Actual(), i, s, exito)
      ensures ok ==> Contenido(objetivosGlobales) == old(Contenido(objetivosGlobales)) - LoQueToma(s, exito)
    {
      hide Contenido, ListaValida, SonColas, Coherentes, Inscriptos, EsOrden, Sacar, PasaAlFinal, Capturado, Satisfecha,
          SinLiberadas, OrdenDe, ConLaCaptura, SalioPor;
      IntentoConExito(Actual(), i, s);
      ElIntento(Actual(), Contenido(objetivosGlobales), i, s, exito);
      SalirACapturar(i, s);
      if exito {
        ok := AccionesAlCapturarConExito(i);
      } else {
        OlvidarElCatch(i);
        ok := true;
      }
    }

    method SalirACapturar(i: nat, s: string)
      requires Valid() && i < |todos| && todos[i].estado in {NEW, BLOCKED} && todos[i].cantidadMaxima != 0
      modifies this`colas, todos[i]
      ensures Valid() && Actual() == Intento(old(Actual()), i, s, false)
      ensures todos[i].pokemonCaptura == todos[i].catchEnviado == Some(s)
    {
      hide Contenido, ListaValida, SonColas, Coherentes, Sacar, EnSuCola, EsOrden, OrdenDe, FotosDe, Inscriptos,
          SinLiberadas, DelEquipo;
      UnaVezCadaUno(todos);
      var t := todos[i];
      ghost var fotos, c, f := FotosDe(todos), colas, FotoDe(t).(estado := BLOCKED);
      CambiarSinLiberar(fotos, i, f);
      Mudar(c, todos, fotos, i, f);
      PuedeBloquearse(fotos, Contenido(objetivosGlobales), i);
      HayCincoColas(c, todos, fotos);
      BloqueadosDelEquipo(c, todos, fotos);
      BloqueadosTrasSalir(c, todos, fotos, i);
      OrdenTrasPasar(c[BLOCKED], todos, i, true);
      Desencolar(t);
      Encolar(t, BLOCKED);
      t.pokemonCaptura, t.catchEnviado := Some(s), Some(s);
      assert colas == Mudada(c, t, fotos[i].estado, BLOCKED);
      forall k | 0 <= k < |todos|
        ensures todos[k].Listas() && FotoDe(todos[k]) == fotos[i := f][k]
      {
        assert k == i || todos[k] != t;
      }
      SonLasFotos(todos, fotos[i := f]);
    }

    method OlvidarElCatch(i: nat)
      requires Valid() && i < |todos| && !todos[i].estaOcupado
      modifies todos[i]
      ensures Valid() && Actual() == old(Actual())
    {
      hide Contenido, ListaValida, SonColas, Coherentes, EsOrden;
      todos[i].catchEnviado, todos[i].estaOcupado := None, false;
      assert FotosDe(todos) == old(FotosDe(todos))[i := FotoDe(todos[i])];
      assert FotoDe(todos[i]) == old(FotoDe(todos[i]));
      assert FotosDe(todos) == old(FotosDe(todos));
    }

    /** Objectives and lists are updated for a capture made; a trainer with nothing left to want has finished. */
    method AccionesAlCapturarConExito(i: nat) returns (ok: bool)
      requires Valid() && i < |todos| && todos[i].estado == BLOCKED && !todos[i].estaOcupado
      requires todos[i].catchEnviado.Some? && todos[i].pokemonCaptura.Some? && todos[i].cantidadMaxima != 0
      modifies this`colas, this`objetivosGlobales, todos[i]
      ensures ok <==> old(todos[i].catchEnviado.value in Contenido(objetivosGlobales))
      ensures ok ==> Valid() && todos == old(todos)
      ensures ok ==>
                Contenido(objetivosGlobales) == old(Contenido(objetivosGlobales)
                                                    - multiset{todos[i].catchEnviado.value})
      ensures ok ==> Actual() == old(ConLaCaptura(Actual(), i, todos[i].catchEnviado.value))
      ensures ok ==> Capturo(old(todos[i].Datos()), old(todos[i].catchEnviado.value), todos[i].Datos())
      ensures ok ==> todos[i].estado == (if todos[i].Faltan() == multiset{} then FINISHED else BLOCKED)
      ensures ok ==>
                if todos[i].estado == BLOCKED then Actual().orden == old(Actual()).orden
                else SinUno(old(Actual()).orden, i, Actual().orden)
    {
      hide Contenido, ListaValida, SonColas, Coherentes, Sacar, EnSuCola, Capturado, Encontrar, Satisfecha, EsOrden,
          OrdenDe, FotosDe, Inscriptos, SinLiberadas, DelEquipo, Capturo, SinUno;
      UnaVezCadaUno(todos);
      LaCaptura(Actual(), i, todos[i].catchEnviado.value);
      var t, s := todos[i], todos[i].catchEnviado.value;
      ghost var fotos, f := FotosDe(todos), TrasCapturar(FotoDe(t), s);
      CambiarSinLiberar(fotos, i, f);
      HayCincoColas(colas, todos, fotos);
      EncontrarSiiEsta(objetivosGlobales, s);
      if Encontrar(objetivosGlobales, s).None? {
        return false;
      }
      TerminarOSeguir(colas, todos, fotos, i, f);
      BloqueadosDelEquipo(colas, todos, fotos);
      OrdenTrasSacar(colas[BLOCKED], todos, i);
      UnaCaptura(fotos, Contenido(objetivosGlobales), i, s);
      objetivosGlobales := RestarUno(objetivosGlobales, s);
      t.AnotarCaptura();
      TerminarSiCumplio(t);
      assert FotoDe(t) == f;
      forall k | 0 <= k < |todos|
        ensures todos[k].Listas() && FotoDe(todos[k]) == fotos[i := f][k]
      {
        assert k == i || todos[k] != t;
      }
      SonLasFotos(todos, fotos[i := f]);
      return true;
    }

    /** A blocked trainer with no objectives left goes to the queue of those that have finished. */
    method TerminarSiCumplio(t: Entrenador)
      requires t.Listas() && t.estado == BLOCKED && BLOCKED in colas && FINISHED in colas
      modifies this`colas, t`estado, t`objetivosCumplidos
      ensures t.estado == (if Satisfecha(t.Datos()) then FINISHED else BLOCKED)
      ensures t.objetivosCumplidos == (old(t.objetivosCumplidos) || t.estado == FINISHED)
      ensures colas == TrasTerminar(old(colas), t, t.estado)
    {
      SinObjetivosSatisfecho(t.objetivos);
      if t.objetivos == [] {
        t.objetivosCumplidos := true;
        Desencolar(t);
        Encolar(t, FINISHED);
      }
    }

    /** Both trainers of a pair are asked; each that wants something of the other notes what. */
    method CompararPar(a: Entrenador, b: Entrenador) returns (necesita1: bool, necesita2: bool)
      requires a != b && ListaValida(a.objetivos) && ListaValida(b.objetivos)
      modifies a`pokemonACambiar, b`pokemonACambiar
      ensures necesita1 <==> a.QuiereDe(b)
      ensures necesita2 <==> b.QuiereDe(a)
      ensures if necesita1 then a.Anoto(b) else a.pokemonACambiar == old(a.pokemonACambiar)
      ensures if necesita2 then b.Anoto(a) else b.pokemonACambiar == old(b.pokemonACambiar)
    {
      hide LoQueTomaria, Contenido;
      necesita1 := a.NecesitaUnPokemonDelOtro(b);
      necesita2 := b.NecesitaUnPokemonDelOtro(a);
    }

    /**
     The search for an exchange among the trainers that may take part in one.  Of the first pair in
     which one wants something of the other, the first moves if it is the one that wants, and otherwise
     the second.
     */
    method BuscarIntercambio(cs: seq<Entrenador>) returns (hay: bool, x: nat, y: nat)
      requires SinRepetidos(cs) && forall k :: 0 <= k < |cs| ==> ListaValida(cs[k].objetivos)
      modifies cs`pokemonACambiar
      ensures !hay ==> forall a, b :: 0 <= a < b < |cs| ==> NadaEntre(cs[a], cs[b])
      ensures !hay ==> forall k :: 0 <= k < |cs| ==> cs[k].pokemonACambiar == old(cs[k].pokemonACambiar)
      ensures hay ==> x < |cs| && y < |cs| && x != y
      ensures hay ==> PrimerPar(cs, if x < y then x else y, if x < y then y else x)
      ensures hay ==> cs[x].QuiereDe(cs[y]) && cs[x].Anoto(cs[y]) && (y < x ==> !cs[y].QuiereDe(cs[x]))
      ensures hay ==>
                if cs[y].QuiereDe(cs[x]) then cs[y].Anoto(cs[x])
                else cs[y].pokemonACambiar == old(cs[y].pokemonACambiar)
      ensures hay ==> forall t | t in cs && t != cs[x] && t != cs[y] :: t.pokemonACambiar == old(t.pokemonACambiar)
    {
      hide Contenido, ListaValida, LoQueTomaria, Entrenador.Anoto, PrimerPar, Entrenador.QuiereDe;
      var i := 0;
      while i < |cs|
        invariant 0 <= i <= |cs|
        invariant forall k :: 0 <= k < |cs| ==> cs[k].pokemonACambiar == old(cs[k].pokemonACambiar)
        invariant forall a, b :: 0 <= a < i && a < b < |cs| ==> NadaEntre(cs[a], cs[b])
      {
        var j := i + 1;
        while j < |cs|
          invariant i < j <= |cs|
          invariant forall k :: 0 <= k < |cs| ==> cs[k].pokemonACambiar == old(cs[k].pokemonACambiar)
          invariant forall b :: i < b < j ==> NadaEntre(cs[i], cs[b])
        {
          var necesita1, necesita2 := CompararPar(cs[i], cs[j]);
          if necesita1 || necesita2 {
            EsElPrimero(cs, i, j);
          }
          if necesita1 {
            return true, i, j;
          } else if necesita2 {
            return true, j, i;
          }
          j := j + 1;
        }
        i := i + 1;
      }
      return false, 0, 0;
    }

    /** The one that moves leaves BLOCKED for READY, and both are taken. */
    method AsignarYMover(mueve: Entrenador, espera: Entrenador)
      requires mueve != espera && mueve.estado == BLOCKED && BLOCKED in colas && READY in colas
      modifies this`colas, mueve`estado, mueve`estaOcupado, espera`estaOcupado
      ensures mueve.estado == READY && mueve.estaOcupado && espera.estaOcupado
      ensures colas == Mudada(old(colas), mueve, BLOCKED, READY)
    {
      mueve.estaOcupado := true;
      espera.estaOcupado := true;
      Desencolar(mueve);
      Encolar(mueve, READY);
    }

    /** The planner takes the first trainer of READY into EXECUTE. */
    method Despachar() returns (t: Entrenador)
      requires READY in colas && EXECUTE in colas && colas[READY] != []
      requires colas[READY][0].estado == READY
      modifies this`colas, colas[READY]`estado
      ensures t == old(colas)[READY][0] && t.estado == EXECUTE
      ensures forall k :: 0 <= k < |old(colas)[READY]| && old(colas)[READY][k] != t ==>
                old(colas)[READY][k].estado == old(colas[READY][k].estado)
      ensures colas == Mudada(old(colas), t, READY, EXECUTE)
    {
      t := colas[READY][0];
      colas := colas[READY := colas[READY][1..]];
      Encolar(t, EXECUTE);
    }

    /** Once it has exchanged, a trainer finishes or goes back to wait; the one that waited does not lose its place. */
    method TransicionarAlFinalizar(t: Entrenador)
      requires t.Listas() && (t.estado == EXECUTE || t.estado == BLOCKED)
      requires EXECUTE in colas && BLOCKED in colas && FINISHED in colas
      modifies this`colas, t`estado, t`objetivosCumplidos, t`estaOcupado
      ensures t.estado == (if Satisfecha(t.Datos()) then FINISHED else BLOCKED) && !t.estaOcupado
      ensures t.objetivosCumplidos == (old(t.objetivosCumplidos) || t.estado == FINISHED)
      ensures colas == if old(t.estado) == BLOCKED then TrasTerminar(old(colas), t, t.estado)
                       else Mudada(old(colas), t, EXECUTE, t.estado)
    {
      hide Contenido, ListaValida, Sacar;
      if t.estado == BLOCKED {
        TerminarSiCumplio(t);
      } else {
        SinObjetivosSatisfecho(t.objetivos);
        Desencolar(t);
        if t.objetivos == [] {
          t.objetivosCumplidos := true;
          Encolar(t, FINISHED);
        } else {
          Encolar(t, BLOCKED);
        }
      }
      t.estaOcupado := false;
    }

    /** From the moment a pair is found until both trainers are where they belong. */
    method Intercambiar(mueve: Entrenador, espera: Entrenador) returns (ok: bool)
      requires mueve != espera && mueve.Valid() && espera.Listas() && mueve.noNecesitados != []
      requires mueve.PuedeTomarLoQueAnoto(espera) && mueve.pokemonACambiar.Nombre? && espera.PuedeTomarLoQueAnoto(mueve)
      requires mueve.estado == espera.estado == BLOCKED && (forall q: Estado :: q in colas) && colas[READY] == []
      modifies this`colas, mueve, espera
      ensures ok <==> old(espera.pokemonACambiar) != Liberado
      ensures ok ==> mueve.Listas() && espera.Listas()
      ensures ok ==> FotoDe(mueve) == old(TrasIntercambiar(mueve.Datos(), espera.LoQueTomaDe(mueve),
                mueve.pokemonACambiar.valor, NotaUsada(anula)))
      ensures ok ==> FotoDe(espera) == old(TrasIntercambiar(espera.Datos(), mueve.pokemonACambiar.valor,
                espera.LoQueTomaDe(mueve), Nulo))
      ensures ok ==> colas == ColasTrasIntercambiar(old(colas), mueve, espera, mueve.estado, espera.estado)
    {
      hide Contenido, ListaValida, Intercambiado, Equilibrada, Satisfecha, Sacar, TrasTerminar;
      AsignarYMover(mueve, espera);
      var t := Despachar();
      ok := t.EjecutarIntercambio(espera, anula);
      if ok {
        TransicionarAlFinalizar(t);
        TransicionarAlFinalizar(espera);
      }
    }

    /** The search over those that may take part, with everybody quiet: the pair it finds is the first of the queue. */
    method Elegir() returns (hay: bool, mueve: Entrenador?, espera: Entrenador?)
      requires Valid() && Quietos(Actual().fotos)
      modifies todos`pokemonACambiar
      ensures hay <==> ParElegido(old(Actual())).Some?
      ensures !hay ==> Valid() && Actual() == old(Actual())
      ensures hay ==> mueve == todos[ElPar(old(Actual())).0] && espera == todos[ElPar(old(Actual())).1]
      ensures hay ==> Inscriptos(todos) && FotosDe(todos) == Anotadas(old(Actual()).fotos, ElPar(old(Actual())).0,
                ElPar(old(Actual())).1)
    {
      hide Contenido, ListaValida, Coherentes, LoQueTomaria, EsCola, Candidatos, NadaPorIntercambiar, Anotadas,
           Entrenador.Anoto, PrimerPar, NadaEntre, PuedenIntercambiar, Entrenador.QuiereDe, EsOrden, ParElegido;
      var cs := Candidatos(colas[BLOCKED]);
      ghost var c := Actual();
      SonDelEquipo(todos, colas[BLOCKED]);
      var x, y;
      hay, x, y := BuscarIntercambio(cs);
      assert SalvoLasNotas(c.fotos, todos);
      if !hay {
        SinPares(todos, colas[BLOCKED]);
        assert FotosDe(todos) == c.fotos;
        NadaQueElegir(c, Contenido(objetivosGlobales));
        return false, null, null;
      }
      mueve, espera := cs[x], cs[y];
      ElParDelOrden(todos, colas[BLOCKED], c, if x < y then x else y, if x < y then y else x);
      ghost var m, e := ElPar(c).0, ElPar(c).1;
      forall k | 0 <= k < |todos| && k != m && k != e
        ensures todos[k].pokemonACambiar == c.fotos[k].nota
      {
        assert todos[k] in cs ==> todos[k].pokemonACambiar == old(todos[k].pokemonACambiar);
      }
      LasNotas(todos, c.fotos, m, e);
    }

    /** The exchange of a pair already found: c is how everybody was before the search took notes. */
    method Concretar(mueve: Entrenador, espera: Entrenador, ghost c: Cuadro) returns (ok: bool)
      requires Inscriptos(todos) && |c.fotos| == |todos| && SonColas(colas, todos, c.fotos) && Quietos(c.fotos)
      requires ListaValida(objetivosGlobales) && Coherentes(c.fotos, Contenido(objetivosGlobales))
      requires anula ==> SinLiberadas(c.fotos)
      requires EsOrden(c) && ParElegido(c).Some? && SonBloqueados(colas, todos, c.orden)
      requires mueve == todos[ElPar(c).0] && espera == todos[ElPar(c).1]
      requires FotosDe(todos) == Anotadas(c.fotos, ElPar(c).0, ElPar(c).1)
      modifies this`colas, mueve, espera
      ensures ok <==> SaleBien(c.fotos, ElPar(c).0, ElPar(c).1)
      ensures ok ==> Valid() && Actual() == TrasElTrato(c, anula)
    {
      hide Contenido, ListaValida, Coherentes, LoQueTomaria, SonColas, TrasIntercambiar, ColasTrasIntercambiar,
          Equilibrada, Quietos, EsOrden, ParElegido, Sacar, PasaAlFinal, SinLiberadas, DelEquipo;
      ghost var g, antes, fotos := Contenido(objetivosGlobales), colas, c.fotos;
      ghost var m, e := ElPar(c).0, ElPar(c).1;
      HayPareja(fotos, g, m, e);
      NadieListo(colas, todos, fotos);
      assert FotoDe(mueve) == Anotadas(fotos, m, e)[m] && FotoDe(espera) == Anotadas(fotos, m, e)[e];
      ok := Intercambiar(mueve, espera);
      if ok {
        ghost var fm, fe := FotoDe(mueve), FotoDe(espera);
        forall k | 0 <= k < |todos|
          ensures todos[k].Listas() && FotoDe(todos[k]) == fotos[m := fm][e := fe][k]
        {
          if k != m && k != e {
            assert todos[k] != mueve && todos[k] != espera;
          }
        }
        assert FotosDe(todos) == fotos[m := fm][e := fe] == TrasElTrato(c, anula).fotos;
        RecorridoDeColas(antes, todos, fotos, m, fm, e, fe);
        UnTratoMas(c, g, anula);
        if anula {
          SiguenSinLiberadas(c);
        }
        BloqueadosTrasElTrato(antes, todos, c, anula);
      }
    }

    /**
     One turn of the search with everybody quiet: either no trainer wants what another has in excess, or
     two of them exchange.  It fails exactly when the one that waits wants nothing of the one that moves
     and still points to the name of an earlier exchange.
     */
    method Ronda() returns (hubo: bool, ok: bool)
      requires Valid() && Quietos(Actual().fotos)
      modifies this`colas, todos
      ensures hubo <==> ParElegido(old(Actual())).Some?
      ensures hubo <==> !NadaPorIntercambiar(old(Actual()).fotos)
      ensures !hubo ==> ok && Valid() && Actual() == old(Actual())
      ensures hubo ==> (ok <==> SaleBien(old(Actual()).fotos, ElPar(old(Actual())).0, ElPar(old(Actual())).1))
      ensures hubo && ok ==> Valid() && Quietos(Actual().fotos) && Actual() == TrasElTrato(old(Actual()), anula)
      ensures hubo ==> SeEncontraron(old(Actual()), ok)
      ensures hubo && ok ==> HuboCambio(old(Actual()), Actual(), anula)
    {
      hide Contenido, ListaValida, Coherentes, LoQueTomaria, SonColas, NadaPorIntercambiar, Anotadas, EsOrden,
          ParElegido, Quietos, TrasElTrato, SeEncontraron, HuboCambio, SaleBien;
      ghost var c := Actual();
      ok := true;
      var mueve, espera;
      if ParElegido(c).Some? {
        LaRonda(c, anula);
      }
      NadaQueElegir(c, Contenido(objetivosGlobales));
      BloqueadosDelEquipo(colas, todos, c.fotos);
      hubo, mueve, espera := Elegir();
      if hubo {
        UnTratoMas(c, Contenido(objetivosGlobales), anula);
        ok := Concretar(mueve, espera, c);
      }
    }

    /**
     The search repeated until it finds nothing or fails.  It succeeds exactly when no exchange that the
     lists and the queue lead to meets a freed name, and each turn leaves the Team nearer to its objectives.
     */
    method RepetirRondas() returns (ok: bool, ghost h: seq<Cuadro>)
      requires Valid() && Quietos(Actual().fotos)
      modifies this`colas, todos
      ensures ok <==> Resuelve(old(Actual()), old(Contenido(objetivosGlobales)), anula)
      ensures EsHistoria(h, anula) && h[0] == old(Actual())
      ensures |h| + |Faltantes(FichasDe(h[|h| - 1].fotos))| <= |Faltantes(FichasDe(h[0].fotos))| + 1
      ensures ok ==> Valid() && Actual() == h[|h| - 1]
      ensures ok ==> Quietos(h[|h| - 1].fotos) && NadaPorIntercambiar(h[|h| - 1].fotos)
    {
      hide Contenido, ListaValida, Coherentes, EsCola, SonColas, NadaPorIntercambiar, Faltantes, EsHistoria, EsOrden,
          ParElegido, TrasElTrato, Quietos, SaleBien, Inscriptos, SinLiberadas, FotosDe, FichasDe, OrdenDe, ElPar,
          PuedenIntercambiar, SeEncontraron, HuboCambio;
      ghost var c, g := Actual(), Contenido(objetivosGlobales);
      h := [c];
      EmpiezaLaHistoria(c, anula);
      var sigue := true;
      while sigue
        invariant Valid() && Quietos(c.fotos) && Actual() == c && Contenido(objetivosGlobales) == g
        invariant Resuelve(c, g, anula) <==> Resuelve(old(Actual()), g, anula)
        invariant EsHistoria(h, anula) && |h| > 0 && h[0] == old(Actual()) && h[|h| - 1] == c
        invariant |h| + |Faltantes(FichasDe(c.fotos))| <= |Faltantes(FichasDe(h[0].fotos))| + 1
        invariant !sigue ==> NadaPorIntercambiar(c.fotos) && ParElegido(c).None?
        decreases |Faltantes(FichasDe(c.fotos))|, sigue
      {
        sigue, ok := Ronda();
        if !ok {
          return false, h;
        }
        if sigue {
          UnTratoMas(c, g, anula);
          UnPasoMas(h, TrasElTrato(c, anula), anula);
          c := TrasElTrato(c, anula);
          h := h + [c];
        }
      }
      ok := true;
    }

    /**
     The search repeated once every capture has been made.  It ends, and it ends with every trainer
     holding exactly what it wanted from the start exactly when no exchange of the run meets a freed
     name: always, if the note is nulled after use.
     */
    method ResolverDeadlocks() returns (ok: bool, ghost h: seq<Cuadro>)
      requires Valid() && Quietos(Actual().fotos) && objetivosGlobales == []
      modifies this`colas, todos
      ensures Contenido([]) == multiset{} && (ok <==> Resuelve(old(Actual()), multiset{}, anula))
      ensures anula || UnoDeMas(old(Actual()).fotos) ==> ok
      ensures EsHistoria(h, anula) && h[0] == old(Actual()) && |h| <= |Faltantes(FichasDe(h[0].fotos))| + 1
      ensures ok ==> Valid() && Actual() == h[|h| - 1] && |h[0].fotos| == |todos|
      ensures ok ==> forall k :: 0 <= k < |todos| ==> Cumplido(todos[k], h[0].fotos[k])
    {
      hide ListaValida, Coherentes, EsCola, SonColas, NadaPorIntercambiar, Faltantes, Quietos, Inscriptos, Cumplido,
          EsHistoria, EsOrden, Resuelve, SinLiberadas, UnoDeMas;
      ghost var c := Actual();
      if anula {
        AnulandoSeResuelve(c, multiset{});
      } else if UnoDeMas(c.fotos) {
        UnoDeMasSeResuelve(c, anula);
      }
      ok, h := RepetirRondas();
      if ok {
        AlFinal(todos, h, anula);
      }
    }
  }

  /** What an attempt takes of what the Team is still to capture. */
  ghost function LoQueToma(s: string, exito: bool): multiset<string>
  {
    if exito then multiset{s} else multiset{}
  }

  /** The trainer wants nothing more, has nothing in excess, and has exactly what it was to end up with. */
  ghost predicate Cumplido(t: Entrenador, inicio: Foto)
    reads t
  {
    && t.objetivos == [] && t.noNecesitados == []
    && ListaValida(t.obtenidos) && Contenido(t.obtenidos) == Meta(inicio.ficha)
    && (t.estado == FINISHED || t.estado == NEW)
  }

  lemma AlFinal(todos: seq<Entrenador>, h: seq<Cuadro>, anula: bool)
    requires Inscriptos(todos) && EsHistoria(h, anula) && FotosDe(todos) == h[|h| - 1].fotos
    requires Coherentes(FotosDe(todos), multiset{}) && Quietos(FotosDe(todos)) && NadaPorIntercambiar(FotosDe(todos))
    ensures |h[0].fotos| == |todos|
    ensures forall k :: 0 <= k < |todos| ==> Cumplido(todos[k], h[0].fotos[k])
  {
    hide Contenido, ListaValida, NadaPorIntercambiar;
    var fotos := FotosDe(todos);
    NadaSiiSatisfechos(fotos);
    LaMetaNoSeMueve(h, anula);
    forall k | 0 <= k < |todos|
      ensures Cumplido(todos[k], h[0].fotos[k])
    {
      assert fotos[k] == FotoDe(todos[k]) && EnSuCola(fotos[k]);
      SinObjetivosSatisfecho(todos[k].objetivos);
    }
  }

  lemma SinObjetivosSatisfecho(l: seq<Nodo>)
    requires ListaValida(l)
    ensures l == [] <==> Contenido(l) == multiset{}
  {
    if l != [] {
      Cuantos(l, l[0].nombre);
      assert l[0].nombre in Contenido(l);
    }
  }
  lemma RecienLlegado(t: Entrenador, p: Planilla)
    requires t.Valid() && t.estado == NEW && !t.estaOcupado && t.pokemonACambiar == Nulo && t.noNecesitados == []
    requires Contenido(t.obtenidos) == multiset(p.obtenidos) && t.Faltan() == LeFalta(p)
    ensures FotoDe(t) == FotoInicial(p)
  {
  }
}
