/**
 The five queues of a Team as lists of its trainers: what a trainer's passing from one to another keeps,
 and the order in which those that are blocked wait.
 */
module Colas {
  import opened Secuencias
  import opened Objetivos
  import opened Leyes
  import opened Entrenadores
  import opened Tratos
  import opened Resolucion

  /** A queue holds, once each, the trainers whose state is its own. */
  ghost predicate EsCola(q: seq<Entrenador>, todos: seq<Entrenador>, fotos: seq<Foto>, e: Estado)
    requires |fotos| == |todos|
  {
    && SinRepetidos(q)
    && (forall k :: 0 <= k < |q| ==> q[k] in todos)
    && (forall i :: 0 <= i < |todos| ==> (todos[i] in q <==> fotos[i].estado == e))
  }

  ghost predicate SonColas(c: map<Estado, seq<Entrenador>>, todos: seq<Entrenador>, fotos: seq<Foto>)
    requires |fotos| == |todos|
  {
    forall e :: e in c && EsCola(c[e], todos, fotos, e)
  }

  /** A trainer leaves its queue and joins the end of another, or of the same one. */
  ghost function Mudada(c: map<Estado, seq<Entrenador>>, t: Entrenador, desde: Estado, hacia: Estado): map<Estado,
      seq<Entrenador>>
    requires desde in c && hacia in c
  {
    var sin := c[desde := Sacar(c[desde], t)];
    sin[hacia := sin[hacia] + [t]]
  }

  lemma Mudar(c: map<Estado, seq<Entrenador>>, todos: seq<Entrenador>, fotos: seq<Foto>, i: nat, f: Foto)
    requires |fotos| == |todos| && i < |todos| && SinRepetidos(todos) && SonColas(c, todos, fotos)
    ensures SonColas(Mudada(c, todos[i], fotos[i].estado, f.estado), todos, fotos[i := f])
  {
    hide Sacar, SinRepetidos;
    var m := Mudada(c, todos[i], fotos[i].estado, f.estado);
    forall e
      ensures e in m && EsCola(m[e], todos, fotos[i := f], e)
    {
      assert EsCola(c[e], todos, fotos, e);
      if e == fotos[i].estado {
        Sale(c[e], todos, fotos, i, e);
      }
      if e == f.estado {
        Entra(if e == fotos[i].estado then Sacar(c[e], todos[i]) else c[e], todos, fotos, i, f);
      }
    }
  }

  lemma HayCincoColas(c: map<Estado, seq<Entrenador>>, todos: seq<Entrenador>, fotos: seq<Foto>)
    requires |fotos| == |todos| && SonColas(c, todos, fotos)
    ensures forall e :: e in c
  {
  }

  lemma MismaCola(c: map<Estado, seq<Entrenador>>, todos: seq<Entrenador>, fotos: seq<Foto>, i: nat, f: Foto)
    requires |fotos| == |todos| && i < |todos| && SonColas(c, todos, fotos) && f.estado == fotos[i].estado
    ensures SonColas(c, todos, fotos[i := f])
  {
    forall e
      ensures e in c && EsCola(c[e], todos, fotos[i := f], e)
    {
      assert EsCola(c[e], todos, fotos, e);
    }
  }

  ghost function TrasTerminar(c: map<Estado, seq<Entrenador>>, t: Entrenador, hacia: Estado): map<Estado,
      seq<Entrenador>>
    requires BLOCKED in c && hacia in c
  {
    if hacia == BLOCKED then c else Mudada(c, t, BLOCKED, hacia)
  }

  lemma TerminarOSeguir(c: map<Estado, seq<Entrenador>>, todos: seq<Entrenador>, fotos: seq<Foto>, i: nat, f: Foto)
    requires |fotos| == |todos| && i < |todos| && SinRepetidos(todos) && SonColas(c, todos, fotos)
    requires fotos[i].estado == BLOCKED
    ensures SonColas(TrasTerminar(c, todos[i], f.estado), todos, fotos[i := f])
  {
    hide EsCola, Mudada;
    if f.estado == BLOCKED {
      MismaCola(c, todos, fotos, i, f);
    } else {
      Mudar(c, todos, fotos, i, f);
    }
  }

  lemma Sale(q: seq<Entrenador>, todos: seq<Entrenador>, fotos: seq<Foto>, i: nat, e: Estado)
    requires |fotos| == |todos| && i < |todos| && SinRepetidos(todos) && EsCola(q, todos, fotos, e)
             && fotos[i].estado == e
    ensures var r := Sacar(q, todos[i]);
            && SinRepetidos(r) && (forall k :: 0 <= k < |r| ==> r[k] in todos)
            && (forall j :: 0 <= j < |todos| ==> (todos[j] in r <==> j != i && fotos[j].estado == e))
  {
    assert todos[i] in q;
    SacarUnico(q, todos[i]);
    var r := Sacar(q, todos[i]);
    forall j | 0 <= j < |todos|
      ensures todos[j] in r <==> j != i && fotos[j].estado == e
    {
      assert todos[j] == todos[i] <==> j == i;
      if todos[j] in q && j != i {
        var k :| 0 <= k < |q| && q[k] == todos[j];
      }
    }
  }

  lemma Entra(r: seq<Entrenador>, todos: seq<Entrenador>, fotos: seq<Foto>, i: nat, f: Foto)
    requires |fotos| == |todos| && i < |todos| && SinRepetidos(todos)
    requires SinRepetidos(r) && (forall k :: 0 <= k < |r| ==> r[k] in todos)
    requires forall j :: 0 <= j < |todos| ==> (todos[j] in r <==> j != i && fotos[j].estado == f.estado)
    ensures EsCola(r + [todos[i]], todos, fotos[i := f], f.estado)
  {
    forall j | 0 <= j < |todos|
      ensures todos[j] in r + [todos[i]] <==> fotos[i := f][j].estado == f.estado
    {
      assert todos[j] == todos[i] <==> j == i;
    }
  }

  lemma Llega(q: seq<Entrenador>, todos: seq<Entrenador>, fotos: seq<Foto>, e: Estado, t: Entrenador, f: Foto)
    requires |fotos| == |todos| && EsCola(q, todos, fotos, e) && t !in todos
    ensures EsCola(if f.estado == e then q + [t] else q, todos + [t], fotos + [f], e)
  {
    var r := if f.estado == e then q + [t] else q;
    forall i | 0 <= i < |todos| + 1
      ensures (todos + [t])[i] in r <==> (fotos + [f])[i].estado == e
    {
      if i < |todos| {
        assert (todos + [t])[i] == todos[i] != t;
      }
    }
  }

  lemma LlegaNuevo(c: map<Estado, seq<Entrenador>>, todos: seq<Entrenador>, fotos: seq<Foto>, t: Entrenador, f: Foto)
    requires |fotos| == |todos| && SonColas(c, todos, fotos) && t !in todos && f.estado == NEW
    ensures SonColas(c[NEW := c[NEW] + [t]], todos + [t], fotos + [f])
  {
    hide EsCola;
    var d := c[NEW := c[NEW] + [t]];
    forall e
      ensures e in d && EsCola(d[e], todos + [t], fotos + [f], e)
    {
      assert EsCola(c[e], todos, fotos, e);
      Llega(c[e], todos, fotos, e, t, f);
    }
  }

  ghost predicate Inscriptos(todos: seq<Entrenador>)
    reads todos
  {
    && SinRepetidos(todos)
    && forall i :: 0 <= i < |todos| ==> todos[i].Listas()
  }

  ghost function FotoDe(t: Entrenador): Foto
    requires t.Listas()
    reads t`estado, t`estaOcupado, t`pokemonACambiar, t`objetivos, t`obtenidos, t`noNecesitados, t`cantidadMaxima
  {
    Foto(t.estado, t.estaOcupado, t.pokemonACambiar, t.Datos())
  }

  ghost function FotosDe(todos: seq<Entrenador>): (fs: seq<Foto>)
    requires Inscriptos(todos)
    reads todos
    ensures |fs| == |todos|
    ensures forall i :: 0 <= i < |fs| ==> fs[i] == FotoDe(todos[i])
  {
    seq(|todos|, i requires 0 <= i < |todos| && Inscriptos(todos) reads todos => FotoDe(todos[i]))
  }

  lemma UnaVezCadaUno(todos: seq<Entrenador>)
    requires Inscriptos(todos)
    ensures SinRepetidos(todos) && forall k :: 0 <= k < |todos| ==> todos[k].Listas()
  {
  }

  lemma SonLasFotos(todos: seq<Entrenador>, fotos: seq<Foto>)
    requires SinRepetidos(todos) && |fotos| == |todos|
    requires forall k :: 0 <= k < |todos| ==> todos[k].Listas() && FotoDe(todos[k]) == fotos[k]
    ensures Inscriptos(todos) && FotosDe(todos) == fotos
  {
  }

  lemma FotosConUnoMas(todos: seq<Entrenador>, t: Entrenador)
    requires Inscriptos(todos) && t !in todos && t.Listas()
    ensures Inscriptos(todos + [t]) && FotosDe(todos + [t]) == FotosDe(todos) + [FotoDe(t)]
  {
  }

  /** list_filter over the blocked trainers: those that hold something in excess and are free. */
  function Candidatos(b: seq<Entrenador>): (r: seq<Entrenador>)
    reads b`noNecesitados, b`estaOcupado
  {
    if b == [] then []
    else if b[0].noNecesitados != [] && !b[0].estaOcupado then [b[0]] + Candidatos(b[1..])
    else Candidatos(b[1..])
  }

  lemma {:induction false} LosCandidatos(b: seq<Entrenador>)
    ensures var r := Candidatos(b);
            && (forall k :: 0 <= k < |r| ==> r[k] in b && r[k].noNecesitados != [] && !r[k].estaOcupado)
            && (forall k :: 0 <= k < |b| && b[k].noNecesitados != [] && !b[k].estaOcupado ==> b[k] in r)
  {
    if b != [] {
      LosCandidatos(b[1..]);
    }
  }

  lemma {:induction false} CandidatosUnaVez(b: seq<Entrenador>)
    requires SinRepetidos(b)
    ensures SinRepetidos(Candidatos(b))
  {
    if b != [] {
      CandidatosUnaVez(b[1..]);
      LosCandidatos(b[1..]);
      assert b[0] !in b[1..];
      var r := Candidatos(b[1..]);
      assert forall k :: 0 <= k < |r| ==> r[k] in b[1..];
    }
  }

  ghost predicate NadaEntre(a: Entrenador, b: Entrenador)
    requires ListaValida(a.objetivos) && ListaValida(b.objetivos)
    reads a`objetivos, b`objetivos, a`noNecesitados, b`noNecesitados
  {
    !a.QuiereDe(b) && !b.QuiereDe(a)
  }

  /** The pair (x, y) is the first, in the order of the two nested loops, of which one wants something of the other. */
  ghost predicate PrimerPar(cs: seq<Entrenador>, x: nat, y: nat)
    requires forall k :: 0 <= k < |cs| ==> ListaValida(cs[k].objetivos)
    reads cs`objetivos, cs`noNecesitados
  {
    && x < y < |cs| && !NadaEntre(cs[x], cs[y])
    && (forall a, b :: 0 <= a < x && a < b < |cs| ==> NadaEntre(cs[a], cs[b]))
    && (forall b :: x < b < y ==> NadaEntre(cs[x], cs[b]))
  }

  lemma EsElPrimero(cs: seq<Entrenador>, x: nat, y: nat)
    requires forall k :: 0 <= k < |cs| ==> ListaValida(cs[k].objetivos)
    requires x < y < |cs| && !NadaEntre(cs[x], cs[y])
    requires forall a, b :: 0 <= a < x && a < b < |cs| ==> NadaEntre(cs[a], cs[b])
    requires forall b :: x < b < y ==> NadaEntre(cs[x], cs[b])
    ensures PrimerPar(cs, x, y)
  {
  }

  lemma SonDelEquipo(todos: seq<Entrenador>, bloqueados: seq<Entrenador>)
    requires Inscriptos(todos) && EsCola(bloqueados, todos, FotosDe(todos), BLOCKED)
    ensures SinRepetidos(Candidatos(bloqueados))
    ensures forall k :: 0 <= k < |bloqueados| ==> bloqueados[k] in todos
    ensures forall k :: 0 <= k < |Candidatos(bloqueados)| ==>
              Candidatos(bloqueados)[k] in todos && Candidatos(bloqueados)[k].estado == BLOCKED
              && Candidatos(bloqueados)[k].noNecesitados != []
  {
    CandidatosUnaVez(bloqueados);
    LosCandidatos(bloqueados);
    var cs, fotos := Candidatos(bloqueados), FotosDe(todos);
    forall k | 0 <= k < |cs|
      ensures cs[k] in todos && cs[k].estado == BLOCKED
    {
      assert cs[k] in bloqueados;
      var i :| 0 <= i < |todos| && todos[i] == cs[k];
      assert fotos[i].estado == BLOCKED;
    }
  }

  lemma SinPares(todos: seq<Entrenador>, bloqueados: seq<Entrenador>)
    requires Inscriptos(todos) && EsCola(bloqueados, todos, FotosDe(todos), BLOCKED)
    requires forall k :: 0 <= k < |todos| ==> !todos[k].estaOcupado
    requires forall k :: 0 <= k < |Candidatos(bloqueados)| ==> ListaValida(Candidatos(bloqueados)[k].objetivos)
    requires forall a, b :: 0 <= a < b < |Candidatos(bloqueados)| ==>
             NadaEntre(Candidatos(bloqueados)[a], Candidatos(bloqueados)[b])
    ensures NadaPorIntercambiar(FotosDe(todos))
  {
    hide Contenido, ListaValida, LoQueTomaria;
    LosCandidatos(bloqueados);
    var cs, fotos := Candidatos(bloqueados), FotosDe(todos);
    forall a, b | 0 <= a < |fotos| && 0 <= b < |fotos| && a != b && PuedeOfrecer(fotos[a]) && PuedeOfrecer(fotos[b])
      ensures fotos[a].ficha.faltan !! multiset(fotos[b].ficha.sobran)
    {
      assert todos[a] in bloqueados && todos[b] in bloqueados;
      var x :| 0 <= x < |bloqueados| && bloqueados[x] == todos[a];
      var y :| 0 <= y < |bloqueados| && bloqueados[y] == todos[b];
      assert todos[a] in cs && todos[b] in cs;
      var i :| 0 <= i < |cs| && cs[i] == todos[a];
      var j :| 0 <= j < |cs| && cs[j] == todos[b];
      assert NadaEntre(cs[if i < j then i else j], cs[if i < j then j else i]);
      assert !todos[a].QuiereDe(todos[b]);
    }
  }

  /** When only notes have changed since, and only those of the pair. */
  lemma LasNotas(todos: seq<Entrenador>, fotos: seq<Foto>, m: nat, e: nat)
    requires Inscriptos(todos) && |fotos| == |todos| && m < |todos| && e < |todos| && m != e
    requires todos[m].estado == todos[e].estado == BLOCKED && todos[m].noNecesitados != []
             && todos[m].QuiereDe(todos[e])
    requires forall k :: 0 <= k < |todos| ==> FotoDe(todos[k]) == fotos[k].(nota := todos[k].pokemonACambiar)
    requires forall k :: 0 <= k < |todos| && k != m && k != e ==> todos[k].pokemonACambiar == fotos[k].nota
    requires todos[m].Anoto(todos[e])
    requires if todos[e].QuiereDe(todos[m]) then todos[e].Anoto(todos[m]) else todos[e].pokemonACambiar == fotos[e].nota
    ensures PuedenIntercambiar(fotos, m, e) && FotosDe(todos) == Anotadas(fotos, m, e)
  {
    hide Contenido, ListaValida, LoQueTomaria;
    assert fotos[m].ficha == todos[m].Datos() && fotos[e].ficha == todos[e].Datos();
  }

  lemma NadieListo(c: map<Estado, seq<Entrenador>>, todos: seq<Entrenador>, fotos: seq<Foto>)
    requires |fotos| == |todos| && SonColas(c, todos, fotos) && Quietos(fotos)
    ensures (forall e :: e in c) && c[READY] == []
    ensures forall k :: 0 <= k < |fotos| ==> !fotos[k].ocupado
  {
    assert EsCola(c[READY], todos, fotos, READY);
    if c[READY] != [] {
      var k := AlgunoEnLaCola(c[READY], todos, fotos, READY);
    }
  }

  lemma AlgunoEnLaCola(q: seq<Entrenador>, todos: seq<Entrenador>, fotos: seq<Foto>, e: Estado) returns (k: nat)
    requires |fotos| == |todos| && EsCola(q, todos, fotos, e) && q != []
    ensures k < |fotos| && fotos[k].estado == e
  {
    assert q[0] in todos;
    k :| 0 <= k < |todos| && todos[k] == q[0];
  }

  ghost function ColasTrasIntercambiar(c: map<Estado, seq<Entrenador>>, mueve: Entrenador, espera: Entrenador,
                                       finDeUno: Estado, finDelOtro: Estado): map<Estado, seq<Entrenador>>
    requires forall q: Estado :: q in c
  {
    var enReady := Mudada(c, mueve, BLOCKED, READY);
    var enExecute := Mudada(enReady, mueve, READY, EXECUTE);
    TrasTerminar(Mudada(enExecute, mueve, EXECUTE, finDeUno), espera, finDelOtro)
  }

  lemma RecorridoDeColas(c: map<Estado, seq<Entrenador>>, todos: seq<Entrenador>, fotos: seq<Foto>, m: nat, fm: Foto,
      e: nat, fe: Foto)
    requires |fotos| == |todos| && m < |todos| && e < |todos| && m != e && SinRepetidos(todos)
             && SonColas(c, todos, fotos)
    requires fotos[m].estado == fotos[e].estado == BLOCKED
    ensures SonColas(ColasTrasIntercambiar(c, todos[m], todos[e], fm.estado, fe.estado), todos, fotos[m := fm][e := fe])
  {
    hide EsCola, Mudada, TrasTerminar, SinRepetidos;
    var f1 := fotos[m].(estado := READY);
    var f2 := fotos[m].(estado := EXECUTE);
    Mudar(c, todos, fotos, m, f1);
    var c1, fotos1 := Mudada(c, todos[m], BLOCKED, READY), fotos[m := f1];
    Mudar(c1, todos, fotos1, m, f2);
    var c2, fotos2 := Mudada(c1, todos[m], READY, EXECUTE), fotos1[m := f2];
    Mudar(c2, todos, fotos2, m, fm);
    assert fotos2[m := fm] == fotos[m := fm];
    TerminarOSeguir(Mudada(c2, todos[m], EXECUTE, fm.estado), todos, fotos[m := fm], e, fe);
  }

  // ---- the order of a queue ----

  ghost predicate DelEquipo(q: seq<Entrenador>, todos: seq<Entrenador>)
  {
    forall k :: 0 <= k < |q| ==> q[k] in todos
  }

  ghost function Indice(todos: seq<Entrenador>, t: Entrenador): (i: nat)
    requires t in todos
    ensures i < |todos| && todos[i] == t
  {
    var i :| 0 <= i < |todos| && todos[i] == t;
    i
  }

  /** A queue, each trainer by its place in the Team. */
  ghost function OrdenDe(q: seq<Entrenador>, todos: seq<Entrenador>): (r: seq<nat>)
    requires DelEquipo(q, todos)
    ensures |r| == |q| && forall k :: 0 <= k < |r| ==> r[k] < |todos| && todos[r[k]] == q[k]
  {
    seq(|q|, k requires 0 <= k < |q| => Indice(todos, q[k]))
  }

  lemma OrdenUnico(q: seq<Entrenador>, todos: seq<Entrenador>, r: seq<nat>)
    requires SinRepetidos(todos) && DelEquipo(q, todos)
    requires |r| == |q| && forall k :: 0 <= k < |r| ==> r[k] < |todos| && todos[r[k]] == q[k]
    ensures OrdenDe(q, todos) == r
  {
  }

  lemma OrdenEsOrden(q: seq<Entrenador>, todos: seq<Entrenador>, fotos: seq<Foto>)
    requires |fotos| == |todos| && SinRepetidos(todos) && EsCola(q, todos, fotos, BLOCKED)
    ensures EsOrden(Cuadro(fotos, OrdenDe(q, todos)))
  {
    var r := OrdenDe(q, todos);
    forall i | 0 <= i < |fotos|
      ensures i in r <==> todos[i] in q
    {
      if todos[i] in q {
        var k :| 0 <= k < |q| && q[k] == todos[i];
        assert r[k] == i;
      }
    }
  }

  lemma SumarAlOrden(t: Entrenador, q: seq<Entrenador>, todos: seq<Entrenador>, i: nat)
    requires SinRepetidos(todos) && i < |todos| && todos[i] == t && DelEquipo(q, todos)
    ensures DelEquipo([t] + q, todos)
    ensures OrdenDe([t] + q, todos) == [i] + OrdenDe(q, todos)
  {
    OrdenUnico([t] + q, todos, [i] + OrdenDe(q, todos));
  }

  lemma {:induction false} OrdenTrasSacar(q: seq<Entrenador>, todos: seq<Entrenador>, i: nat)
    requires SinRepetidos(todos) && i < |todos| && DelEquipo(q, todos)
    ensures DelEquipo(Sacar(q, todos[i]), todos)
    ensures OrdenDe(Sacar(q, todos[i]), todos) == Sacar(OrdenDe(q, todos), i)
  {
    if q != [] {
      var j := Indice(todos, q[0]);
      assert j == i <==> q[0] == todos[i];
      assert q == [q[0]] + q[1..] && DelEquipo(q[1..], todos);
      hide OrdenDe, SinRepetidos, DelEquipo;
      OrdenTrasSacar(q[1..], todos, i);
      SumarAlOrden(q[0], q[1..], todos, j);
      SumarAlOrden(q[0], Sacar(q[1..], todos[i]), todos, j);
      assert ([j] + OrdenDe(q[1..], todos))[1..] == OrdenDe(q[1..], todos);
    }
  }

  lemma OrdenTrasPasar(q: seq<Entrenador>, todos: seq<Entrenador>, i: nat, sigue: bool)
    requires SinRepetidos(todos) && i < |todos| && DelEquipo(q, todos)
    ensures DelEquipo(PasaAlFinal(q, todos[i], sigue), todos)
    ensures OrdenDe(PasaAlFinal(q, todos[i], sigue), todos) == PasaAlFinal(OrdenDe(q, todos), i, sigue)
  {
    hide Sacar;
    OrdenTrasSacar(q, todos, i);
    OrdenUnico(PasaAlFinal(q, todos[i], sigue), todos, PasaAlFinal(OrdenDe(q, todos), i, sigue));
  }

  lemma BloqueadosTrasSalir(c: map<Estado, seq<Entrenador>>, todos: seq<Entrenador>, fotos: seq<Foto>, i: nat)
    requires |fotos| == |todos| && i < |todos| && SonColas(c, todos, fotos) && fotos[i].estado in {NEW, BLOCKED}
    ensures Mudada(c, todos[i], fotos[i].estado, BLOCKED)[BLOCKED] == PasaAlFinal(c[BLOCKED], todos[i], true)
  {
    hide Sacar;
    assert EsCola(c[BLOCKED], todos, fotos, BLOCKED);
    assert Sacar(c[BLOCKED], todos[i]) == c[BLOCKED] || fotos[i].estado == BLOCKED;
  }

  lemma BloqueadosTrasIntercambiar(c: map<Estado, seq<Entrenador>>, mueve: Entrenador, espera: Entrenador,
                                   uno: Estado, otro: Estado)
    requires (forall q: Estado :: q in c) && uno in {BLOCKED, FINISHED} && otro in {BLOCKED, FINISHED}
    ensures BLOCKED in ColasTrasIntercambiar(c, mueve, espera, uno, otro)
    ensures var q := PasaAlFinal(c[BLOCKED], mueve, uno == BLOCKED);
            ColasTrasIntercambiar(c, mueve, espera, uno, otro)[BLOCKED] == if otro == BLOCKED then q
              else Sacar(q, espera)
  {
    hide Sacar;
    assert Sacar(c[BLOCKED], mueve) + [] == Sacar(c[BLOCKED], mueve);
  }

  lemma OrdenConUnoMas(q: seq<Entrenador>, todos: seq<Entrenador>, t: Entrenador)
    requires SinRepetidos(todos) && t !in todos && DelEquipo(q, todos)
    ensures DelEquipo(q, todos + [t])
    ensures OrdenDe(q, todos + [t]) == OrdenDe(q, todos)
  {
    OrdenUnico(q, todos + [t], OrdenDe(q, todos));
  }

  /** The fotos of the trainers but for the notes they have taken since. */
  ghost predicate SalvoLasNotas(fotos: seq<Foto>, todos: seq<Entrenador>)
    requires Inscriptos(todos)
    reads todos
  {
    && |fotos| == |todos|
    && forall k :: 0 <= k < |todos| ==> FotoDe(todos[k]) == fotos[k].(nota := todos[k].pokemonACambiar)
  }

  lemma {:induction false} CandidatosEnOrden(q: seq<Entrenador>, todos: seq<Entrenador>, fotos: seq<Foto>)
    requires Inscriptos(todos) && SalvoLasNotas(fotos, todos) && DelEquipo(q, todos)
    ensures DelEquipo(Candidatos(q), todos)
    ensures OrdenDe(Candidatos(q), todos) == Ofrecen(fotos, OrdenDe(q, todos))
  {
    hide OrdenDe, Contenido, ListaValida;
    if q != [] {
      CandidatosEnOrden(q[1..], todos, fotos);
      UnCandidatoMas(q, todos, fotos);
    }
  }

  lemma UnCandidatoMas(q: seq<Entrenador>, todos: seq<Entrenador>, fotos: seq<Foto>)
    requires Inscriptos(todos) && SalvoLasNotas(fotos, todos) && q != [] && DelEquipo(q, todos)
    requires DelEquipo(Candidatos(q[1..]), todos)
    requires OrdenDe(Candidatos(q[1..]), todos) == Ofrecen(fotos, OrdenDe(q[1..], todos))
    ensures DelEquipo(Candidatos(q), todos)
    ensures OrdenDe(Candidatos(q), todos) == Ofrecen(fotos, OrdenDe(q, todos))
  {
    hide OrdenDe, Contenido, ListaValida, SinRepetidos, Inscriptos;
    UnaVezCadaUno(todos);
    var i := Indice(todos, q[0]);
    assert fotos[i].ficha.sobran == q[0].noNecesitados && fotos[i].ocupado == q[0].estaOcupado by {
      assert FotoDe(todos[i]) == fotos[i].(nota := todos[i].pokemonACambiar);
    }
    assert q == [q[0]] + q[1..] && DelEquipo(q[1..], todos);
    hide FotoDe, SalvoLasNotas, DelEquipo;
    SumarAlOrden(q[0], q[1..], todos, i);
    SumarAlOrden(q[0], Candidatos(q[1..]), todos, i);
    assert ([i] + OrdenDe(q[1..], todos))[1..] == OrdenDe(q[1..], todos);
  }

  /** The pair of the search over the queue is the one the loops pick over the order. */
  lemma ElParDelOrden(todos: seq<Entrenador>, bloqueados: seq<Entrenador>, c: Cuadro, x: nat, y: nat)
    requires Inscriptos(todos) && SalvoLasNotas(c.fotos, todos) && EsOrden(c)
    requires DelEquipo(bloqueados, todos)
    requires c.orden == OrdenDe(bloqueados, todos)
    requires forall k :: 0 <= k < |Candidatos(bloqueados)| ==> ListaValida(Candidatos(bloqueados)[k].objetivos)
    requires PrimerPar(Candidatos(bloqueados), x, y)
    ensures ParElegido(c).Some?
    ensures var ((m, e), cs) := (ElPar(c), Candidatos(bloqueados));
            && m < |todos| && e < |todos|
            && if cs[x].QuiereDe(cs[y]) then todos[m] == cs[x] && todos[e] == cs[y]
               else todos[m] == cs[y] && todos[e] == cs[x]
  {
    hide Contenido, ListaValida, LoQueTomaria, Candidatos, Ofrecen, EsOrden;
    CandidatosEnOrden(bloqueados, todos, c.fotos);
    var f, cs := c.fotos, Candidatos(bloqueados);
    var os := OrdenDe(cs, todos);
    forall a, b | 0 <= a < |cs| && 0 <= b < |cs|
      ensures cs[a].QuiereDe(cs[b]) <==> Quiere(f, os[a], os[b])
      ensures NadaEntre(cs[a], cs[b]) <==> NadaEntreLosDos(f, os[a], os[b])
    {
      assert f[os[a]].ficha == cs[a].Datos() && f[os[b]].ficha == cs[b].Datos();
    }
    assert !NadaEntreLosDos(f, os[x], os[y]);
    LaPrimeraEleccion(f, os, x, y);
  }

  ghost predicate SonBloqueados(c: map<Estado, seq<Entrenador>>, todos: seq<Entrenador>, orden: seq<nat>)
  {
    && BLOCKED in c && DelEquipo(c[BLOCKED], todos)
    && orden == OrdenDe(c[BLOCKED], todos)
  }

  lemma BloqueadosDelEquipo(c: map<Estado, seq<Entrenador>>, todos: seq<Entrenador>, fotos: seq<Foto>)
    requires |fotos| == |todos| && SonColas(c, todos, fotos)
    ensures BLOCKED in c && DelEquipo(c[BLOCKED], todos)
    ensures SonBloqueados(c, todos, OrdenDe(c[BLOCKED], todos))
  {
    assert EsCola(c[BLOCKED], todos, fotos, BLOCKED);
  }

  lemma BloqueadosTrasElTrato(c: map<Estado, seq<Entrenador>>, todos: seq<Entrenador>, cu: Cuadro, anula: bool)
    requires (forall e: Estado :: e in c) && SinRepetidos(todos) && |cu.fotos| == |todos|
    requires EsOrden(cu) && ParElegido(cu).Some? && SonBloqueados(c, todos, cu.orden)
    ensures var ((m, e), f) := (ElPar(cu), TrasElTrato(cu, anula).fotos);
            SonBloqueados(ColasTrasIntercambiar(c, todos[m], todos[e], f[m].estado, f[e].estado), todos,
                          TrasElTrato(cu, anula).orden)
  {
    hide Sacar, EsOrden, ParElegido, PasaAlFinal, ColasTrasIntercambiar, LoQueTomaria, Intercambiado;
    var (m, e) := ElPar(cu);
    var f := FotosTrasIntercambiar(cu.fotos, m, e, anula);
    var q := PasaAlFinal(c[BLOCKED], todos[m], f[m].estado == BLOCKED);
    BloqueadosTrasIntercambiar(c, todos[m], todos[e], f[m].estado, f[e].estado);
    OrdenTrasPasar(c[BLOCKED], todos, m, f[m].estado == BLOCKED);
    OrdenTrasSacar(q, todos, e);
  }
}
