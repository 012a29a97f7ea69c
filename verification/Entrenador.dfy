/** A trainer of the Team: its captures and its side of an exchange. */
module Entrenadores {
  import opened Secuencias
  import opened Objetivos
  import opened Leyes

  datatype Estado = NEW | READY | EXECUTE | BLOCKED | FINISHED

  /** A `char*`: null, pointing to a name, or pointing to memory already freed. */
  datatype Puntero = Nulo | Nombre(valor: string) | Liberado

  /** What a trainer lacking these would take from another's list: the first name there that it lacks. */
  ghost function LoQueTomaria(faltan: multiset<string>, sobran: seq<string>): (r: Option<string>)
    ensures r.Some? ==> r.value in faltan && r.value in multiset(sobran)
    ensures r.None? <==> faltan !! multiset(sobran)
  {
    if sobran == [] then None
    else
      assert sobran == [sobran[0]] + sobran[1..];
      if sobran[0] in faltan then Some(sobran[0]) else LoQueTomaria(faltan, sobran[1..])
  }

  /** Of the names in the list, s is the first that is lacked. */
  ghost predicate EsElPrimeroQueFalta(s: string, faltan: multiset<string>, sobran: seq<string>)
  {
    exists k :: 0 <= k < |sobran| && sobran[k] == s && s in faltan && forall j :: 0 <= j < k ==> sobran[j] !in faltan
  }

  /** A name that is not lacked may come before. */
  lemma PrimeroConUnaAntes(s: string, faltan: multiset<string>, x: string, sobran: seq<string>)
    requires EsElPrimeroQueFalta(s, faltan, sobran) && x !in faltan
    ensures EsElPrimeroQueFalta(s, faltan, [x] + sobran)
  {
    var k :| 0 <= k < |sobran| && sobran[k] == s && s in faltan && forall j :: 0 <= j < k ==> sobran[j] !in faltan;
    var t := [x] + sobran;
    assert t[k + 1] == s;
    assert forall j :: 1 <= j < k + 1 ==> t[j] == sobran[j - 1];
  }

  lemma {:induction false} TomaElPrimero(faltan: multiset<string>, sobran: seq<string>)
    ensures LoQueTomaria(faltan, sobran).Some? ==>
              EsElPrimeroQueFalta(LoQueTomaria(faltan, sobran).value, faltan, sobran)
  {
    if sobran != [] && sobran[0] !in faltan {
      TomaElPrimero(faltan, sobran[1..]);
      assert [sobran[0]] + sobran[1..] == sobran;
      if LoQueTomaria(faltan, sobran).Some? {
        PrimeroConUnaAntes(LoQueTomaria(faltan, sobran).value, faltan, sobran[0], sobran[1..]);
      }
    }
  }

  /**
   What is left of the mover's note: the name has been freed and, if the exchange also nulls it
   (`anula`), nothing points to it.
   */
  function NotaUsada(anula: bool): Puntero
  {
    if anula then Nulo else Liberado
  }

  class Entrenador {
    var estado: Estado
    var objetivos: seq<Nodo>
    var obtenidos: seq<Nodo>
    var noNecesitados: seq<string>
    var cantidadMaxima: int
    var estaOcupado: bool
    var objetivosCumplidos: bool
    var pokemonACambiar: Puntero
    var pokemonCaptura: Option<string>
    var catchEnviado: Option<string>

    ghost function Faltan(): multiset<string>
      requires ListaValida(objetivos)
      reads this`objetivos
    {
      Contenido(objetivos)
    }

    ghost predicate Listas()
      reads this`objetivos, this`obtenidos
    {
      ListaValida(objetivos) && ListaValida(obtenidos)
    }

    ghost function Datos(): Ficha
      requires Listas()
      reads this`objetivos, this`obtenidos, this`noNecesitados, this`cantidadMaxima
    {
      Ficha(Contenido(obtenidos), Contenido(objetivos), noNecesitados, cantidadMaxima)
    }

    ghost predicate Valid()
      reads this`objetivos, this`obtenidos, this`noNecesitados, this`cantidadMaxima
    {
      Listas() && Equilibrada(Datos())
    }

    /** A trainer read from the configuration, its objectives already discounted. */
    constructor (piezasObjetivos: seq<string>, piezasObtenidos: seq<string>)
      ensures ListaValida(obtenidos) && Contenido(obtenidos) == multiset(piezasObtenidos)
      ensures ListaValida(objetivos) <==>
              forall s ::
                s in multiset(piezasObjetivos) ==> multiset(piezasObtenidos)[s] <= multiset(piezasObjetivos)[s]
      ensures ListaValida(objetivos) ==> Valid() && Faltan() == multiset(piezasObjetivos) - multiset(piezasObtenidos)
      ensures noNecesitados == [] && estado == NEW && !estaOcupado && !objetivosCumplidos
      ensures pokemonACambiar == Nulo && pokemonCaptura == catchEnviado == None
    {
      var tengo := Contar(piezasObtenidos);
      var quiero := Contar(piezasObjetivos);
      var resto, maximo := EstablecerCantidadMaxima(quiero, tengo);
      ExcesoDePiezas(quiero, tengo);
      if NingunoDeMas(quiero, tengo) {
        QuedaLaDiferencia(quiero, tengo);
      }
      obtenidos, objetivos, cantidadMaxima := tengo, resto, maximo;
      noNecesitados, estado, estaOcupado, objetivosCumplidos := [], NEW, false, false;
      pokemonACambiar, pokemonCaptura, catchEnviado := Nulo, None, None;
    }

    /** What is received goes with what was wanted or, if it was not wanted, with what is not needed. */
    method AgregarPokemonComoObtenido(nombre: string)
      requires Listas() && (nombre !in Faltan() ==> pokemonCaptura.Some?)
      modifies this`obtenidos, this`noNecesitados, this`pokemonCaptura
      ensures Listas() && pokemonCaptura == None
      ensures nombre in Faltan() ==> noNecesitados == old(noNecesitados)
      ensures nombre in Faltan() ==> Contenido(obtenidos) == old(Contenido(obtenidos)) + multiset{nombre}
      ensures nombre !in Faltan() ==> noNecesitados == old(noNecesitados) + [nombre] && obtenidos == old(obtenidos)
    {
      EncontrarSiiEsta(objetivos, nombre);
      var pokemon := Encontrar(objetivos, nombre);
      if pokemon.None? {
        noNecesitados := noNecesitados + [nombre];
      } else {
        // A species already held counts one more; a new one gets its node.
        obtenidos := Objetivos.Sumar(obtenidos, nombre, 1);
      }
      pokemonCaptura := None;
    }

    /** Receiving, as captures and exchanges both do it: the lists and then the objectives. */
    method Recibir(nombre: string)
      requires Listas() && (nombre !in Faltan() ==> pokemonCaptura.Some?)
      modifies this`obtenidos, this`noNecesitados, this`pokemonCaptura, this`objetivos
      ensures Listas() && pokemonCaptura == None
      ensures Datos() == Recibido(old(Datos()), nombre)
    {
      hide Contenido;
      ghost var faltaba := Faltan();
      AgregarPokemonComoObtenido(nombre);
      objetivos := RestarUno(objetivos, nombre);
      assert Contenido(objetivos) == faltaba - multiset{nombre};
    }

    /** What a capture leaves in the trainer that made it. */
    method AnotarCaptura()
      requires Listas() && catchEnviado.Some? && pokemonCaptura.Some?
      modifies this
      ensures Listas() && Datos() == Capturado(old(Datos()), old(catchEnviado.value))
      ensures catchEnviado == pokemonCaptura == None && !estaOcupado
      ensures unchanged(this`estado, this`pokemonACambiar, this`objetivosCumplidos)
    {
      hide Contenido;
      Recibir(catchEnviado.value);
      catchEnviado := None;
      cantidadMaxima := cantidadMaxima - 1;
      estaOcupado := false;
    }

    /** One of the two halves of an exchange: takes the pokemon out of this trainer's list and hands it over. */
    method DarleA(otro: Entrenador, nombre: string)
      requires this != otro && Listas() && otro.Listas() && nombre in multiset(noNecesitados)
      requires nombre !in otro.Faltan() ==> otro.pokemonCaptura.Some?
      modifies this`noNecesitados
      modifies otro`obtenidos, otro`noNecesitados, otro`pokemonCaptura, otro`objetivos
      ensures otro.Listas() && otro.pokemonCaptura == None
      ensures Datos() == Entregado(old(Datos()), nombre)
      ensures otro.Datos() == Recibido(old(otro.Datos()), nombre)
    {
      hide Contenido, Sacar;
      noNecesitados := Sacar(noNecesitados, nombre);
      otro.Recibir(nombre);
    }

    /**
     The note is the first thing this trainer would take from the other, and there is none when it
     would take nothing.
     */
    ghost predicate Anoto(otro: Entrenador)
      requires ListaValida(objetivos)
      reads this`objetivos, this`pokemonACambiar, otro`noNecesitados
    {
      var q := LoQueTomaria(Faltan(), otro.noNecesitados);
      if q.Some? then pokemonACambiar == Nombre(q.value) else !pokemonACambiar.Nombre?
    }

    ghost predicate PuedeTomarLoQueAnoto(otro: Entrenador)
      requires ListaValida(objetivos)
      reads this`objetivos, this`pokemonACambiar, otro`noNecesitados
    {
      pokemonACambiar.Nombre? ==>
        pokemonACambiar.valor in Faltan() && pokemonACambiar.valor in multiset(otro.noNecesitados)
    }

    ghost predicate QuiereDe(otro: Entrenador)
      requires ListaValida(objetivos)
      reads this`objetivos, otro`noNecesitados
    {
      LoQueTomaria(Faltan(), otro.noNecesitados).Some?
    }

    /** Whether this trainer lacks something the other holds in excess; if so it notes the first such name. */
    method NecesitaUnPokemonDelOtro(otro: Entrenador) returns (r: bool)
      requires ListaValida(objetivos)
      modifies this`pokemonACambiar
      ensures r <==> QuiereDe(otro)
      ensures if r then Anoto(otro) else pokemonACambiar == old(pokemonACambiar)
      ensures r <==> exists k :: 0 <= k < |otro.noNecesitados| && otro.noNecesitados[k] in Faltan()
      ensures r ==>
                exists k ::
                  && 0 <= k < |otro.noNecesitados| && pokemonACambiar == Nombre(otro.noNecesitados[k])
                  && otro.noNecesitados[k] in Faltan()
                  && (forall j :: 0 <= j < k ==> otro.noNecesitados[j] !in Faltan())
    {
      hide Contenido, ListaValida;
      var i := 0;
      while i < |otro.noNecesitados|
        invariant 0 <= i <= |otro.noNecesitados|
        invariant pokemonACambiar == old(pokemonACambiar)
        invariant forall j :: 0 <= j < i ==> otro.noNecesitados[j] !in Faltan()
        invariant LoQueTomaria(Faltan(), otro.noNecesitados) == LoQueTomaria(Faltan(), otro.noNecesitados[i..])
      {
        EncontrarSiiEsta(objetivos, otro.noNecesitados[i]);
        if Encontrar(objetivos, otro.noNecesitados[i]).Some? {
          pokemonACambiar := Nombre(otro.noNecesitados[i]);
          return true;
        }
        assert otro.noNecesitados[i..][1..] == otro.noNecesitados[i + 1..];
        i := i + 1;
      }
      return false;
    }

    /**
     The second half of an exchange: this trainer, which waited, takes from the one that came what it
     had noted or, if it noted nothing, whatever that one has first.
     */
    method TomarDe(otro: Entrenador) returns (ok: bool)
      requires this != otro && Listas() && otro.Listas() && otro.noNecesitados != []
      requires PuedeTomarLoQueAnoto(otro)
      modifies this`obtenidos, this`noNecesitados, this`pokemonCaptura, this`objetivos, this`pokemonACambiar
      modifies otro`noNecesitados
      ensures ok <==> old(pokemonACambiar) != Liberado
      ensures ok ==> Listas()
      ensures ok ==> otro.Datos() == Entregado(old(otro.Datos()), old(LoQueTomaDe(otro)))
      ensures ok ==> Datos() == Recibido(old(Datos()), old(LoQueTomaDe(otro)))
      ensures ok ==> pokemonACambiar == Nulo
    {
      hide Contenido, Sacar;
      ghost var toma, yo, el := LoQueTomaDe(otro), Datos(), otro.Datos();
      if pokemonACambiar == Nulo {
        pokemonCaptura := Some(otro.noNecesitados[0]);
        pokemonACambiar := Nombre(otro.noNecesitados[0]);
      }
      assert Datos() == yo && otro.Datos() == el;
      if pokemonACambiar == Liberado {
        return false;
      }
      otro.DarleA(this, pokemonACambiar.valor);
      assert Datos() == Recibido(yo, toma) && otro.Datos() == Entregado(el, toma);
      pokemonACambiar := Nulo;
      assert Datos() == Recibido(yo, toma) && otro.Datos() == Entregado(el, toma);
      return true;
    }

    ghost function LoQueTomaDe(otro: Entrenador): string
      requires otro.noNecesitados != []
      reads this`pokemonACambiar, otro`noNecesitados
    {
      if pokemonACambiar.Nombre? then pokemonACambiar.valor else otro.noNecesitados[0]
    }

    /**
     The exchange once this trainer has reached the one that waits.  The one that waits takes what it
     noted or, if it noted nothing, whatever comes first; if its note was freed in an earlier exchange,
     that memory is read and the exchange fails.  The source frees this trainer's note and goes on
     pointing to it; with `anula` the note is nulled too.
     */
    method EjecutarIntercambio(espera: Entrenador, anula: bool) returns (ok: bool)
      requires this != espera && Valid() && espera.Listas() && noNecesitados != []
      requires PuedeTomarLoQueAnoto(espera) && pokemonACambiar.Nombre? && espera.PuedeTomarLoQueAnoto(this)
      modifies this`obtenidos, this`noNecesitados, this`pokemonCaptura, this`objetivos, this`pokemonACambiar
      modifies espera`obtenidos, espera`noNecesitados, espera`pokemonCaptura, espera`objetivos, espera`pokemonACambiar
      ensures ok <==> old(espera.pokemonACambiar) != Liberado
      ensures ok ==> Listas() && Datos() == Intercambiado(old(Datos()), old(espera.LoQueTomaDe(this)),
                old(pokemonACambiar.valor))
      ensures ok ==> espera.Listas()
      ensures ok ==> espera.Datos() == Intercambiado(old(espera.Datos()), old(pokemonACambiar.valor),
                old(espera.LoQueTomaDe(this)))
      ensures ok ==> pokemonACambiar == NotaUsada(anula) && espera.pokemonACambiar == Nulo
    {
      hide Contenido, Sacar, ListaValida, Entregado, Equilibrada;
      ghost var toma, da := pokemonACambiar.valor, espera.LoQueTomaDe(this);
      ghost var yo, el := Datos(), espera.Datos();
      EntregarYRecibir(yo, da, toma);
      espera.DarleA(this, pokemonACambiar.valor);
      assert espera.LoQueTomaDe(this) == da;
      ok := espera.TomarDe(this);
      pokemonACambiar := NotaUsada(anula);
      assert ok ==> Listas() && Datos() == Intercambiado(yo, da, toma);
    }
  }

  /** The trainer that moves receives before it gives: the order does not matter, as it gives something else. */
  lemma EntregarYRecibir(f: Ficha, da: string, toma: string)
    requires Equilibrada(f) && toma in f.faltan && da in f.sobran
    ensures toma != da
    ensures Entregado(Recibido(f, toma), da) == Intercambiado(f, da, toma)
  {
    assert toma !in f.sobran;
  }

  /** Holding no species in excess, said of the lists and of the configuration's pieces. */
  lemma ExcesoDePiezas(quiero: seq<Nodo>, tengo: seq<Nodo>)
    requires ListaValida(quiero) && ListaValida(tengo)
    ensures NingunoDeMas(quiero, tengo) <==> forall s :: s in Contenido(quiero) ==>
              Contenido(tengo)[s] <= Contenido(quiero)[s]
    ensures ListaValida(Descontados(quiero, tengo)) <==> NingunoDeMas(quiero, tengo)
  {
    forall i | 0 <= i < |quiero|
      ensures quiero[i].nombre in Contenido(quiero)
      ensures Contenido(quiero)[quiero[i].nombre] == quiero[i].cantidad
      ensures CantidadDe(tengo, quiero[i].nombre) == Contenido(tengo)[quiero[i].nombre]
    {
      Cuantos(quiero, quiero[i].nombre);
      EncontrarSiiEsta(tengo, quiero[i].nombre);
    }
    forall s | s in Contenido(quiero)
      ensures exists i :: 0 <= i < |quiero| && quiero[i].nombre == s
    {
      Cuantos(quiero, s);
    }
    if NingunoDeMas(quiero, tengo) {
      QuedaLaDiferencia(quiero, tengo);
    } else {
      var i :| 0 <= i < |quiero| && CantidadDe(tengo, quiero[i].nombre) > quiero[i].cantidad;
      ElExcesoQuedaNegativo(quiero, tengo, i);
    }
  }
}
