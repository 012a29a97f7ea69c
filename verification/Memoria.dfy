/**
 The broker's cache: one byte array, the list of free partitions and the list of stored
 messages, in buddy-system or dynamic-partition mode.
 */
module BrokerMemoria {
  import opened Bytes
  import opened Potencias
  import opened Secuencias
  import opened Particiones
  import opened PasosDeParticion
  import opened EstadoDeMemoria
  import opened Corrimiento
  import opened Compactacion
  import opened BusquedaDeParticion

  /** What compactar comes to: -1, 1, or a NULL node used as if it were a partition. */
  datatype ResultadoCompactar = NadaQueHacer | Compactado | Falla

  class Memoria {
    const cfg: Config
    const cache: array<byte>
    /** list_sort over MENSAJES, which is the library's. */
    const clasificar: seq<Mensaje> -> seq<Mensaje>
    /** Whether a compaction folds any number of free partitions. The source does not: there this is false. */
    const pliega: bool
    var libres: seq<Bloque>
    var mensajes: seq<Mensaje>

    ghost predicate ValidoCon(reservados: set<Bloque>)
      reads this
    {
      Coherente(cfg, cache.Length, libres, mensajes, reservados) && Clasifica(clasificar)
    }

    ghost function LaRegla(): Regla
    {
      Regla(cfg, cache.Length, clasificar, pliega)
    }

    ghost predicate Valid()
      reads this
    {
      ValidoCon({})
    }

    /** The stored messages in list order, without regard to where they lie. */
    ghost function Guardados(): seq<Guardado>
      reads this, cache
    {
      Imagen(mensajes, cache[..])
    }

    /** No byte of a message that is gone is left in the cache. */
    ghost predicate SinRestos(reservados: set<Bloque>)
      reads this, cache
    {
      Limpia(cache[..], Usados(mensajes) + reservados)
    }

    /** inicializarMemoria */
    constructor (cfg: Config, n: nat, clasificar: seq<Mensaje> -> seq<Mensaje>, pliega: bool)
      requires ConfigValida(cfg, n) && Clasifica(clasificar)
      ensures Valid() && this.cfg == cfg && cache.Length == n && fresh(cache)
      ensures LaRegla() == Regla(cfg, n, clasificar, pliega)
      ensures libres == [Bloque(0, n)] && mensajes == []
      ensures forall x :: 0 <= x < n ==> cache[x] as int == '_' as int
      ensures SinRestos({})
    {
      hide Clasifica;
      this.cfg, this.clasificar, this.pliega := cfg, clasificar, pliega;
      cache := new byte[n](_ => VACIO);
      libres := [Bloque(0, n)];
      mensajes := [];
      new;
      var entera := {Bloque(0, n)};
      assert Conj(libres) == entera;
      assert Usados(mensajes) + {} == {};
      forall x | 0 <= x < n
        ensures Cubierto(x, entera + {})
      {
        assert Bloque(0, n) in entera + {} && Bloque(0, n).Tiene(x);
      }
      if cfg.buddy {
        CompanieroEsMutuo(Bloque(0, n));
      }
    }

    /** memset (ptr, '_', tam) over bytes that no message of the list uses. */
    method Blanquear(b: Bloque)
      requires b.Fin() <= cache.Length
      requires Libre(b, Usados(mensajes))
      modifies cache
      ensures EnBlanco(old(cache[..]), cache[..], b)
      ensures Guardados() == old(Guardados())
    {
      forall x | b.pos <= x < b.Fin() {
        cache[x] := VACIO;
      }
      forall k, x | 0 <= k < |mensajes| && 0 <= x < cache.Length && mensajes[k].particion.Tiene(x)
        ensures cache[..][x] == old(cache[..])[x]
      {
        assert Bloques(mensajes)[k] in Usados(mensajes);
      }
      ImagenIgual(mensajes, cache[..], old(cache[..]));
    }

    /**
     The buddy splits of obtenerPosicionLibreEnCache: halve the free block at `indice` until it
     has the exponent of the request, listing each right half, and take what is left of it.
     */
    method TomarPartiendo(indice: nat, exponente: nat) returns (ptr: nat)
      requires Valid() && cfg.buddy
      requires indice < |libres| && 1 <= exponente && Pow2(exponente) <= libres[indice].tam
      modifies this`libres, cache
      ensures ptr == old(libres[indice]).pos
      ensures ValidoCon({Bloque(ptr, Pow2(exponente))})
      ensures Guardados() == old(Guardados()) && IgualOEnBlanco(old(cache[..]), cache[..])
    {
      hide Clasifica;
      var actual := libres[indice];
      ptr := actual.pos;
      ghost var usados := Usados(mensajes);
      ghost var n := cache.Length;
      assert usados + {} == usados;
      PotenciaDePow2(exponente);
      ExponenteDePow2(exponente);
      var tamanio: nat := actual.tam;
      assert actual in Conj(libres);
      ghost var resto := Bloque(actual.pos, tamanio);
      ghost var virtuales := Conj(libres);
      var e := ExponenteBuddy(tamanio);
      while e != exponente
        invariant indice < |libres| && libres[indice] == actual && SinRepetidos(libres)
        invariant e == Exponente(tamanio) && tamanio >= Pow2(exponente) && EsPotencia(tamanio)
        invariant resto == Bloque(actual.pos, tamanio) && tamanio <= actual.tam
        invariant virtuales == Conj(libres) - {actual} + {resto}
        invariant resto != actual ==> resto !in Conj(libres)
        invariant CasiBuddy(virtuales, usados, n, resto)
        invariant Guardados() == old(Guardados()) && IgualOEnBlanco(old(cache[..]), cache[..])
        decreases tamanio
      {
        PotenciaMayorAlMenosDoble(Pow2(exponente), tamanio);
        tamanio := tamanio / 2;
        var nueva := Bloque(actual.pos + tamanio, tamanio);
        PartirBuddy(virtuales, usados, n, resto);
        assert nueva == MitadDerecha(resto);
        assert resto.Fin() <= n;
        EnLibresNoToca(virtuales, usados, n, resto, nueva);
        Blanquear(nueva);
        assert nueva !in libres by {
          assert nueva != actual;
        }
        ConjInsertar(libres, indice + 1, nueva);
        libres := Insertar(libres, indice + 1, nueva);
        virtuales := virtuales - {resto} + {MitadIzquierda(resto), nueva};
        resto := MitadIzquierda(resto);
        assert virtuales == Conj(libres) - {actual} + {resto};
        e := ExponenteBuddy(tamanio);
      }
      RedondeoDePotencia(tamanio);
      TomarBuddy(virtuales, usados, n, resto);
      ConjQuitar(libres, indice);
      libres := Quitar(libres, indice);
      assert Conj(libres) == virtuales - {resto};
      assert usados + {resto} == Usados(mensajes) + {Bloque(ptr, Pow2(exponente))};
    }

    method OrdenarParticionesLibresSegunTamanio()
      requires SinRepetidos(libres)
      modifies this`libres
      ensures SinRepetidos(libres) && Conj(libres) == Conj(old(libres)) && |libres| == |old(libres)|
      ensures Ordenado(libres, (b: Bloque) => b.tam)
    {
      libres := Ordenar(libres, (b: Bloque) => b.tam);
      ConjDePermutacion(old(libres), libres);
    }

    method OrdenarParticionesLibresSegunInicio()
      requires SinRepetidos(libres)
      modifies this`libres
      ensures SinRepetidos(libres) && Conj(libres) == Conj(old(libres)) && |libres| == |old(libres)|
      ensures Ordenado(libres, (b: Bloque) => b.pos) && MismosElementos(libres, old(libres))
    {
      libres := Ordenar(libres, (b: Bloque) => b.pos);
      ConjDePermutacion(old(libres), libres);
    }

    lemma EsLaElegida(ls: seq<Bloque>, k: nat, t: nat)
      requires k < |ls| && t <= ls[k].tam
      requires forall i :: 0 <= i < k ==> ls[i].tam < t
      requires if cfg.bestFit then Ordenado(ls, (b: Bloque) => b.tam) else Ordenado(ls, (b: Bloque) => b.pos)
      ensures Elegida(cfg, Conj(ls), ls[k], t)
    {
      assert ls[k] in Conj(ls);
      forall g | g in Conj(ls) && t <= g.tam
        ensures if cfg.bestFit then ls[k].tam <= g.tam else ls[k].pos <= g.pos
      {
        var i :| 0 <= i < |ls| && ls[i] == g;
        assert k <= i;
      }
    }

    method ObtenerPosicionLibre(tam: nat) returns (ptr: Option<nat>)
      requires Valid() && tam > 0
      modifies this`libres, cache
      ensures Guardados() == old(Guardados())
      ensures old(SinRestos({})) ==> SinRestos(Reservada(ptr, Redondeo(cfg, tam)))
      ensures ptr.Some? <==> HayLugar(cfg, cache.Length, mensajes, Redondeo(cfg, tam))
      ensures ptr.None? ==> Valid() && Conj(libres) == old(Conj(libres)) && cache[..] == old(cache[..])
      ensures ptr.None? ==> |libres| == |old(libres)|
      ensures ptr.Some? ==> ValidoCon({Bloque(ptr.value, Redondeo(cfg, tam))})
      ensures ptr.Some? ==> EnSuLugar(LaRegla(), mensajes, Bloque(ptr.value, Redondeo(cfg, tam)))
      ensures ptr.Some? ==>
                exists f ::
                  && f in old(libres) && f.pos == ptr.value && Redondeo(cfg, tam) <= f.tam
                  && (forall g :: g in old(libres) && Redondeo(cfg, tam) <= g.tam ==>
                        if cfg.bestFit then f.tam <= g.tam else f.pos <= g.pos)
      ensures ptr.Some? ==> old(libres) != []
      ensures cfg.buddy || |libres| <= |old(libres)|
    {
      hide Mosaico, SinVecinos, SinCompanieros, Limpia, HayLugar, Tramos, Clasifica;
      var exponente := ExponenteBuddy(tam);
      if cfg.bestFit {
        OrdenarParticionesLibresSegunTamanio();
      } else {
        OrdenarParticionesLibresSegunInicio();
      }
      assert Valid();
      var t := tam;
      if cfg.buddy {
        PotenciaDePow2(exponente);
        t := Pow2(exponente);
      }
      HayLugarSiiHayLibre(cfg, cache.Length, libres, mensajes, t);
      LibresSonTramos(cfg, cache.Length, libres, mensajes);
      var count := 0;
      while count < |libres|
        invariant 0 <= count <= |libres|
        invariant forall k :: 0 <= k < count ==> libres[k].tam < t
      {
        var actual := libres[count];
        if t <= actual.tam {
          assert actual in Conj(libres);
          EsLaElegida(libres, count, t);
          assert forall g :: g in old(libres) ==> g in Conj(libres);
          assert actual in old(libres) by {
            assert actual in Conj(old(libres));
          }
          Tomar(count, t, exponente);
          return Some(actual.pos);
        }
        count := count + 1;
      }
      return None;
    }

    /** Takes the request's bytes from the free partition found, as the mode does it. */
    method Tomar(indice: nat, t: nat, exponente: nat)
      requires Valid() && indice < |libres| && 0 < t <= libres[indice].tam
      requires cfg.buddy ==> 1 <= exponente && t == Pow2(exponente)
      modifies this`libres, cache
      ensures ValidoCon({Bloque(old(libres[indice]).pos, t)}) && Guardados() == old(Guardados())
      ensures old(SinRestos({})) ==> SinRestos({Bloque(old(libres[indice]).pos, t)})
      ensures cfg.buddy || |libres| <= |old(libres)|
    {
      hide Coherente, Limpia, IgualOEnBlanco;
      ghost var b, bytes := Bloque(libres[indice].pos, t), cache[..];
      if !cfg.buddy {
        TomarSinPartir(indice, t);
        IgualEsIgualOEnBlanco(bytes);
      } else {
        var _ := TomarPartiendo(indice, exponente);
      }
      if old(SinRestos({})) {
        LimpiaAlReservar(bytes, cache[..], Usados(mensajes) + {}, {b});
        assert Usados(mensajes) + {} + {b} == Usados(mensajes) + {b};
      }
    }

    /** The dynamic-partition branch: cut t bytes off the free block, or take all of it. */
    method TomarSinPartir(indice: nat, t: nat)
      requires Valid() && !cfg.buddy
      requires indice < |libres| && 0 < t <= libres[indice].tam
      modifies this`libres
      ensures ValidoCon({Bloque(old(libres[indice]).pos, t)})
      ensures |libres| <= |old(libres)|
    {
      var actual := libres[indice];
      ghost var usados := Usados(mensajes);
      assert usados + {} == usados;
      assert actual in Conj(libres);
      TomarDinamica(Conj(libres), usados, cache.Length, actual, t);
      ConjQuitar(libres, indice);
      if t < actual.tam {
        var resto := Bloque(actual.pos + t, actual.tam - t);
        ConjCambiar(libres, indice, resto);
        libres := libres[indice := resto];
      } else {
        libres := Quitar(libres, indice);
      }
      assert Bloque(actual.pos, t) !in usados by {
        assert !Disjuntos(Bloque(actual.pos, t), actual);
      }
    }

    // ---- giving a partition back ----

    /** Takes the buddy of `nueva` out of the free list, if it is there whole. */
    method ObtenerParticionCompaniero(nueva: Bloque) returns (c: Option<Bloque>)
      requires Alineado(nueva) && SinRepetidos(libres)
      modifies this`libres
      ensures c.Some? <==> Companiero(nueva) in old(libres)
      ensures c.None? ==> libres == old(libres)
      ensures c.Some? ==> c.value == Companiero(nueva) && |libres| < |old(libres)|
      ensures c.Some? ==> SinRepetidos(libres) && Conj(libres) == Conj(old(libres)) - {c.value}
    {
      var posicionPart := nueva.pos / nueva.tam;
      var i := 0;
      while i < |libres|
        invariant 0 <= i <= |libres|
        invariant forall k :: 0 <= k < i ==> libres[k] != Companiero(nueva)
      {
        var otra := libres[i];
        if posicionPart % 2 == 1 {
          if otra.pos == nueva.pos - nueva.tam && otra.tam == nueva.tam {
            ConjQuitar(libres, i);
            libres := Quitar(libres, i);
            return Some(otra);
          }
        } else {
          if otra.pos == nueva.pos + nueva.tam && otra.tam == nueva.tam {
            ConjQuitar(libres, i);
            libres := Quitar(libres, i);
            return Some(otra);
          }
        }
        i := i + 1;
      }
      return None;
    }

    /** unificar: the node of the free list that `nueva` points to takes in its buddy. */
    method Unificar(nueva: Bloque, compania: Bloque) returns (unida: Bloque)
      requires nueva in libres && SinRepetidos(libres)
      requires Alineado(nueva) && compania == Companiero(nueva)
      requires Unido(nueva) !in libres
      modifies this`libres
      ensures unida == Unido(nueva)
      ensures SinRepetidos(libres) && Conj(libres) == old(Conj(libres)) - {nueva} + {unida}
      ensures |libres| == |old(libres)|
    {
      unida := Bloque(if nueva.pos > compania.pos then compania.pos else nueva.pos, nueva.tam + compania.tam);
      var nodo := Buscar(libres, b => b == nueva).value;
      ConjCambiar(libres, nodo, unida);
      libres := libres[nodo := unida];
    }

    method ConsolidarBuddySystem(msg: Mensaje)
      requires cfg.buddy && ValidoCon({msg.particion})
      modifies this`libres, cache
      ensures Valid() && Guardados() == old(Guardados())
      ensures EnBlanco(old(cache[..]), cache[..], msg.particion)
    {
      ghost var usados := Usados(mensajes);
      ghost var n := cache.Length;
      var nueva := msg.particion;
      LiberarBuddy(Conj(libres), usados + {nueva}, n, nueva);
      assert usados + {nueva} - {nueva} == usados;
      ConjAgregar(libres, nueva);
      libres := libres + [nueva];
      ghost var conNueva := Conj(libres);
      var compania := ObtenerParticionCompaniero(nueva);
      if compania.Some? {
        CompanieroEsMutuo(nueva);
        assert conNueva == Conj(libres) + {compania.value};
      }
      while compania.Some?
        invariant nueva in libres && SinRepetidos(libres) && Alineado(nueva)
        invariant compania.Some? ==> compania.value == Companiero(nueva) && compania.value !in libres
        invariant compania.None? ==> CasiBuddy(Conj(libres), usados, n, nueva) && Companiero(nueva) !in libres
        invariant compania.Some? ==> CasiBuddy(Conj(libres) + {compania.value}, usados, n, nueva)
        invariant cache[..] == old(cache[..])
        decreases |libres|, compania.Some?
      {
        ghost var antes := Conj(libres) + {compania.value};
        assert nueva != compania.value;
        UnirBuddy(antes, usados, n, nueva);
        ghost var vieja := nueva;
        nueva := Unificar(nueva, compania.value);
        assert Conj(libres) == antes - {vieja, compania.value} + {nueva};
        ghost var conUnida := Conj(libres);
        compania := ObtenerParticionCompaniero(nueva);
        if compania.Some? {
          CompanieroEsMutuo(nueva);
          assert conUnida == Conj(libres) + {compania.value};
        }
      }
      SinCompanieroEsCanonico(Conj(libres), usados, n, nueva);
      Blanquear(msg.particion);
      assert usados + {} == usados;
    }

    /** consolidar_particiones_dinamicas: join with the free partition on either side, both, or neither. */
    method ConsolidarParticionesDinamicas(msg: Mensaje)
      requires !cfg.buddy && ValidoCon({msg.particion}) && msg.largo == msg.particion.tam
      modifies this`libres, cache
      ensures Valid() && Guardados() == old(Guardados())
      ensures EnBlanco(old(cache[..]), cache[..], msg.particion)
      ensures |old(libres)| - 1 <= |libres| <= |old(libres)| + 1
      ensures libres != []
    {
      ghost var usados := Usados(mensajes);
      ghost var n := cache.Length;
      var b := msg.particion;
      assert ListaCanonica(libres, usados + {b}, n);
      UnirConVecinas(b, usados);
      assert usados + {} == usados;
      Blanquear(b);
    }

    /** The free list once `b` is given back: its neighbours, if free, are joined with it. */
    method UnirConVecinas(b: Bloque, ghost usados: set<Bloque>)
      requires ListaCanonica(libres, usados + {b}, cache.Length) && b !in usados
      modifies this`libres
      ensures ListaCanonica(libres, usados, cache.Length)
      ensures |old(libres)| - 1 <= |libres| <= |old(libres)| + 1
      ensures libres != []
    {
      ghost var n := cache.Length;
      var derecha := Buscar(libres, (p: Bloque) => p.pos == b.pos + b.tam);
      var izquierda := Buscar(libres, (p: Bloque) => p.pos == b.pos - p.tam);

      if derecha.Some? && izquierda.None? {
        var d := libres[derecha.value];
        var junta := Bloque(d.pos - b.tam, d.tam + b.tam);
        JuntarDerecha(libres, usados, n, b, derecha.value, junta);
        libres := libres[derecha.value := junta];
      } else if derecha.None? && izquierda.Some? {
        var i := libres[izquierda.value];
        var junta := Bloque(i.pos, i.tam + b.tam);
        JuntarIzquierda(libres, usados, n, b, izquierda.value, junta);
        libres := libres[izquierda.value := junta];
      } else if derecha.Some? && izquierda.Some? {
        UnirAmbas(b, derecha.value, izquierda.value, usados);
      } else {
        JuntarNada(libres, usados, n, b);
        libres := libres + [b];
      }
    }

    /** Free on both sides: the left partition grows over all three, the right one leaves the list. */
    method UnirAmbas(b: Bloque, derecha: nat, izquierda: nat, ghost usados: set<Bloque>)
      requires ListaCanonica(libres, usados + {b}, cache.Length) && b !in usados
      requires derecha < |libres| && libres[derecha].pos == b.Fin()
      requires izquierda < |libres| && libres[izquierda].Fin() == b.pos
      modifies this`libres
      ensures ListaCanonica(libres, usados, cache.Length)
      ensures |libres| == |old(libres)| - 1 && libres != []
    {
      var i := libres[izquierda];
      var junta := Bloque(i.pos, i.tam + (b.tam + libres[derecha].tam));
      ghost var antes := libres;
      AmbasSonDistintas(libres, usados, cache.Length, b, derecha, izquierda);
      libres := libres[izquierda := junta];
      assert libres[derecha].pos == b.Fin();
      var nodo := Buscar(libres, (p: Bloque) => p.pos == b.Fin()).value;
      JuntarAmbas(antes, usados, cache.Length, b, derecha, izquierda, junta, nodo);
      libres := Quitar(libres, nodo);
    }

    // ---- eviction ----

    /** list_remove (MENSAJES, 0) and the consolidation of its partition. */
    method EliminarPrimero()
      requires Valid() && mensajes != []
      modifies this, cache
      ensures Valid() && mensajes == old(mensajes)[1..]
      ensures Guardados() == old(Guardados())[1..]
      ensures EnBlanco(old(cache[..]), cache[..], old(mensajes)[0].particion)
      ensures !cfg.buddy ==> |old(libres)| - 1 <= |libres| <= |old(libres)| + 1 && libres != []
    {
      SacarPrimero(cfg, cache.Length, libres, mensajes);
      var primerMensaje := mensajes[0];
      assert primerMensaje in mensajes;
      mensajes := mensajes[1..];
      assert Guardados() == old(Guardados())[1..];
      if cfg.buddy {
        ConsolidarBuddySystem(primerMensaje);
      } else {
        ConsolidarParticionesDinamicas(primerMensaje);
      }
    }

    method EliminarParticionFIFO()
      requires Valid() && mensajes != []
      modifies this, cache
      ensures Valid() && mensajes == old(mensajes)[1..]
      ensures Guardados() == old(Guardados())[1..]
      ensures EnBlanco(old(cache[..]), cache[..], old(mensajes)[0].particion)
      ensures !cfg.buddy ==> |old(libres)| - 1 <= |libres| <= |old(libres)| + 1 && libres != []
    {
      EliminarPrimero();
    }

    /** Evicts the least recently used message; the list stays sorted by timestamp. */
    method EliminarParticionLRU() returns (ghost orden: seq<Mensaje>)
      requires Valid() && mensajes != []
      modifies this, cache
      ensures MismosElementos(orden, old(mensajes)) && Ordenado(orden, (m: Mensaje) => m.timestamp)
      ensures orden == clasificar(old(mensajes))
      ensures Valid() && orden != [] && mensajes == orden[1..]
      ensures Guardados() == Imagen(orden, old(cache[..]))[1..]
      ensures EnBlanco(old(cache[..]), cache[..], orden[0].particion)
      ensures !cfg.buddy ==> |old(libres)| - 1 <= |libres| <= |old(libres)| + 1 && libres != []
    {
      mensajes := clasificar(mensajes);
      CoherenteReordenado(cfg, cache.Length, libres, old(mensajes), mensajes);
      ConjDePermutacion(old(mensajes), mensajes);
      orden := mensajes;
      EliminarPrimero();
    }

    // ---- compaction ----

    /**
     mover_particion on the free partitions at i and i + 1: slides the messages between them
     down and lets the second take in the first, which stays listed for the caller to remove.
     */
    method MoverParticion(i: nat)
      requires Valid() && !cfg.buddy && i + 1 < |libres|
      requires Ordenado(libres, (b: Bloque) => b.pos)
      modifies this, cache
      ensures Consecutivas(Conj(old(libres)), old(libres)[i], old(libres)[i + 1])
      ensures libres == old(libres)[i + 1 := Crecida(old(libres)[i], old(libres)[i + 1])]
      ensures mensajes == Acercados(old(mensajes), old(libres)[i], old(libres)[i + 1])
      ensures Coherente(cfg, cache.Length, Quitar(libres, i), mensajes, {})
      ensures Guardados() == old(Guardados())
    {
      hide Mosaico, SinVecinos, Imagen, CorreMensajes, Ordenado, SinRepetidos;
      var actual, siguiente := libres[i], libres[i + 1];
      ghost var ms := mensajes;
      assert Usados(ms) + {} == Usados(ms);
      VecinasConsecutivas(libres, Usados(ms), cache.Length, i);
      var desplazamiento := CorrerPunteros(actual, siguiente);
      Memmove(actual.pos, actual.Fin(), desplazamiento);
      ImagenCorrida(Conj(libres), ms, cache.Length, actual, siguiente, old(cache[..]), cache[..]);
      CoherenteCorrida(cfg, cache.Length, libres, ms, i);
      libres := libres[i + 1 := Bloque(actual.pos + desplazamiento, actual.tam + siguiente.tam)];
    }

    /** The loop of mover_particion: walks from message to message, moving their pointers. */
    method CorrerPunteros(actual: Bloque, siguiente: Bloque) returns (desplazamiento: nat)
      requires Mosaiquea(Conj(libres), mensajes, cache.Length)
      requires Consecutivas(Conj(libres), actual, siguiente)
      modifies this`mensajes
      ensures desplazamiento == siguiente.pos - actual.Fin()
      ensures mensajes == CorreMensajes(old(mensajes), actual.Fin(), siguiente.pos, actual.tam)
    {
      ghost var ms := mensajes;
      ghost var conj := Conj(libres);
      ghost var n := cache.Length;
      BordeInicial(conj, ms, n, actual);
      assert actual.tam > 0;
      assert mensajes == CorreMensajes(ms, actual.Fin(), actual.Fin(), actual.tam);
      var elementoActual := actual.Fin();
      desplazamiento := 0;
      while elementoActual != siguiente.pos
        invariant actual.Fin() <= elementoActual <= siguiente.pos
        invariant desplazamiento == elementoActual - actual.Fin()
        invariant Borde(ms, elementoActual)
        invariant mensajes == CorreMensajes(ms, actual.Fin(), elementoActual, actual.tam)
        decreases siguiente.pos - elementoActual
      {
        ghost var hay := HayMensajeEn(conj, ms, n, actual, siguiente, elementoActual);
        assert mensajes[hay].particion.pos == elementoActual;
        var k := Buscar(mensajes, (m: Mensaje) => m.particion.pos == elementoActual).value;
        var msg := mensajes[k];
        assert ms[k].particion.pos == elementoActual;
        PasarMensaje(conj, ms, n, actual, siguiente, elementoActual, k);
        var movido := msg.(particion := Bloque(msg.particion.pos - actual.tam, msg.particion.tam));
        CorrerUnoMas(ms, actual.Fin(), elementoActual, ms[k].particion.Fin(), actual.tam, k, movido);
        mensajes := mensajes[k := movido];
        elementoActual := elementoActual + msg.particion.tam;
        desplazamiento := desplazamiento + msg.particion.tam;
      }
    }

    /** One turn of compactar: mover_particion (i, i + 1), then list_remove (i). */
    method MoverYQuitar(i: nat)
      requires Valid() && !cfg.buddy && i + 1 < |libres|
      requires Ordenado(libres, (b: Bloque) => b.pos)
      modifies this, cache
      ensures old(libres)[i].Fin() <= old(libres)[i + 1].pos
      ensures libres == Quitar(old(libres)[i + 1 := Crecida(old(libres)[i], old(libres)[i + 1])], i)
      ensures mensajes == Acercados(old(mensajes), old(libres)[i], old(libres)[i + 1])
      ensures Valid() && Ordenado(libres, (b: Bloque) => b.pos)
      ensures Guardados() == old(Guardados()) && |mensajes| == |old(mensajes)|
    {
      MoverParticion(i);
      SigueOrdenada(old(libres), i);
      libres := Quitar(libres, i);
    }

    /** memset over the one free partition left by a compaction. */
    method BlanquearUnica()
      requires Valid() && |libres| == 1
      modifies cache
      ensures Valid() && Guardados() == old(Guardados())
      ensures SinRestos({})
    {
      assert Usados(mensajes) + {} == Usados(mensajes);
      assert libres[0] in Conj(libres);
      Blanquear(libres[0]);
      LimpiaPorLasLibres(cache[..], Conj(libres), Usados(mensajes));
    }

    /**
     compactar, as written: i advances although each turn also removes element i, so with three
     or more free partitions some turn reads past the end of the list.
     */
    method Compactar() returns (r: ResultadoCompactar)
      requires Valid() && !cfg.buddy
      modifies this, cache
      ensures Valid() && Guardados() == old(Guardados()) && |mensajes| == |old(mensajes)|
      ensures r.Falla? <==> |old(libres)| != 1 && |old(libres)| != 2
      ensures r.NadaQueHacer? <==> |old(libres)| == 1
      ensures r.NadaQueHacer? ==> libres == old(libres) && mensajes == old(mensajes)
      ensures r.Compactado? ==> SinRestos({})
      ensures r.NadaQueHacer? ==> cache[..] == old(cache[..])
      ensures !r.Falla? ==> |libres| == 1 && libres[0].tam == SumaTam(old(libres))
      ensures !r.Falla? ==> forall f :: f in old(libres) ==> f.Fin() <= libres[0].Fin()
      ensures r.Compactado? ==> SeJuntaron(old(libres), old(mensajes), libres, mensajes)
      ensures !r.Falla? ==> mensajes == Plegados(cfg, cache.Length, old(mensajes), |old(libres)|)
    {
      hide Mosaico, SinVecinos, Acercados, SeJuntaron, Limpia, Clasifica;
      OrdenarParticionesLibresSegunInicio();
      ghost var ordenadas := libres;
      assert Usados(mensajes) + {} == Usados(mensajes);
      SumaYFinDeDos(old(libres), ordenadas, Usados(mensajes), cache.Length);
      var cantParticionesLibres := |libres|;
      if cantParticionesLibres == 1 {
        CardinalConj(old(libres));
        return NadaQueHacer;
      }
      if cantParticionesLibres == 2 {
        PlegarLasPrimeras(cfg, cache.Length, libres, mensajes);
      }
      var falla := RecorrerPares(cantParticionesLibres);
      if falla || libres == [] {
        return Falla;
      }
      SonDos(old(libres), ordenadas, old(mensajes), libres, mensajes);
      BlanquearUnica();
      return Compactado;
    }

    /** Two free partitions have become one, with the messages that were between them before it. */
    ghost predicate SeJuntaron(ls: seq<Bloque>, ms: seq<Mensaje>, ls': seq<Bloque>, ms': seq<Mensaje>)
    {
      exists a, b :: multiset(ls) == multiset([a, b]) && a.Fin() <= b.pos
                     && ls' == [Crecida(a, b)] && ms' == Acercados(ms, a, b)
    }

    lemma SonDos(ls: seq<Bloque>, ordenadas: seq<Bloque>, ms: seq<Mensaje>, ls': seq<Bloque>, ms': seq<Mensaje>)
      requires |ordenadas| == 2 && MismosElementos(ordenadas, ls) && ordenadas[0].Fin() <= ordenadas[1].pos
      requires ls' == [Crecida(ordenadas[0], ordenadas[1])] && ms' == Acercados(ms, ordenadas[0], ordenadas[1])
      ensures SeJuntaron(ls, ms, ls', ms')
    {
      assert ordenadas == [ordenadas[0], ordenadas[1]];
      assert multiset(ls) == multiset([ordenadas[0], ordenadas[1]]);
    }

    /** The loop of compactar; `falla` when list_get goes past the end and NULL is used. */
    method RecorrerPares(cant: nat) returns (falla: bool)
      requires Valid() && !cfg.buddy && cant == |libres|
      requires Ordenado(libres, (b: Bloque) => b.pos)
      modifies this, cache
      ensures Valid() && Guardados() == old(Guardados()) && |mensajes| == |old(mensajes)|
      ensures falla <==> cant >= 3
      ensures cant == 2 ==> old(libres)[0].Fin() <= old(libres)[1].pos
      ensures cant == 2 ==> libres == [Crecida(old(libres)[0], old(libres)[1])]
      ensures cant == 2 ==> mensajes == Acercados(old(mensajes), old(libres)[0], old(libres)[1])
      ensures cant < 2 ==> libres == old(libres)
    {
      var i := 0;
      while i < cant - 1
        invariant 0 <= i && |libres| == cant - i
        invariant i > 0 ==> 2 * i < cant + 1
        invariant Valid() && Guardados() == old(Guardados()) && |mensajes| == |old(mensajes)|
        invariant Ordenado(libres, (b: Bloque) => b.pos)
        invariant i == 0 ==> libres == old(libres)
        invariant cant == 2 && i == 1 ==> old(libres)[0].Fin() <= old(libres)[1].pos
        invariant cant == 2 && i == 1 ==> libres == [Crecida(old(libres)[0], old(libres)[1])]
        invariant i == 0 ==> mensajes == old(mensajes)
        invariant cant == 2 && i == 1 ==> mensajes == Acercados(old(mensajes), old(libres)[0], old(libres)[1])
      {
        if i + 1 >= |libres| {
          return true;
        }
        MoverYQuitar(i);
        i := i + 1;
      }
      return false;
    }

    /**
     The sweep that the comment in compactar asks for: mover_particion over the head pair of the
     sorted free list until one partition is left.
     */
    method PlegarParticionesLibres()
      requires Valid() && !cfg.buddy && libres != []
      modifies this, cache
      ensures Valid() && Guardados() == old(Guardados())
      ensures SinRestos({})
      ensures |libres| == 1 && libres[0].tam == SumaTam(old(libres))
      ensures forall f :: f in old(libres) ==> f.Fin() <= libres[0].Fin()
      ensures exists f :: f in old(libres) && f.Fin() == libres[0].Fin()
      ensures mensajes == Plegados(cfg, cache.Length, old(mensajes), |old(libres)|)
      ensures |mensajes| == |old(mensajes)|
    {
      hide Mosaico, SinVecinos, Acercados, Limpia, Crecida, Clasifica, Plegados;
      OrdenarParticionesLibresSegunInicio();
      ghost var ordenadas := libres;
      assert Usados(mensajes) + {} == Usados(mensajes);
      SumaYFin(old(libres), ordenadas, Usados(mensajes), cache.Length);
      while |libres| > 1
        invariant libres != []
        invariant Valid() && Guardados() == old(Guardados())
        invariant Ordenado(libres, (b: Bloque) => b.pos)
        invariant SumaTam(libres) == SumaTam(ordenadas)
        invariant libres[|libres| - 1].Fin() == ordenadas[|ordenadas| - 1].Fin()
        invariant Plegados(cfg, cache.Length, mensajes, |libres|)
               == Plegados(cfg, cache.Length, old(mensajes), |old(libres)|)
        decreases |libres|
      {
        ghost var antes := libres;
        PlegarLasPrimeras(cfg, cache.Length, libres, mensajes);
        MoverYQuitar(0);
        PlegarUna(antes);
      }
      UnaNoSePliega(cfg, cache.Length, mensajes);
      BlanquearUnica();
    }

    /** A compaction as written or, folding, the sweep: which of the two is up to the memory. */
    method CompactarSegun() returns (falla: bool)
      requires Valid() && !cfg.buddy
      modifies this, cache
      ensures Valid() && Guardados() == old(Guardados()) && |mensajes| == |old(mensajes)|
      ensures falla <==> !SePuedeCompactar(LaRegla(), old(mensajes))
      ensures falla ==> |old(libres)| != 1 && |old(libres)| != 2 && (pliega ==> old(libres) == [])
      ensures !falla ==> |libres| == 1 && old(libres) != [] && (pliega || |old(libres)| <= 2)
      ensures !falla ==> mensajes == Compactados(cfg, cache.Length, old(mensajes))
      ensures !falla && old(SinRestos({})) ==> SinRestos({})
    {
      hide Coherente, Limpia, Clasifica, Plegados;
      LibresSonTramos(cfg, cache.Length, libres, mensajes);
      if pliega {
        falla := libres == [];
        if !falla {
          PlegarParticionesLibres();
        }
      } else {
        var r := Compactar();
        falla := r.Falla?;
      }
    }

    method Memmove(destino: nat, origen: nat, largo: nat)
      requires destino <= origen && origen + largo <= cache.Length
      modifies cache
      ensures forall x :: 0 <= x < cache.Length && !(destino <= x < destino + largo) ==> cache[x] == old(cache[x])
      ensures forall x :: destino <= x < destino + largo ==> cache[x] == old(cache[x - destino + origen])
    {
      var copia := cache[origen..origen + largo];
      forall x | destino <= x < destino + largo {
        cache[x] := copia[x - destino];
      }
    }

    // ---- the allocation driver ----

    /** The eviction that algoritmo_reemplazo asks for; `cola` is the list it removed the head of. */
    method EliminarParticion() returns (ghost cola: seq<Mensaje>)
      requires Valid() && mensajes != []
      modifies this, cache
      ensures MismosElementos(cola, old(mensajes)) && cola != []
      ensures if cfg.fifo then cola == old(mensajes) else Ordenado(cola, (m: Mensaje) => m.timestamp)
      ensures Valid() && mensajes == cola[1..] && cola == Cola(LaRegla(), old(mensajes))
      ensures Guardados() == Imagen(cola, old(cache[..]))[1..]
      ensures old(SinRestos({})) ==> SinRestos({})
      ensures !cfg.buddy ==> |old(libres)| - 1 <= |libres| <= |old(libres)| + 1 && libres != []
    {
      if cfg.fifo {
        cola := mensajes;
        EliminarParticionFIFO();
      } else {
        cola := EliminarParticionLRU();
      }
      if old(SinRestos({})) {
        QuedaLimpia(cola, old(mensajes), old(cache[..]), cache[..]);
      }
    }

    /** The states from which the compactions of each frequency find one or two free partitions. */
    ghost predicate PocasLibres(cant: nat)
    {
      || (cfg.frecuencia == 1 && cant <= 1)
      || (cfg.frecuencia == 0 && 1 <= cant <= 2)
      || cfg.frecuencia == -1
    }

    /** States with so much fragmentation that the first compaction of a request finds three. */
    ghost predicate DemasiadasLibres(cant: nat, cantMensajes: nat, tam: nat)
    {
      !cfg.buddy && !pliega && cfg.frecuencia >= 2 && tam == cache.Length
      && cantMensajes > cfg.frecuencia && cant >= cfg.frecuencia + 3
    }

    /** What a search leaves: the partition it found, reserved, or a state without room. */
    ghost predicate TrasBuscar(ptr: Option<nat>, t: nat)
      reads this
    {
      && (ptr.None? ==> Valid() && !HayLugar(cfg, cache.Length, mensajes, t))
      && (ptr.Some? ==> ValidoCon({Bloque(ptr.value, t)}) && HayLugar(cfg, cache.Length, mensajes, t))
      && (ptr.Some? ==> EnSuLugar(LaRegla(), mensajes, Bloque(ptr.value, t)))
    }

    /** The partition found, if any: it is in use although no message lists it yet. */
    ghost function Reservada(ptr: Option<nat>, t: nat): set<Bloque>
    {
      if ptr.Some? then {Bloque(ptr.value, t)} else {}
    }

    lemma SinLugarParaTodo(ptr: Option<nat>, t: nat)
      requires TrasBuscar(ptr, t)
      ensures t == cache.Length && mensajes != [] ==> ptr.None?
    {
      if ptr.Some? && mensajes != [] {
        ConMensajesNoEntraTodo(cfg, cache.Length, libres, mensajes, {Bloque(ptr.value, t)});
      }
    }

    /** First part of a turn of busquedaParticionLibre: compact and search again when it is time to. */
    method CompactarSiToca(tam: nat, count: nat) returns (ptr: Option<nat>, count': nat, falla: bool)
      requires tam > 0 && TrasBuscar(None, Redondeo(cfg, tam))
      modifies this, cache
      ensures Guardados() == old(Guardados()) && |mensajes| == |old(mensajes)|
      ensures !falla && old(SinRestos({})) ==> SinRestos(Reservada(ptr, Redondeo(cfg, tam)))
      ensures falla <==> TocaAntes(cfg, count, |old(mensajes)|) && !SePuedeCompactar(LaRegla(), old(mensajes))
      ensures falla ==> |old(libres)| != 1 && |old(libres)| != 2 && (pliega ==> old(libres) == [])
      ensures falla ==> ptr.None? && count' == count
      ensures !falla ==> TrasBuscar(ptr, Redondeo(cfg, tam))
      ensures !TocaAntes(cfg, count, |old(mensajes)|) ==>
                count' == count && ptr.None? && libres == old(libres) && mensajes == old(mensajes)
      ensures TocaAntes(cfg, count, |old(mensajes)|) && !falla ==> count' == 1 && |libres| <= 1
      ensures TocaAntes(cfg, count, |old(mensajes)|) && !falla ==> old(libres) != [] && (pliega || |old(libres)| <= 2)
      ensures TocaAntes(cfg, count, |old(mensajes)|) && !falla && ptr.None? ==> |libres| == 1
      ensures TocaAntes(cfg, count, |old(mensajes)|) && !falla ==>
                mensajes == Compactados(cfg, cache.Length, old(mensajes))
    {
      hide Coherente, HayLugar, Limpia, EnSuLugar, Clasifica, SePuedeCompactar;
      ptr, count', falla := None, count, false;
      if cfg.frecuencia != -1 && count > cfg.frecuencia && !cfg.buddy {
        falla := CompactarSegun();
        if falla {
          return;
        }
        ptr := ObtenerPosicionLibre(tam);
        count' := 1;
      } else if cfg.frecuencia == -1 && |mensajes| == 0 && !cfg.buddy {
        falla := CompactarSegun();
        if falla {
          return;
        }
        ptr := ObtenerPosicionLibre(tam);
        count' := 1;
      }
    }

    /** Second part of a turn: evict, compact when as many evictions as the frequency are done, search. */
    method ReemplazarYBuscar(tam: nat, count: nat)
        returns (ptr: Option<nat>, falla: bool, ghost cola: seq<Mensaje>)
      requires tam > 0 && Valid() && mensajes != []
      modifies this, cache
      ensures MismosElementos(cola, old(mensajes)) && cola != [] && cola == Cola(LaRegla(), old(mensajes))
      ensures if cfg.fifo then cola == old(mensajes) else Ordenado(cola, (m: Mensaje) => m.timestamp)
      ensures Guardados() == Imagen(cola, old(cache[..]))[1..]
      ensures |mensajes| == |old(mensajes)| - 1
      ensures !falla && old(SinRestos({})) ==> SinRestos(Reservada(ptr, Redondeo(cfg, tam)))
      ensures falla <==> TocaDespues(cfg, count) && !SePuedeCompactar(LaRegla(), cola[1..])
      ensures falla ==> ptr.None? && |old(libres)| >= 2 && !pliega
      ensures !falla ==> TrasBuscar(ptr, Redondeo(cfg, tam))
      ensures !falla ==>
                mensajes == if TocaDespues(cfg, count) then Compactados(cfg, cache.Length, cola[1..]) else cola[1..]
      ensures TocaDespues(cfg, count) && |old(libres)| >= 4 && !pliega ==> falla
      ensures !falla && TocaDespues(cfg, count) ==> |libres| <= 1 && (ptr.None? ==> |libres| == 1)
      ensures !falla && !cfg.buddy && count != cfg.frecuencia ==>
                |libres| <= |old(libres)| + 1
                && (ptr.None? ==> libres != [] && |libres| >= |old(libres)| - 1)
    {
      hide Coherente, HayLugar, Limpia, EnSuLugar, Clasifica, SePuedeCompactar, Cola;
      falla := false;
      cola := EliminarParticion();
      ConjDePermutacion(cola, old(mensajes));
      if count == cfg.frecuencia && !cfg.buddy {
        falla := CompactarSegun();
        if falla {
          return None, true, cola;
        }
      }
      ptr := ObtenerPosicionLibre(tam);
    }

    /** How the search goes on from here, as far as where it ends. */
    ghost function Desde(ptr: Option<nat>, falla: bool, t: nat, count: nat): Option<seq<Mensaje>>
      requires Clasifica(clasificar)
      reads this`mensajes
    {
      if falla then None else if ptr.Some? then Some(mensajes) else Vuelta(LaRegla(), mensajes, t, count).quedan
    }

    /** The same, keeping the account of what the request has evicted. */
    method EvictarYBuscar(tam: nat, count: nat, ghost guardados0: seq<Guardado>, ghost mensajes0: seq<Mensaje>,
                          ghost orden: seq<Guardado>, ghost ordenMensajes: seq<Mensaje>, ghost k: nat)
        returns (ptr: Option<nat>, falla: bool, ghost orden': seq<Guardado>, ghost ordenMensajes': seq<Mensaje>)
      requires tam > 0 && TrasBuscar(None, Redondeo(cfg, tam)) && mensajes != []
      requires Historia(cfg, cache.Length, guardados0, mensajes0, Redondeo(cfg, tam), orden, ordenMensajes, k,
                        Guardados(), mensajes)
      modifies this, cache
      ensures Historia(cfg, cache.Length, guardados0, mensajes0, Redondeo(cfg, tam), orden', ordenMensajes', k + 1,
                       Guardados(), mensajes)
      ensures |mensajes| == |old(mensajes)| - 1
      ensures !falla && old(SinRestos({})) ==> SinRestos(Reservada(ptr, Redondeo(cfg, tam)))
      ensures falla ==> ptr.None? && !cfg.buddy && count == cfg.frecuencia && |old(libres)| >= 2 && !pliega
      ensures !falla ==> TrasBuscar(ptr, Redondeo(cfg, tam))
      ensures TocaDespues(cfg, count) && |old(libres)| >= 4 && !pliega ==> falla
      ensures !falla && TocaDespues(cfg, count) ==> |libres| <= 1 && (ptr.None? ==> |libres| == 1)
      ensures Desalojo(LaRegla(), old(mensajes), Redondeo(cfg, tam), count).quedan
           == Desde(ptr, falla, Redondeo(cfg, tam), count + 1)
      ensures !falla && !cfg.buddy && count != cfg.frecuencia ==>
                |libres| <= |old(libres)| + 1
                && (ptr.None? ==> libres != [] && |libres| >= |old(libres)| - 1)
    {
      hide Coherente, HayLugar, Limpia, EnSuLugar, Clasifica, SePuedeCompactar, Cola, Compactados, Vuelta, Imagen,
          Reemplazo, SinLugarAntes, Ordenado, MismosElementos;
      ghost var previos, antes := mensajes, cache[..];
      ghost var cola;
      ptr, falla, cola := ReemplazarYBuscar(tam, count);
      orden', ordenMensajes' := HistoriaAvanza(cfg, cache.Length, guardados0, mensajes0, Redondeo(cfg, tam), orden,
                                               ordenMensajes, k, previos, antes, cola, Guardados(), mensajes);
    }

    /** What each compaction frequency keeps true of the number of free partitions from turn to turn. */
    ghost predicate CuentaDeLibres(libres0: nat, mensajes0: nat, tam: nat, count: nat, hay: bool, cant: nat,
        cantMensajes: nat)
    {
      && (!cfg.buddy && cfg.frecuencia == 1 && libres0 <= 1 ==>
            cant <= 1 && count <= 2 && (!hay && count == 2 ==> cant == 1))
      && (!cfg.buddy && cfg.frecuencia == 0 && libres0 <= 2 ==> cant <= 2)
      && (!cfg.buddy && cfg.frecuencia == 0 && libres0 == 0 ==> !hay && cant == 0)
      && (!cfg.buddy && cfg.frecuencia == 0 && libres0 != 0 && !hay ==> cant != 0)
      && (DemasiadasLibres(libres0, mensajes0, tam) ==>
            !hay && count <= cfg.frecuencia && cant >= libres0 - (count - 1) && cantMensajes == mensajes0 - (count - 1))
      && (!cfg.buddy && cfg.frecuencia >= 1 && count >= 2 && !hay ==> cant != 0)
    }

    /** One turn of the loop of busquedaParticionLibre. */
    method Turno(tam: nat, count: nat, ghost libres0: nat, ghost cantMensajes0: nat,
                 ghost guardados0: seq<Guardado>, ghost mensajes0: seq<Mensaje>,
                 ghost orden: seq<Guardado>, ghost ordenMensajes: seq<Mensaje>, ghost k: nat)
        returns (ptr: Option<nat>, count': nat, falla: bool,
                 ghost orden': seq<Guardado>, ghost ordenMensajes': seq<Mensaje>, ghost k': nat)
      requires tam > 0 && count >= 1 && TrasBuscar(None, Redondeo(cfg, tam))
      requires CuentaDeLibres(libres0, cantMensajes0, tam, count, false, |libres|, |mensajes|)
      requires Historia(cfg, cache.Length, guardados0, mensajes0, Redondeo(cfg, tam), orden, ordenMensajes, k,
                        Guardados(), mensajes)
      modifies this, cache
      ensures Historia(cfg, cache.Length, guardados0, mensajes0, Redondeo(cfg, tam), orden', ordenMensajes', k',
                       Guardados(), mensajes)
      ensures count' >= 1 && (!falla ==> TrasBuscar(ptr, Redondeo(cfg, tam)))
      ensures Vuelta(LaRegla(), old(mensajes), Redondeo(cfg, tam), count).quedan
           == Desde(ptr, falla, Redondeo(cfg, tam), count')
      ensures !falla && old(SinRestos({})) ==> SinRestos(Reservada(ptr, Redondeo(cfg, tam)))
      ensures falla ==> ptr.None? && PuedeFallar(libres0, Redondeo(cfg, tam))
      ensures !falla ==> CuentaDeLibres(libres0, cantMensajes0, tam, count', ptr.Some?, |libres|, |mensajes|)
      ensures |mensajes| < |old(mensajes)| || (|mensajes| == |old(mensajes)| && (ptr.Some? || falla))
    {
      hide Limpia, Reemplazo, SinLugarAntes, Imagen, Coherente, HayLugar, EnSuLugar, Clasifica, SePuedeCompactar,
          Cola, Compactados;
      ghost var n := cache.Length;
      ghost var t := Redondeo(cfg, tam);
      orden', ordenMensajes', k' := orden, ordenMensajes, k;
      if |mensajes| == 0 {
        assert mensajes == [];
        SinMensajesHayLugar(cfg, n, libres, t);
        SinMensajesUnaLibre(cfg, n, libres);
      }
      ptr, count', falla := CompactarSiToca(tam, count);
      if ptr.None? && !falla {
        if |mensajes| == 0 {
          falla := true;
        } else {
          ptr, falla, orden', ordenMensajes' :=
            EvictarYBuscar(tam, count', guardados0, mensajes0, orden, ordenMensajes, k);
          k' := k + 1;
          if !falla {
            SinLugarParaTodo(ptr, t);
          }
          count' := count' + 1;
        }
      }
    }

    /**
     busquedaParticionLibre. None stands for the crash: a NULL message or free partition used as
     if it were there. `orden` and `k` say what was evicted: the first k of the list, in the order
     of the replacement algorithm.
     */
    method BusquedaParticionLibre(tam: nat) returns (ptr: Option<nat>, ghost orden: seq<Guardado>, ghost k: nat,
                                                     ghost ordenMensajes: seq<Mensaje>)
      requires Valid() && tam > 0
      modifies this, cache
      ensures ptr.Some? ==> Redondeo(cfg, tam) <= cache.Length
      ensures ptr.Some? ==> ValidoCon({Bloque(ptr.value, Redondeo(cfg, tam))})
      ensures ptr.Some? && old(SinRestos({})) ==> SinRestos({Bloque(ptr.value, Redondeo(cfg, tam))})
      ensures Historia(cfg, cache.Length, old(Guardados()), old(mensajes), Redondeo(cfg, tam),
                       orden, ordenMensajes, k, Guardados(), mensajes)
      ensures cfg.buddy ==> (ptr.Some? <==> Redondeo(cfg, tam) <= cache.Length)
      ensures cfg.buddy && ptr.Some? ==> HayLugar(cfg, cache.Length, mensajes, Redondeo(cfg, tam))
      ensures !cfg.buddy && PocasLibres(|old(libres)|) ==> (ptr.Some? <==> tam <= cache.Length)
      ensures !cfg.buddy && ptr.Some? && cfg.frecuencia == 1 && |old(libres)| <= 1 ==> |libres| <= 1
      ensures !cfg.buddy && ptr.Some? && cfg.frecuencia == 0 && |old(libres)| <= 2 ==> |libres| <= 2
      ensures !cfg.buddy && cfg.frecuencia == 0 && old(libres) == [] ==> ptr.None?
      ensures DemasiadasLibres(|old(libres)|, |old(mensajes)|, tam) ==> ptr.None?
      ensures ptr.Some? <==> Redondeo(cfg, tam) <= cache.Length && TodasSePueden(LaRegla(),
                Busqueda(LaRegla(), old(mensajes), Redondeo(cfg, tam)).compactadas)
      ensures ptr.Some? ==> Busqueda(LaRegla(), old(mensajes), Redondeo(cfg, tam)).quedan == Some(mensajes)
      ensures ptr.Some? ==> EnSuLugar(LaRegla(), mensajes, Bloque(ptr.value, Redondeo(cfg, tam)))
      ensures pliega && cfg.frecuencia != 0 ==> (ptr.Some? <==> Redondeo(cfg, tam) <= cache.Length)
    {
      hide Limpia, Coherente, HayLugar, EnSuLugar, Clasifica, SePuedeCompactar, Vuelta, TodasSePueden;
      ghost var n := cache.Length;
      ghost var t := Redondeo(cfg, tam);
      ghost var libres0, mensajes0 := |libres|, |mensajes|;
      LaConfigVale();
      orden, k, ordenMensajes := Guardados(), 0, mensajes;
      var count, falla := 1, false;
      ptr := ObtenerPosicionLibre(tam);
      SinLugarParaTodo(ptr, t);
      SeEncuentraSii(LaRegla(), mensajes, t);
      while ptr.None? && !falla
        invariant count >= 1 && (!falla ==> TrasBuscar(ptr, t))
        invariant !falla && old(SinRestos({})) ==> SinRestos(Reservada(ptr, t))
        invariant falla ==> ptr.None? && PuedeFallar(libres0, t)
        invariant Busqueda(LaRegla(), old(mensajes), t).quedan == Desde(ptr, falla, t, count)
        invariant Historia(cfg, n, old(Guardados()), old(mensajes), t, orden, ordenMensajes, k, Guardados(), mensajes)
        invariant !falla ==> CuentaDeLibres(libres0, mensajes0, tam, count, ptr.Some?, |libres|, |mensajes|)
        decreases |mensajes|, ptr.None? && !falla
      {
        ptr, count, falla, orden, ordenMensajes, k :=
          Turno(tam, count, libres0, mensajes0, old(Guardados()), old(mensajes), orden, ordenMensajes, k);
      }
      if ptr.Some? {
        EntraEnLaMemoria(ptr.value, t);
      }
    }

    lemma LaConfigVale()
      requires Valid()
      ensures cfg.frecuencia >= -1
    {
    }

    lemma EntraEnLaMemoria(p: nat, t: nat)
      requires ValidoCon({Bloque(p, t)})
      ensures t <= cache.Length
    {
      assert Bloque(p, t) in Usados(mensajes) + {Bloque(p, t)};
    }

    /** The requests that may crash, going by the free partitions found at the start. */
    ghost predicate PuedeFallar(libres0: nat, t: nat)
    {
      t > cache.Length || (!cfg.buddy && !PocasLibres(libres0) && !(pliega && cfg.frecuencia >= 1))
    }

    // ---- storing a message ----

    /** memcpy into a reserved partition. */
    method Copiar(b: Bloque, datos: seq<byte>)
      requires ValidoCon({b}) && |datos| <= b.tam
      modifies cache
      ensures b.Fin() <= cache.Length
      ensures Guardados() == old(Guardados())
      ensures cache[b.pos..b.pos + |datos|] == datos
      ensures old(SinRestos({b})) ==> SinRestos({b})
    {
      assert b in Usados(mensajes) + {b};
      forall x | 0 <= x < |datos| {
        cache[b.pos + x] := datos[x];
      }
      forall k, x | 0 <= k < |mensajes| && 0 <= x < cache.Length && mensajes[k].particion.Tiene(x)
        ensures cache[..][x] == old(cache[..])[x]
      {
        var u := Bloques(mensajes)[k];
        assert u in Usados(mensajes);
        assert Disjuntos(u, b);
      }
      ImagenIgual(mensajes, cache[..], old(cache[..]));
    }

    /**
     What each case of process_request does with a message of `tamMsg` bytes: reserve, write,
     list. The driver's account of the evictions is passed on.
     */
    method Almacenar(id: nat, timestamp: nat, codOp: nat, tamMsg: nat, datos: seq<byte>)
        returns (ok: bool, ghost orden: seq<Guardado>, ghost ordenMensajes: seq<Mensaje>, ghost k: nat)
      requires Valid() && tamMsg > 0 && |datos| <= tamMsg
      modifies this, cache
      ensures k <= |orden| && Reemplazo(cfg.fifo, old(Guardados()), orden, k, (g: Guardado) => g.timestamp)
      ensures ok ==> Valid() && mensajes != []
      ensures ok && old(SinRestos({})) ==> SinRestos({})
      ensures ok ==> |Guardados()| == |orden| - k + 1 && Guardados()[..|orden| - k] == orden[k..]
      ensures ok ==> var g := Guardados()[|orden| - k];
                     && g.id == id && g.timestamp == timestamp && g.codOp == codOp && g.largo == tamMsg
                     && g.tam == |g.bytes| == Redondeo(cfg, tamMsg) && g.bytes[..|datos|] == datos
      ensures ok && cfg.buddy ==>
                && Historia(cfg, cache.Length, old(Guardados()), old(mensajes), Redondeo(cfg, tamMsg),
                            orden, ordenMensajes, k, orden[k..], mensajes[..|mensajes| - 1])
                && HayLugar(cfg, cache.Length, mensajes[..|mensajes| - 1], Redondeo(cfg, tamMsg))
      ensures cfg.buddy ==> (ok <==> HayPotencia(tamMsg, cache.Length))
      ensures ok ==> var t := mensajes[|mensajes| - 1].particion.tam;
                     if cfg.buddy then EsLaMenorPotencia(t, tamMsg) else t == tamMsg
      ensures cfg.buddy ==> (ok <==> Redondeo(cfg, tamMsg) <= cache.Length)
      ensures ok ==> Redondeo(cfg, tamMsg) <= cache.Length
      ensures !cfg.buddy && PocasLibres(|old(libres)|) ==> (ok <==> tamMsg <= cache.Length)
      ensures !cfg.buddy && ok && cfg.frecuencia == 1 && |old(libres)| <= 1 ==> |libres| <= 1
      ensures !cfg.buddy && ok && cfg.frecuencia == 0 && |old(libres)| <= 2 ==> |libres| <= 2
      ensures DemasiadasLibres(|old(libres)|, |old(mensajes)|, tamMsg) ==> !ok
      ensures ok <==> Redondeo(cfg, tamMsg) <= cache.Length
                      && TodasSePueden(LaRegla(), Busqueda(LaRegla(), old(mensajes), Redondeo(cfg, tamMsg)).compactadas)
      ensures ok ==> var m := mensajes[|mensajes| - 1];
                     && m == Mensaje(id, timestamp, codOp, tamMsg, m.particion)
                     && TrasGuardar(LaRegla(), old(mensajes), Redondeo(cfg, tamMsg), m, mensajes)
      ensures pliega && cfg.frecuencia != 0 ==> (ok <==> Redondeo(cfg, tamMsg) <= cache.Length)
    {
      hide Limpia, Coherente, HayLugar, EnSuLugar, Clasifica, SePuedeCompactar, Busqueda, TodasSePueden,
          SinLugarAntes, Imagen, EsLaMenorPotencia, HayPotencia;
      var tamParticion := Redondeo(cfg, tamMsg);
      RedondeoIdempotente(cfg, tamMsg);
      RedondeoEsElMenor(cfg, tamMsg, cache.Length);
      var ptr;
      ptr, orden, k, ordenMensajes := BusquedaParticionLibre(tamParticion);
      ok := ptr.Some?;
      if ok {
        var b := Bloque(ptr.value, tamParticion);
        Copiar(b, datos);
        var nodo := Mensaje(id, timestamp, codOp, tamMsg, b);
        PonerUltimo(cfg, cache.Length, libres, mensajes, nodo);
        FotoDeLoEscrito(nodo, cache[..], datos);
        ImagenAgregada(mensajes, nodo, cache[..]);
        mensajes := mensajes + [nodo];
        assert mensajes[..|mensajes| - 1] + [nodo] == mensajes;
      }
    }

    /** A message sent again to somebody is, for the LRU, one just used. */
    method ActualizarTimestamp(i: nat, timestamp: nat)
      requires Valid() && i < |mensajes|
      modifies this`mensajes
      ensures Valid() && (old(SinRestos({})) ==> SinRestos({}))
      ensures Guardados() == old(Guardados())[i := old(Guardados())[i].(timestamp := timestamp)]
      ensures mensajes == old(mensajes)[i := old(mensajes)[i].(timestamp := timestamp)]
    {
      ghost var antes := mensajes;
      mensajes := mensajes[i := mensajes[i].(timestamp := timestamp)];
      assert Bloques(mensajes) == Bloques(antes);
      assert antes[i] in antes;
    }

    /**
     A partition that is reserved and given back leaves the free partitions as they were: the buddies
     that were split meet again, and the stretch that was cut joins what it was cut from.
     */
    method ReservarYDevolver(tam: nat) returns (ptr: Option<nat>)
      requires Valid() && tam > 0
      modifies this`libres, cache
      ensures Valid() && Conj(libres) == old(Conj(libres)) && Guardados() == old(Guardados())
      ensures ptr.Some? <==> HayLugar(cfg, cache.Length, mensajes, Redondeo(cfg, tam))
    {
      hide Coherente, Limpia, HayLugar;
      ptr := ObtenerPosicionLibre(tam);
      if ptr.Some? {
        var t := Redondeo(cfg, tam);
        var msg := Mensaje(0, 0, 0, t, Bloque(ptr.value, t));
        if cfg.buddy {
          ConsolidarBuddySystem(msg);
        } else {
          ConsolidarParticionesDinamicas(msg);
        }
        LibresSegunUsados(cfg, cache.Length, libres, mensajes, old(libres), mensajes);
      }
    }
  }

  /** A part of a free block touches no used block. */
  lemma EnLibresNoToca(libres: set<Bloque>, usados: set<Bloque>, n: nat, f: Bloque, b: Bloque)
    requires Mosaico(libres, usados, n) && f in libres && b.Dentro(f)
    ensures Libre(b, usados)
  {
  }

  lemma CoherenteCorrida(cfg: Config, n: nat, ls: seq<Bloque>, ms: seq<Mensaje>, i: nat)
    requires Coherente(cfg, n, ls, ms, {}) && !cfg.buddy && i + 1 < |ls|
    requires Consecutivas(Conj(ls), ls[i], ls[i + 1])
    ensures Coherente(cfg, n, Quitar(ls[i + 1 := Crecida(ls[i], ls[i + 1])], i),
                      CorreMensajes(ms, ls[i].Fin(), ls[i + 1].pos, ls[i].tam), {})
  {
    var a, b := ls[i], ls[i + 1];
    var c := Crecida(a, b);
    var ms' := CorreMensajes(ms, a.Fin(), b.pos, a.tam);
    assert Usados(ms) + {} == Usados(ms) && Usados(ms') + {} == Usados(ms');
    CorrerConserva(Conj(ls), Bloques(ms), n, a, b);
    BloquesCorridos(ms, a.Fin(), b.pos, a.tam);
    LibresSeparadas(Conj(ls), Usados(ms), n, a, b);
    ConjQuitar(ls, i);
    ConjQuitar(Quitar(ls, i), i);
    assert Quitar(ls[i + 1 := c], i) == Quitar(ls, i)[i := c];
    assert c !in Quitar(Quitar(ls, i), i) by {
      assert c !in Conj(Quitar(Quitar(ls, i), i));
    }
    ConjCambiar(Quitar(ls, i), i, c);
    assert Conj(ls) - {a} - {b} + {c} == Conj(ls) - {a, b} + {c};
    forall m | m in ms'
      ensures m.largo == m.particion.tam
    {
      var k :| 0 <= k < |ms'| && ms'[k] == m;
      assert ms[k] in ms;
    }
  }

  /** The sorted list has the same sum, and its last partition ends last. */
  lemma SumaYFin(antes: seq<Bloque>, ls: seq<Bloque>, usados: set<Bloque>, n: nat)
    requires MismosElementos(ls, antes) && Ordenado(ls, (b: Bloque) => b.pos) && ls != []
    requires CanonicoDinamico(Conj(ls), usados, n)
    ensures SumaTam(ls) == SumaTam(antes)
    ensures ls[|ls| - 1] in antes
    ensures forall f :: f in antes ==> f.Fin() <= ls[|ls| - 1].Fin()
  {
    SumaTamPermutada(ls, antes);
    var clave := (b: Bloque) => b.pos;
    var u := ls[|ls| - 1];
    assert u in Conj(ls) && u in multiset(ls);
    forall f | f in antes
      ensures f.Fin() <= u.Fin()
    {
      assert f in multiset(antes);
      var k :| 0 <= k < |ls| && ls[k] == f;
      assert f in Conj(ls);
      assert k < |ls| - 1 ==> clave(ls[k]) <= clave(u);
      assert f == u || Disjuntos(f, u);
    }
  }

  lemma SumaYFinDeDos(antes: seq<Bloque>, ls: seq<Bloque>, usados: set<Bloque>, n: nat)
    requires MismosElementos(ls, antes) && Ordenado(ls, (b: Bloque) => b.pos)
    requires CanonicoDinamico(Conj(ls), usados, n)
    ensures |ls| == |antes|
    ensures |ls| == 1 ==> ls == antes && SumaTam(antes) == ls[0].tam
    ensures |ls| == 2 ==> SumaTam(antes) == ls[0].tam + ls[1].tam
    ensures |ls| == 2 ==> forall f :: f in antes ==> f.Fin() <= ls[1].Fin()
  {
    assert |multiset(ls)| == |multiset(antes)|;
    if |ls| == 1 {
      assert antes[0] in multiset(ls);
      assert SumaTam(antes[1..]) == 0;
    }
    if |ls| == 2 {
      SumaYFin(antes, ls, usados, n);
      assert ls[1..] == [ls[1]];
      assert SumaTam(ls[1..]) == ls[1].tam + SumaTam([]);
    }
  }
}
