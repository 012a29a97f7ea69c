/** receiptMessage: the reader whose state survives from one recv to the next. */
module ReceptorDeTramas {
  import opened Secuencias
  import opened Numeros
  import opened Tramas

  class Receptor {
    var n: Option<nat>              // None is -1: no frame begun
    var seps: nat
    var packetHead: string
    var packetBody: string
    var fullHead: bool
    var bytesBody: nat
    var head: Option<seq<string>>   // None is NULL: the head not split yet
    var llamadas: seq<Llamada>      // the calls dispatched, in order

    ghost predicate Inicial()
      reads this
    {
      n.None? && seps == 0 && packetHead == "" && packetBody == "" && !fullHead && bytesBody == 0 && head.None?
    }

    /** The head is still missing commas. */
    ghost predicate EnCabecera()
      reads this
    {
      && n.Some? && packetHead != "" && n.value == CantidadArgs(packetHead[0])
      && packetBody == "" && !fullHead && bytesBody == 0 && head.None?
      && Cabecera(packetHead).None? && SieteBits(packetHead)
      && seps == Comas(packetHead[1..])
    }

    /** The head is complete, packetHead being all of it. */
    ghost predicate CabeceraCompleta()
      reads this
    {
      && n.Some? && packetHead != "" && n.value == CantidadArgs(packetHead[0]) && fullHead
      && Cabecera(packetHead) == Some(|packetHead|) && SieteBits(packetHead)
    }

    ghost predicate EnCuerpo()
      reads this
    {
      && CabeceraCompleta()
      && head == Some(NSplit(packetHead, n.value + 2))
      && |head.value| == n.value + 2
      && bytesBody == SumaTamanios(head.value[2..])
      && |packetBody| < bytesBody
    }

    ghost predicate Valid()
      reads this
    {
      Inicial() || EnCabecera() || EnCuerpo()
    }

    /** The bytes of the frame in course. */
    ghost function Pendiente(): string
      reads this
    {
      packetHead + packetBody
    }

    constructor ()
      ensures Valid() && Inicial() && llamadas == []
    {
      n := None;
      seps := 0;
      packetHead, packetBody := "", "";
      fullHead := false;
      bytesBody := 0;
      head := None;
      llamadas := [];
    }

    /** One character of the head; fullHead when it is the comma that completes it. */
    method AgregarACabecera(b: char)
      requires (Inicial() || EnCabecera()) && b as int < 128
      modifies `n, `seps, `packetHead, `fullHead
      ensures packetHead == old(packetHead) + [b]
      ensures if fullHead then CabeceraCompleta() else EnCabecera()
    {
      hide HastaComa, CantidadArgs;
      if n.None? {
        n := Some(CantidadArgs(b));
        assert [b][1..] == "";
      } else {
        HastaComaSii(packetHead[1..], n.value + 2);
        assert (packetHead + [b])[1..] == packetHead[1..] + [b];
        ComasAgregar(packetHead[1..], b);
        if b == ',' {
          if seps + 1 == n.value + 2 {
            HastaComaJusto(packetHead[1..], n.value + 2);
          }
          seps := seps + 1;
        }
      }
      packetHead := packetHead + [b];
      if n.value + 2 == seps {
        fullHead := true;
      }
      HastaComaSii(packetHead[1..], n.value + 2);
    }

    /**
     The scan of the buffer for the head; `i` is left on the first byte of the body.  It fails on the first
     byte of the head that is not of seven bits.
     */
    method ArmarCabecera(buffer: string) returns (i: nat, ok: bool)
      requires (Inicial() || EnCabecera()) && buffer != ""
      modifies `n, `seps, `packetHead, `fullHead
      ensures ok <==> CabeceraSana(old(packetHead) + buffer)
      ensures ok ==> 0 < i <= |buffer| && packetHead == old(packetHead) + buffer[..i]
      ensures ok ==> if fullHead then CabeceraCompleta() else EnCabecera() && i == |buffer|
    {
      i, ok := 0, true;
      ghost var todo := packetHead + buffer;
      while i < |buffer|
        invariant i <= |buffer| && packetHead == old(packetHead) + buffer[..i]
        invariant if i == 0 then Inicial() || EnCabecera() else EnCabecera()
      {
        assert todo == packetHead + buffer[i..];
        if buffer[i] as int >= 128 {
          UnByteQueNo(packetHead, buffer[i..]);
          return i, false;
        }
        AgregarACabecera(buffer[i]);
        assert buffer[..i + 1] == buffer[..i] + [buffer[i]];
        i := i + 1;
        if fullHead {
          assert todo == packetHead + buffer[i..];
          CabeceraYaSana(buffer[i..]);
          return;
        }
      }
      assert buffer[..i] == buffer;
    }

    /** The dispatch of a complete frame. */
    method Despachar()
      requires CabeceraCompleta() && head == Some(NSplit(packetHead, n.value + 2))
      requires |head.value| == n.value + 2
      requires |packetBody| == SumaTamanios(head.value[2..])
      modifies this
      ensures Inicial()
      ensures llamadas == old(llamadas)
                + [Llamada(NombreDe(old(head.value), old(n.value)), Cortar(old(packetBody), old(head.value)[2..]))]
    {
      var packetArgs := CortarArgumentos(packetBody, head.value, n.value);
      llamadas := llamadas + [Llamada(NombreDe(head.value, n.value), packetArgs)];
      n, seps, fullHead, bytesBody, head := None, 0, false, 0, None;
      packetHead, packetBody := "", "";
    }

    /** explode of the head, and the sum of its sizes. */
    method PartirCabecera()
      requires CabeceraCompleta() && bytesBody == 0
      modifies `head, `bytesBody
      ensures CabeceraCompleta()
      ensures head == Some(NSplit(packetHead, n.value + 2)) && |head.value| == n.value + 2
      ensures bytesBody == SumaTamanios(head.value[2..])
    {
      CabeceraSePuedePartir(packetHead);
      assert packetHead[..|packetHead|] == packetHead;
      var hd := NSplit(packetHead, n.value + 2);
      head := Some(hd);
      var j := 2;
      while j < n.value + 2
        invariant 2 <= j <= n.value + 2 == |hd| && head == Some(hd)
        invariant bytesBody + SumaTamanios(hd[j..]) == SumaTamanios(hd[2..])
      {
        assert hd[j..][1..] == hd[j + 1..];
        bytesBody := bytesBody + Atoi(hd[j]);
        j := j + 1;
      }
      assert hd[j..] == [];
    }

    /** With the head complete: takes in the buffer from i on, and dispatches if the body is whole. */
    method CompletarCuerpo(buffer: string, i: nat) returns (excedido: Option<string>)
      requires i <= |buffer| && CabeceraCompleta() && (head.None? ==> bytesBody == 0 && packetBody == "" && i > 0)
      requires head.Some? ==> EnCuerpo()
      modifies this
      ensures Valid()
      ensures var todo := old(Pendiente()) + buffer[i..];
              var p := PrimerPaquete(todo);
              if p.None? then excedido.None? && llamadas == old(llamadas) && Pendiente() == todo
              else
                && llamadas == old(llamadas) + [p.value.0] && Inicial()
                && excedido == if p.value.1 < |todo| then Some(todo[p.value.1..]) else None
      ensures excedido.Some? ==> 0 < |excedido.value| && (|excedido.value| < |buffer|)
    {
      if head.None? {
        PartirCabecera();
      }
      assert Pendiente() + buffer[i..] == packetHead + (packetBody + buffer[i..]);
      packetBody := packetBody + buffer[i..];
      excedido := DespacharSiCompleto();
    }

    /** The end of a turn: the whole body dispatched, what exceeds it returned. */
    method DespacharSiCompleto() returns (excedido: Option<string>)
      requires CabeceraCompleta() && head == Some(NSplit(packetHead, n.value + 2))
      requires |head.value| == n.value + 2 && bytesBody == SumaTamanios(head.value[2..])
      modifies this
      ensures Valid()
      ensures var p := PrimerPaquete(old(Pendiente()));
              if p.None? then excedido.None? && llamadas == old(llamadas) && Pendiente() == old(Pendiente())
              else
                && llamadas == old(llamadas) + [p.value.0] && Inicial()
                && excedido == if p.value.1 < |old(Pendiente())| then Some(old(Pendiente())[p.value.1..]) else None
      ensures excedido.Some? ==> |excedido.value| == |old(packetBody)| - old(bytesBody) > 0
    {
      excedido := None;
      PaqueteConCabecera(packetHead, packetBody);
      if bytesBody <= |packetBody| {
        assert (packetHead + packetBody)[|packetHead| + bytesBody..] == packetBody[bytesBody..];
        if bytesBody < |packetBody| {
          excedido := Some(packetBody[bytesBody..]);
        } else {
          assert packetBody[..bytesBody] == packetBody;
        }
        packetBody := packetBody[..bytesBody];
        Despachar();
      }
    }

    /**
     One turn over the buffer: what is in it continues the frame in course. When a frame is
     completed it is dispatched, and the bytes past its end, if any, are what to analyse next.
     They are always fewer than the buffer held.
     */
    method Analizar(buffer: string) returns (excedido: Option<string>, ok: bool)
      requires Valid() && buffer != ""
      modifies this
      ensures ok <==> CabeceraSana(old(Pendiente()) + buffer)
      ensures ok ==> Valid()
      ensures ok ==>
                var todo := old(Pendiente()) + buffer;
                var p := PrimerPaquete(todo);
                if p.None? then excedido.None? && llamadas == old(llamadas) && Pendiente() == todo
                else
                  && llamadas == old(llamadas) + [p.value.0] && Inicial()
                  && excedido == if p.value.1 < |todo| then Some(todo[p.value.1..]) else None
      ensures excedido.Some? ==> 0 < |excedido.value| < |buffer|
    {
      hide Cabecera, CabeceraSana, SumaTamanios, NSplit, SieteBits, Comas;
      ghost var todo := Pendiente() + buffer;
      excedido, ok := None, true;
      var i := 0;
      if !fullHead {
        assert todo == packetHead + buffer;
        i, ok := ArmarCabecera(buffer);
        if !ok {
          return;
        }
        assert i == |buffer| ==> buffer[..i] == buffer;
      } else {
        assert todo == packetHead + (packetBody + buffer);
        CabeceraYaSana(packetBody + buffer);
      }
      if fullHead {
        assert Pendiente() + buffer[i..] == todo;
        excedido := CompletarCuerpo(buffer, i);
      }
    }

    /** What one recv brings: whole frames are dispatched, the rest waits for the next, unless a head fails. */
    method Recibir(trozo: string) returns (ok: bool)
      requires Valid() && trozo != ""
      modifies this
      ensures ok <==> Sano(old(Pendiente()) + trozo)
      ensures ok ==> Valid()
      ensures ok ==> llamadas == old(llamadas) + Consumir(old(Pendiente()) + trozo).0
      ensures ok ==> Pendiente() == Consumir(old(Pendiente()) + trozo).1
    {
      hide CabeceraSana, Cabecera, PrimerPaquete;
      var buffer := trozo;
      var bufferUsed, isExceeded := false, false;
      ghost var todo := Pendiente() + trozo;
      ghost var despachadas: seq<Llamada> := [];
      RestaTodo(todo);
      while !bufferUsed || isExceeded
        invariant Valid() && llamadas == old(llamadas) + despachadas
        invariant isExceeded ==> bufferUsed && Inicial()
        invariant !bufferUsed || isExceeded ==> buffer != "" && Resta(todo, despachadas, Pendiente() + buffer)
        invariant !bufferUsed || isExceeded ==> (Sano(todo) <==> Sano(Pendiente() + buffer))
        invariant bufferUsed && !isExceeded ==> Sano(todo) && Consumir(todo) == (despachadas, Pendiente())
        decreases if !bufferUsed || isExceeded then |buffer| + 1 else 0
      {
        ghost var ahora := Pendiente() + buffer;
        ghost var p := PrimerPaquete(ahora);
        bufferUsed, isExceeded := true, false;
        var excedido;
        excedido, ok := Analizar(buffer);
        if !ok {
          return;
        }
        if p.Some? {
          RestaUnPaqueteMenos(todo, despachadas, ahora);
          despachadas := despachadas + [p.value.0];
        } else {
          RestaNada(todo, despachadas, ahora);
        }
        if excedido.Some? {
          isExceeded := true;
          buffer := excedido.value;
          assert Pendiente() + buffer == buffer;
        } else if p.Some? {
          assert ahora[p.value.1..] == "" == Pendiente();
          NadaEsSano();
          RestaNada(todo, despachadas, "");
        }
      }
      ok := true;
    }

    /** Any sequence of recv: the same calls as the whole stream at once, wherever it was cut. */
    method RecibirTodo(trozos: seq<string>) returns (ok: bool)
      requires Valid() && forall i :: 0 <= i < |trozos| ==> trozos[i] != ""
      modifies this
      ensures ok <==> Sano(old(Pendiente()) + Juntar(trozos))
      ensures ok ==> Valid()
      ensures ok ==> llamadas == old(llamadas) + Consumir(old(Pendiente()) + Juntar(trozos)).0
      ensures ok ==> Pendiente() == Consumir(old(Pendiente()) + Juntar(trozos)).1
    {
      hide Consumir, Sano;
      ghost var ls: seq<Llamada> := [];
      ghost var todo := Pendiente() + Juntar(trozos);
      RestaTodo(todo);
      assert trozos[0..] == trozos;
      for i := 0 to |trozos|
        invariant Valid() && llamadas == old(llamadas) + ls
        invariant Resta(todo, ls, Pendiente() + Juntar(trozos[i..]))
        invariant Sano(todo) <==> Sano(Pendiente() + Juntar(trozos[i..]))
      {
        ok, ls := RecibirUno(todo, old(llamadas), ls, trozos, i);
        if !ok {
          return;
        }
      }
      assert trozos[|trozos|..] == [];
      NadaMas(todo, ls);
      ok := true;
    }

    /** One recv of many: `ls` is what the earlier ones dispatched, after `antes`. */
    method RecibirUno(ghost todo: string, ghost antes: seq<Llamada>, ghost ls: seq<Llamada>, trozos: seq<string>,
        i: nat)
        returns (ok: bool, ghost ls': seq<Llamada>)
      requires Valid() && llamadas == antes + ls && i < |trozos| && trozos[i] != ""
      requires Resta(todo, ls, Pendiente() + Juntar(trozos[i..]))
      modifies this
      ensures ok ==> Valid() && Resta(todo, ls', Pendiente() + Juntar(trozos[i + 1..]))
      ensures ok ==> llamadas == antes + ls'
      ensures Sano(old(Pendiente()) + Juntar(trozos[i..])) <==> ok && Sano(Pendiente() + Juntar(trozos[i + 1..]))
    {
      hide Consumir, Sano;
      RestaUnTrozoMenos(todo, ls, Pendiente(), trozos, i);
      ls' := ls + Consumir(Pendiente() + trozos[i]).0;
      SanoTrasUnTrozo(Pendiente(), trozos, i);
      ok := Recibir(trozos[i]);
    }

    lemma NadaMas(todo: string, ls: seq<Llamada>)
      requires Valid() && Resta(todo, ls, Pendiente() + Juntar([]))
      ensures Consumir(todo) == (ls, Pendiente()) && Sano(Pendiente() + Juntar([]))
    {
      assert Pendiente() + "" == Pendiente();
      NadaQueConsumir();
      RestaNada(todo, ls, Pendiente());
    }

    lemma SinPendientes()
      requires Valid() && Pendiente() == ""
      ensures Inicial()
    {
      assert |packetHead + packetBody| == |packetHead| + |packetBody|;
    }

    lemma CabeceraYaSana(t: string)
      requires CabeceraCompleta()
      ensures CabeceraSana(packetHead + t)
    {
      CabeceraSanaConMas(packetHead, t);
      assert packetHead[..|packetHead|] == packetHead;
    }

    /** The frame in course is never a whole one, and its head has been taken in. */
    lemma NadaQueConsumir()
      requires Valid()
      ensures PrimerPaquete(Pendiente()).None? && CabeceraSana(Pendiente())
    {
      if EnCabecera() {
        assert Pendiente() == packetHead;
      } else if EnCuerpo() {
        PaqueteConCabecera(packetHead, packetBody);
        CabeceraYaSana(packetBody);
      } else {
        assert Pendiente() == "";
      }
    }
  }

  /** The arguments, one a turn, by the sizes from the third piece of the head on. */
  method CortarArgumentos(body: string, head: seq<string>, n: nat) returns (packetArgs: seq<string>)
    requires |head| == n + 2 && |body| == SumaTamanios(head[2..])
    ensures packetArgs == Cortar(body, head[2..])
  {
    var i := 0;
    packetArgs := [];
    var j := 2;
    assert body[0..] == body;
    while j < n + 2
      invariant 2 <= j <= n + 2
      invariant 0 <= i <= |body| && SumaTamanios(head[j..]) == |body| - i
      invariant packetArgs + Cortar(body[i..], head[j..]) == Cortar(body, head[2..])
    {
      var largo := Atoi(head[j]);
      var part := body[i..i + largo];
      assert head[j..][1..] == head[j + 1..];
      assert body[i..][..largo] == part && body[i..][largo..] == body[i + largo..];
      packetArgs := packetArgs + [part];
      i := i + largo;
      j := j + 1;
    }
  }

  lemma NadaEsSano()
    ensures Sano("") && PrimerPaquete("").None?
  {
  }

  /** The byte after an unfinished head is one more of the head. */
  lemma UnByteQueNo(h: string, t: string)
    requires Cabecera(h).None? && t != "" && t[0] as int >= 128
    ensures !CabeceraSana(h + t)
  {
    assert (h + t)[|h|] == t[0];
    if Cabecera(h + t).Some? {
      CabeceraSinTerminar(h, t);
      assert (h + t)[..Cabecera(h + t).value][|h|] == t[0];
    }
  }

  lemma SanoTrasUnTrozo(pendiente: string, trozos: seq<string>, i: nat)
    requires i < |trozos|
    ensures Sano(pendiente + Juntar(trozos[i..])) <==>
            Sano(pendiente + trozos[i])
            && Sano(Consumir(pendiente + trozos[i]).1 + Juntar(trozos[i + 1..]))
  {
    assert trozos[i..][1..] == trozos[i + 1..];
    assert pendiente + Juntar(trozos[i..]) == (pendiente + trozos[i]) + Juntar(trozos[i + 1..]);
    SanoPorPartes(pendiente + trozos[i], Juntar(trozos[i + 1..]));
  }

  /** A complete head stays so with anything after it. */
  lemma CabeceraConMas(h: string, t: string)
    requires Cabecera(h) == Some(|h|)
    ensures Cabecera(h + t) == Some(|h|)
  {
    assert (h + t)[1..] == h[1..] + t;
    HastaComaEstable(h[1..], t, CantidadArgs(h[0]) + 2);
  }

  /** The first frame, once its head is known. */
  lemma PaqueteConCabecera(h: string, b: string)
    requires Cabecera(h) == Some(|h|)
    ensures var n := CantidadArgs(h[0]);
            var hd := NSplit(h, n + 2);
            && |hd| == n + 2
            && var total := SumaTamanios(hd[2..]);
               PrimerPaquete(h + b) ==
                 if total > |b| then None
                 else Some((Llamada(NombreDe(hd, n), Cortar(b[..total], hd[2..])), |h| + total))
  {
    CabeceraConMas(h, b);
    CabeceraSePuedePartir(h);
    assert h[..|h|] == h && (h + b)[..|h|] == h;
    var total := SumaTamanios(NSplit(h, CantidadArgs(h[0]) + 2)[2..]);
    if total <= |b| {
      assert (h + b)[|h|..|h| + total] == b[..total];
    }
  }

  /**
   From one process to the other: the stream of the calls `ls`, cut anywhere into the pieces that
   recv happens to return, dispatches exactly `ls` if and only if no call has ten arguments or
   more and no name a byte of 128 or more, and then the reader is back in its initial state.
   */
  method Transmitir(ls: seq<Llamada>, trozos: seq<string>) returns (r: Receptor, ok: bool)
    requires NombresValidos(ls)
    requires Juntar(trozos) == Flujo(ls) && forall i :: 0 <= i < |trozos| ==> trozos[i] != ""
    ensures fresh(r) && (ok <==> Sano(Flujo(ls))) && (ok ==> r.Valid())
    ensures ok ==> (r.llamadas == ls <==> HastaNueveArgs(ls))
    ensures ok && r.llamadas == ls <==> HastaNueveArgs(ls) && NombresDeSieteBits(ls)
    ensures HastaNueveArgs(ls) && NombresDeSieteBits(ls) ==> r.Inicial()
  {
    r := new Receptor();
    IdaYVuelta(ls);
    assert "" + Flujo(ls) == Flujo(ls);
    ok := r.RecibirTodo(trozos);
    if ok && HastaNueveArgs(ls) {
      r.SinPendientes();
    }
  }
}
