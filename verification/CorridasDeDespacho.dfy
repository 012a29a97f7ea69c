/**
 Whole runs of the broker's queues, by the events alone: which messages are kept, who is subscribed to each
 queue, and which message has gone to whom.
 */
module CorridasDeDespacho {
  import opened Secuencias
  import opened DespachoDeMensajes

  // ---- by the events alone ----

  /** Of two subscriptions: a Game Boy, which gives no address, is nobody that came before. */
  predicate MismoProceso(a: Option<(string, string)>, b: Option<(string, string)>)
  {
    && a.Some? && b.Some?
    && IgualesSinCaja(a.value.0, b.value.0) && IgualesSinCaja(a.value.1, b.value.1)
  }

  /** The first subscription of its process to its queue. */
  ghost predicate EsPrimera(es: seq<Evento>, j: nat)
  {
    && j < |es| && es[j].Suscripcion?
    && (forall i :: 0 <= i < j && es[i].Suscripcion? && es[i].c == es[j].c ==>
          !MismoProceso(es[i].direccion, es[j].direccion))
  }

  /** The publications whose message is still kept, in the order of the list. */
  function Vivos(es: seq<Evento>): (r: seq<nat>)
    ensures forall k :: 0 <= k < |r| ==> r[k] < |es| && es[r[k]].Publicacion?
  {
    if es == [] then []
    else
      var n := |es| - 1;
      var r := Vivos(es[..n]);
      match es[n]
      case Publicacion(_) => r + [n]
      case Desalojo(cual) => if cual < |r| then Quitar(r, cual) else r
      case Suscripcion(_, _, _) => r
  }

  /** The first subscriptions to a queue, in the order of its list. */
  ghost function Anotados(es: seq<Evento>, c: Cola): (r: seq<nat>)
    ensures forall k :: 0 <= k < |r| ==> r[k] < |es| && es[r[k]].Suscripcion?
  {
    if es == [] then []
    else
      var n := |es| - 1;
      Anotados(es[..n], c) + (if EsPrimera(es, n) && es[n].c == c then [n] else [])
  }

  /**
   The message of the i-th event is for the process of the j-th: it was subscribed to that queue when the
   message came, or it subscribed while the message was kept.  Those of LOCALIZED that come later get GET.
   */
  ghost predicate DebeIr(es: seq<Evento>, i: nat, j: nat)
  {
    && i < |es| && es[i].Publicacion? && EsPrimera(es, j)
    && if j < i then es[i].c == es[j].c
       else i in Vivos(es[..j]) && es[i].c == if es[j].c == LOCALIZED then GET else es[j].c
  }

  /** The second is one more subscription of the process of the first, to the same queue. */
  predicate OtraVez(a: Evento, b: Evento)
  {
    a.Suscripcion? && b.Suscripcion? && a.c == b.c && MismoProceso(a.direccion, b.direccion)
  }

  /** The socket of the last subscription of the process of the j-th event. */
  function UltimoSocket(es: seq<Evento>, j: nat): int
    requires j < |es| && es[j].Suscripcion?
  {
    var n := |es| - 1;
    if n == j || OtraVez(es[j], es[n]) then es[n].socket else UltimoSocket(es[..n], j)
  }

  /** A process that looks for itself in a queue in which a Game Boy comes before it, or comes and it does not. */
  ghost predicate HayUnGameBoyAntes(es: seq<Evento>, e: Evento)
    requires e.Suscripcion?
  {
    && e.direccion.Some?
    && exists i ::
         && 0 <= i < |es| && es[i].Suscripcion? && es[i].c == e.c && es[i].direccion.None?
         && (forall k :: 0 <= k < i ==> !OtraVez(es[k], e))
  }

  /** A process that comes back to LOCALIZED with a GET kept that no process with its socket has been sent. */
  ghost predicate HayUnGetAjeno(es: seq<Evento>, e: Evento)
    requires e.Suscripcion?
  {
    && e.c == LOCALIZED && !EsPrimera(es + [e], |es|)
    && exists i: nat ::
         && i in Vivos(es) && es[i].c == GET
         && (forall j: nat :: DebeIr(es, i, j) ==> UltimoSocket(es + [e], j) != e.socket)
  }

  /** The broker reads a null pointer at this event, which comes after the others. */
  ghost predicate Rompe(es: seq<Evento>, e: Evento)
  {
    e.Suscripcion? && (HayUnGameBoyAntes(es, e) || HayUnGetAjeno(es, e))
  }

  /** With no evictions every message published is kept, in the order in which they came. */
  lemma {:induction false} SinDesalojos(es: seq<Evento>, i: nat)
    requires i < |es| && es[i].Publicacion? && forall k :: 0 <= k < |es| ==> !es[k].Desalojo?
    ensures i in Vivos(es)
  {
    var n := |es| - 1;
    if i < n {
      SinDesalojos(es[..n], i);
    }
  }

  lemma {:induction false} VivosUnaVez(es: seq<Evento>)
    ensures forall a, b :: 0 <= a < b < |Vivos(es)| ==> Vivos(es)[a] < Vivos(es)[b]
  {
    if es != [] {
      VivosUnaVez(es[..|es| - 1]);
    }
  }

  /** The list of a queue holds each first subscription to it, in the order in which they came. */
  lemma {:induction false} AnotadosSonLasPrimeras(es: seq<Evento>, c: Cola)
    ensures forall a, b :: 0 <= a < b < |Anotados(es, c)| ==> Anotados(es, c)[a] < Anotados(es, c)[b]
    ensures forall j: nat :: j in Anotados(es, c) <==> EsPrimera(es, j) && es[j].c == c
  {
    if es != [] {
      var n := |es| - 1;
      AnotadosSonLasPrimeras(es[..n], c);
      forall j: nat | j < n
        ensures EsPrimera(es, j) <==> EsPrimera(es[..n], j)
      {
        assert forall i :: 0 <= i <= j ==> es[i] == es[..n][i];
      }
    }
  }

  /** Whoever subscribes has a first subscription to that queue. */
  lemma {:induction false} SuPrimeraVez(es: seq<Evento>, j: nat) returns (k: nat)
    requires j < |es| && es[j].Suscripcion?
    ensures k <= j && EsPrimera(es, k) && es[k].c == es[j].c
    ensures k == j || MismoProceso(es[k].direccion, es[j].direccion)
    decreases j
  {
    if EsPrimera(es, j) {
      k := j;
    } else {
      var i :| 0 <= i < j && es[i].Suscripcion? && es[i].c == es[j].c && MismoProceso(es[i].direccion, es[j].direccion);
      k := SuPrimeraVez(es, i);
    }
  }

  // ---- what the broker holds ----

  /** The messages and the subscribers that the events have brought, each in the place of its event. */
  datatype Traidos = Traidos(mensajes: seq<Option<Mensaje>>, suscriptores: seq<Option<Suscriptor>>)

  ghost predicate SonTraidos(es: seq<Evento>, t: Traidos)
  {
    && |t.mensajes| == |t.suscriptores| == |es|
    && (forall i :: 0 <= i < |es| ==> (t.mensajes[i].Some? <==> es[i].Publicacion?))
    && (forall i :: 0 <= i < |es| && t.mensajes[i].Some? ==> t.mensajes[i].value.codOp == es[i].c)
    && (forall j :: 0 <= j < |es| ==> (t.suscriptores[j].Some? <==> EsPrimera(es, j)))
    && (forall j :: 0 <= j < |es| && t.suscriptores[j].Some? ==> t.suscriptores[j].value.direccion == es[j].direccion)
    && (forall i, j :: 0 <= i < j < |es| && t.mensajes[i].Some? ==> t.mensajes[i] != t.mensajes[j])
    && (forall i, j :: 0 <= i < j < |es| && t.suscriptores[i].Some? ==> t.suscriptores[i] != t.suscriptores[j])
  }

  /** The list of messages is that of the publications that are kept. */
  ghost predicate QuedanLosVivos(es: seq<Evento>, t: Traidos, ms: seq<Mensaje>)
    requires |t.mensajes| == |es|
  {
    |ms| == |Vivos(es)| && forall k :: 0 <= k < |ms| ==> t.mensajes[Vivos(es)[k]] == Some(ms[k])
  }

  /** The list of each queue is that of the first subscriptions to it. */
  ghost predicate EstanLosAnotados(es: seq<Evento>, t: Traidos, ss: map<Cola, seq<Suscriptor>>)
    requires |t.suscriptores| == |es|
  {
    forall c: Cola ::
      c in ss && |ss[c]| == |Anotados(es, c)|
      && forall k :: 0 <= k < |ss[c]| ==> t.suscriptores[Anotados(es, c)[k]] == Some(ss[c][k])
  }

  /** The send is that of the i-th event's message to the j-th event's process. */
  ghost predicate EsEnvio(es: seq<Evento>, t: Traidos, d: (Mensaje, Suscriptor), i: nat, j: nat)
    requires |t.mensajes| == |t.suscriptores| == |es|
  {
    DebeIr(es, i, j) && t.mensajes[i] == Some(d.0) && t.suscriptores[j] == Some(d.1)
  }

  ghost predicate EsDeLosQueDebenIr(es: seq<Evento>, t: Traidos, d: (Mensaje, Suscriptor))
    requires |t.mensajes| == |t.suscriptores| == |es|
  {
    exists i: nat, j: nat :: EsEnvio(es, t, d, i, j)
  }

  /** The sends are those of each message to each process that it is for. */
  ghost predicate SeMandaron(es: seq<Evento>, t: Traidos, ds: seq<(Mensaje, Suscriptor)>)
    requires SonTraidos(es, t)
  {
    && (forall i: nat, j: nat :: DebeIr(es, i, j) ==> (t.mensajes[i].value, t.suscriptores[j].value) in ds)
    && (forall k :: 0 <= k < |ds| ==> EsDeLosQueDebenIr(es, t, ds[k]))
  }

  /** What the broker holds and has sent is what the events say. */
  ghost predicate SegunLosEventos(es: seq<Evento>, t: Traidos, ms: seq<Mensaje>, ss: map<Cola, seq<Suscriptor>>,
                                  ds: seq<(Mensaje, Suscriptor)>)
  {
    && SonTraidos(es, t)
    && QuedanLosVivos(es, t, ms) && EstanLosAnotados(es, t, ss) && SeMandaron(es, t, ds)
  }

  // ---- one event more ----

  lemma ConUnoMas(es: seq<Evento>, e: Evento)
    ensures (es + [e])[..|es|] == es && forall j :: 0 <= j <= |es| ==> (es + [e])[..j] == es[..j]
    ensures forall j: nat :: j < |es| ==> (EsPrimera(es + [e], j) <==> EsPrimera(es, j))
    ensures forall i: nat, j: nat :: i < |es| && j < |es| ==> (DebeIr(es + [e], i, j) <==> DebeIr(es, i, j))
  {
    var r := es + [e];
    assert forall i :: 0 <= i < |es| ==> r[i] == es[i];
    assert forall j :: 0 <= j <= |es| ==> r[..j] == es[..j];
    assert forall j: nat :: j < |es| ==> (EsPrimera(r, j) <==> EsPrimera(es, j));
  }

  function Con(t: Traidos, m: Option<Mensaje>, s: Option<Suscriptor>): Traidos
  {
    Traidos(t.mensajes + [m], t.suscriptores + [s])
  }

  lemma TraidosConUnoMas(es: seq<Evento>, t: Traidos, e: Evento, m: Option<Mensaje>, s: Option<Suscriptor>)
    requires SonTraidos(es, t)
    requires (m.Some? <==> e.Publicacion?) && (s.Some? <==> EsPrimera(es + [e], |es|))
    requires m.Some? ==> m.value.codOp == e.c && forall i :: 0 <= i < |es| ==> t.mensajes[i] != m
    requires s.Some? ==> s.value.direccion == e.direccion && forall j :: 0 <= j < |es| ==> t.suscriptores[j] != s
    ensures SonTraidos(es + [e], Con(t, m, s))
  {
    hide EsPrimera;
    ConUnoMas(es, e);
  }

  /** A subscription is the first of its process exactly when nobody in the list of the queue is that process. */
  lemma EsPrimeraSii(es: seq<Evento>, t: Traidos, ss: map<Cola, seq<Suscriptor>>, e: Evento)
    requires SonTraidos(es, t) && EstanLosAnotados(es, t, ss) && e.Suscripcion? && e.c in ss
    ensures EsPrimera(es + [e], |es|) <==>
            forall k :: 0 <= k < |ss[e.c]| ==> !MismoProceso(ss[e.c][k].direccion, e.direccion)
  {
    var r := es + [e];
    AnotadosSonLasPrimeras(es, e.c);
    assert forall i :: 0 <= i < |es| ==> r[i] == es[i];
    forall k | 0 <= k < |ss[e.c]|
      ensures ss[e.c][k].direccion == es[Anotados(es, e.c)[k]].direccion && es[Anotados(es, e.c)[k]].c == e.c
    {
      var j := Anotados(es, e.c)[k];
      assert j in Anotados(es, e.c) && t.suscriptores[j] == Some(ss[e.c][k]);
    }
    if !EsPrimera(r, |es|) {
      var i :| 0 <= i < |es| && r[i].Suscripcion? && r[i].c == e.c && MismoProceso(r[i].direccion, e.direccion);
      var j := SuPrimeraVez(es, i);
      assert j in Anotados(es, e.c);
      var k :| 0 <= k < |Anotados(es, e.c)| && Anotados(es, e.c)[k] == j;
      assert MismoProceso(ss[e.c][k].direccion, e.direccion);
    }
  }

  lemma SigueMandado(es: seq<Evento>, t: Traidos, ds: seq<(Mensaje, Suscriptor)>, e: Evento, m: Option<Mensaje>,
                     s: Option<Suscriptor>, mas: seq<(Mensaje, Suscriptor)>)
    requires SonTraidos(es, t) && SonTraidos(es + [e], Con(t, m, s)) && SeMandaron(es, t, ds)
    requires forall i: nat, j: nat :: DebeIr(es + [e], i, j) && (i == |es| || j == |es|) ==>
               (Con(t, m, s).mensajes[i].value, Con(t, m, s).suscriptores[j].value) in mas
    requires forall k :: 0 <= k < |mas| ==> EsDeLosQueDebenIr(es + [e], Con(t, m, s), mas[k])
    ensures SeMandaron(es + [e], Con(t, m, s), ds + mas)
  {
    hide DebeIr, SonTraidos;
    var r, u := es + [e], Con(t, m, s);
    TamanioDeTraidos(es, t);
    TamanioDeTraidos(r, u);
    ConUnoMas(es, e);
    forall i: nat, j: nat | DebeIr(r, i, j)
      ensures (u.mensajes[i].value, u.suscriptores[j].value) in ds + mas
    {
      DeSuRango(r, i, j);
      if i < |es| && j < |es| {
        assert DebeIr(es, i, j);
        assert (t.mensajes[i].value, t.suscriptores[j].value) in ds;
      }
    }
    forall k | 0 <= k < |ds + mas|
      ensures EsDeLosQueDebenIr(r, u, (ds + mas)[k])
    {
      if k < |ds| {
        assert EsDeLosQueDebenIr(es, t, ds[k]);
        var i: nat, j: nat :| EsEnvio(es, t, ds[k], i, j);
        DeSuRango(es, i, j);
        assert EsEnvio(r, u, (ds + mas)[k], i, j);
      } else {
        assert (ds + mas)[k] == mas[k - |ds|];
      }
    }
  }

  lemma TamanioDeTraidos(es: seq<Evento>, t: Traidos)
    requires SonTraidos(es, t)
    ensures |t.mensajes| == |t.suscriptores| == |es|
    ensures forall i: nat, j: nat :: DebeIr(es, i, j) ==>
              i < |es| && j < |es| && t.mensajes[i].Some? && t.suscriptores[j].Some?
  {
  }

  lemma DeSuRango(es: seq<Evento>, i: nat, j: nat)
    requires DebeIr(es, i, j)
    ensures i < |es| && j < |es|
  {
  }

  lemma AnotadosSinPrimera(es: seq<Evento>, e: Evento, c: Cola)
    requires !EsPrimera(es + [e], |es|)
    ensures Anotados(es + [e], c) == Anotados(es, c)
  {
    assert (es + [e])[..|es|] == es;
    assert Anotados(es + [e], c) == Anotados(es, c) + [];
  }

  lemma AnotadosConPrimera(es: seq<Evento>, e: Evento, c: Cola)
    requires EsPrimera(es + [e], |es|)
    ensures Anotados(es + [e], c) == Anotados(es, c) + (if e.c == c then [|es|] else [])
  {
    assert (es + [e])[..|es|] == es;
  }

  /** What is not a first subscription changes nothing of the queues. */
  lemma SiguenAnotados(es: seq<Evento>, t: Traidos, ss: map<Cola, seq<Suscriptor>>, e: Evento, m: Option<Mensaje>)
    requires |t.suscriptores| == |es| && EstanLosAnotados(es, t, ss) && !EsPrimera(es + [e], |es|)
    ensures EstanLosAnotados(es + [e], Con(t, m, None), ss)
  {
    hide EsPrimera;
    ConUnoMas(es, e);
    forall c: Cola
      ensures c in ss && |ss[c]| == |Anotados(es + [e], c)|
      ensures forall k :: 0 <= k < |ss[c]| ==>
                Con(t, m, None).suscriptores[Anotados(es + [e], c)[k]] == Some(ss[c][k])
    {
      AnotadosSinPrimera(es, e, c);
      assert c in ss && |ss[c]| == |Anotados(es, c)|;
    }
  }

  /** A subscription changes nothing of the messages. */
  lemma SiguenVivos(es: seq<Evento>, t: Traidos, ms: seq<Mensaje>, e: Evento, s: Option<Suscriptor>)
    requires |t.mensajes| == |es| && QuedanLosVivos(es, t, ms) && e.Suscripcion?
    ensures QuedanLosVivos(es + [e], Con(t, None, s), ms)
  {
    ConUnoMas(es, e);
  }

  /** A new message is for those in the list of its queue. */
  lemma EnviosDelNuevo(es: seq<Evento>, t: Traidos, ss: map<Cola, seq<Suscriptor>>, c: Cola, m: Mensaje,
                       mas: seq<(Mensaje, Suscriptor)>)
    requires SonTraidos(es, t) && EstanLosAnotados(es, t, ss) && c in ss && mas == Envios(m, ss[c])
    requires SonTraidos(es + [Publicacion(c)], Con(t, Some(m), None))
    ensures forall i: nat, j: nat :: DebeIr(es + [Publicacion(c)], i, j) && (i == |es| || j == |es|) ==>
              (Con(t, Some(m), None).mensajes[i].value, Con(t, Some(m), None).suscriptores[j].value) in mas
    ensures forall k :: 0 <= k < |mas| ==>
              EsDeLosQueDebenIr(es + [Publicacion(c)], Con(t, Some(m), None), mas[k])
  {
    var r, u := es + [Publicacion(c)], Con(t, Some(m), None);
    ConUnoMas(es, Publicacion(c));
    AnotadosSonLasPrimeras(es, c);
    forall i: nat, j: nat | DebeIr(r, i, j) && (i == |es| || j == |es|)
      ensures (u.mensajes[i].value, u.suscriptores[j].value) in mas
    {
      assert j < i == |es| && EsPrimera(es, j) && es[j].c == c;
      var k :| 0 <= k < |Anotados(es, c)| && Anotados(es, c)[k] == j;
      assert mas[k] == (m, ss[c][k]);
    }
    forall k | 0 <= k < |mas|
      ensures EsDeLosQueDebenIr(r, u, mas[k])
    {
      var j := Anotados(es, c)[k];
      assert j in Anotados(es, c);
      assert EsEnvio(r, u, mas[k], |es|, j);
    }
  }

  lemma LlegaMensaje(es: seq<Evento>, t: Traidos, ms: seq<Mensaje>, ss: map<Cola, seq<Suscriptor>>,
                     ds: seq<(Mensaje, Suscriptor)>, c: Cola, m: Mensaje)
    requires SegunLosEventos(es, t, ms, ss, ds) && c in ss && m.codOp == c
    requires forall i :: 0 <= i < |es| ==> t.mensajes[i] != Some(m)
    ensures SegunLosEventos(es + [Publicacion(c)], Con(t, Some(m), None), ms + [m], ss, ds + Envios(m, ss[c]))
  {
    hide DebeIr, SonTraidos, EstanLosAnotados, SeMandaron, Envios;
    var e, u := Publicacion(c), Con(t, Some(m), None);
    ConUnoMas(es, e);
    TraidosConUnoMas(es, t, e, Some(m), None);
    TamanioDeTraidos(es, t);
    TamanioDeTraidos(es + [e], u);
    SiguenAnotados(es, t, ss, e, Some(m));
    EnviosDelNuevo(es, t, ss, c, m, Envios(m, ss[c]));
    SigueMandado(es, t, ds, e, Some(m), None, Envios(m, ss[c]));
  }

  /** An event that brings nothing is of no send. */
  lemma SinEnvios(es: seq<Evento>, t: Traidos, ds: seq<(Mensaje, Suscriptor)>, e: Evento)
    requires SonTraidos(es, t) && SeMandaron(es, t, ds) && !e.Publicacion? && !EsPrimera(es + [e], |es|)
    ensures SonTraidos(es + [e], Con(t, None, None)) && SeMandaron(es + [e], Con(t, None, None), ds)
  {
    hide EsPrimera, SonTraidos, SeMandaron;
    TraidosConUnoMas(es, t, e, None, None);
    TamanioDeTraidos(es + [e], Con(t, None, None));
    SigueMandado(es, t, ds, e, None, None, []);
    assert ds + [] == ds;
  }

  lemma SeVaMensaje(es: seq<Evento>, t: Traidos, ms: seq<Mensaje>, ss: map<Cola, seq<Suscriptor>>,
                    ds: seq<(Mensaje, Suscriptor)>, cual: nat)
    requires SegunLosEventos(es, t, ms, ss, ds)
    ensures SegunLosEventos(es + [Desalojo(cual)], Con(t, None, None),
                            if cual < |ms| then Quitar(ms, cual) else ms, ss, ds)
  {
    hide SonTraidos, EstanLosAnotados, SeMandaron, QuedanLosVivos, EsPrimera;
    TamanioDeTraidos(es, t);
    NoEsPrimera(es, Desalojo(cual));
    SinEnvios(es, t, ds, Desalojo(cual));
    SiguenAnotados(es, t, ss, Desalojo(cual), None);
    VivosSinUno(es, t, ms, cual);
  }

  lemma NoEsPrimera(es: seq<Evento>, e: Evento)
    requires !e.Suscripcion?
    ensures !EsPrimera(es + [e], |es|)
  {
  }

  lemma VivosSinUno(es: seq<Evento>, t: Traidos, ms: seq<Mensaje>, cual: nat)
    requires |t.mensajes| == |es| && QuedanLosVivos(es, t, ms)
    ensures QuedanLosVivos(es + [Desalojo(cual)], Con(t, None, None), if cual < |ms| then Quitar(ms, cual) else ms)
  {
    VivosTrasDesalojo(es, cual);
    var v, v' := Vivos(es), Vivos(es + [Desalojo(cual)]);
    hide Vivos;
    if cual < |ms| {
      forall k | 0 <= k < |ms| - 1
        ensures v'[k] < |es| && t.mensajes[v'[k]] == Some(Quitar(ms, cual)[k])
      {
        var j := if k < cual then k else k + 1;
        assert v'[k] == v[j] && Quitar(ms, cual)[k] == ms[j];
      }
    }
  }

  lemma VivosTrasDesalojo(es: seq<Evento>, cual: nat)
    ensures var v := Vivos(es);
            Vivos(es + [Desalojo(cual)]) == if cual < |v| then Quitar(v, cual) else v
  {
    assert (es + [Desalojo(cual)])[..|es|] == es;
  }

  lemma VuelveElProceso(es: seq<Evento>, t: Traidos, ms: seq<Mensaje>, ss: map<Cola, seq<Suscriptor>>,
                        ds: seq<(Mensaje, Suscriptor)>, e: Evento, k: nat)
    requires SegunLosEventos(es, t, ms, ss, ds) && e.Suscripcion? && e.c in ss
    requires k < |ss[e.c]| && MismoProceso(ss[e.c][k].direccion, e.direccion)
    ensures SegunLosEventos(es + [e], Con(t, None, None), ms, ss, ds)
  {
    hide MismoProceso, EsPrimera, SonTraidos, EstanLosAnotados, SeMandaron, QuedanLosVivos;
    EsPrimeraSii(es, t, ss, e);
    TamanioDeTraidos(es, t);
    SinEnvios(es, t, ds, e);
    SiguenAnotados(es, t, ss, e, None);
    SiguenVivos(es, t, ms, e, None);
  }

  lemma AnotadoUnoMas(es: seq<Evento>, t: Traidos, ss: map<Cola, seq<Suscriptor>>, e: Evento, s: Suscriptor)
    requires SonTraidos(es, t) && EstanLosAnotados(es, t, ss) && e.Suscripcion? && EsPrimera(es + [e], |es|)
    ensures e.c in ss && EstanLosAnotados(es + [e], Con(t, None, Some(s)), ss[e.c := ss[e.c] + [s]])
  {
    hide EsPrimera, SonTraidos;
    var r, u, ss' := es + [e], Con(t, None, Some(s)), ss[e.c := ss[e.c] + [s]];
    TamanioDeTraidos(es, t);
    ConUnoMas(es, e);
    forall c: Cola
      ensures c in ss' && |ss'[c]| == |Anotados(r, c)|
      ensures forall k :: 0 <= k < |ss'[c]| ==> u.suscriptores[Anotados(r, c)[k]] == Some(ss'[c][k])
    {
      AnotadosConPrimera(es, e, c);
      assert c in ss && |ss[c]| == |Anotados(es, c)|;
      assert forall k :: 0 <= k < |ss[c]| ==> t.suscriptores[Anotados(es, c)[k]] == Some(ss[c][k]);
    }
  }

  /** The messages kept of the kind that the queue is matched with are those that the new subscriber is for. */
  lemma EnviosAlNuevo(es: seq<Evento>, t: Traidos, ms: seq<Mensaje>, e: Evento, s: Suscriptor, n: seq<Mensaje>,
                      mas: seq<(Mensaje, Suscriptor)>)
    requires SonTraidos(es, t) && QuedanLosVivos(es, t, ms) && SinRepetidos(ms)
    requires e.Suscripcion? && EsPrimera(es + [e], |es|) && SonTraidos(es + [e], Con(t, None, Some(s)))
    requires n == DelTipo(ms, CodOpDe(e.c)) && mas == EnviosA(n, s)
    ensures forall i: nat, j: nat :: DebeIr(es + [e], i, j) && (i == |es| || j == |es|) ==>
              (Con(t, None, Some(s)).mensajes[i].value, Con(t, None, Some(s)).suscriptores[j].value) in mas
    ensures forall k :: 0 <= k < |mas| ==> EsDeLosQueDebenIr(es + [e], Con(t, None, Some(s)), mas[k])
  {
    hide EsPrimera, DelTipo;
    var r, u := es + [e], Con(t, None, Some(s));
    ConUnoMas(es, e);
    LosDelTipo(ms, CodOpDe(e.c));
    forall i: nat, j: nat | DebeIr(r, i, j) && (i == |es| || j == |es|)
      ensures (u.mensajes[i].value, u.suscriptores[j].value) in mas
    {
      assert j == |es| && i in Vivos(es);
      var k :| 0 <= k < |Vivos(es)| && Vivos(es)[k] == i;
      assert t.mensajes[i] == Some(ms[k]) && ms[k] in n;
      var l :| 0 <= l < |n| && n[l] == ms[k];
      assert mas[l] == (ms[k], s);
    }
    forall l | 0 <= l < |mas|
      ensures EsDeLosQueDebenIr(r, u, mas[l])
    {
      assert n[l] in ms;
      var k :| 0 <= k < |ms| && ms[k] == n[l];
      assert EsEnvio(r, u, mas[l], Vivos(es)[k], |es|);
    }
  }

  lemma LlegaSuscriptor(es: seq<Evento>, t: Traidos, ms: seq<Mensaje>, ss: map<Cola, seq<Suscriptor>>,
                        ds: seq<(Mensaje, Suscriptor)>, e: Evento, s: Suscriptor)
    requires SegunLosEventos(es, t, ms, ss, ds) && SinRepetidos(ms) && e.Suscripcion? && e.c in ss
    requires s.direccion == e.direccion && forall j :: 0 <= j < |es| ==> t.suscriptores[j] != Some(s)
    requires forall k :: 0 <= k < |ss[e.c]| ==> !MismoProceso(ss[e.c][k].direccion, e.direccion)
    ensures SegunLosEventos(es + [e], Con(t, None, Some(s)), ms, ss[e.c := ss[e.c] + [s]],
                            ds + EnviosA(DelTipo(ms, CodOpDe(e.c)), s))
  {
    hide MismoProceso, EsPrimera, DebeIr, SonTraidos, EstanLosAnotados, SeMandaron, DelTipo, CodOpDe;
    EsPrimeraSii(es, t, ss, e);
    TraidosConUnoMas(es, t, e, None, Some(s));
    AnotadoUnoMas(es, t, ss, e, s);
    var n := DelTipo(ms, CodOpDe(e.c));
    var mas := EnviosA(n, s);
    TamanioDeTraidos(es, t);
    TamanioDeTraidos(es + [e], Con(t, None, Some(s)));
    EnviosAlNuevo(es, t, ms, e, s, n, mas);
    SigueMandado(es, t, ds, e, None, Some(s), mas);
    SiguenVivos(es, t, ms, e, Some(s));
  }

  // ---- the sockets ----

  ghost function LosSockets(ss: map<Cola, seq<Suscriptor>>): (r: map<Cola, seq<int>>)
    reads set c: Cola, k | c in ss && 0 <= k < |ss[c]| :: ss[c][k]
    ensures forall c: Cola :: c in ss ==> c in r && |r[c]| == |ss[c]|
    ensures forall c: Cola, k :: c in ss && 0 <= k < |ss[c]| ==> r[c][k] == ss[c][k].socket
  {
    map c: Cola | c in ss ::
      seq(|ss[c]|, k requires 0 <= k < |ss[c]| reads set d: Cola, j | d in ss && 0 <= j < |ss[d]| :: ss[d][j] =>
        ss[c][k].socket)
  }

  /** Each process is kept with the socket of its last subscription. */
  ghost predicate ConSuSocket(es: seq<Evento>, sk: map<Cola, seq<int>>)
  {
    forall c: Cola ::
      c in sk && |sk[c]| == |Anotados(es, c)|
      && forall k :: 0 <= k < |sk[c]| ==> sk[c][k] == UltimoSocket(es, Anotados(es, c)[k])
  }

  lemma NoEsOtraVez(es: seq<Evento>, e: Evento, j: nat)
    requires j < |es| && es[j].Suscripcion?
    ensures UltimoSocket(es + [e], j) == if OtraVez(es[j], e) then e.socket else UltimoSocket(es, j)
  {
    ConUnoMas(es, e);
  }

  /** Of the processes of a queue one at most is the one that comes back. */
  lemma UnSoloProceso(es: seq<Evento>, e: Evento, i: nat, j: nat)
    requires EsPrimera(es, i) && EsPrimera(es, j) && OtraVez(es[i], e) && OtraVez(es[j], e)
    ensures i == j
  {
    MismoEsSimetrico(es[i].direccion, e.direccion, es[j].direccion);
    MismoEsSimetrico(es[j].direccion, e.direccion, es[i].direccion);
  }

  lemma MismoEsSimetrico(a: Option<(string, string)>, b: Option<(string, string)>, c: Option<(string, string)>)
    requires MismoProceso(a, b) && MismoProceso(c, b)
    ensures MismoProceso(a, c)
  {
  }

  lemma SocketsSinSuscripcion(es: seq<Evento>, sk: map<Cola, seq<int>>, e: Evento, sk': map<Cola, seq<int>>)
    requires ConSuSocket(es, sk) && !e.Suscripcion?
    requires forall c: Cola :: c in sk && c in sk' && |sk'[c]| == |sk[c]|
    requires forall c: Cola, k | c in sk && 0 <= k < |sk[c]| :: sk'[c][k] == sk[c][k]
    ensures ConSuSocket(es + [e], sk')
  {
    ConUnoMas(es, e);
    forall c: Cola
      ensures |sk'[c]| == |Anotados(es + [e], c)|
      ensures forall k :: 0 <= k < |sk[c]| ==> sk'[c][k] == UltimoSocket(es + [e], Anotados(es + [e], c)[k])
    {
      AnotadosSinPrimera(es, e, c);
      forall k | 0 <= k < |sk[c]|
        ensures sk'[c][k] == UltimoSocket(es + [e], Anotados(es, c)[k])
      {
        NoEsOtraVez(es, e, Anotados(es, c)[k]);
      }
    }
  }

  lemma SocketsConUnoMas(es: seq<Evento>, sk: map<Cola, seq<int>>, e: Evento, sk': map<Cola, seq<int>>)
    requires ConSuSocket(es, sk) && EsPrimera(es + [e], |es|) && e.Suscripcion? && e.c in sk
    requires forall c: Cola :: c in sk' && sk'[c] == sk[c] + (if c == e.c then [e.socket] else [])
    ensures ConSuSocket(es + [e], sk')
  {
    ConUnoMas(es, e);
    var r := es + [e];
    forall c: Cola
      ensures |sk'[c]| == |Anotados(r, c)|
      ensures forall k :: 0 <= k < |sk'[c]| ==> sk'[c][k] == UltimoSocket(r, Anotados(r, c)[k])
    {
      AnotadosConPrimera(es, e, c);
      forall k | 0 <= k < |sk[c]|
        ensures sk[c][k] == UltimoSocket(r, Anotados(es, c)[k])
      {
        var j := Anotados(es, c)[k];
        NoEsOtraVez(es, e, j);
        assert r[j] == es[j] && !OtraVez(r[j], e);
      }
    }
  }

  /** The socket at a place of the lists, after the process at another place has come back. */
  lemma SocketAlVolver(es: seq<Evento>, e: Evento, c: Cola, k: nat, k0: nat, viejo: int, nuevo: int)
    requires e.Suscripcion? && k0 < |Anotados(es, e.c)| && OtraVez(es[Anotados(es, e.c)[k0]], e)
    requires k < |Anotados(es, c)| && viejo == UltimoSocket(es, Anotados(es, c)[k])
    requires c == e.c && k == k0 ==> nuevo == e.socket
    requires OtraVez(es[Anotados(es, c)[k]], e) || nuevo == viejo
    ensures nuevo == UltimoSocket(es + [e], Anotados(es, c)[k])
  {
    var j, j0 := Anotados(es, c)[k], Anotados(es, e.c)[k0];
    NoEsOtraVez(es, e, j);
    if OtraVez(es[j], e) {
      AnotadosSonLasPrimeras(es, c);
      AnotadosSonLasPrimeras(es, e.c);
      hide EsPrimera, Anotados;
      assert j in Anotados(es, c) && j0 in Anotados(es, e.c);
      UnSoloProceso(es, e, j, j0);
    }
  }

  lemma SocketsAlVolver(es: seq<Evento>, sk: map<Cola, seq<int>>, e: Evento, sk': map<Cola, seq<int>>, k0: nat)
    requires ConSuSocket(es, sk) && !EsPrimera(es + [e], |es|) && e.Suscripcion? && e.c in sk
    requires forall c: Cola :: c in sk && c in sk' && |sk'[c]| == |sk[c]|
    requires k0 < |sk[e.c]| && OtraVez(es[Anotados(es, e.c)[k0]], e) && sk'[e.c][k0] == e.socket
    requires forall c: Cola, k | c in sk && 0 <= k < |sk[c]| ::
               OtraVez(es[Anotados(es, c)[k]], e) || sk'[c][k] == sk[c][k]
    ensures ConSuSocket(es + [e], sk')
  {
    hide EsPrimera, OtraVez, UltimoSocket, Anotados;
    var r := es + [e];
    forall c: Cola
      ensures |sk'[c]| == |Anotados(r, c)|
      ensures forall k :: 0 <= k < |sk'[c]| ==> sk'[c][k] == UltimoSocket(r, Anotados(r, c)[k])
    {
      AnotadosSinPrimera(es, e, c);
      forall k | 0 <= k < |sk[c]|
        ensures sk'[c][k] == UltimoSocket(r, Anotados(es, c)[k])
      {
        SocketAlVolver(es, e, c, k, k0, sk[c][k], sk'[c][k]);
      }
    }
  }

  /** The list of a queue, place by place, is that of the first subscriptions to it. */
  ghost predicate EsLaLista(es: seq<Evento>, c: Cola, q: seq<Suscriptor>, a: seq<nat>)
  {
    && |a| == |q|
    && (forall k :: 0 <= k < |a| ==>
          a[k] < |es| && EsPrimera(es, a[k]) && es[a[k]].c == c && q[k].direccion == es[a[k]].direccion)
    && (forall j, k :: 0 <= j < k < |a| ==> a[j] < a[k])
    && (forall j: nat :: EsPrimera(es, j) && es[j].c == c ==> j in a)
  }

  lemma LaLista(es: seq<Evento>, t: Traidos, ss: map<Cola, seq<Suscriptor>>, c: Cola)
    requires SonTraidos(es, t) && EstanLosAnotados(es, t, ss) && c in ss
    ensures EsLaLista(es, c, ss[c], Anotados(es, c))
  {
    var q, a := ss[c], Anotados(es, c);
    AnotadosSonLasPrimeras(es, c);
    hide EsPrimera;
    forall k | 0 <= k < |q|
      ensures q[k].direccion == es[a[k]].direccion && es[a[k]].c == c && EsPrimera(es, a[k])
    {
      assert a[k] in a && t.suscriptores[a[k]] == Some(q[k]);
    }
  }

  /** A process that came before a place of the list is in the list before that place. */
  lemma AntesEnLaLista(es: seq<Evento>, e: Evento, q: seq<Suscriptor>, a: seq<nat>, i: nat, k: nat) returns (j: nat)
    requires e.Suscripcion? && EsLaLista(es, e.c, q, a) && i < |a| && k < a[i] && OtraVez(es[k], e)
    ensures j < i && EsEl(q[j], e.direccion.value.0, e.direccion.value.1)
  {
    hide EsPrimera;
    var p := SuPrimeraVez(es, k);
    j :| 0 <= j < |a| && a[j] == p;
  }

  lemma SiTropieza(es: seq<Evento>, e: Evento, q: seq<Suscriptor>, a: seq<nat>)
    requires e.Suscripcion? && EsLaLista(es, e.c, q, a) && TropiezaConUnGameBoy(q, e.direccion)
    ensures HayUnGameBoyAntes(es, e)
  {
    hide EsPrimera;
    var i :| 0 <= i < |q| && q[i].direccion.None?
             && forall j :: 0 <= j < i ==> !EsEl(q[j], e.direccion.value.0, e.direccion.value.1);
    forall k | 0 <= k < a[i]
      ensures !OtraVez(es[k], e)
    {
      if OtraVez(es[k], e) {
        var j := AntesEnLaLista(es, e, q, a, i, k);
      }
    }
    DeSuscripcion(es, a[i]);
  }

  lemma DeSuscripcion(es: seq<Evento>, j: nat)
    requires EsPrimera(es, j)
    ensures j < |es| && es[j].Suscripcion?
  {
  }

  lemma SiHayUnGameBoy(es: seq<Evento>, e: Evento, q: seq<Suscriptor>, a: seq<nat>)
    requires e.Suscripcion? && EsLaLista(es, e.c, q, a) && HayUnGameBoyAntes(es, e)
    ensures TropiezaConUnGameBoy(q, e.direccion)
  {
    var i :| 0 <= i < |es| && es[i].Suscripcion? && es[i].c == e.c && es[i].direccion.None?
             && forall k :: 0 <= k < i ==> !OtraVez(es[k], e);
    assert EsPrimera(es, i);
    hide EsPrimera;
    var k :| 0 <= k < |a| && a[k] == i;
    forall j | 0 <= j < k
      ensures !EsEl(q[j], e.direccion.value.0, e.direccion.value.1)
    {
      assert a[j] < i;
      DeSuscripcion(es, a[j]);
    }
  }

  /** A Game Boy is in the way of the search over the list exactly when the events say so. */
  lemma TropiezaSii(es: seq<Evento>, t: Traidos, ss: map<Cola, seq<Suscriptor>>, e: Evento)
    requires SonTraidos(es, t) && EstanLosAnotados(es, t, ss) && e.Suscripcion? && e.c in ss
    ensures TropiezaConUnGameBoy(ss[e.c], e.direccion) <==> HayUnGameBoyAntes(es, e)
  {
    hide EsLaLista, TropiezaConUnGameBoy, HayUnGameBoyAntes, SonTraidos, EstanLosAnotados;
    LaLista(es, t, ss, e.c);
    if TropiezaConUnGameBoy(ss[e.c], e.direccion) {
      SiTropieza(es, e, ss[e.c], Anotados(es, e.c));
    }
    if HayUnGameBoyAntes(es, e) {
      SiHayUnGameBoy(es, e, ss[e.c], Anotados(es, e.c));
    }
  }

  // ---- those that come back to LOCALIZED ----

  lemma SocketDe(es: seq<Evento>, t: Traidos, ss: map<Cola, seq<Suscriptor>>, e: Evento, j: nat)
    requires SonTraidos(es, t) && EstanLosAnotados(es, t, ss) && EsPrimera(es, j) && !EsPrimera(es + [e], |es|)
    requires ConSuSocket(es + [e], LosSockets(ss))
    ensures t.suscriptores[j].Some? && t.suscriptores[j].value.socket == UltimoSocket(es + [e], j)
  {
    var c := es[j].c;
    ConUnoMas(es, e);
    AnotadosSonLasPrimeras(es, c);
    assert c in ss && j in Anotados(es, c);
    var k :| 0 <= k < |Anotados(es, c)| && Anotados(es, c)[k] == j;
    AnotadosSinPrimera(es, e, c);
    assert t.suscriptores[j] == Some(ss[c][k]);
    assert LosSockets(ss)[c][k] == UltimoSocket(es + [e], j);
  }

  /** Each entry of a message is of a process that it is for. */
  lemma ProcesoDeLaEntrada(es: seq<Evento>, t: Traidos, ds: seq<(Mensaje, Suscriptor)>, i: nat, m: Mensaje,
                           entradas: seq<Entrada>, l: nat) returns (j: nat)
    requires SonTraidos(es, t) && SeMandaron(es, t, ds) && SeEnvio(ds, m, entradas) && l < |entradas|
    requires i < |es| && t.mensajes[i] == Some(m)
    ensures DebeIr(es, i, j) && j < |es| && t.suscriptores[j] == Some(entradas[l].suscriptor)
  {
    hide DebeIr;
    assert (m, entradas[l].suscriptor) in ds;
    var d :| 0 <= d < |ds| && ds[d] == (m, entradas[l].suscriptor);
    assert EsDeLosQueDebenIr(es, t, ds[d]);
    var i': nat, k: nat :| EsEnvio(es, t, ds[d], i', k);
    DeSuRango(es, i', k);
    assert i' == i;
    j := k;
  }

  /** And each process that it is for has an entry. */
  lemma EntradaDelProceso(es: seq<Evento>, t: Traidos, ds: seq<(Mensaje, Suscriptor)>, i: nat, m: Mensaje,
                          entradas: seq<Entrada>, j: nat) returns (l: nat)
    requires SonTraidos(es, t) && SeMandaron(es, t, ds) && SeEnvio(ds, m, entradas)
    requires i < |es| && t.mensajes[i] == Some(m) && DebeIr(es, i, j)
    ensures l < |entradas| && j < |es| && t.suscriptores[j] == Some(entradas[l].suscriptor)
  {
    TamanioDeTraidos(es, t);
    hide DebeIr;
    assert (m, t.suscriptores[j].value) in ds;
    var d :| 0 <= d < |ds| && ds[d] == (m, t.suscriptores[j].value);
    assert ds[d].1 in Destinos(entradas);
    l :| 0 <= l < |entradas| && Destinos(entradas)[l] == ds[d].1;
  }

  lemma AlgunaSii(es: seq<Evento>, t: Traidos, ss: map<Cola, seq<Suscriptor>>, ds: seq<(Mensaje, Suscriptor)>,
                  i: nat, m: Mensaje, entradas: seq<Entrada>, e: Evento)
    requires SonTraidos(es, t) && SeMandaron(es, t, ds) && SeEnvio(ds, m, entradas) && EstanLosAnotados(es, t, ss)
    requires i < |es| && t.mensajes[i] == Some(m) && e.Suscripcion?
    requires !EsPrimera(es + [e], |es|) && ConSuSocket(es + [e], LosSockets(ss))
    ensures AlgunaDelSocket(entradas, e.socket) <==>
            exists j: nat :: DebeIr(es, i, j) && UltimoSocket(es + [e], j) == e.socket
  {
    if AlgunaDelSocket(entradas, e.socket) {
      var l :| 0 <= l < |entradas| && entradas[l].suscriptor.socket == e.socket;
      var j := ProcesoDeLaEntrada(es, t, ds, i, m, entradas, l);
      SocketDe(es, t, ss, e, j);
    }
    if j: nat :| DebeIr(es, i, j) && UltimoSocket(es + [e], j) == e.socket {
      var l := EntradaDelProceso(es, t, ds, i, m, entradas, j);
      SocketDe(es, t, ss, e, j);
      assert entradas[l].suscriptor.socket == e.socket;
    }
  }

  /** Every GET kept has an entry with the socket exactly when the events say so. */
  lemma GetAjenoSii(es: seq<Evento>, t: Traidos, ms: seq<Mensaje>, ss: map<Cola, seq<Suscriptor>>,
                    ds: seq<(Mensaje, Suscriptor)>, entradas: seq<seq<Entrada>>, e: Evento)
    requires SegunLosEventos(es, t, ms, ss, ds) && Correcto(ss, ms, entradas, ds) && e.Suscripcion? && e.c == LOCALIZED
    requires !EsPrimera(es + [e], |es|) && ConSuSocket(es + [e], LosSockets(ss))
    ensures HayUnGetAjeno(es, e) <==>
            !(forall k :: 0 <= k < |ms| && ms[k].codOp == GET ==> AlgunaDelSocket(entradas[k], e.socket))
  {
    DeLosTipos(es, t, ms);
    forall k | 0 <= k < |ms|
      ensures AlgunaDelSocket(entradas[k], e.socket) <==>
              exists j: nat :: DebeIr(es, Vivos(es)[k], j) && UltimoSocket(es + [e], j) == e.socket
    {
      assert t.mensajes[Vivos(es)[k]] == Some(ms[k]) && SeEnvio(ds, ms[k], entradas[k]);
      AlgunaSii(es, t, ss, ds, Vivos(es)[k], ms[k], entradas[k], e);
    }
    hide Correcto, ConSuSocket, AlgunaDelSocket, SonTraidos, SeMandaron, EstanLosAnotados, DebeIr;
    if HayUnGetAjeno(es, e) {
      var i: nat :| i in Vivos(es) && es[i].c == GET
                    && forall j: nat :: DebeIr(es, i, j) ==> UltimoSocket(es + [e], j) != e.socket;
      var k :| 0 <= k < |Vivos(es)| && Vivos(es)[k] == i;
      assert !AlgunaDelSocket(entradas[k], e.socket);
    }
    if k :| 0 <= k < |ms| && ms[k].codOp == GET && !AlgunaDelSocket(entradas[k], e.socket) {
      assert Vivos(es)[k] in Vivos(es);
    }
  }

  // ---- the run ----

  lemma AlEmpezar(ss: map<Cola, seq<Suscriptor>>)
    requires forall c: Cola :: c in ss && ss[c] == []
    ensures SegunLosEventos([], Traidos([], []), [], ss, []) && TienenDireccion(ss) && ConSuSocket([], LosSockets(ss))
  {
  }

  /** Coming back, as the list and as the events have it. */
  lemma LosQueVuelven(es: seq<Evento>, t: Traidos, ss: map<Cola, seq<Suscriptor>>, e: Evento)
    requires SonTraidos(es, t) && EstanLosAnotados(es, t, ss)
    ensures forall c: Cola, k :: c in ss && 0 <= k < |ss[c]| ==>
              k < |Anotados(es, c)| && (EsElQueVuelve(e, c, ss[c][k]) <==> OtraVez(es[Anotados(es, c)[k]], e))
  {
    forall c: Cola, k | c in ss && 0 <= k < |ss[c]|
      ensures k < |Anotados(es, c)| && (EsElQueVuelve(e, c, ss[c][k]) <==> OtraVez(es[Anotados(es, c)[k]], e))
    {
      LaLista(es, t, ss, c);
    }
  }

  /** A subscription that goes well leaves every process with the socket of its last one. */
  lemma SocketsTrasSuscribir(es: seq<Evento>, t: Traidos, ss: map<Cola, seq<Suscriptor>>, e: Evento,
                             sk: map<Cola, seq<int>>, sk': map<Cola, seq<int>>, k0: nat)
    requires SonTraidos(es, t) && EstanLosAnotados(es, t, ss) && e.Suscripcion? && ConSuSocket(es, sk)
    requires forall c: Cola :: c in ss && c in sk && c in sk' && |sk[c]| == |sk'[c]| == |ss[c]|
    requires k0 < |ss[e.c]| && EsElQueVuelve(e, e.c, ss[e.c][k0]) && sk'[e.c][k0] == e.socket
    requires forall c: Cola, k | c in ss && 0 <= k < |ss[c]| ::
               EsElQueVuelve(e, c, ss[c][k]) || sk'[c][k] == sk[c][k]
    ensures ConSuSocket(es + [e], sk') && !EsPrimera(es + [e], |es|)
  {
    LosQueVuelven(es, t, ss, e);
    EsPrimeraSii(es, t, ss, e);
    hide EsPrimera, OtraVez, SonTraidos, EstanLosAnotados;
    SocketsAlVolver(es, sk, e, sk', k0);
  }

  lemma NuevoNoTropieza(q: seq<Suscriptor>, direccion: Option<(string, string)>)
    requires EsNuevo(q, direccion)
    ensures !TropiezaConUnGameBoy(q, direccion)
  {
  }

  /** A subscription, by what is found in the list: when it goes well, going by the events. */
  lemma CuandoRompe(es: seq<Evento>, t: Traidos, ms: seq<Mensaje>, ss: map<Cola, seq<Suscriptor>>,
                    ds: seq<(Mensaje, Suscriptor)>, entradas: seq<seq<Entrada>>, e: Evento)
    requires SegunLosEventos(es, t, ms, ss, ds) && Correcto(ss, ms, entradas, ds) && e.Suscripcion? && e.c in ss
    requires e.c == LOCALIZED && !EsPrimera(es + [e], |es|) && !TropiezaConUnGameBoy(ss[e.c], e.direccion) ==>
               ConSuSocket(es + [e], LosSockets(ss))
    ensures TropiezaConUnGameBoy(ss[e.c], e.direccion) ==> Rompe(es, e)
    ensures !TropiezaConUnGameBoy(ss[e.c], e.direccion) && (e.c != LOCALIZED || EsPrimera(es + [e], |es|)) ==>
              !Rompe(es, e)
    ensures !TropiezaConUnGameBoy(ss[e.c], e.direccion) && e.c == LOCALIZED && !EsPrimera(es + [e], |es|) ==>
              (Rompe(es, e) <==>
               !(forall k :: 0 <= k < |ms| && ms[k].codOp == GET ==> AlgunaDelSocket(entradas[k], e.socket)))
  {
    hide EsPrimera, Correcto, ConSuSocket;
    TropiezaSii(es, t, ss, e);
    if e.c == LOCALIZED && !EsPrimera(es + [e], |es|) && !TropiezaConUnGameBoy(ss[e.c], e.direccion) {
      GetAjenoSii(es, t, ms, ss, ds, entradas, e);
    }
    hide TropiezaConUnGameBoy, HayUnGameBoyAntes, SegunLosEventos, AlgunaDelSocket;
  }

  /**
   One event.  It goes well unless the events say that it breaks the broker, and then what the broker is left with
   is what the events say, with this one.
   */
  method UnEventoMas(b: Broker, ghost es: seq<Evento>, ghost t: Traidos, e: Evento) returns (ok: bool, ghost u: Traidos)
    requires b.Valid() && SegunLosEventos(es, t, b.mensajes, b.suscriptores, b.despachos)
    requires ConSuSocket(es, LosSockets(b.suscriptores))
    modifies b, b.Objetos()
    ensures b.Valid() && forall o :: o in b.Objetos() ==> o in old(b.Objetos()) || fresh(o)
    ensures ok <==> !Rompe(es, e)
    ensures ok ==> SegunLosEventos(es + [e], u, b.mensajes, b.suscriptores, b.despachos)
    ensures ok ==> ConSuSocket(es + [e], LosSockets(b.suscriptores))
    ensures SuscripcionComun(e) && TienenDireccion(old(b.suscriptores)) ==> ok && TienenDireccion(b.suscriptores)
  {
    hide Correcto, SegunLosEventos, EsNuevo, TropiezaConUnGameBoy, ConEntrada, EnviosA, Envios, Enviadas, DelTipo,
         SuscripcionComun, TienenDireccion, ConSuSocket, EsElQueVuelve, Rompe, EsPrimera, EsEl,
         AlgunaDelSocket;
    ghost var ms, ss, ds, sk := b.mensajes, b.suscriptores, b.despachos, LosSockets(b.suscriptores);
    ghost var entradas := b.Entradas();
    UnoPorEvento(es, t, ms, ss, ds);
    ok := b.Atender(e);
    u := Con(t, None, None);
    match e {
      case Publicacion(c) =>
        var m := b.mensajes[|b.mensajes| - 1];
        u := Con(t, Some(m), None);
        assert b.mensajes == ms + [m];
        LlegaMensaje(es, t, ms, ss, ds, c, m);
      case Desalojo(cual) =>
        SeVaMensaje(es, t, ms, ss, ds, cual);
      case Suscripcion(c, direccion, socket) =>
        u := TrasSuscribir(es, t, ms, ss, ds, entradas, e, sk, b.suscriptores, b.despachos, ok);
    }
    if !e.Suscripcion? {
      NadieVuelve(e, ss);
      NoRompe(es, e);
      SocketsSinSuscripcion(es, sk, e, LosSockets(b.suscriptores));
    }
  }

  /** A subscription has been attended to: by what is found in the list of its queue. */
  lemma TrasSuscribir(es: seq<Evento>, t: Traidos, ms: seq<Mensaje>, ss: map<Cola, seq<Suscriptor>>,
                      ds: seq<(Mensaje, Suscriptor)>, entradas: seq<seq<Entrada>>, e: Evento, sk: map<Cola, seq<int>>,
                      ss': map<Cola, seq<Suscriptor>>, ds': seq<(Mensaje, Suscriptor)>, ok: bool) returns (u: Traidos)
    requires SegunLosEventos(es, t, ms, ss, ds) && Correcto(ss, ms, entradas, ds) && ConSuSocket(es, sk)
    requires e.Suscripcion? && forall c: Cola :: c in ss && c in ss' && c in sk && |sk[c]| == |ss[c]|
    requires EsNuevo(ss[e.c], e.direccion) ==>
               ok && ss'[e.c] != [] &&
               var s := ss'[e.c][|ss'[e.c]| - 1];
               && s.direccion == e.direccion && s.socket == e.socket && ss' == ss[e.c := ss[e.c] + [s]]
               && ds' == ds + EnviosA(DelTipo(ms, CodOpDe(e.c)), s) && forall j :: 0 <= j < |t.suscriptores| ==>
                    t.suscriptores[j] != Some(s)
    requires !EsNuevo(ss[e.c], e.direccion) ==> ss' == ss && ds' == ds
    requires forall d: Cola, k | d in ss && 0 <= k < |ss[d]| ::
               EsElQueVuelve(e, d, ss[d][k]) || ss[d][k].socket == sk[d][k]
    requires YaEstaba(e, ss) ==>
               && (exists k :: 0 <= k < |ss[e.c]| && EsElQueVuelve(e, e.c, ss[e.c][k]) && ss[e.c][k].socket == e.socket)
               && (ok <==> forall k :: 0 <= k < |ms| && ms[k].codOp == CodOpDe(e.c) ==>
                             AlgunaDelSocket(entradas[k], e.socket))
    requires TropiezaConUnGameBoy(ss[e.c], e.direccion) ==> !ok
    requires !TropiezaConUnGameBoy(ss[e.c], e.direccion) && e.c != LOCALIZED ==> ok
    ensures ok <==> !Rompe(es, e)
    ensures ok ==> SegunLosEventos(es + [e], u, ms, ss', ds') && ConSuSocket(es + [e], LosSockets(ss'))
  {
    hide Correcto, SegunLosEventos, EsNuevo, TropiezaConUnGameBoy, EnviosA, DelTipo, ConSuSocket, EsElQueVuelve,
         HayUnGameBoyAntes, HayUnGetAjeno, EsPrimera, AlgunaDelSocket;
    u := Con(t, None, None);
    DondeEsta(es, t, ss, e, ms, ds);
    if EsNuevo(ss[e.c], e.direccion) {
      u := EsUnoMas(es, t, ms, ss, ds, entradas, e, sk, ss', ds');
    } else if YaEstaba(e, ss) {
      var k :| 0 <= k < |ss[e.c]| && EsElQueVuelve(e, e.c, ss[e.c][k]) && ss[e.c][k].socket == e.socket;
      LoConocido(es, t, ms, ss, ds, e, sk, LosSockets(ss), k);
    }
    CuandoRompe(es, t, ms, ss, ds, entradas, e);
  }

  lemma EsUnoMas(es: seq<Evento>, t: Traidos, ms: seq<Mensaje>, ss: map<Cola, seq<Suscriptor>>,
                 ds: seq<(Mensaje, Suscriptor)>, entradas: seq<seq<Entrada>>, e: Evento, sk: map<Cola, seq<int>>,
                 ss': map<Cola, seq<Suscriptor>>, ds': seq<(Mensaje, Suscriptor)>) returns (u: Traidos)
    requires SegunLosEventos(es, t, ms, ss, ds) && Correcto(ss, ms, entradas, ds) && ConSuSocket(es, sk)
    requires e.Suscripcion? && forall c: Cola :: c in ss && c in ss' && c in sk && |sk[c]| == |ss[c]|
    requires EsNuevo(ss[e.c], e.direccion) && EsPrimera(es + [e], |es|) && ss'[e.c] != []
    requires var s := ss'[e.c][|ss'[e.c]| - 1];
             && s.direccion == e.direccion && s.socket == e.socket && ss' == ss[e.c := ss[e.c] + [s]]
             && ds' == ds + EnviosA(DelTipo(ms, CodOpDe(e.c)), s)
             && forall j :: 0 <= j < |t.suscriptores| ==> t.suscriptores[j] != Some(s)
    requires forall d: Cola, k | d in ss && 0 <= k < |ss[d]| ::
               EsElQueVuelve(e, d, ss[d][k]) || ss[d][k].socket == sk[d][k]
    ensures SegunLosEventos(es + [e], u, ms, ss', ds') && ConSuSocket(es + [e], LosSockets(ss'))
  {
    var s := ss'[e.c][|ss'[e.c]| - 1];
    assert SinRepetidos(ms);
    NuevoSegunLaLista(ss[e.c], e);
    hide *;
    u := Con(t, None, Some(s));
    UnoPorEvento(es, t, ms, ss, ds);
    LlegaSuscriptor(es, t, ms, ss, ds, e, s);
    SocketsDelNuevo(es, ss, e, sk, s);
  }

  lemma SocketsDelNuevo(es: seq<Evento>, ss: map<Cola, seq<Suscriptor>>, e: Evento, sk: map<Cola, seq<int>>,
                        s: Suscriptor)
    requires e.Suscripcion? && forall c: Cola :: c in ss && c in sk && |sk[c]| == |ss[c]|
    requires ConSuSocket(es, sk) && EsPrimera(es + [e], |es|) && s.socket == e.socket
    requires forall k :: 0 <= k < |ss[e.c]| ==> !EsElQueVuelve(e, e.c, ss[e.c][k])
    requires forall d: Cola, k | d in ss && 0 <= k < |ss[d]| ::
               EsElQueVuelve(e, d, ss[d][k]) || ss[d][k].socket == sk[d][k]
    ensures ConSuSocket(es + [e], LosSockets(ss[e.c := ss[e.c] + [s]]))
  {
    hide ConSuSocket, EsPrimera, EsEl;
    var ss' := ss[e.c := ss[e.c] + [s]];
    var sk' := LosSockets(ss');
    forall d: Cola
      ensures d in sk' && sk'[d] == sk[d] + (if d == e.c then [e.socket] else [])
    {
      assert forall k :: 0 <= k < |ss[d]| ==> ss'[d][k] == ss[d][k] && !EsElQueVuelve(e, d, ss[d][k]);
    }
    SocketsConUnoMas(es, sk, e, sk');
  }

  lemma NoRompe(es: seq<Evento>, e: Evento)
    requires !e.Suscripcion?
    ensures !Rompe(es, e)
  {
  }

  lemma NadieVuelve(e: Evento, ss: map<Cola, seq<Suscriptor>>)
    requires !e.Suscripcion?
    ensures forall c: Cola, k :: c in ss && 0 <= k < |ss[c]| ==> !EsElQueVuelve(e, c, ss[c][k])
  {
  }

  /** Whether the subscription is a first one, by the list. */
  lemma DondeEsta(es: seq<Evento>, t: Traidos, ss: map<Cola, seq<Suscriptor>>, e: Evento, ms: seq<Mensaje>,
                  ds: seq<(Mensaje, Suscriptor)>)
    requires SegunLosEventos(es, t, ms, ss, ds) && e.Suscripcion? && forall c: Cola :: c in ss
    ensures EsNuevo(ss[e.c], e.direccion) ==>
              EsPrimera(es + [e], |es|) && !TropiezaConUnGameBoy(ss[e.c], e.direccion)
    ensures YaEstaba(e, ss) ==> !EsPrimera(es + [e], |es|)
  {
    EsPrimeraSii(es, t, ss, e);
    hide EsPrimera;
    if EsNuevo(ss[e.c], e.direccion) {
      NuevoNoTropieza(ss[e.c], e.direccion);
      NuevoSegunLaLista(ss[e.c], e);
    }
    if YaEstaba(e, ss) {
      var k := ConocidoSegunLaLista(ss[e.c], e.direccion);
    }
  }

  /** A process that is in the list subscribes again. */
  lemma LoConocido(es: seq<Evento>, t: Traidos, ms: seq<Mensaje>, ss: map<Cola, seq<Suscriptor>>,
                   ds: seq<(Mensaje, Suscriptor)>, e: Evento, sk: map<Cola, seq<int>>, sk': map<Cola, seq<int>>, k: nat)
    requires SegunLosEventos(es, t, ms, ss, ds) && e.Suscripcion? && ConSuSocket(es, sk)
    requires forall c: Cola :: c in ss && c in sk && c in sk' && |sk[c]| == |sk'[c]| == |ss[c]|
    requires k < |ss[e.c]| && EsElQueVuelve(e, e.c, ss[e.c][k]) && sk'[e.c][k] == e.socket
    requires forall c: Cola, j | c in ss && 0 <= j < |ss[c]| ::
               EsElQueVuelve(e, c, ss[c][j]) || sk'[c][j] == sk[c][j]
    ensures SegunLosEventos(es + [e], Con(t, None, None), ms, ss, ds) && ConSuSocket(es + [e], sk')
  {
    VuelveElProceso(es, t, ms, ss, ds, e, k);
    hide ConSuSocket, EsElQueVuelve;
    SocketsTrasSuscribir(es, t, ss, e, sk, sk', k);
  }

  lemma UnoPorEvento(es: seq<Evento>, t: Traidos, ms: seq<Mensaje>, ss: map<Cola, seq<Suscriptor>>,
                     ds: seq<(Mensaje, Suscriptor)>)
    requires SegunLosEventos(es, t, ms, ss, ds)
    ensures |t.mensajes| == |t.suscriptores| == |es|
  {
  }

  lemma SinDosIguales(b: Broker)
    requires b.Valid()
    ensures SinRepetidos(b.mensajes)
  {
  }

  lemma NuevoSegunLaLista(q: seq<Suscriptor>, e: Evento)
    requires e.Suscripcion? && EsNuevo(q, e.direccion)
    ensures forall k :: 0 <= k < |q| ==> !MismoProceso(q[k].direccion, e.direccion) && !EsElQueVuelve(e, e.c, q[k])
  {
  }

  lemma ConocidoSegunLaLista(q: seq<Suscriptor>, direccion: Option<(string, string)>) returns (k: nat)
    requires !EsNuevo(q, direccion) && !TropiezaConUnGameBoy(q, direccion)
    ensures k < |q| && MismoProceso(q[k].direccion, direccion)
  {
    k := 0;
    while k < |q| && !MismoProceso(q[k].direccion, direccion)
      invariant 0 <= k <= |q| && forall j :: 0 <= j < k ==> !MismoProceso(q[j].direccion, direccion)
    {
      k := k + 1;
    }
  }

  /**
   A whole run from an empty broker, in any order: messages published and evicted, processes that
   subscribe and subscribe again.  It only stops, failing, when a Game Boy or LOCALIZED is involved.  If it does
   not, the messages kept are those published less those evicted, in order; the list of each queue holds
   the first subscription of each process to it; and each message has been sent once to each process that
   was subscribed to its queue or subscribed while it was kept, and nothing else has been sent.
   */
  method Correr(es: seq<Evento>) returns (b: Broker, ok: bool, ghost t: Traidos)
    ensures fresh(b) && b.Valid()
    ensures forall k: nat, s: Suscriptor | k < |b.mensajes| && b.mensajes[k].codOp in {NEW, APPEARED, CATCH, CAUGHT} ::
              ExactamenteUnaVez(b.suscriptores, b.mensajes, b.Entradas(), b.despachos, k, s)
    ensures (forall i :: 0 <= i < |es| ==> SuscripcionComun(es[i])) ==> ok
    ensures ok <==> forall i :: 0 <= i < |es| ==> !Rompe(es[..i], es[i])
    ensures ok ==> SonTraidos(es, t) && SinRepetidos(b.despachos) && SeMandaron(es, t, b.despachos)
    ensures ok ==> QuedanLosVivos(es, t, b.mensajes) && EstanLosAnotados(es, t, b.suscriptores)
    ensures ok ==> ConSuSocket(es, LosSockets(b.suscriptores))
    ensures ok ==>
              && |b.mensajes| == |Vivos(es)|
              && forall k :: 0 <= k < |b.mensajes| ==> b.mensajes[k].codOp == es[Vivos(es)[k]].c
  {
    hide *;
    b := new Broker();
    ok, t := true, Traidos([], []);
    AlEmpezar(b.suscriptores);
    var i := 0;
    assert es[..0] == [];
    while i < |es| && ok
      invariant 0 <= i <= |es| && fresh(b) && b.Valid()
      invariant forall o :: o in b.Objetos() ==> fresh(o)
      invariant (forall j :: 0 <= j < i ==> SuscripcionComun(es[j])) ==> ok && TienenDireccion(b.suscriptores)
      invariant ok ==> SegunLosEventos(es[..i], t, b.mensajes, b.suscriptores, b.despachos)
      invariant ok ==> ConSuSocket(es[..i], LosSockets(b.suscriptores))
      invariant ok <==> forall j :: 0 <= j < i ==> !Rompe(es[..j], es[j])
    {
      ok, t := UnEventoMas(b, es[..i], t, es[i]);
      assert es[..i] + [es[i]] == es[..i + 1];
      i := i + 1;
    }
    if ok {
      assert es[..i] == es;
      LoQueDicen(es, t, b);
    }
    CadaUnaUnaVez(b);
  }

  lemma LoQueDicen(es: seq<Evento>, t: Traidos, b: Broker)
    requires b.Valid() && SegunLosEventos(es, t, b.mensajes, b.suscriptores, b.despachos)
    ensures SonTraidos(es, t) && SinRepetidos(b.despachos) && SeMandaron(es, t, b.despachos)
    ensures QuedanLosVivos(es, t, b.mensajes) && EstanLosAnotados(es, t, b.suscriptores)
    ensures |b.mensajes| == |Vivos(es)|
    ensures forall k :: 0 <= k < |b.mensajes| ==> b.mensajes[k].codOp == es[Vivos(es)[k]].c
  {
    DeLosTipos(es, t, b.mensajes);
  }

  lemma CadaUnaUnaVez(b: Broker)
    requires b.Valid()
    ensures forall c: Cola :: c in b.suscriptores
    ensures forall k: nat, s: Suscriptor | k < |b.mensajes| && b.mensajes[k].codOp in {NEW, APPEARED, CATCH, CAUGHT} ::
              ExactamenteUnaVez(b.suscriptores, b.mensajes, b.Entradas(), b.despachos, k, s)
  {
    hide AQuien, SeEnvio;
    forall k: nat, s: Suscriptor | k < |b.mensajes| && b.mensajes[k].codOp in {NEW, APPEARED, CATCH, CAUGHT}
      ensures ExactamenteUnaVez(b.suscriptores, b.mensajes, b.Entradas(), b.despachos, k, s)
    {
      UnaVezACadaUno(b.suscriptores, b.mensajes, b.Entradas(), b.despachos, k, s);
    }
  }

  lemma DeLosTipos(es: seq<Evento>, t: Traidos, ms: seq<Mensaje>)
    requires SonTraidos(es, t) && QuedanLosVivos(es, t, ms)
    ensures forall k :: 0 <= k < |ms| ==> ms[k].codOp == es[Vivos(es)[k]].c
  {
    forall k | 0 <= k < |ms|
      ensures ms[k].codOp == es[Vivos(es)[k]].c
    {
      assert t.mensajes[Vivos(es)[k]] == Some(ms[k]);
    }
  }
}
