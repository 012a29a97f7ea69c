/** The broker's subscribers, the messages it keeps, and to whom it has sent each of them. */
module DespachoDeMensajes {
  import opened Secuencias

  /** The six queues of the broker, which are also the kinds of its messages. */
  datatype Cola = NEW | APPEARED | CATCH | CAUGHT | GET | LOCALIZED

  /** obtenerCodOp: the messages that a subscriber of a queue is matched with. */
  function CodOpDe(c: Cola): Cola
  {
    if c == LOCALIZED then GET else c
  }

  class Suscriptor {
    /** Where the process listens; a Game Boy gives nothing. */
    const direccion: Option<(string, string)>
    var socket: int

    constructor (direccion: Option<(string, string)>, socket: int)
      ensures this.direccion == direccion && this.socket == socket
    {
      this.direccion := direccion;
      this.socket := socket;
    }
  }

  /** A t_msg_suscriptor. */
  datatype Entrada = Entrada(suscriptor: Suscriptor, ack: bool)

  class Mensaje {
    const codOp: Cola
    var entradas: seq<Entrada>

    /** generar_lista_suscriptos: an entry for each, none sent. */
    constructor (codOp: Cola, suscriptores: seq<Suscriptor>)
      ensures this.codOp == codOp && entradas == SinEnviar(suscriptores)
    {
      this.codOp := codOp;
      entradas := SinEnviar(suscriptores);
    }
  }

  function SinEnviar(ss: seq<Suscriptor>): (r: seq<Entrada>)
    ensures |r| == |ss|
  {
    seq(|ss|, i requires 0 <= i < |ss| => Entrada(ss[i], false))
  }

  function Enviadas(ss: seq<Suscriptor>): (r: seq<Entrada>)
    ensures |r| == |ss|
  {
    seq(|ss|, i requires 0 <= i < |ss| => Entrada(ss[i], true))
  }

  /** The sends of one message to each of some subscribers. */
  ghost function Envios(m: Mensaje, ss: seq<Suscriptor>): (r: seq<(Mensaje, Suscriptor)>)
    ensures |r| == |ss|
  {
    seq(|ss|, i requires 0 <= i < |ss| => (m, ss[i]))
  }

  /** The sends of some messages to one subscriber. */
  ghost function EnviosA(ms: seq<Mensaje>, s: Suscriptor): (r: seq<(Mensaje, Suscriptor)>)
    ensures |r| == |ms|
  {
    seq(|ms|, i requires 0 <= i < |ms| => (ms[i], s))
  }

  function DelTipo(ms: seq<Mensaje>, c: Cola): (r: seq<Mensaje>)
  {
    if ms == [] then [] else (if ms[0].codOp == c then [ms[0]] else []) + DelTipo(ms[1..], c)
  }

  ghost function Destinos(es: seq<Entrada>): (r: seq<Suscriptor>)
    ensures |r| == |es|
  {
    seq(|es|, i requires 0 <= i < |es| => es[i].suscriptor)
  }

  /** Six lists of subscribers, and no subscriber twice. */
  ghost predicate ListasDeSuscriptores(ss: map<Cola, seq<Suscriptor>>)
  {
    && (forall c: Cola :: c in ss)
    && (forall c: Cola :: c in ss ==> SinRepetidos(ss[c]))
    && (forall c: Cola, d: Cola, i, j :: c in ss && d in ss && c != d && 0 <= i < |ss[c]| && 0 <= j < |ss[d]| ==>
        ss[c][i] != ss[d][j])
  }

  ghost predicate TodosEn(a: seq<Suscriptor>, b: seq<Suscriptor>)
  {
    forall i :: 0 <= i < |a| ==> a[i] in b
  }

  /** To whom a resident message has gone, by its kind. */
  ghost predicate AQuien(ss: map<Cola, seq<Suscriptor>>, codOp: Cola, es: seq<Entrada>)
    requires ListasDeSuscriptores(ss)
  {
    var d := Destinos(es);
    && (forall i :: 0 <= i < |es| ==> es[i].ack) && SinRepetidos(d)
    && (codOp in {NEW, APPEARED, CATCH, CAUGHT} ==> d == ss[codOp])
    && (codOp == LOCALIZED ==> d <= ss[LOCALIZED])
    && (codOp == GET ==> TodosEn(ss[GET], d) && TodosEn(d, ss[GET] + ss[LOCALIZED]))
  }

  ghost predicate SeEnvio(ds: seq<(Mensaje, Suscriptor)>, m: Mensaje, es: seq<Entrada>)
  {
    && (forall i :: 0 <= i < |es| ==> (m, es[i].suscriptor) in ds)
    && (forall d :: 0 <= d < |ds| && ds[d].0 == m ==> ds[d].1 in Destinos(es))
  }

  /** The sends of a resident message are one to each of its entries, and no send was ever made twice. */
  ghost predicate Correcto(ss: map<Cola, seq<Suscriptor>>, ms: seq<Mensaje>, es: seq<seq<Entrada>>,
      ds: seq<(Mensaje, Suscriptor)>)
  {
    && ListasDeSuscriptores(ss) && SinRepetidos(ms) && SinRepetidos(ds) && |es| == |ms|
    && (forall k :: 0 <= k < |ms| ==> AQuien(ss, ms[k].codOp, es[k]))
    && (forall k :: 0 <= k < |ms| ==> SeEnvio(ds, ms[k], es[k]))
  }

  /** A message that arrives goes at once to everybody subscribed to its queue. */
  lemma Llega(ss: map<Cola, seq<Suscriptor>>, ms: seq<Mensaje>, es: seq<seq<Entrada>>,
      ds: seq<(Mensaje, Suscriptor)>, m: Mensaje)
    requires Correcto(ss, ms, es, ds) && m !in ms && forall d :: 0 <= d < |ds| ==> ds[d].0 != m
    ensures Correcto(ss, ms + [m], es + [Enviadas(ss[m.codOp])], ds + Envios(m, ss[m.codOp]))
  {
    var suyos := ss[m.codOp];
    var n, ds' := Enviadas(suyos), ds + Envios(m, suyos);
    assert Destinos(n) == suyos;
    assert AQuien(ss, m.codOp, n);
    forall i | 0 <= i < |n|
      ensures (m, n[i].suscriptor) in ds'
    {
      assert ds'[|ds| + i] == (m, suyos[i]);
    }
    assert SeEnvio(ds', m, n);
    forall k | 0 <= k < |ms|
      ensures SeEnvio(ds', ms[k], es[k])
    {
      assert SeEnvio(ds, ms[k], es[k]) && ms[k] != m;
      forall i | 0 <= i < |es[k]|
        ensures (ms[k], es[k][i].suscriptor) in ds'
      {
        assert (ms[k], es[k][i].suscriptor) in ds;
      }
    }
  }

  lemma SeVa(ss: map<Cola, seq<Suscriptor>>, ms: seq<Mensaje>, es: seq<seq<Entrada>>, ds: seq<(Mensaje, Suscriptor)>,
      i: nat)
    requires Correcto(ss, ms, es, ds) && i < |ms|
    ensures Correcto(ss, Quitar(ms, i), Quitar(es, i), ds)
  {
    var ms', es' := Quitar(ms, i), Quitar(es, i);
    assert forall k :: 0 <= k < |ms'| ==>
      ms'[k] == ms[if k < i then k else k + 1] && es'[k] == es[if k < i then k else k + 1];
  }

  lemma SinMensajesNinguno(c: Cola)
    ensures DelTipo([], c) == []
  {
  }

  lemma {:induction false} DelTipoUnoMas(ms: seq<Mensaje>, i: nat, c: Cola)
    requires i < |ms|
    ensures DelTipo(ms[..i + 1], c) == DelTipo(ms[..i], c) + (if ms[i].codOp == c then [ms[i]] else [])
  {
    if i == 0 {
      assert ms[..1] == [ms[0]] && ms[..1][1..] == [] && ms[..0] == [];
    } else {
      DelTipoUnoMas(ms[1..], i - 1, c);
      assert ms[..i + 1][1..] == ms[1..][..i] && ms[..i][1..] == ms[1..][..i - 1];
    }
  }

  lemma {:induction false} LosDelTipo(ms: seq<Mensaje>, c: Cola)
    requires SinRepetidos(ms)
    ensures SinRepetidos(DelTipo(ms, c))
    ensures forall k :: 0 <= k < |DelTipo(ms, c)| ==> DelTipo(ms, c)[k] in ms && DelTipo(ms, c)[k].codOp == c
    ensures forall k :: 0 <= k < |ms| && ms[k].codOp == c ==> ms[k] in DelTipo(ms, c)
  {
    if ms != [] {
      LosDelTipo(ms[1..], c);
      assert forall k :: 1 <= k < |ms| ==> ms[k] == ms[1..][k - 1];
      assert ms[0] !in ms[1..];
      var r := DelTipo(ms[1..], c);
      assert forall k :: 0 <= k < |r| ==> r[k] in ms[1..];
      assert ms[0] !in r;
    }
  }

  /** The entries of the resident messages when one more subscriber of a queue joins. */
  function ConEntrada(ms: seq<Mensaje>, es: seq<seq<Entrada>>, c: Cola, s: Suscriptor): (r: seq<seq<Entrada>>)
    requires |es| == |ms|
    ensures |r| == |ms|
  {
    seq(|ms|, k requires 0 <= k < |ms| => if ms[k].codOp == c then es[k] + [Entrada(s, true)] else es[k])
  }

  lemma AQuienConUnoMas(ss: map<Cola, seq<Suscriptor>>, c: Cola, s: Suscriptor, codOp: Cola, es: seq<Entrada>)
    requires ListasDeSuscriptores(ss) && ListasDeSuscriptores(ss[c := ss[c] + [s]]) && AQuien(ss, codOp, es)
    requires forall d: Cola :: d in ss ==> s !in ss[d]
    ensures AQuien(ss[c := ss[c] + [s]], codOp, if codOp == CodOpDe(c) then es + [Entrada(s, true)] else es)
  {
    var ss' := ss[c := ss[c] + [s]];
    var d := Destinos(es);
    if codOp == CodOpDe(c) {
      var r := es + [Entrada(s, true)];
      assert Destinos(r) == d + [s];
      assert s !in d by {
        if codOp == GET {
          assert s !in ss[GET] + ss[LOCALIZED];
          assert forall i :: 0 <= i < |d| ==> d[i] in ss[GET] + ss[LOCALIZED];
        }
      }
      assert SinRepetidos(d + [s]);
      if codOp == GET {
        assert TodosEn(ss'[GET], d + [s]);
        assert TodosEn(d + [s], ss'[GET] + ss'[LOCALIZED]);
      }
    } else if codOp == GET {
      assert ss'[GET] == ss[GET] && ss'[LOCALIZED] == ss[LOCALIZED];
    }
  }

  lemma ListasConUnoMas(ss: map<Cola, seq<Suscriptor>>, c: Cola, s: Suscriptor)
    requires ListasDeSuscriptores(ss) && forall d: Cola :: d in ss ==> s !in ss[d]
    ensures ListasDeSuscriptores(ss[c := ss[c] + [s]])
  {
  }

  /**
   A process that subscribes for the first time gets every resident message matched with its queue, and
   each resident message still goes once to each of those it is for.
   */
  lemma SeSuscribe(ss: map<Cola, seq<Suscriptor>>, ms: seq<Mensaje>, es: seq<seq<Entrada>>,
      ds: seq<(Mensaje, Suscriptor)>,
                   c: Cola, s: Suscriptor)
    requires Correcto(ss, ms, es, ds)
    requires forall d: Cola :: d in ss ==> s !in ss[d]
    requires forall d :: 0 <= d < |ds| ==> ds[d].1 != s
    ensures Correcto(ss[c := ss[c] + [s]], ms, ConEntrada(ms, es, CodOpDe(c), s),
              ds + EnviosA(DelTipo(ms, CodOpDe(c)), s))
  {
    var ss', op := ss[c := ss[c] + [s]], CodOpDe(c);
    var es', n := ConEntrada(ms, es, op, s), DelTipo(ms, op);
    var ds' := ds + EnviosA(n, s);
    ListasConUnoMas(ss, c, s);
    LosDelTipo(ms, op);
    assert SinRepetidos(ds');
    forall k | 0 <= k < |ms|
      ensures AQuien(ss', ms[k].codOp, es'[k]) && SeEnvio(ds', ms[k], es'[k])
    {
      AQuienConUnoMas(ss, c, s, ms[k].codOp, es[k]);
      SeEnvioAUnoMas(ds, n, s, ms, k, es[k]);
    }
  }

  lemma SeEnvioAUnoMas(ds: seq<(Mensaje, Suscriptor)>, n: seq<Mensaje>, s: Suscriptor, ms: seq<Mensaje>, k: nat,
      es: seq<Entrada>)
    requires k < |ms| && SeEnvio(ds, ms[k], es)
    ensures ms[k] in n ==> SeEnvio(ds + EnviosA(n, s), ms[k], es + [Entrada(s, true)])
    ensures ms[k] !in n ==> SeEnvio(ds + EnviosA(n, s), ms[k], es)
  {
    var m, ds' := ms[k], ds + EnviosA(n, s);
    forall i | 0 <= i < |es|
      ensures (m, es[i].suscriptor) in ds'
    {
      assert (m, es[i].suscriptor) in ds;
    }
    if m in n {
      var j :| 0 <= j < |n| && n[j] == m;
      assert ds'[|ds| + j] == (m, s);
      var r := es + [Entrada(s, true)];
      assert Destinos(r) == Destinos(es) + [s];
    }
  }

  /**
   In NEW, APPEARED, CATCH and CAUGHT every resident message was sent once to each subscriber of its
   queue and to nobody else, and has one entry for each, marked.  It does not matter which came first.
   */
  lemma UnaVezACadaUno(ss: map<Cola, seq<Suscriptor>>, ms: seq<Mensaje>, es: seq<seq<Entrada>>,
      ds: seq<(Mensaje, Suscriptor)>,
                       k: nat, s: Suscriptor)
    requires Correcto(ss, ms, es, ds) && k < |ms| && ms[k].codOp in {NEW, APPEARED, CATCH, CAUGHT}
    ensures multiset(ds)[(ms[k], s)] == if s in ss[ms[k].codOp] then 1 else 0
    ensures multiset(es[k])[Entrada(s, true)] == if s in ss[ms[k].codOp] then 1 else 0
    ensures multiset(es[k])[Entrada(s, false)] == 0
  {
    var m, e, d := ms[k], es[k], Destinos(es[k]);
    assert AQuien(ss, m.codOp, e) && SeEnvio(ds, m, e);
    assert forall i :: 0 <= i < |e| ==> d[i] == e[i].suscriptor;
    assert forall i, j :: 0 <= i < j < |e| ==> d[i] != d[j];
    assert SinRepetidos(e);
    if multiset(ds)[(m, s)] >= 2 {
      AlmenosDos(ds, (m, s));
    }
    if multiset(e)[Entrada(s, true)] >= 2 {
      AlmenosDos(e, Entrada(s, true));
    }
    if s in d {
      var i :| 0 <= i < |d| && d[i] == s;
      assert e[i] == Entrada(s, true) && (m, e[i].suscriptor) in ds;
    }
  }

  /** Those an entry says have not been sent to. */
  function Pendientes(es: seq<Entrada>): seq<Suscriptor>
  {
    if es == [] then [] else Pendientes(es[..|es| - 1]) + (if es[|es| - 1].ack then [] else [es[|es| - 1].suscriptor])
  }

  function Marcadas(es: seq<Entrada>): (r: seq<Entrada>)
    ensures |r| == |es|
  {
    seq(|es|, i requires 0 <= i < |es| => es[i].(ack := true))
  }

  lemma {:induction false} NingunaEnviada(ss: seq<Suscriptor>)
    ensures Pendientes(SinEnviar(ss)) == ss && Marcadas(SinEnviar(ss)) == Enviadas(ss)
  {
    if ss != [] {
      var n := |ss| - 1;
      NingunaEnviada(ss[..n]);
      assert SinEnviar(ss)[..n] == SinEnviar(ss[..n]);
      assert ss == ss[..n] + [ss[n]];
    }
  }

  lemma MarcarUnaMas(es: seq<Entrada>, i: nat)
    requires i < |es|
    ensures Pendientes(es[..i + 1]) == Pendientes(es[..i]) + (if es[i].ack then [] else [es[i].suscriptor])
    ensures Marcadas(es[..i + 1]) + es[i + 1..] == (Marcadas(es[..i]) + es[i..])[i := es[i].(ack := true)]
  {
    assert es[..i + 1][..i] == es[..i];
  }

  datatype Busqueda = Encontrado(suscriptor: Suscriptor) | Ninguno | Falla

  predicate EsEl(s: Suscriptor, ip: string, puerto: string)
  {
    s.direccion.Some? && IgualesSinCaja(s.direccion.value.0, ip) && IgualesSinCaja(s.direccion.value.1, puerto)
  }

  /** Address and port count, letter by letter, upper and lower case being the same; a Game Boy is nobody. */
  lemma EsElSii(s: Suscriptor, ip: string, puerto: string)
    ensures EsEl(s, ip, puerto) <==>
              && s.direccion.Some? && |s.direccion.value.0| == |ip| && |s.direccion.value.1| == |puerto|
              && (forall i :: 0 <= i < |ip| ==> MismaLetra(s.direccion.value.0[i], ip[i]))
              && (forall i :: 0 <= i < |puerto| ==> MismaLetra(s.direccion.value.1[i], puerto[i]))
  {
    if s.direccion.Some? {
      IgualesSii(s.direccion.value.0, ip);
      IgualesSii(s.direccion.value.1, puerto);
    }
  }

  /** Nobody in the list is the process, and no Game Boy is in its way; a Game Boy is always somebody new. */
  ghost predicate EsNuevo(q: seq<Suscriptor>, direccion: Option<(string, string)>)
  {
    direccion.Some? ==> forall k :: 0 <= k < |q| ==>
      q[k].direccion.Some? && !EsEl(q[k], direccion.value.0, direccion.value.1)
  }

  /** A Game Boy comes in the list before the process that is looked for, or that one is not there. */
  ghost predicate TropiezaConUnGameBoy(q: seq<Suscriptor>, direccion: Option<(string, string)>)
  {
    && direccion.Some?
    && exists i ::
         && 0 <= i < |q| && q[i].direccion.None?
         && (forall j :: 0 <= j < i ==> !EsEl(q[j], direccion.value.0, direccion.value.1))
  }

  ghost predicate AlgunaDelSocket(es: seq<Entrada>, socket: int)
    reads set i | 0 <= i < |es| :: es[i].suscriptor
  {
    exists i :: 0 <= i < |es| && es[i].suscriptor.socket == socket
  }

  /** What happens to the broker from outside. */
  datatype Evento =
    | Publicacion(c: Cola)
    | Desalojo(cual: nat)
    | Suscripcion(c: Cola, direccion: Option<(string, string)>, socket: int)

  /** Subscriptions of processes with an address, to the queues whose subscribers are matched with its own messages. */
  predicate SuscripcionComun(e: Evento)
  {
    e.Suscripcion? ==> e.direccion.Some? && e.c != LOCALIZED
  }

  ghost predicate TienenDireccion(ss: map<Cola, seq<Suscriptor>>)
  {
    forall c: Cola, k :: c in ss && 0 <= k < |ss[c]| ==> ss[c][k].direccion.Some?
  }

  /** In the four queues, one send and one marked entry for each resident message and subscriber, and none else. */
  ghost predicate ExactamenteUnaVez(ss: map<Cola, seq<Suscriptor>>, ms: seq<Mensaje>, es: seq<seq<Entrada>>,
                                    ds: seq<(Mensaje, Suscriptor)>, k: nat, s: Suscriptor)
    requires k < |ms| && |es| == |ms| && ms[k].codOp in ss
  {
    var n := if s in ss[ms[k].codOp] then 1 else 0;
    multiset(ds)[(ms[k], s)] == n && multiset(es[k])[Entrada(s, true)] == n && multiset(es[k])[Entrada(s, false)] == 0
  }

  /** The subscription is one more of this process, which is in the list of that queue. */
  ghost predicate EsElQueVuelve(e: Evento, d: Cola, s: Suscriptor)
  {
    e.Suscripcion? && d == e.c && e.direccion.Some? && EsEl(s, e.direccion.value.0, e.direccion.value.1)
  }

  /** The process is found in the list of its queue. */
  ghost predicate YaEstaba(e: Evento, ss: map<Cola, seq<Suscriptor>>)
    requires forall c: Cola :: c in ss
  {
    e.Suscripcion? && !EsNuevo(ss[e.c], e.direccion) && !TropiezaConUnGameBoy(ss[e.c], e.direccion)
  }

  class Broker {
    var suscriptores: map<Cola, seq<Suscriptor>>
    var mensajes: seq<Mensaje>
    /** Every send started, in order: which message, to whom. */
    var despachos: seq<(Mensaje, Suscriptor)>

    ghost function Entradas(): (r: seq<seq<Entrada>>)
      reads this`mensajes, mensajes
      ensures |r| == |mensajes|
    {
      EntradasDe(mensajes)
    }

    ghost predicate Valid()
      reads this, mensajes
    {
      Correcto(suscriptores, mensajes, Entradas(), despachos)
    }

    constructor ()
      ensures Valid() && mensajes == [] && despachos == [] && Objetos() == {}
      ensures forall c: Cola :: c in suscriptores && suscriptores[c] == []
    {
      suscriptores := map[NEW := [], APPEARED := [], CATCH := [], CAUGHT := [], GET := [], LOCALIZED := []];
      mensajes, despachos := [], [];
      new;
      forall c: Cola
        ensures c in suscriptores && suscriptores[c] == []
      {
        match c { case NEW => case APPEARED => case CATCH => case CAUGHT => case GET => case LOCALIZED => }
      }
    }

    /** enviar_mensaje_a_suscriptos: each entry not yet sent is marked and sent. */
    method EnviarMensajeASuscriptos(m: Mensaje)
      modifies this`despachos, m
      ensures m.entradas == Marcadas(old(m.entradas))
      ensures despachos == old(despachos) + Envios(m, Pendientes(old(m.entradas)))
    {
      hide Pendientes, Marcadas;
      var count := 0;
      ghost var es := m.entradas;
      NingunaEnviada([]);
      assert Marcadas(es[..0]) + es[0..] == es;
      while count < |m.entradas|
        invariant 0 <= count <= |m.entradas| == |es|
        invariant m.entradas == Marcadas(es[..count]) + es[count..]
        invariant despachos == old(despachos) + Envios(m, Pendientes(es[..count]))
      {
        MarcarUnaMas(es, count);
        if !m.entradas[count].ack {
          m.entradas := m.entradas[count := m.entradas[count].(ack := true)];
          despachos := despachos + [(m, m.entradas[count].suscriptor)];
        }
        count := count + 1;
      }
      assert es[..count] == es && es[count..] == [];
    }

    /** A message is kept, with an entry for each subscriber of its queue, and sent to them. */
    method Publicar(codOp: Cola) returns (m: Mensaje)
      requires Valid()
      modifies this`mensajes, this`despachos
      ensures Valid() && fresh(m) && m.codOp == codOp && mensajes == old(mensajes) + [m]
      ensures m.entradas == Enviadas(suscriptores[codOp])
      ensures despachos == old(despachos) + Envios(m, suscriptores[codOp])
    {
      m := new Mensaje(codOp, suscriptores[codOp]);
      Llega(suscriptores, mensajes, Entradas(), despachos, m);
      NingunaEnviada(suscriptores[codOp]);
      mensajes := mensajes + [m];
      EnviarMensajeASuscriptos(m);
      assert Entradas() == old(Entradas()) + [Enviadas(suscriptores[codOp])];
    }

    /** An eviction forgets a message; what was sent of it stays sent. */
    method Desalojar(i: nat)
      requires Valid() && i < |mensajes|
      modifies this`mensajes
      ensures Valid() && mensajes == Quitar(old(mensajes), i)
    {
      SeVa(suscriptores, mensajes, Entradas(), despachos, i);
      mensajes := Quitar(mensajes, i);
      assert Entradas() == Quitar(old(Entradas()), i);
    }

    /**
     obtenerSuscriptor: a Game Boy is never found, and comparing with one that is in the list before the
     process looked for reads a null address.
     */
    method ObtenerSuscriptor(c: Cola, direccion: Option<(string, string)>) returns (r: Busqueda)
      requires c in suscriptores
      ensures direccion.None? ==> r == Ninguno
      ensures direccion.Some? ==>
                (r == Falla <==> exists i :: 0 <= i < |suscriptores[c]| && suscriptores[c][i].direccion.None?
                                          && NoEstaAntes(suscriptores[c], i, direccion.value))
      ensures r.Encontrado? ==> direccion.Some? && r.suscriptor in suscriptores[c]
                                && EsEl(r.suscriptor, direccion.value.0, direccion.value.1)
      ensures r == Ninguno && direccion.Some? ==> NoEstaAntes(suscriptores[c], |suscriptores[c]|, direccion.value)
    {
      if direccion.None? {
        return Ninguno;
      }
      var lista := suscriptores[c];
      var i := 0;
      while i < |lista|
        invariant 0 <= i <= |lista|
        invariant forall j :: 0 <= j < i ==> lista[j].direccion.Some?
        invariant NoEstaAntes(lista, i, direccion.value)
      {
        if lista[i].direccion.None? {
          return Falla;
        }
        if EsEl(lista[i], direccion.value.0, direccion.value.1) {
          return Encontrado(lista[i]);
        }
        i := i + 1;
      }
      return Ninguno;
    }

    static ghost predicate NoEstaAntes(ss: seq<Suscriptor>, n: nat, d: (string, string))
    {
      forall j :: 0 <= j < n && j < |ss| ==> !EsEl(ss[j], d.0, d.1)
    }

    /** A new subscriber is added to every resident message matched with its queue, and sent it. */
    method ReenviarANuevo(c: Cola, s: Suscriptor)
      requires SinRepetidos(mensajes)
      modifies this`despachos, mensajes
      ensures Entradas() == ConEntrada(mensajes, old(Entradas()), CodOpDe(c), s)
      ensures despachos == old(despachos) + EnviosA(DelTipo(mensajes, CodOpDe(c)), s)
    {
      hide DelTipo, Destinos;
      var i := 0;
      ghost var es := Entradas();
      assert mensajes[..0] == [] && DelTipo([], CodOpDe(c)) == [] by {
        SinMensajesNinguno(CodOpDe(c));
      }
      while i < |mensajes|
        invariant 0 <= i <= |mensajes|
        invariant forall k :: 0 <= k < i ==> mensajes[k].entradas == ConEntrada(mensajes, es, CodOpDe(c), s)[k]
        invariant forall k :: i <= k < |mensajes| ==> mensajes[k].entradas == es[k]
        invariant despachos == old(despachos) + EnviosA(DelTipo(mensajes[..i], CodOpDe(c)), s)
      {
        var m := mensajes[i];
        DelTipoUnoMas(mensajes, i, CodOpDe(c));
        if m.codOp == CodOpDe(c) {
          m.entradas := m.entradas + [Entrada(s, false)];
          var u := |m.entradas| - 1;
          m.entradas := m.entradas[u := m.entradas[u].(ack := true)];
          despachos := despachos + [(m, s)];
        }
        i := i + 1;
      }
      assert mensajes[..i] == mensajes;
    }

    /**
     A process that comes back is looked for in each message by its socket.  Nothing is sent, as every
     entry is already marked; a message without an entry for that socket is read through a null pointer.
     */
    method ReenviarAConocido(c: Cola, socket: int) returns (ok: bool)
      requires Valid()
      ensures ok <==> forall k :: 0 <= k < |mensajes| && mensajes[k].codOp == CodOpDe(c) ==>
                AlgunaDelSocket(mensajes[k].entradas, socket)
    {
      var i := 0;
      while i < |mensajes|
        invariant 0 <= i <= |mensajes|
        invariant forall k :: 0 <= k < i && mensajes[k].codOp == CodOpDe(c) ==>
                    AlgunaDelSocket(mensajes[k].entradas, socket)
      {
        var m := mensajes[i];
        if m.codOp == CodOpDe(c) {
          var j := 0;
          while j < |m.entradas| && m.entradas[j].suscriptor.socket != socket
            invariant 0 <= j <= |m.entradas|
            invariant forall k :: 0 <= k < j ==> m.entradas[k].suscriptor.socket != socket
          {
            j := j + 1;
          }
          if j == |m.entradas| {
            return false;
          }
          assert AQuien(suscriptores, mensajes[i].codOp, Entradas()[i]);
          assert m.entradas[j].ack;
        }
        i := i + 1;
      }
      return true;
    }

    /** The process found in its queue has an entry in every message matched with it, except for LOCALIZED. */
    lemma TieneEntradas(c: Cola, s: Suscriptor, k: nat)
      requires Valid() && c != LOCALIZED && s in suscriptores[c] && k < |mensajes| && mensajes[k].codOp == CodOpDe(c)
      ensures AlgunaDelSocket(mensajes[k].entradas, s.socket)
    {
      var es := Entradas()[k];
      assert AQuien(suscriptores, mensajes[k].codOp, es);
      assert s in Destinos(es);
      var i :| 0 <= i < |es| && Destinos(es)[i] == s;
      assert es[i].suscriptor.socket == s.socket;
    }

    /**
     The subscription of a process to a queue.  The first time, it is sent every resident message matched
     with the queue.  Later on only its socket changes and nothing is sent; then the call fails on a message
     it has no entry in, which is only possible for LOCALIZED, matched as it is with the messages of GET.
     */
    method Suscribir(c: Cola, direccion: Option<(string, string)>, socket: int)
        returns (b: Busqueda, s: Suscriptor?, ok: bool)
      requires Valid()
      modifies this`suscriptores, this`despachos, mensajes, suscriptores[c]
      ensures Valid() && mensajes == old(mensajes)
      ensures b == Falla <==>
                && direccion.Some?
                && exists i ::
                     && 0 <= i < |old(suscriptores[c])| && old(suscriptores[c])[i].direccion.None?
                     && NoEstaAntes(old(suscriptores[c]), i, direccion.value)
      ensures b == Falla ==> !ok && unchanged(this) && Entradas() == old(Entradas())
      ensures b.Encontrado? ==> unchanged(this) && Entradas() == old(Entradas())
                                && s == b.suscriptor && s in suscriptores[c] && s.socket == socket
                                && direccion.Some? && EsEl(s, direccion.value.0, direccion.value.1)
      ensures b.Encontrado? && c != LOCALIZED ==> ok
      ensures b.Encontrado? ==> (ok <==> forall k :: 0 <= k < |mensajes| && mensajes[k].codOp == CodOpDe(c) ==>
                                           AlgunaDelSocket(mensajes[k].entradas, socket))
      ensures b == Ninguno && direccion.Some? ==>
                NoEstaAntes(old(suscriptores[c]), |old(suscriptores[c])|, direccion.value)
      ensures b == Ninguno ==> ok && fresh(s) && s.direccion == direccion && s.socket == socket
      ensures b == Ninguno ==> suscriptores == old(suscriptores)[c := old(suscriptores[c]) + [s]]
      ensures b == Ninguno ==> despachos == old(despachos) + EnviosA(DelTipo(mensajes, CodOpDe(c)), s)
      ensures b == Ninguno ==> Entradas() == ConEntrada(mensajes, old(Entradas()), CodOpDe(c), s)
      ensures forall d: Cola, k | d in old(suscriptores) && 0 <= k < |old(suscriptores)[d]| ::
                (b.Encontrado? && d == c && old(suscriptores)[d][k] == s)
                || old(suscriptores)[d][k].socket == old(suscriptores[d][k].socket)
    {
      hide AQuien, SeEnvio, DelTipo, EnviosA;
      b := ObtenerSuscriptor(c, direccion);
      match b
      case Falla =>
        s, ok := null, false;
      case Encontrado(quien) =>
        s := quien;
        quien.socket := socket;
        assert Entradas() == old(Entradas());
        ok := ReenviarAConocido(c, socket);
        if c != LOCALIZED {
          forall k | 0 <= k < |mensajes| && mensajes[k].codOp == CodOpDe(c)
            ensures AlgunaDelSocket(mensajes[k].entradas, socket)
          {
            TieneEntradas(c, quien, k);
          }
        }
      case Ninguno =>
        var nuevo := new Suscriptor(direccion, socket);
        SeSuscribe(suscriptores, mensajes, Entradas(), despachos, c, nuevo);
        suscriptores := suscriptores[c := suscriptores[c] + [nuevo]];
        ReenviarANuevo(c, nuevo);
        s, ok := nuevo, true;
    }

    /** The messages kept and the processes known. */
    ghost function Objetos(): (r: set<object>)
      reads this
      ensures forall k :: 0 <= k < |mensajes| ==> mensajes[k] in r
      ensures forall c: Cola, k :: c in suscriptores && 0 <= k < |suscriptores[c]| ==> suscriptores[c][k] in r
    {
      (set k | 0 <= k < |mensajes| :: mensajes[k] as object)
      + (set c: Cola, k | c in suscriptores && 0 <= k < |suscriptores[c]| :: suscriptores[c][k] as object)
    }

    /** One event; what it adds is new, and the process it fails for is one without address or of LOCALIZED. */
    method Atender(e: Evento) returns (ok: bool)
      requires Valid()
      modifies this, Objetos()
      ensures Valid() && forall c: Cola :: c in suscriptores && c in old(suscriptores)
      ensures e.Publicacion? ==>
                ok && suscriptores == old(suscriptores) && mensajes != [] && mensajes[..|mensajes| - 1] == old(mensajes)
      ensures e.Publicacion? ==>
                var m := mensajes[|mensajes| - 1];
                && fresh(m) && m.codOp == e.c && m.entradas == Enviadas(suscriptores[e.c])
                && despachos == old(despachos) + Envios(m, suscriptores[e.c])
      ensures e.Desalojo? ==> ok && suscriptores == old(suscriptores) && despachos == old(despachos)
      ensures e.Desalojo? ==>
                mensajes == if e.cual < |old(mensajes)| then Quitar(old(mensajes), e.cual) else old(mensajes)
      ensures e.Suscripcion? ==> mensajes == old(mensajes)
      ensures e.Suscripcion? && EsNuevo(old(suscriptores)[e.c], e.direccion) ==>
                ok && suscriptores[e.c] != [] &&
                var s := suscriptores[e.c][|suscriptores[e.c]| - 1];
                && fresh(s) && s.direccion == e.direccion && s.socket == e.socket
                && suscriptores == old(suscriptores)[e.c := old(suscriptores)[e.c] + [s]]
                && Entradas() == ConEntrada(mensajes, old(Entradas()), CodOpDe(e.c), s)
                && despachos == old(despachos) + EnviosA(DelTipo(mensajes, CodOpDe(e.c)), s)
      ensures e.Suscripcion? && !EsNuevo(old(suscriptores)[e.c], e.direccion) ==>
                suscriptores == old(suscriptores) && despachos == old(despachos) && Entradas() == old(Entradas())
      ensures forall d: Cola, k | d in old(suscriptores) && 0 <= k < |old(suscriptores)[d]| ::
                EsElQueVuelve(e, d, old(suscriptores)[d][k])
                || old(suscriptores)[d][k].socket == old(suscriptores[d][k].socket)
      ensures YaEstaba(e, old(suscriptores)) ==>
                && (exists k :: 0 <= k < |suscriptores[e.c]| && EsElQueVuelve(e, e.c, suscriptores[e.c][k])
                                && suscriptores[e.c][k].socket == e.socket)
                && (ok <==> forall k :: 0 <= k < |mensajes| && mensajes[k].codOp == CodOpDe(e.c) ==>
                              AlgunaDelSocket(mensajes[k].entradas, e.socket))
      ensures e.Suscripcion? && TropiezaConUnGameBoy(old(suscriptores)[e.c], e.direccion) ==> !ok
      ensures e.Suscripcion? && !TropiezaConUnGameBoy(old(suscriptores)[e.c], e.direccion) && e.c != LOCALIZED ==> ok
      ensures forall o :: o in Objetos() ==> o in old(Objetos()) || fresh(o)
      ensures SuscripcionComun(e) && TienenDireccion(old(suscriptores)) ==> ok && TienenDireccion(suscriptores)
    {
      hide Correcto, ConEntrada, EnviosA, Envios, Enviadas, DelTipo;
      ok := true;
      TodasLasColas();
      match e {
        case Publicacion(c) =>
          var _ := Publicar(c);
        case Desalojo(cual) =>
          if cual < |mensajes| {
            Desalojar(cual);
          }
        case Suscripcion(c, direccion, socket) =>
          ghost var antes := suscriptores;
          var b, s, bien := Suscribir(c, direccion, socket);
          ok := bien;
          SegunLoHallado(antes[c], direccion, b);
          if b == Ninguno {
            forall d: Cola, k | d in suscriptores && 0 <= k < |suscriptores[d]|
              ensures suscriptores[d][k] == s || suscriptores[d][k] in old(Objetos())
            {
              assert (d == c && k == |antes[c]|) || suscriptores[d][k] == antes[d][k];
            }
          }
      }
      TodasLasColas();
    }

    /** The three ways in which the search over a queue may end. */
    static lemma SegunLoHallado(q: seq<Suscriptor>, direccion: Option<(string, string)>, b: Busqueda)
      requires b == Falla <==> direccion.Some? && exists i :: 0 <= i < |q| && q[i].direccion.None?
                                                             && NoEstaAntes(q, i, direccion.value)
      requires b == Ninguno && direccion.Some? ==> NoEstaAntes(q, |q|, direccion.value)
      requires b.Encontrado? ==> direccion.Some? && b.suscriptor in q
                                 && EsEl(b.suscriptor, direccion.value.0, direccion.value.1)
      ensures b == Falla <==> TropiezaConUnGameBoy(q, direccion)
      ensures b == Ninguno <==> EsNuevo(q, direccion)
    {
      if direccion.Some? && TropiezaConUnGameBoy(q, direccion) {
        var i :| 0 <= i < |q| && q[i].direccion.None?
                 && forall j :: 0 <= j < i ==> !EsEl(q[j], direccion.value.0, direccion.value.1);
        assert NoEstaAntes(q, i, direccion.value);
      }
    }

    lemma TodasLasColas()
      requires Valid()
      ensures forall c: Cola :: c in suscriptores
    {
    }
  }

  /**
   How LOCALIZED fails: a process subscribed to it before a GET is published is not among those the
   message is for, and when it comes back it is looked for there.
   */
  method LocalizedQueVuelve(ip: string, puerto: string, socket: int, otro: int) returns (ok: bool)
    ensures !ok
  {
    hide Correcto, ConEntrada, EnviosA, Envios, DelTipo;
    var b := new Broker();
    var _, s, _ := b.Suscribir(LOCALIZED, Some((ip, puerto)), socket);
    assert b.suscriptores[LOCALIZED] == [s];
    assert b.suscriptores[GET] == [];
    var m := b.Publicar(GET);
    assert m.entradas == [] && b.mensajes == [m] && b.suscriptores[LOCALIZED] == [s];
    ok := Vuelve(b, s, m, ip, puerto, otro);
  }

  method Vuelve(b: Broker, s: Suscriptor, m: Mensaje, ip: string, puerto: string, otro: int) returns (ok: bool)
    requires b.Valid() && LOCALIZED in b.suscriptores && b.suscriptores[LOCALIZED] == [s]
             && s.direccion == Some((ip, puerto))
    requires b.mensajes == [m] && m.codOp == GET && m.entradas == []
    modifies b, m, s
    ensures !ok
  {
    hide Correcto, ConEntrada, EnviosA, DelTipo;
    assert EsEl(s, ip, puerto) && b.Entradas()[0] == [];
    var r, _, bien := b.Suscribir(LOCALIZED, Some((ip, puerto)), otro);
    assert [s][0] == s;
    assert !Broker.NoEstaAntes(b.suscriptores[LOCALIZED], 1, (ip, puerto));
    ok := bien;
  }

  ghost function EntradasDe(ms: seq<Mensaje>): (r: seq<seq<Entrada>>)
    reads ms
    ensures |r| == |ms|
    ensures forall i :: 0 <= i < |ms| ==> r[i] == ms[i].entradas
  {
    seq(|ms|, i requires 0 <= i < |ms| reads ms => ms[i].entradas)
  }
}
