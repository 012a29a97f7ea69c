/**
 A Team that captures all it needs and does not end: five trainers, seven species, and an exchange that
 meets the name freed in an earlier one.
 */
module FallaDeEquipo {
  import opened Secuencias
  import opened Leyes
  import opened Entrenadores
  import opened Tratos
  import opened Resolucion
  import opened Capturas
  import opened Team
  import opened CorridasDeEquipo

  // ---- captures of what is not wanted ----

  /** A trainer that has captured only what others want. */
  ghost function Esperando(faltan: multiset<string>, sobran: seq<string>, maximo: int): Foto
  {
    Foto(BLOCKED, false, Nulo, Ficha(multiset{}, faltan, sobran, maximo))
  }

  /** The next to be made is of what its trainer does not want. */
  ghost predicate CapturaAjena(c: Cuadro, cs: seq<Captura>)
  {
    && cs != [] && cs[0].exito && PuedeIntentar(c, cs[0].quien)
    && cs[0].especie !in c.fotos[cs[0].quien].ficha.faltan && !Satisfecha(c.fotos[cs[0].quien].ficha)
  }

  ghost function ConUnaDeMas(c: Cuadro, x: Captura): Cuadro
    requires x.quien < |c.fotos|
  {
    var f := c.fotos[x.quien];
    var ficha := f.ficha.(sobran := f.ficha.sobran + [x.especie], maximo := f.ficha.maximo - 1);
    Cuadro(c.fotos[x.quien := Foto(BLOCKED, false, f.nota, ficha)], PasaAlFinal(c.orden, x.quien, true))
  }

  lemma UnaAjena(c: Cuadro, cs: seq<Captura>)
    requires CapturaAjena(c, cs)
    ensures TrasCapturas(c, cs) == TrasCapturas(ConUnaDeMas(c, cs[0]), cs[1..])
    ensures multiset(Efectivas(Cupos(c.fotos), cs))
         == multiset(Efectivas(Cupos(ConUnaDeMas(c, cs[0]).fotos), cs[1..])) + multiset{cs[0].especie}
  {
    LaPrimeraEfectiva(c, cs);
    CuposTrasCaptura(c, cs[0]);
    assert TrasCaptura(c, cs[0]) == ConUnaDeMas(c, cs[0]);
  }

  /** A new trainer makes one capture, of what it does not want: it waits at the end. */
  lemma CapturaUna(c: Cuadro, cs: seq<Captura>, i: nat, a: string, x: string)
    requires i < |c.fotos| && i !in c.orden && c.fotos[i] == FotoInicial(Planilla([a], [])) && a != x
    requires cs != [] && cs[0] == Captura(i, x, true)
    ensures var d := Cuadro(c.fotos[i := Esperando(multiset{a}, [x], 0)], c.orden + [i]);
            && TrasCapturas(c, cs) == TrasCapturas(d, cs[1..])
            && multiset(Efectivas(Cupos(c.fotos), cs)) == multiset(Efectivas(Cupos(d.fotos), cs[1..])) + multiset{x}
  {
    hide TrasCapturas, Efectivas, Cupos;
    assert LeFalta(Planilla([a], [])) == multiset{a};
    UnaAjena(c, cs);
    assert [] + [x] == [x];
    assert ConUnaDeMas(c, cs[0]) == Cuadro(c.fotos[i := Esperando(multiset{a}, [x], 0)], c.orden + [i]);
  }

  /** A new trainer makes two captures in a row, of what it does not want. */
  lemma CapturaDos(c: Cuadro, cs: seq<Captura>, i: nat, a: string, b: string, x: string, y: string)
    requires i < |c.fotos| && i !in c.orden && c.fotos[i] == FotoInicial(Planilla([a, b], []))
    requires a != b && a != x && a != y && b != x && b != y
    requires |cs| >= 2 && cs[0] == Captura(i, x, true) && cs[1] == Captura(i, y, true)
    ensures var d := Cuadro(c.fotos[i := Esperando(multiset{a, b}, [x, y], 0)], c.orden + [i]);
            && TrasCapturas(c, cs) == TrasCapturas(d, cs[2..])
            && multiset(Efectivas(Cupos(c.fotos), cs)) == multiset(Efectivas(Cupos(d.fotos), cs[2..])) + multiset{x, y}
  {
    hide TrasCapturas, Efectivas, Cupos, Sacar;
    var d := Cuadro(c.fotos[i := Esperando(multiset{a, b}, [x], 1)], c.orden + [i]);
    assert CapturaAjena(c, cs) && ConUnaDeMas(c, cs[0]) == d by {
      assert LeFalta(Planilla([a, b], [])) == multiset{a, b};
      assert [] + [x] == [x];
    }
    UnaAjena(c, cs);
    UnaAjena(d, cs[1..]);
    SacarElUltimo(c.orden, i);
    assert [x] + [y] == [x, y];
    assert ConUnaDeMas(d, cs[1]) == Cuadro(c.fotos[i := Esperando(multiset{a, b}, [x, y], 0)], c.orden + [i]);
    assert cs[1..][1..] == cs[2..];
    assert multiset{x, y} == multiset{x} + multiset{y};
  }

  // ---- the run ----

  ghost predicate SonDistintos(p: string, q: string, r: string, s: string, u: string, v: string, w: string)
  {
    && p != q && p != r && p != s && p != u && p != v && p != w && q != r && q != s && q != u && q != v && q != w
    && r != s && r != u && r != v && r != w && s != u && s != v && s != w && u != v && u != w && v != w
  }

  function Configuracion(p: string, q: string, r: string, s: string, u: string, v: string, w: string): seq<Planilla>
  {
    [Planilla([p, q], []), Planilla([u], []), Planilla([v, s], []), Planilla([w], []), Planilla([r], [])]
  }

  /** The first captures u and r, the second p, the third w and q, the fourth v and the fifth s. */
  function LasCapturas(p: string, q: string, r: string, s: string, u: string, v: string, w: string): seq<Captura>
  {
    [Captura(0, u, true), Captura(0, r, true), Captura(1, p, true), Captura(2, w, true), Captura(2, q, true),
     Captura(3, v, true), Captura(4, s, true)]
  }

  /** Five trainers in the order of the queue, nothing left to capture and no notes taken. */
  ghost function Trabados(p: string, q: string, r: string, s: string, u: string, v: string, w: string): Cuadro
  {
    Cuadro([Esperando(multiset{p, q}, [u, r], 0), Esperando(multiset{u}, [p], 0),
            Esperando(multiset{v, s}, [w, q], 0), Esperando(multiset{w}, [v], 0), Esperando(multiset{r}, [s], 0)],
           [0, 1, 2, 3, 4])
  }

  /** The first two trainers, the next two and the last make their captures. */
  lemma LosPrimerosDos(c: Cuadro, cs: seq<Captura>, p: string, q: string, u: string, r: string)
    requires |c.fotos| >= 2 && c.orden == [] && p != q && p != u && p != r && q != u && q != r
    requires c.fotos[0] == FotoInicial(Planilla([p, q], [])) && c.fotos[1] == FotoInicial(Planilla([u], []))
    requires |cs| >= 3 && cs[..3] == [Captura(0, u, true), Captura(0, r, true), Captura(1, p, true)]
    ensures var f := c.fotos[0 := Esperando(multiset{p, q}, [u, r], 0)][1 := Esperando(multiset{u}, [p], 0)];
            && TrasCapturas(c, cs) == TrasCapturas(Cuadro(f, [0, 1]), cs[3..])
            && multiset(Efectivas(Cupos(c.fotos), cs))
            == multiset(Efectivas(Cupos(f), cs[3..])) + multiset{p} + multiset{u, r}
  {
    hide TrasCapturas, Efectivas, Cupos, FotoInicial;
    CapturaDos(c, cs, 0, p, q, u, r);
    assert c.orden + [0] == [0] && [0] + [1] == [0, 1] && cs[2..][1..] == cs[3..];
    CapturaUna(Cuadro(c.fotos[0 := Esperando(multiset{p, q}, [u, r], 0)], [0]), cs[2..], 1, u, p);
  }

  lemma LosOtrosDos(c: Cuadro, cs: seq<Captura>, v: string, s: string, w: string, q: string)
    requires |c.fotos| >= 4 && c.orden == [0, 1] && v != s && v != w && v != q && s != w && s != q
    requires c.fotos[2] == FotoInicial(Planilla([v, s], [])) && c.fotos[3] == FotoInicial(Planilla([w], []))
    requires |cs| >= 3 && cs[..3] == [Captura(2, w, true), Captura(2, q, true), Captura(3, v, true)]
    ensures var f := c.fotos[2 := Esperando(multiset{v, s}, [w, q], 0)][3 := Esperando(multiset{w}, [v], 0)];
            && TrasCapturas(c, cs) == TrasCapturas(Cuadro(f, [0, 1, 2, 3]), cs[3..])
            && multiset(Efectivas(Cupos(c.fotos), cs))
            == multiset(Efectivas(Cupos(f), cs[3..])) + multiset{v} + multiset{w, q}
  {
    hide TrasCapturas, Efectivas, Cupos, FotoInicial;
    CapturaDos(c, cs, 2, v, s, w, q);
    assert c.orden + [2] == [0, 1, 2] && [0, 1, 2] + [3] == [0, 1, 2, 3] && cs[2..][1..] == cs[3..];
    CapturaUna(Cuadro(c.fotos[2 := Esperando(multiset{v, s}, [w, q], 0)], [0, 1, 2]), cs[2..], 3, w, v);
  }

  /** The captures leave the five so, and are all that was needed. */
  lemma SeTraban(p: string, q: string, r: string, s: string, u: string, v: string, w: string)
    requires SonDistintos(p, q, r, s, u, v, w)
    ensures TrasCapturas(Inicio(Configuracion(p, q, r, s, u, v, w)), LasCapturas(p, q, r, s, u, v, w))
         == Trabados(p, q, r, s, u, v, w)
    ensures TodoCapturado(Configuracion(p, q, r, s, u, v, w), LasCapturas(p, q, r, s, u, v, w))
  {
    hide TrasCapturas, Efectivas, Cupos, FotoInicial, LoQueFalta;
    var c, cs := Inicio(Configuracion(p, q, r, s, u, v, w)), LasCapturas(p, q, r, s, u, v, w);
    LosPrimerosDos(c, cs, p, q, u, r);
    var f := c.fotos[0 := Esperando(multiset{p, q}, [u, r], 0)][1 := Esperando(multiset{u}, [p], 0)];
    LosOtrosDos(Cuadro(f, [0, 1]), cs[3..], v, s, w, q);
    var g := f[2 := Esperando(multiset{v, s}, [w, q], 0)][3 := Esperando(multiset{w}, [v], 0)];
    assert cs[3..][3..] == cs[6..] == [Captura(4, s, true)] && cs[6..][1..] == [];
    assert [0, 1, 2, 3] + [4] == [0, 1, 2, 3, 4];
    CapturaUna(Cuadro(g, [0, 1, 2, 3]), cs[6..], 4, r, s);
    var d := Cuadro(g[4 := Esperando(multiset{r}, [s], 0)], [0, 1, 2, 3, 4]);
    SinMasCapturas(d);
    assert d == Trabados(p, q, r, s, u, v, w);
    LoQuePiden(p, q, r, s, u, v, w);
    SonLosMismos(p, q, r, s, u, v, w);
  }

  lemma SonLosMismos(p: string, q: string, r: string, s: string, u: string, v: string, w: string)
    ensures multiset{} + multiset{s} + multiset{v} + multiset{w, q} + multiset{p} + multiset{u, r}
         == multiset{p, q} + multiset{u} + multiset{v, s} + multiset{w} + multiset{r}
  {
    DeADos(p, q);
    DeADos(v, s);
    DeADos(w, q);
    DeADos(u, r);
    Reordenados(multiset{p}, multiset{q}, multiset{r}, multiset{s}, multiset{u}, multiset{v}, multiset{w});
  }

  lemma DeADos(x: string, y: string)
    ensures multiset{x, y} == multiset{x} + multiset{y}
  {
  }

  lemma Reordenados(p: multiset<string>, q: multiset<string>, r: multiset<string>, s: multiset<string>,
                    u: multiset<string>, v: multiset<string>, w: multiset<string>)
    ensures multiset{} + s + v + (w + q) + p + (u + r) == (p + q) + u + (v + s) + w + r
  {
    var a, b := multiset{} + s + v + (w + q) + p + (u + r), (p + q) + u + (v + s) + w + r;
    forall x
      ensures a[x] == b[x]
    {
    }
  }

  lemma SinMasCapturas(c: Cuadro)
    ensures TrasCapturas(c, []) == c && multiset(Efectivas(Cupos(c.fotos), [])) == multiset{}
  {
    SinCapturas(c);
  }

  lemma FaltaDeCinco(a: Planilla, b: Planilla, c: Planilla, d: Planilla, e: Planilla)
    ensures LoQueFalta([a, b, c, d, e]) == LeFalta(a) + LeFalta(b) + LeFalta(c) + LeFalta(d) + LeFalta(e)
  {
    hide LeFalta;
    FaltaDeTres(a, b, c);
    assert [a, b, c, d][..3] == [a, b, c];
    assert [a, b, c, d, e][..4] == [a, b, c, d];
  }

  lemma FaltaDeTres(a: Planilla, b: Planilla, c: Planilla)
    ensures LoQueFalta([a, b, c]) == LeFalta(a) + LeFalta(b) + LeFalta(c)
  {
    hide LeFalta;
    assert [a][..0] == [] && [a, b][..1] == [a] && [a, b, c][..2] == [a, b];
    assert LoQueFalta([a]) == LoQueFalta([]) + LeFalta(a);
  }

  lemma LoQuePiden(p: string, q: string, r: string, s: string, u: string, v: string, w: string)
    ensures LoQueFalta(Configuracion(p, q, r, s, u, v, w))
         == multiset{p, q} + multiset{u} + multiset{v, s} + multiset{w} + multiset{r}
  {
    hide LeFalta, LoQueFalta;
    FaltaDeCinco(Planilla([p, q], []), Planilla([u], []), Planilla([v, s], []), Planilla([w], []), Planilla([r], []));
    FaltaDeDos(p, q);
    FaltaDeDos(v, s);
    FaltaDeUno(u);
    FaltaDeUno(w);
    FaltaDeUno(r);
  }

  lemma FaltaDeDos(a: string, b: string)
    ensures LeFalta(Planilla([a, b], [])) == multiset{a, b}
  {
  }

  lemma FaltaDeUno(a: string)
    ensures LeFalta(Planilla([a], [])) == multiset{a}
  {
  }

  // ---- the exchanges ----

  lemma {:induction false} TodosOfrecen(f: seq<Foto>, orden: seq<nat>)
    requires EnRango(orden, |f|)
    requires forall k :: 0 <= k < |orden| ==> f[orden[k]].ficha.sobran != [] && !f[orden[k]].ocupado
    ensures Ofrecen(f, orden) == orden
  {
    if orden != [] {
      TodosOfrecen(f, orden[1..]);
    }
  }

  /** The first of the queue wants the one thing the second holds. */
  ghost predicate VaPrimero(c: Cuadro, m: nat, e: nat, x: string)
  {
    && |c.orden| >= 2 && c.orden[0] == m && c.orden[1] == e && EsOrden(c)
    && (forall k :: 0 <= k < |c.orden| ==> c.fotos[c.orden[k]].ficha.sobran != [] && !c.fotos[c.orden[k]].ocupado)
    && x in c.fotos[m].ficha.faltan && c.fotos[e].ficha.sobran == [x]
  }

  lemma EsElPar(c: Cuadro, m: nat, e: nat, x: string)
    requires VaPrimero(c, m, e, x)
    ensures ParElegido(c).Some? && ElPar(c) == (m, e)
  {
    TodosOfrecen(c.fotos, c.orden);
    assert Quiere(c.fotos, m, e);
    LaPrimeraEleccion(c.fotos, c.orden, 0, 1);
  }

  lemma AmbosDanElPrimero(m: Ficha, e: Ficha, x: string, y: string, z: string, t: string)
    requires m.faltan == multiset{x, z} && m.sobran == [y, t] && e.faltan == multiset{y} && e.sobran == [x] && x != z
    ensures LoQueTomaria(m.faltan, e.sobran).Some? && Trato(m, e) == (x, y)
    ensures Intercambiado(m, y, x).faltan == multiset{z} && (y != x ==> Intercambiado(m, y, x).sobran == [t])
    ensures Satisfecha(Intercambiado(e, x, y))
  {
    SacarElPrimero([y, t]);
    assert [y, t][1..] == [t];
    assert multiset{x, z} - multiset{x} == multiset{z};
    assert multiset{y} - multiset{y} == multiset{};
  }

  /** Each gives the first of its list and wants the other's; the second has then all it wanted. */
  lemma TratoParejo(c: Cuadro, m: nat, e: nat, x: string, y: string, z: string, t: string, resto: seq<nat>)
    requires VaPrimero(c, m, e, x) && c.orden == [m, e] + resto && x != z && x != y
    requires c.fotos[m].ficha.faltan == multiset{x, z} && c.fotos[m].ficha.sobran == [y, t]
    requires c.fotos[e].ficha.faltan == multiset{y}
    ensures ParElegido(c).Some?
    ensures var d := TrasElTrato(c, false);
            && |d.fotos| == |c.fotos| && d.orden == resto + [m]
            && (forall k :: 0 <= k < |c.fotos| && k != m && k != e ==> d.fotos[k] == c.fotos[k])
            && d.fotos[m].estado == BLOCKED && !d.fotos[m].ocupado && d.fotos[m].nota == Liberado
            && d.fotos[m].ficha.sobran == [t] && d.fotos[m].ficha.faltan == multiset{z}
  {
    hide EsOrden, ParElegido, Sacar, Intercambiado, LoQueTomaria, Trato, ElPar, PasaAlFinal;
    EsElPar(c, m, e, x);
    AmbosDanElPrimero(c.fotos[m].ficha, c.fotos[e].ficha, x, y, z, t);
    SalenLosDos(c.orden, m, e, resto);
  }

  lemma SalenLosDos(orden: seq<nat>, m: nat, e: nat, resto: seq<nat>)
    requires orden == [m, e] + resto && m != e
    ensures Sacar(PasaAlFinal(orden, m, true), e) == resto + [m]
  {
    hide Sacar;
    SacarElPrimero(orden);
    assert orden[1..] == [e] + resto;
    assert ([e] + resto) + [m] == [e] + (resto + [m]);
    SacarElPrimero([e] + (resto + [m]));
  }

  lemma SacarElPrimero<T>(s: seq<T>)
    requires s != []
    ensures Sacar(s, s[0]) == s[1..]
  {
  }

  /** The first wants the one thing the second holds; that one keeps a freed name and wants nothing in return. */
  lemma TratoQueFalla(c: Cuadro, m: nat, e: nat, x: string, y: string, z: string)
    requires VaPrimero(c, m, e, x) && y != z && c.fotos[m].ficha.sobran == [y]
    requires c.fotos[e].ficha.faltan == multiset{z} && c.fotos[e].nota == Liberado
    ensures ParElegido(c).Some? && !SaleBien(c.fotos, ElPar(c).0, ElPar(c).1)
  {
    EsElPar(c, m, e, x);
    assert multiset{z} !! multiset([y]);
  }

  /**
   The search has the first trade with the second and the third with the fourth; the first keeps a
   freed name, and when the fifth then comes for what it has, it wants nothing in return.
   */
  lemma NoSeResuelve(p: string, q: string, r: string, s: string, u: string, v: string, w: string)
    requires SonDistintos(p, q, r, s, u, v, w)
    requires EnRegla(Trabados(p, q, r, s, u, v, w), multiset{})
    ensures !Resuelve(Trabados(p, q, r, s, u, v, w), multiset{}, false)
  {
    hide EsOrden, ParElegido, Coherentes, TrasElTrato, Resuelve, SaleBien;
    var c := Trabados(p, q, r, s, u, v, w);
    TratoParejo(c, 0, 1, p, u, q, r, [2, 3, 4]);
    UnTratoMas(c, multiset{}, false);
    var d := TrasElTrato(c, false);
    TratoParejo(d, 2, 3, v, w, s, q, [4, 0]);
    UnTratoMas(d, multiset{}, false);
    var e := TrasElTrato(d, false);
    assert e.orden == [4, 0, 2];
    TratoQueFalla(e, 4, 0, r, s, q);
    SiFallaElSiguiente(e);
    SiFallaElSiguiente(d);
    SiFallaElSiguiente(c);
  }

  lemma SiFallaElSiguiente(c: Cuadro)
    requires EsOrden(c) && Coherentes(c.fotos, multiset{}) && ParElegido(c).Some?
    ensures EsOrden(TrasElTrato(c, false)) && Coherentes(TrasElTrato(c, false).fotos, multiset{})
    ensures !Resuelve(TrasElTrato(c, false), multiset{}, false) ==> !Resuelve(c, multiset{}, false)
    ensures !SaleBien(c.fotos, ElPar(c).0, ElPar(c).1) ==> !Resuelve(c, multiset{}, false)
  {
    hide EsOrden, ParElegido, Coherentes, TrasElTrato, SaleBien;
    UnTratoMas(c, multiset{}, false);
  }

  /** A configuration and captures of all it needs from which, as the source does it, not every trainer ends. */
  lemma LaFallaSeAlcanza(p: string, q: string, r: string, s: string, u: string, v: string, w: string)
    requires SonDistintos(p, q, r, s, u, v, w)
    ensures TodoCapturado(Configuracion(p, q, r, s, u, v, w), LasCapturas(p, q, r, s, u, v, w))
    ensures !TodosTerminan(Configuracion(p, q, r, s, u, v, w), LasCapturas(p, q, r, s, u, v, w), false)
  {
    hide Resuelve, EnRegla, TrasCapturas, Inicio, TodoCapturado;
    SeTraban(p, q, r, s, u, v, w);
    ListoParaIntercambiar(Configuracion(p, q, r, s, u, v, w), LasCapturas(p, q, r, s, u, v, w));
    NoSeResuelve(p, q, r, s, u, v, w);
  }

  /** And run: as the source does it the exchanges fail, and with the note nulled after use everybody ends. */
  method CorrerLaFalla(p: string, q: string, r: string, s: string, u: string, v: string, w: string, anula: bool)
      returns (ok: bool)
    requires SonDistintos(p, q, r, s, u, v, w)
    ensures ok <==> anula
  {
    hide TodosTerminan, TodoCapturado, Alcanza, TrasCapturas, UnoDeMas, Inicio;
    LaFallaSeAlcanza(p, q, r, s, u, v, w);
    var e, capturo;
    e, capturo, ok := Correr(Configuracion(p, q, r, s, u, v, w), LasCapturas(p, q, r, s, u, v, w), anula);
  }
}
