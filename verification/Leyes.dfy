/**
 The two conservation laws of a Team, on what its trainers lack and hold in excess, and what
 follows from them once nothing is left to capture.
 */
module Leyes {
  import opened Secuencias

  /** A trainer's state, reduced to what the laws speak of. */
  datatype Ficha = Ficha(tiene: multiset<string>, faltan: multiset<string>, sobran: seq<string>, maximo: int)

  /**
   Per trainer: what it lacks is what it may still capture plus what it captured without needing it,
   and it lacks nothing that it holds in excess.
   */
  ghost predicate Equilibrada(f: Ficha)
  {
    && f.maximo >= 0
    && |f.faltan| == f.maximo + |f.sobran|
    && f.faltan !! multiset(f.sobran)
  }

  ghost function Faltantes(fs: seq<Ficha>): multiset<string>
  {
    if fs == [] then multiset{} else fs[0].faltan + Faltantes(fs[1..])
  }

  ghost function Sobrantes(fs: seq<Ficha>): multiset<string>
  {
    if fs == [] then multiset{} else multiset(fs[0].sobran) + Sobrantes(fs[1..])
  }

  /** Per species: what the trainers lack is what the Team still has to capture plus what some hold in excess. */
  ghost predicate LeyGlobal(fs: seq<Ficha>, globales: multiset<string>)
  {
    Faltantes(fs) == globales + Sobrantes(fs)
  }

  ghost predicate Leyes(fs: seq<Ficha>, globales: multiset<string>)
  {
    (forall i :: 0 <= i < |fs| ==> Equilibrada(fs[i])) && LeyGlobal(fs, globales)
  }

  lemma {:induction false} CambiarFicha(fs: seq<Ficha>, i: nat, f: Ficha)
    requires i < |fs|
    ensures Faltantes(fs[i := f]) + fs[i].faltan == Faltantes(fs) + f.faltan
    ensures Sobrantes(fs[i := f]) + multiset(fs[i].sobran) == Sobrantes(fs) + multiset(f.sobran)
  {
    if i > 0 {
      CambiarFicha(fs[1..], i - 1, f);
      var r := fs[i := f][1..];
      assert r == fs[1..][i - 1 := f];
      assert fs[0].faltan + Faltantes(r) + fs[i].faltan == fs[0].faltan + (Faltantes(r) + fs[i].faltan);
      assert multiset(fs[0].sobran) + Sobrantes(r) + multiset(fs[i].sobran)
          == multiset(fs[0].sobran) + (Sobrantes(r) + multiset(fs[i].sobran));
      assert fs[0].faltan + (Faltantes(fs[1..]) + f.faltan) == Faltantes(fs) + f.faltan;
      assert multiset(fs[0].sobran) + (Sobrantes(fs[1..]) + multiset(f.sobran)) == Sobrantes(fs) + multiset(f.sobran);
    } else {
      assert fs[i := f][1..] == fs[1..];
    }
  }

  lemma {:induction false} SumarFicha(fs: seq<Ficha>, f: Ficha)
    ensures Faltantes(fs + [f]) == Faltantes(fs) + f.faltan
    ensures Sobrantes(fs + [f]) == Sobrantes(fs) + multiset(f.sobran)
  {
    if fs == [] {
      assert fs + [f] == [f];
    } else {
      SumarFicha(fs[1..], f);
      assert (fs + [f])[1..] == fs[1..] + [f];
    }
  }

  lemma {:induction false} Alguno(fs: seq<Ficha>, s: string)
    ensures s in Faltantes(fs) <==> exists i :: 0 <= i < |fs| && s in fs[i].faltan
    ensures s in Sobrantes(fs) <==> exists i :: 0 <= i < |fs| && s in multiset(fs[i].sobran)
  {
    if fs != [] {
      Alguno(fs[1..], s);
      assert forall i :: 1 <= i < |fs| ==> fs[i] == fs[1..][i - 1];
      assert forall i :: 0 <= i < |fs[1..]| ==> fs[1..][i] == fs[i + 1];
    }
  }

  function SumaMaximos(fs: seq<Ficha>): int
  {
    if fs == [] then 0 else fs[0].maximo + SumaMaximos(fs[1..])
  }

  lemma {:induction false} TotalDeFaltantes(fs: seq<Ficha>)
    requires forall i :: 0 <= i < |fs| ==> Equilibrada(fs[i])
    ensures |Faltantes(fs)| == SumaMaximos(fs) + |Sobrantes(fs)|
    ensures forall i :: 0 <= i < |fs| ==> 0 <= fs[i].maximo <= SumaMaximos(fs)
  {
    if fs != [] {
      TotalDeFaltantes(fs[1..]);
      assert Equilibrada(fs[0]);
      assert forall i :: 1 <= i < |fs| ==> fs[i] == fs[1..][i - 1];
    }
  }

  /** The captures the Team still needs and the captures its trainers may still make are equally many. */
  lemma CapturasQueQuedan(fs: seq<Ficha>, globales: multiset<string>)
    requires Leyes(fs, globales)
    ensures SumaMaximos(fs) == |globales|
    ensures forall i :: 0 <= i < |fs| ==> fs[i].maximo <= |globales|
  {
    TotalDeFaltantes(fs);
  }

  ghost function Recibido(f: Ficha, s: string): Ficha
  {
    if s in f.faltan then f.(tiene := f.tiene + multiset{s}, faltan := f.faltan - multiset{s})
    else f.(sobran := f.sobran + [s])
  }

  ghost function Capturado(f: Ficha, s: string): Ficha
  {
    Recibido(f, s).(maximo := f.maximo - 1)
  }

  ghost function Entregado(f: Ficha, s: string): Ficha
  {
    f.(sobran := Sacar(f.sobran, s))
  }

  /** A sum of two terms survives a change to its terms that adds as much on one side as on the other. */
  lemma Compensar(f: multiset<string>, f': multiset<string>, g: multiset<string>, g': multiset<string>,
                  s: multiset<string>, s': multiset<string>,
                  a: multiset<string>, a': multiset<string>, b: multiset<string>, b': multiset<string>)
    requires f == g + s && f' + a == f + a' && s' + b == s + b'
    requires a' + b + g == g' + a + b'
    ensures f' == g' + s'
  {
    forall x
      ensures f'[x] == (g' + s')[x]
    {
      assert (f' + a)[x] == (f + a')[x] && (s' + b)[x] == (s + b')[x] && (a' + b + g)[x] == (g' + a + b')[x];
    }
  }

  /** Two changes to a sum, one after the other. */
  lemma Equilibrio(t: multiset<string>, t1: multiset<string>, t2: multiset<string>,
                   a: multiset<string>, b: multiset<string>, a': multiset<string>, b': multiset<string>)
    requires t1 + a == t + a' && t2 + b == t1 + b'
    ensures t2 + (a + b) == t + (a' + b')
  {
    assert t2 + (a + b) == (t2 + b) + a == (t1 + a) + b' == t + (a' + b');
  }

  /** The law moves with any balanced change that takes the same from what lacks and from what remains. */
  lemma CambioConserva(fs: seq<Ficha>, globales: multiset<string>, i: nat, f: Ficha, resto: multiset<string>)
    requires Leyes(fs, globales) && i < |fs| && Equilibrada(f)
    requires f.faltan + multiset(fs[i].sobran) + globales == resto + fs[i].faltan + multiset(f.sobran)
    ensures Leyes(fs[i := f], resto)
  {
    hide Faltantes, Sobrantes, Equilibrada;
    CambiarFicha(fs, i, f);
    Compensar(Faltantes(fs), Faltantes(fs[i := f]), globales, resto, Sobrantes(fs), Sobrantes(fs[i := f]),
              fs[i].faltan, f.faltan, multiset(fs[i].sobran), multiset(f.sobran));
  }

  /** A capture by a trainer that may still capture, of a species the Team still needs, keeps both laws. */
  lemma CapturaConserva(fs: seq<Ficha>, globales: multiset<string>, i: nat, s: string)
    requires Leyes(fs, globales) && i < |fs| && s in globales && fs[i].maximo != 0
    ensures Leyes(fs[i := Capturado(fs[i], s)], globales - multiset{s})
  {
    assert Equilibrada(fs[i]);
    CambioConserva(fs, globales, i, Capturado(fs[i], s), globales - multiset{s});
  }

  /** After giving dado and receiving tomado. */
  ghost function Intercambiado(f: Ficha, dado: string, tomado: string): Ficha
  {
    Recibido(Entregado(f, dado), tomado)
  }

  lemma CambioDeDos(fs: seq<Ficha>, globales: multiset<string>, m: nat, fm: Ficha, e: nat, fe: Ficha)
    requires Leyes(fs, globales) && m < |fs| && e < |fs| && m != e && Equilibrada(fm) && Equilibrada(fe)
    requires (fm.faltan + fe.faltan) + (multiset(fs[m].sobran) + multiset(fs[e].sobran))
          == (fs[m].faltan + fs[e].faltan) + (multiset(fm.sobran) + multiset(fe.sobran))
    ensures Leyes(fs[m := fm][e := fe], globales)
  {
    hide Faltantes, Sobrantes, Equilibrada;
    CambiarFicha(fs, m, fm);
    CambiarFicha(fs[m := fm], e, fe);
    var r1, r := fs[m := fm], fs[m := fm][e := fe];
    assert r1[e] == fs[e];
    Equilibrio(Faltantes(fs), Faltantes(r1), Faltantes(r), fs[m].faltan, fs[e].faltan, fm.faltan, fe.faltan);
    Equilibrio(Sobrantes(fs), Sobrantes(r1), Sobrantes(r),
               multiset(fs[m].sobran), multiset(fs[e].sobran), multiset(fm.sobran), multiset(fe.sobran));
    var a, a' := fs[m].faltan + fs[e].faltan, fm.faltan + fe.faltan;
    var b, b' := multiset(fs[m].sobran) + multiset(fs[e].sobran), multiset(fm.sobran) + multiset(fe.sobran);
    assert a' + b + globales == globales + (a' + b) == globales + a + b';
    Compensar(Faltantes(fs), Faltantes(r), globales, globales, Sobrantes(fs), Sobrantes(r), a, a', b, b');
  }

  /**
   An exchange in which m needs what it takes from e keeps both laws: m lacks one pokemon less,
   and e never lacks more than before.
   */
  lemma IntercambioConserva(fs: seq<Ficha>, globales: multiset<string>, m: nat, e: nat, toma: string, da: string)
    requires Leyes(fs, globales) && m < |fs| && e < |fs| && m != e
    requires toma in fs[m].faltan && toma in multiset(fs[e].sobran) && da in multiset(fs[m].sobran)
    ensures Leyes(fs[m := Intercambiado(fs[m], da, toma)][e := Intercambiado(fs[e], toma, da)], globales)
    ensures |Faltantes(fs[m := Intercambiado(fs[m], da, toma)][e := Intercambiado(fs[e], toma, da)])|
         == |Faltantes(fs)| - (if da in fs[e].faltan then 2 else 1)
  {
    var fm, fe := Intercambiado(fs[m], da, toma), Intercambiado(fs[e], toma, da);
    assert Equilibrada(fs[m]) && Equilibrada(fs[e]);
    EquilibradaTras(fs[m], da, toma);
    EquilibradaTras(fs[e], toma, da);
    CambioDeDos(fs, globales, m, fm, e, fe);
    CambiarFicha(fs, m, fm);
    CambiarFicha(fs[m := fm], e, fe);
    var r1, r := fs[m := fm], fs[m := fm][e := fe];
    assert |Faltantes(r1)| + |fs[m].faltan| == |Faltantes(r1) + fs[m].faltan| == |Faltantes(fs)| + |fm.faltan|;
    assert |Faltantes(r)| + |fs[e].faltan| == |Faltantes(r) + fs[e].faltan| == |Faltantes(r1)| + |fe.faltan|;
    assert |fm.faltan| == |fs[m].faltan| - 1;
    assert |fe.faltan| == |fs[e].faltan| - (if da in fs[e].faltan then 1 else 0);
    CambiarFicha(fs, m, fm);
    CambiarFicha(fs[m := fm], e, fe);
  }

  /** What a trainer is to end up with: what it has of its objectives plus what it lacks. */
  ghost function Meta(f: Ficha): multiset<string>
  {
    f.tiene + f.faltan
  }

  lemma RecibirNoMueveLaMeta(f: Ficha, s: string)
    ensures Meta(Recibido(f, s)) == Meta(f)
  {
    if s in f.faltan {
      assert (f.tiene + multiset{s}) + (f.faltan - multiset{s}) == f.tiene + f.faltan;
    }
  }

  lemma EntregarNoMueveLaMeta(f: Ficha, s: string)
    ensures Meta(Entregado(f, s)) == Meta(f)
  {
  }

  lemma EquilibradaTras(f: Ficha, da: string, toma: string)
    requires Equilibrada(f) && da in multiset(f.sobran) && da != toma
    ensures Equilibrada(Intercambiado(f, da, toma))
  {
  }

  ghost predicate LeSirve(fs: seq<Ficha>, a: nat, b: nat)
    requires a < |fs| && b < |fs|
  {
    !(fs[a].faltan !! multiset(fs[b].sobran))
  }

  ghost predicate Satisfecha(f: Ficha)
  {
    f.faltan == multiset{}
  }

  /**
   Once nothing is left to capture, a trainer that lacks something finds another that holds it
   in excess, and both hold something in excess to give.
   */
  lemma HayIntercambio(fs: seq<Ficha>, a: nat) returns (b: nat)
    requires Leyes(fs, multiset{}) && a < |fs| && !Satisfecha(fs[a])
    ensures b < |fs| && a != b && LeSirve(fs, a, b)
    ensures fs[a].sobran != [] && fs[b].sobran != []
    ensures !Satisfecha(fs[b])
  {
    CapturasQueQuedan(fs, multiset{});
    assert Equilibrada(fs[a]);
    var s :| s in fs[a].faltan;
    Alguno(fs, s);
    assert s in Faltantes(fs);
    b :| 0 <= b < |fs| && s in multiset(fs[b].sobran);
    assert Equilibrada(fs[b]);
    assert |fs[a].faltan| > 0;
    assert |fs[b].sobran| > 0;
  }

  /** The search has nothing to find exactly when everybody is satisfied; then nobody holds anything in excess. */
  lemma SinIntercambioSiiSatisfechos(fs: seq<Ficha>)
    requires Leyes(fs, multiset{})
    ensures (forall a, b :: 0 <= a < |fs| && 0 <= b < |fs| && a != b ==> !LeSirve(fs, a, b))
       <==> (forall a :: 0 <= a < |fs| ==> Satisfecha(fs[a]))
    ensures (forall a :: 0 <= a < |fs| ==> Satisfecha(fs[a])) ==> forall a :: 0 <= a < |fs| ==> fs[a].sobran == []
  {
    forall a | 0 <= a < |fs| && !Satisfecha(fs[a])
      ensures exists b :: 0 <= b < |fs| && a != b && LeSirve(fs, a, b)
    {
      var b := HayIntercambio(fs, a);
    }
    forall a | 0 <= a < |fs| && Satisfecha(fs[a])
      ensures fs[a].sobran == []
    {
      assert Equilibrada(fs[a]);
      assert |fs[a].sobran| == 0;
    }
  }
}
