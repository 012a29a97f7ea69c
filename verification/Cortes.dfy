/**
 A file's text cut across fixed-size blocks: the canonical cut, how writing keeps it, and when
 each reader recovers the lines.
 */
module Cortes {
  import opened Potencias
  import opened Secuencias
  import opened LineasDeBloque

  /** The text in pieces of b bytes; all full but the last, and at least one. */
  function Trozos(s: string, b: nat): (r: seq<string>)
    requires b > 0
    ensures r != []
    decreases |s|
  {
    if |s| <= b then [s] else [s[..b]] + Trozos(s[b..], b)
  }

  /** How many blocks a file of n bytes takes: n over b rounded up, and never 0. */
  function CantidadBloques(n: nat, b: nat): nat
    requires b > 0
  {
    var c := (n + b - 1) / b;
    if c == 0 then 1 else c
  }

  lemma TechoPaso(n: nat, b: nat)
    requires b > 0
    ensures n > b ==> CantidadBloques(n, b) == 1 + CantidadBloques(n - b, b)
    ensures n <= b ==> CantidadBloques(n, b) == 1
  {
    if n > b {
      CocienteMenosUno(n + b - 1, b);
    }
  }

  lemma CocienteMenosUno(x: nat, b: nat)
    requires 0 < b <= x
    ensures x / b == 1 + (x - b) / b
  {
    SumaModulo(x - b, b);
  }

  /** The canonical cut is one: its length, the sizes of its pieces, and their join. */
  lemma {:induction false} TrozosSonCorte(s: string, b: nat)
    requires b > 0
    ensures var r := Trozos(s, b);
            && |r| == CantidadBloques(|s|, b)
            && Juntar(r) == s
            && (forall i :: 0 <= i < |r| - 1 ==> |r[i]| == b)
            && |r[|r| - 1]| <= b && (|r| > 1 ==> r[|r| - 1] != "")
    decreases |s|
  {
    TechoPaso(|s|, b);
    if |s| <= b {
      JuntarUno(s);
    } else {
      TrozosSonCorte(s[b..], b);
      assert Trozos(s, b)[1..] == Trozos(s[b..], b);
      assert s == s[..b] + s[b..];
    }
  }

  /** Nothing else is cut so: full pieces, and a last one that is empty only if alone. */
  lemma {:induction false} CorteEsTrozos(bs: seq<string>, b: nat)
    requires b > 0 && bs != [] && |bs[|bs| - 1]| <= b
    requires forall i :: 0 <= i < |bs| - 1 ==> |bs[i]| == b
    requires |bs| > 1 ==> bs[|bs| - 1] != ""
    ensures bs == Trozos(Juntar(bs), b)
    decreases |bs|
  {
    if |bs| == 1 {
      JuntarUno(bs[0]);
      assert bs == [bs[0]];
    } else {
      CorteEsTrozos(bs[1..], b);
      var s := Juntar(bs);
      JuntarNoVacio(bs[1..]);
      assert s[..b] == bs[0] && s[b..] == Juntar(bs[1..]);
    }
  }

  lemma {:induction false} JuntarNoVacio(bs: seq<string>)
    requires bs != [] && bs[|bs| - 1] != ""
    ensures Juntar(bs) != ""
    decreases |bs|
  {
    if |bs| > 1 {
      JuntarNoVacio(bs[1..]);
    }
  }

  /** The last piece is what the full ones leave. */
  lemma {:induction false} TrozosSuma(s: string, b: nat)
    requires b > 0
    ensures var r := Trozos(s, b); |s| == b * (|r| - 1) + |r[|r| - 1]|
    decreases |s|
  {
    if |s| > b {
      TrozosSuma(s[b..], b);
      var r := Trozos(s[b..], b);
      assert Trozos(s, b) == [s[..b]] + r;
      assert b * |r| == b * (|r| - 1) + b;
    }
  }

  lemma {:induction false} CantidadCrece(n: nat, m: nat, b: nat)
    requires b > 0 && n <= m
    ensures CantidadBloques(n, b) <= CantidadBloques(m, b)
    decreases n
  {
    TechoPaso(n, b);
    TechoPaso(m, b);
    if n > b {
      CantidadCrece(n - b, m - b, b);
    }
  }

  lemma {:induction false} UltimoNoVacio(s: string, b: nat)
    requires b > 0
    ensures var r := Trozos(s, b); |r| > 1 ==> r[|r| - 1] != ""
    decreases |s|
  {
    if |s| > b {
      UltimoNoVacio(s[b..], b);
      assert |s[b..]| > b || Trozos(s[b..], b) == [s[b..]];
    }
  }

  // ---- writing a record at the end ----

  /** The blocks after writing l: it continues the last one and, if it must, a new one. */
  function Agregar(bs: seq<string>, l: string, b: nat): (r: seq<string>)
    requires bs != [] && |bs[|bs| - 1]| <= b
    ensures r != []
  {
    var n := |bs| - 1;
    var hueco := b - |bs[n]|;
    if |l| <= hueco then bs[n := bs[n] + l] else bs[n := bs[n] + l[..hueco]] + [l[hueco..]]
  }

  lemma JuntarAgregado(bs: seq<string>, l: string, b: nat)
    requires bs != [] && |bs[|bs| - 1]| <= b
    ensures Juntar(Agregar(bs, l, b)) == Juntar(bs) + l
  {
    var n := |bs| - 1;
    var hueco := b - |bs[n]|;
    assert bs == bs[..n] + [bs[n]];
    JuntarMas(bs[..n], [bs[n]]);
    JuntarUno(bs[n]);
    if |l| <= hueco {
      assert Agregar(bs, l, b) == bs[..n] + [bs[n] + l];
      JuntarMas(bs[..n], [bs[n] + l]);
      JuntarUno(bs[n] + l);
      Asociativa(Juntar(bs[..n]), bs[n], l);
    } else {
      JuntarDeDos(bs[..n], bs[n] + l[..hueco], l[hueco..]);
      assert Agregar(bs, l, b) == bs[..n] + [bs[n] + l[..hueco], l[hueco..]];
      assert l[..hueco] + l[hueco..] == l;
      Asociativa(bs[n], l[..hueco], l[hueco..]);
      Asociativa(Juntar(bs[..n]), bs[n], l);
    }
  }

  lemma JuntarDeDos(bs: seq<string>, x: string, y: string)
    ensures Juntar(bs + [x, y]) == Juntar(bs) + (x + y)
  {
    JuntarMas(bs, [x, y]);
    assert [x, y][1..] == [y];
    JuntarUno(y);
  }

  /** What the last block holds and the record together fit two blocks: always so for one of at most a block. */
  predicate EntraEnDos(bs: seq<string>, l: string, b: nat)
    requires bs != []
  {
    |bs[|bs| - 1]| + |l| <= 2 * b
  }

  /** Writing a record keeps the cut canonical exactly when what goes into the new block fits it. */
  lemma AgregarEsTrozos(s: string, l: string, b: nat)
    requires b > 0 && 0 < |l|
    ensures |Trozos(s, b)[|Trozos(s, b)| - 1]| <= b
    ensures Agregar(Trozos(s, b), l, b) == Trozos(s + l, b) <==> EntraEnDos(Trozos(s, b), l, b)
  {
    var bs := Trozos(s, b);
    TrozosSonCorte(s, b);
    UltimoNoVacio(s, b);
    var r := Agregar(bs, l, b);
    if EntraEnDos(bs, l, b) {
      JuntarAgregado(bs, l, b);
      CorteEsTrozos(r, b);
    } else {
      TrozosSonCorte(s + l, b);
      assert |r[|r| - 1]| > b;
    }
  }

  /** The blocks of the text s once l has been written after it. */
  function TrasAgregar(s: string, l: string, b: nat): (r: seq<string>)
    requires b > 0
    ensures r != []
  {
    TrozosSonCorte(s, b);
    Agregar(Trozos(s, b), l, b)
  }

  /** Of a list of records written one after the other, none leaves more than a block in the last. */
  ghost predicate TodosEntran(ls: seq<string>, b: nat)
    requires b > 0
  {
    forall i :: 0 <= i < |ls| ==> EntraEnDos(Trozos(Juntar(ls[..i]), b), ls[i], b)
  }

  lemma LosCortosEntran(ls: seq<string>, b: nat)
    requires b > 0 && forall i :: 0 <= i < |ls| ==> |ls[i]| <= b
    ensures TodosEntran(ls, b)
  {
    forall i | 0 <= i < |ls|
      ensures EntraEnDos(Trozos(Juntar(ls[..i]), b), ls[i], b)
    {
      TrozosSonCorte(Juntar(ls[..i]), b);
    }
  }

  // ---- reading: the list of a partition ----

  /** The lines of a text, with the last one possibly incomplete. */
  ghost predicate SonLineas(ls: seq<string>, s: string)
  {
    ls == Lineas(s)
  }

  /** meterRegistrosEnLaLista: a last incomplete record takes in the next line read. */
  method MeterRegistrosEnLaLista(lista: seq<string>, bloque: string, ghost leido: string) returns (r: seq<string>)
    requires SonLineas(lista, leido)
    ensures SonLineas(r, leido + bloque)
  {
    var ls := Lineas(bloque);
    LineasSonLineas(bloque);
    JuntarLineas(bloque);
    r := lista;
    assert leido + Juntar([]) == leido;
    for i := 0 to |ls|
      invariant SonLineas(r, leido + Juntar(ls[..i]))
    {
      var duplicado := ls[i];
      ghost var s := leido + Juntar(ls[..i]);
      SiguienteLinea(ls, i);
      Asociativa(leido, Juntar(ls[..i]), duplicado);
      if s != "" {
        UltimaLinea(s);
      }
      if r == [] {
        LineasTrasFin(s, duplicado);
        SolaEsLinea(duplicado);
        r := r + [duplicado];
      } else {
        var ultimo := r[|r| - 1];
        if !Completa(ultimo) {
          LineasConPendiente(s, duplicado);
          r := r[..|r| - 1] + [ultimo + duplicado];
        } else {
          LineasTrasFin(s, duplicado);
          SolaEsLinea(duplicado);
          r := r + [duplicado];
        }
      }
    }
    assert ls[..|ls|] == ls;
  }

  lemma SiguienteLinea(ls: seq<string>, i: nat)
    requires i < |ls|
    ensures Juntar(ls[..i + 1]) == Juntar(ls[..i]) + ls[i]
  {
    assert ls[..i + 1] == ls[..i] + [ls[i]];
    JuntarMas(ls[..i], [ls[i]]);
    JuntarUno(ls[i]);
  }

  lemma SolaEsLinea(l: string)
    requires EsLinea(l)
    ensures Lineas(l) == [l]
  {
    LineaYMas(l, "");
    assert l + "" == l;
  }

  // ---- reading: a file line by line ----

  /**
   What the reader has taken for lines, and the fragment it keeps, are the lines of s: the fragment
   is the last one, when s stops short of a newline.
   */
  ghost predicate Leido(lineas: seq<string>, incompleta: Option<string>, s: string)
  {
    && lineas + (if incompleta.Some? then [incompleta.value] else []) == Lineas(s)
    && (incompleta.Some? <==> Pendiente(s))
  }

  lemma LeidoYPendiente(lineas: seq<string>, incompleta: Option<string>, s: string)
    requires Leido(lineas, incompleta, s)
    ensures incompleta.Some? <==> Pendiente(s)
  {
  }

  lemma LeidoUnaMas(lineas: seq<string>, incompleta: Option<string>, s: string, l: string)
    requires Leido(lineas, incompleta, s) && EsLinea(l)
    ensures incompleta.None? && Completa(l) ==> Leido(lineas + [l], None, s + l)
    ensures incompleta.None? && !Completa(l) ==> Leido(lineas, Some(l), s + l)
    ensures incompleta.Some? && Completa(l) ==> Leido(lineas + [incompleta.value + l], None, s + l)
  {
    assert (s + l)[|s + l| - 1] == l[|l| - 1];
    if incompleta.None? {
      LineasTrasFin(s, l);
      SolaEsLinea(l);
      assert lineas + [] == lineas && lineas + [l] + [] == lineas + [l];
    } else {
      LineasConPendiente(s, l);
      var r := Lineas(s);
      assert r[..|r| - 1] == lineas && r[|r| - 1] == incompleta.value;
      assert lineas + [incompleta.value + l] + [] == lineas + [incompleta.value + l];
    }
  }

  /** Block k reaches the end of the record that was left open before it, if it holds anything. */
  ghost predicate Alcanza(bloques: seq<string>, k: nat)
    requires k < |bloques|
  {
    Pendiente(Juntar(bloques[..k])) && bloques[k] != "" ==> !SinFin(bloques[k])
  }

  /** No record goes on past a whole block. */
  ghost predicate FragmentosAlcanzan(bloques: seq<string>)
  {
    forall k :: 0 <= k < |bloques| ==> Alcanza(bloques, k)
  }

  ghost predicate HayFragmento(lineas: seq<string>)
  {
    exists k :: 0 <= k < |lineas| && !Completa(lineas[k])
  }

  lemma HayFragmentoMas(lineas: seq<string>, l: string)
    ensures HayFragmento(lineas + [l]) <==> HayFragmento(lineas) || !Completa(l)
  {
    var r := lineas + [l];
    if HayFragmento(lineas) {
      var k :| 0 <= k < |lineas| && !Completa(lineas[k]);
      assert !Completa(r[k]);
    }
    if !Completa(l) {
      assert !Completa(r[|lineas|]);
    }
  }

  /** An open fragment meets an incomplete line only at the start of a block without newlines. */
  lemma FragmentoSuelto(s: string, bloque: string, j: nat)
    requires j < |Lineas(bloque)|
    requires Pendiente(s + Juntar(Lineas(bloque)[..j])) && !Completa(Lineas(bloque)[j])
    ensures Pendiente(s) && bloque != "" && SinFin(bloque)
  {
    var ls := Lineas(bloque);
    LineasSonLineas(bloque);
    CompletaCierra(s, ls, j);
    assert ls[..0] == [];
    assert s + Juntar([]) == s;
    JuntarLineas(bloque);
    LineaAbierta(ls[j]);
    UnaLineaEsTodo(ls);
  }

  lemma LineaAbierta(l: string)
    requires EsLinea(l) && !Completa(l)
    ensures SinFin(l)
  {
    assert forall i :: 0 <= i < |l| - 1 ==> l[i] == l[..|l| - 1][i];
  }

  lemma UnaLineaEsTodo(ls: seq<string>)
    ensures |ls| == 1 ==> Juntar(ls) == ls[0]
  {
    if |ls| == 1 {
      JuntarUno(ls[0]);
      assert ls == [ls[0]];
    }
  }

  lemma CompletaCierra(s: string, ls: seq<string>, j: nat)
    requires j <= |ls|
    requires j > 0 ==> Completa(ls[j - 1])
    ensures j > 0 ==> !Pendiente(s + Juntar(ls[..j]))
  {
    if j > 0 {
      SiguienteLinea(ls, j - 1);
      var t := s + Juntar(ls[..j]);
      assert t[|t| - 1] == ls[j - 1][|ls[j - 1]| - 1];
    }
  }

  lemma SinFinUnaLinea(bloque: string)
    requires bloque != "" && SinFin(bloque)
    ensures !Completa(Lineas(bloque)[0])
  {
  }

  /** One block: `bien` says that no fragment has been taken for a line so far. */
  method LeerBloque(bloque: string, lineas0: seq<string>, incompleta0: Option<string>, ghost s: string,
      ghost bien0: bool)
      returns (lineas: seq<string>, incompleta: Option<string>, ghost bien: bool)
    requires if bien0 then Leido(lineas0, incompleta0, s) else HayFragmento(lineas0)
    ensures if bien then Leido(lineas, incompleta, s + bloque) else HayFragmento(lineas)
    ensures bien <==> bien0 && (Pendiente(s) && bloque != "" ==> !SinFin(bloque))
  {
    hide HayFragmento, Leido;
    lineas, incompleta, bien := lineas0, incompleta0, bien0;
    var ls := Lineas(bloque);
    LineasSonLineas(bloque);
    JuntarLineas(bloque);
    assert s + Juntar([]) == s;
    var j := 0;
    while j < |ls|
      invariant j <= |ls|
      invariant if bien then Leido(lineas, incompleta, s + Juntar(ls[..j])) else HayFragmento(lineas)
      invariant bien0 && !bien ==> Pendiente(s) && bloque != "" && SinFin(bloque)
      invariant bien ==> bien0
      invariant j > 0 && bien ==> !(Pendiente(s) && SinFin(bloque))
    {
      var linea := ls[j];
      ghost var leido := s + Juntar(ls[..j]);
      SiguienteLinea(ls, j);
      Asociativa(s, Juntar(ls[..j]), linea);
      if bien {
        LeidoYPendiente(lineas, incompleta, leido);
        LeidoUnaMas(lineas, incompleta, leido, linea);
      }
      if j == 0 && SinFin(bloque) {
        SinFinUnaLinea(bloque);
      }
      if incompleta.None? && !Completa(linea) {
        incompleta := Some(linea);
        j := j + 1;
        assert j == |ls|;
        break;
      }
      if incompleta.Some? {
        if Completa(linea) {
          linea := incompleta.value + linea;
          incompleta := None;
        } else if bien {
          FragmentoSuelto(s, bloque, j);
          bien := false;
        }
      }
      HayFragmentoMas(lineas, linea);
      lineas := lineas + [linea];
      j := j + 1;
    }
    assert ls[..|ls|] == ls;
  }

  /**
   The reader of a SELECT and of a compaction: a line without newline is kept and joined with the
   one that follows in the next block. It returns the lines of the file exactly when no record
   goes on past a whole block.
   */
  method LeerPorFragmentos(bloques: seq<string>) returns (lineas: seq<string>)
    ensures !Pendiente(Juntar(bloques)) ==> (lineas == Lineas(Juntar(bloques)) <==> FragmentosAlcanzan(bloques))
    ensures Pendiente(Juntar(bloques)) && FragmentosAlcanzan(bloques) ==>
              var ls := Lineas(Juntar(bloques)); ls != [] && lineas == ls[..|ls| - 1]
  {
    lineas := [];
    var incompleta: Option<string> := None;
    ghost var bien := true;
    var i := 0;
    while i < |bloques|
      invariant i <= |bloques|
      invariant if bien then Leido(lineas, incompleta, Juntar(bloques[..i])) else HayFragmento(lineas)
      invariant bien <==> forall k :: 0 <= k < i ==> Alcanza(bloques, k)
    {
      SiguienteLinea(bloques, i);
      ghost var antes := bien;
      lineas, incompleta, bien := LeerBloque(bloques[i], lineas, incompleta, Juntar(bloques[..i]), bien);
      assert bien <==> antes && Alcanza(bloques, i);
      i := i + 1;
    }
    assert bloques[..|bloques|] == bloques;
    var s := Juntar(bloques);
    if bien && !Pendiente(s) {
      assert lineas + [] == lineas;
    }
    if !bien && !Pendiente(s) {
      TodasCompletas(s);
    }
  }

  /** A record over three blocks is one of those the reader does not put together. */
  lemma TresFragmentos()
    ensures var bloques := ["a", "b", "c\n"];
            !Pendiente(Juntar(bloques)) && Lineas(Juntar(bloques)) == ["abc\n"] && !FragmentosAlcanzan(bloques)
  {
    var bloques := ["a", "b", "c\n"];
    JuntarMas(["a", "b"], ["c\n"]);
    JuntarMas(["a"], ["b"]);
    assert ["a"] + ["b"] + ["c\n"] == bloques;
    assert Juntar(["a"]) == "a" && Juntar(["b"]) == "b" && Juntar(["c\n"]) == "c\n";
    SolaEsLinea("abc\n");
    assert Juntar(bloques) == "abc\n";
    assert bloques[..1] == ["a"] && SinFin(bloques[1]) && Pendiente("a");
    assert !Alcanza(bloques, 1);
  }

  lemma TodasCompletas(s: string)
    requires !Pendiente(s)
    ensures !HayFragmento(Lineas(s))
  {
    LineasSonLineas(s);
    if s != "" {
      UltimaLinea(s);
    }
  }

  // ---- the readers over what the writer cut ----

  /** Lines of at most a block, cut canonically, never go on past a whole block. */
  lemma CorteAlcanza(s: string, b: nat)
    requires b > 0 && !Pendiente(s)
    requires forall i :: 0 <= i < |Lineas(s)| ==> |Lineas(s)[i]| <= b
    ensures FragmentosAlcanzan(Trozos(s, b))
  {
    var bs := Trozos(s, b);
    TrozosSonCorte(s, b);
    forall k | 0 <= k < |bs|
      ensures Alcanza(bs, k)
    {
      if Pendiente(Juntar(bs[..k])) && SinFin(bs[k]) && bs[k] != "" {
        BloqueEnMedio(s, bs, b, k);
      }
    }
  }

  lemma BloqueEnMedio(s: string, bs: seq<string>, b: nat, k: nat)
    requires b > 0 && !Pendiente(s) && bs == Trozos(s, b) && k < |bs|
    requires Pendiente(Juntar(bs[..k])) && SinFin(bs[k]) && bs[k] != ""
    ensures exists i :: 0 <= i < |Lineas(s)| && |Lineas(s)[i]| > b
  {
    hide Trozos, Lineas, SinFin, Pendiente;
    TrozosSonCorte(s, b);
    var u, v, w := Juntar(bs[..k]), bs[k], Juntar(bs[k + 1..]);
    assert bs == bs[..k] + ([bs[k]] + bs[k + 1..]);
    JuntarMas(bs[..k], [bs[k]] + bs[k + 1..]);
    JuntarMas([bs[k]], bs[k + 1..]);
    JuntarUno(bs[k]);
    assert s == u + (v + w);
    AlFinalPendiente(u, v, w);
    assert k < |bs| - 1 by {
      assert bs[k + 1..] != [];
    }
    LineaLarga(u, v, w);
  }

  lemma AlFinalPendiente(u: string, v: string, w: string)
    requires v != "" && SinFin(v)
    ensures w == "" ==> Pendiente(u + (v + w))
  {
    var s := u + (v + w);
    assert w == "" ==> s[|s| - 1] == v[|v| - 1];
  }

  /** A stretch without newlines after an open line belongs to a line longer than it. */
  lemma {:induction false} LineaLarga(u: string, v: string, w: string)
    requires Pendiente(u) && SinFin(v) && v != ""
    ensures exists i :: 0 <= i < |Lineas(u + (v + w))| && |Lineas(u + (v + w))[i]| > |v|
    decreases |u|
  {
    var a, c := PrimeraLinea(u);
    if c != "" {
      LineaLarga(c, v, w);
      Asociativa(a, c, v + w);
      LineaYMas(a, c + (v + w));
      var r := Lineas(c + (v + w));
      var i :| 0 <= i < |r| && |r[i]| > |v|;
      assert ([a] + r)[i + 1] == r[i];
    } else {
      PrimeraLarga(u, v, w);
    }
  }

  lemma PrimeraLarga(u: string, v: string, w: string)
    requires EsLinea(u) && Pendiente(u) && SinFin(v) && v != ""
    ensures |Lineas(u + (v + w))[0]| > |v|
  {
    LineaAbierta(u);
    LargoSinFin(u + v, w);
    Asociativa(u, v, w);
  }

  lemma {:induction false} LargoSinFin(v: string, w: string)
    requires v != "" && SinFin(v)
    ensures LargoLinea(v + w) >= |v|
    decreases |v|
  {
    if |v| > 1 {
      assert (v + w)[1..] == v[1..] + w;
      LargoSinFin(v[1..], w);
    }
  }
}
