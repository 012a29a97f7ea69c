/**
 Records as text lines, and the two ways Lissandra joins the fragments of lines that were cut
 across blocks.
 */
module LineasDeBloque {
  import opened Secuencias
  import opened Numeros
  import opened Lsm

  /** A line up to and including its newline. */
  predicate Completa(l: string)
  {
    l != "" && l[|l| - 1] == '\n'
  }

  predicate SinFin(l: string)
  {
    forall i :: 0 <= i < |l| ==> l[i] != '\n'
  }

  /** What one getline returns: to the first newline, or to the end. */
  function LargoLinea(s: string): (n: nat)
    requires s != ""
    ensures 0 < n <= |s| && SinFin(s[..n - 1])
    ensures n < |s| ==> s[n - 1] == '\n'
  {
    if s[0] == '\n' || |s| == 1 then 1
    else
      var n := LargoLinea(s[1..]) + 1;
      assert s[..n - 1] == [s[0]] + s[1..][..n - 2];
      n
  }

  /** All that getline returns from a file. */
  function Lineas(s: string): (r: seq<string>)
    decreases |s|
  {
    if s == "" then [] else [s[..LargoLinea(s)]] + Lineas(s[LargoLinea(s)..])
  }

  /** A line of its own: no newline but at the end. */
  predicate EsLinea(l: string)
  {
    l != "" && SinFin(l[..|l| - 1])
  }

  predicate Pendiente(s: string)
  {
    s != "" && !Completa(s)
  }

  lemma {:induction false} LargoDeLinea(l: string, t: string)
    requires EsLinea(l) && (Completa(l) || t == "")
    ensures LargoLinea(l + t) == |l|
    decreases |l|
  {
    if |l| > 1 {
      assert l[..|l| - 1][0] != '\n';
      assert (l + t)[1..] == l[1..] + t;
      assert l[1..][..|l| - 2] == l[..|l| - 1][1..];
      LargoDeLinea(l[1..], t);
    }
  }

  lemma LineaYMas(l: string, t: string)
    requires EsLinea(l) && (Completa(l) || t == "")
    ensures Lineas(l + t) == [l] + Lineas(t)
  {
    LargoDeLinea(l, t);
    assert (l + t)[..|l|] == l && (l + t)[|l|..] == t;
  }

  /** The first line of a text and the rest of it. */
  lemma PrimeraLinea(s: string) returns (l: string, t: string)
    requires s != ""
    ensures s == l + t && EsLinea(l) && |t| < |s|
    ensures Lineas(s) == [l] + Lineas(t)
    ensures t != "" ==> Completa(l) && (Completa(t) <==> Completa(s))
    ensures t == "" ==> l == s
  {
    var n := LargoLinea(s);
    l, t := s[..n], s[n..];
    assert l[..|l| - 1] == s[..n - 1];
    if t != "" {
      assert t[|t| - 1] == s[|s| - 1];
    }
  }

  /** Each line is one, and only the last may be incomplete. */
  lemma {:induction false} LineasSonLineas(s: string)
    ensures forall i :: 0 <= i < |Lineas(s)| ==> EsLinea(Lineas(s)[i])
    ensures forall i :: 0 <= i < |Lineas(s)| - 1 ==> Completa(Lineas(s)[i])
    decreases |s|
  {
    if s != "" {
      var l, t := PrimeraLinea(s);
      LineasSonLineas(t);
    }
  }

  lemma {:induction false} UltimaLinea(s: string)
    requires s != ""
    ensures Lineas(s) != [] && (Completa(Lineas(s)[|Lineas(s)| - 1]) <==> Completa(s))
    decreases |s|
  {
    var l, t := PrimeraLinea(s);
    if t != "" {
      UltimaLinea(t);
    }
  }

  lemma {:induction false} JuntarLineas(s: string)
    ensures Juntar(Lineas(s)) == s
    decreases |s|
  {
    if s != "" {
      var l, t := PrimeraLinea(s);
      JuntarLineas(t);
      assert Lineas(s)[1..] == Lineas(t);
    }
  }

  /** Where the text so far ends with a newline, what comes after is read apart. */
  lemma {:induction false} LineasTrasFin(s: string, t: string)
    requires s == "" || Completa(s)
    ensures Lineas(s + t) == Lineas(s) + Lineas(t)
    decreases |s|
  {
    if s == "" {
      assert s + t == t;
    } else {
      var l, r := PrimeraLinea(s);
      Asociativa(l, r, t);
      LineaYMas(l, r + t);
      LineasTrasFin(r, t);
      Asociativa([l], Lineas(r), Lineas(t));
    }
  }

  /** A last incomplete line takes in the line that follows. */
  lemma {:induction false} LineasConPendiente(s: string, l: string)
    requires Pendiente(s) && EsLinea(l)
    ensures var r := Lineas(s);
            r != [] && Lineas(s + l) == r[..|r| - 1] + [r[|r| - 1] + l]
    decreases |s|
  {
    hide LargoLinea;
    var a, b := PrimeraLinea(s);
    if b == "" {
      UnaSola(s, l);
    } else {
      LineasConPendiente(b, l);
      assert s + l == a + (b + l);
      LineaYMas(a, b + l);
      var r := Lineas(b);
      assert [a] + (r[..|r| - 1] + [r[|r| - 1] + l]) == ([a] + r)[..|r|] + [r[|r| - 1] + l];
    }
  }

  lemma UnaSola(s: string, l: string)
    requires Pendiente(s) && EsLinea(s) && EsLinea(l)
    ensures Lineas(s + l) == [s + l]
  {
    var u := s + l;
    forall i | 0 <= i < |u| - 1
      ensures u[i] != '\n'
    {
      assert i < |s| - 1 ==> u[i] == s[..|s| - 1][i];
      assert i >= |s| ==> u[i] == l[..|l| - 1][i - |s|];
    }
    assert EsLinea(u);
    LineaYMas(u, "");
    assert u + "" == u;
  }

  // ---- records ----

  /** The line a record is dumped as. */
  function Linea(r: Registro): string
  {
    Itoa(r.ts) + ";" + Itoa(r.key) + ";" + r.value + "\n"
  }

  lemma ComoSeEscribe()
    ensures Linea(Registro(1907, 30, "a b")) == "1907;30;a b\n"
  {
    UnNumero();
    assert Itoa(30) == Itoa(3) + [Digito(0)] == "30";
  }

  /** Values the format can carry. */
  predicate ValorValido(v: string)
  {
    forall i :: 0 <= i < |v| ==> v[i] != ';' && v[i] != '\n'
  }

  lemma LineaEsCompleta(r: Registro)
    requires ValorValido(r.value)
    ensures EsLinea(Linea(r)) && Completa(Linea(r))
  {
    var l := Linea(r);
    assert l[..|l| - 1] == Itoa(r.ts) + ";" + Itoa(r.key) + ";" + r.value;
  }

  /** strtok (s, ";"): the next field, and what follows its separator. */
  function Campo(s: string): (r: (string, string))
    ensures |r.1| <= |s|
  {
    if s == "" then ("", "")
    else if s[0] == ';' then ("", s[1..])
    else
      var (c, t) := Campo(s[1..]);
      ([s[0]] + c, t)
  }

  lemma {:induction false} CampoYMas(c: string, t: string)
    requires forall i :: 0 <= i < |c| ==> c[i] != ';'
    ensures Campo(c + ";" + t) == (c, t)
    decreases |c|
  {
    var s := c + ";" + t;
    if c == "" {
      assert s[1..] == t;
    } else {
      assert s[1..] == c[1..] + ";" + t;
      CampoYMas(c[1..], t);
      assert [c[0]] + c[1..] == c;
    }
  }

  /** The three fields of a line; the newline at the end belongs to none. */
  function Leer(l: string): Registro
  {
    var (ts, resto) := Campo(l);
    var (key, valor) := Campo(resto);
    Registro(Atoi(ts), Atoi(key), if Completa(valor) then valor[..|valor| - 1] else valor)
  }

  lemma AtoiDeItoa(n: nat)
    ensures Atoi(Itoa(n)) == n
  {
    AtoiItoa(n, "");
    assert Itoa(n) + "" == Itoa(n);
  }

  /** Reading a dumped line gives back the record. */
  lemma LeerLinea(r: Registro)
    requires ValorValido(r.value)
    ensures Leer(Linea(r)) == r
  {
    var valor := r.value + "\n";
    var resto := Itoa(r.key) + ";" + valor;
    assert Linea(r) == Itoa(r.ts) + ";" + resto;
    CampoYMas(Itoa(r.ts), resto);
    CampoYMas(Itoa(r.key), valor);
    AtoiDeItoa(r.ts);
    AtoiDeItoa(r.key);
    assert valor[..|valor| - 1] == r.value;
  }

  function LineasDe(rs: seq<Registro>): (r: seq<string>)
    ensures |r| == |rs|
  {
    seq(|rs|, i requires 0 <= i < |rs| => Linea(rs[i]))
  }

  /** The contents of a file that holds rs. */
  function Texto(rs: seq<Registro>): string
  {
    Juntar(LineasDe(rs))
  }

  predicate ValoresValidos(rs: seq<Registro>)
  {
    forall i :: 0 <= i < |rs| ==> ValorValido(rs[i].value)
  }

  lemma TextoMas(rs: seq<Registro>, r: Registro)
    ensures Texto(rs + [r]) == Texto(rs) + Linea(r)
  {
    assert LineasDe(rs + [r]) == LineasDe(rs) + [Linea(r)];
    JuntarMas(LineasDe(rs), [Linea(r)]);
    JuntarUno(Linea(r));
  }

  lemma TextoTermina(rs: seq<Registro>)
    requires ValoresValidos(rs)
    ensures Texto(rs) == "" || Completa(Texto(rs))
  {
    if rs != [] {
      var n := |rs| - 1;
      assert rs == rs[..n] + [rs[n]];
      TextoMas(rs[..n], rs[n]);
    }
  }

  lemma UnaLinea(r: Registro)
    requires ValorValido(r.value)
    ensures Lineas(Linea(r)) == [Linea(r)]
  {
    var l := Linea(r);
    LineaEsCompleta(r);
    LineaYMas(l, "");
    assert l + "" == l;
  }

  /** The lines of a file are those of its records. */
  lemma {:induction false} LineasDeTexto(rs: seq<Registro>)
    requires ValoresValidos(rs)
    ensures Lineas(Texto(rs)) == LineasDe(rs)
    decreases |rs|
  {
    if rs != [] {
      var n := |rs| - 1;
      LineasDeTexto(rs[..n]);
      TextoTermina(rs[..n]);
      assert rs == rs[..n] + [rs[n]];
      TextoMas(rs[..n], rs[n]);
      LineasTrasFin(Texto(rs[..n]), Linea(rs[n]));
      UnaLinea(rs[n]);
      assert LineasDe(rs) == LineasDe(rs[..n]) + [Linea(rs[n])];
    }
  }
}
