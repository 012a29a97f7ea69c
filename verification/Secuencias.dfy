/** Lists as the commons `t_list`: removal, insertion and replacement at an index. */
module Secuencias {

  datatype Option<+T> = None | Some(value: T)

  function Quitar<T>(s: seq<T>, i: nat): (r: seq<T>)
    requires i < |s|
  {
    s[..i] + s[i + 1..]
  }

  function Insertar<T>(s: seq<T>, i: nat, x: T): (r: seq<T>)
    requires i <= |s|
  {
    s[..i] + [x] + s[i..]
  }

  /** What is before the place and what is after it stay as they are, in their order. */
  lemma EnElMedio<T>(a: seq<T>, x: T, b: seq<T>)
    ensures Quitar(a + [x] + b, |a|) == a + b
    ensures Insertar(a + b, |a|, x) == a + [x] + b
  {
    assert (a + [x] + b)[..|a|] == a && (a + [x] + b)[|a| + 1..] == b;
  }

  /** Where list_find stops: the index of the first element that satisfies p. */
  function Buscar<T>(s: seq<T>, p: T -> bool): (r: Option<nat>)
    ensures r.Some? ==> r.value < |s| && p(s[r.value])
    ensures r.Some? ==> forall k :: 0 <= k < r.value ==> !p(s[k])
    ensures r.None? ==> forall k :: 0 <= k < |s| ==> !p(s[k])
  {
    if s == [] then None
    else if p(s[0]) then Some(0)
    else
      var r := Buscar(s[1..], p);
      assert forall k :: 1 <= k < |s| ==> s[k] == s[1..][k - 1];
      if r.Some? then Some(r.value + 1) else None
  }

  ghost function Conj<T>(s: seq<T>): set<T>
  {
    set x | x in s
  }

  ghost predicate SinRepetidos<T>(s: seq<T>)
  {
    forall i, j :: 0 <= i < j < |s| ==> s[i] != s[j]
  }

  ghost predicate MismosElementos<T>(s: seq<T>, t: seq<T>)
  {
    multiset(s) == multiset(t)
  }

  lemma ConjQuitar<T>(s: seq<T>, i: nat)
    requires i < |s| && SinRepetidos(s)
    ensures SinRepetidos(Quitar(s, i))
    ensures Conj(Quitar(s, i)) == Conj(s) - {s[i]}
  {
    var r := Quitar(s, i);
    forall x | x in Conj(s) - {s[i]}
      ensures x in r
    {
      var k :| 0 <= k < |s| && s[k] == x;
      assert r[if k < i then k else k - 1] == x;
    }
  }

  lemma {:induction false} CardinalConj<T>(s: seq<T>)
    requires SinRepetidos(s)
    ensures |Conj(s)| == |s|
  {
    if s != [] {
      ConjQuitar(s, 0);
      CardinalConj(Quitar(s, 0));
      assert s[0] in Conj(s);
    }
  }

  lemma ConjInsertar<T>(s: seq<T>, i: nat, x: T)
    requires i <= |s| && SinRepetidos(s) && x !in s
    ensures SinRepetidos(Insertar(s, i, x))
    ensures Conj(Insertar(s, i, x)) == Conj(s) + {x}
  {
    var r := Insertar(s, i, x);
    assert r[i] == x;
    forall y | y in s
      ensures y in r
    {
      var k :| 0 <= k < |s| && s[k] == y;
      assert r[if k < i then k else k + 1] == y;
    }
  }

  lemma ConjAgregar<T>(s: seq<T>, x: T)
    requires SinRepetidos(s) && x !in s
    ensures SinRepetidos(s + [x])
    ensures Conj(s + [x]) == Conj(s) + {x}
  {
  }

  lemma ConjCambiar<T>(s: seq<T>, i: nat, x: T)
    requires i < |s| && SinRepetidos(s) && x !in Quitar(s, i)
    ensures SinRepetidos(s[i := x])
    ensures Conj(s[i := x]) == Conj(s) - {s[i]} + {x}
    ensures Quitar(s[i := x], i) == Quitar(s, i)
  {
    ConjQuitar(s, i);
    var r := s[i := x];
    forall k | 0 <= k < |s| && k != i
      ensures r[k] in Quitar(s, i)
    {
      assert Quitar(s, i)[if k < i then k else k - 1] == s[k];
    }
    assert r[i] == x;
    forall y | y in Quitar(s, i)
      ensures y in r
    {
      var k :| 0 <= k < |s| - 1 && Quitar(s, i)[k] == y;
      assert r[if k < i then k else k + 1] == y;
    }
  }

  lemma ConjDePermutacion<T>(s: seq<T>, t: seq<T>)
    requires MismosElementos(s, t)
    ensures Conj(s) == Conj(t)
    ensures SinRepetidos(s) ==> SinRepetidos(t)
    ensures |s| == |t|
  {
    forall x | x in s || x in t
      ensures x in s && x in t
    {
      assert x in multiset(s) && x in multiset(t);
    }
    assert |multiset(s)| == |multiset(t)|;
    if SinRepetidos(s) && !SinRepetidos(t) {
      var i, j :| 0 <= i < j < |t| && t[i] == t[j];
      DosVeces(t, i, j);
      AlmenosDos(s, t[i]);
    }
  }

  lemma DosVeces<T>(t: seq<T>, i: nat, j: nat)
    requires i < j < |t| && t[i] == t[j]
    ensures multiset(t)[t[i]] >= 2
  {
    assert t == t[..j] + [t[j]] + t[j + 1..];
    assert t[i] in t[..j];
  }

  lemma AlmenosDos<T>(s: seq<T>, x: T)
    requires multiset(s)[x] >= 2
    ensures !SinRepetidos(s)
  {
    assert x in multiset(s);
    var i :| 0 <= i < |s| && s[i] == x;
    assert s == s[..i] + [x] + s[i + 1..];
    assert multiset(s) == multiset(s[..i]) + multiset{x} + multiset(s[i + 1..]);
    if x in s[..i] {
      var j :| 0 <= j < i && s[..i][j] == x;
      assert s[j] == s[i];
    } else {
      assert x in multiset(s[i + 1..]);
      var j :| 0 <= j < |s| - i - 1 && s[i + 1..][j] == x;
      assert s[i + 1 + j] == s[i];
    }
  }

  lemma MultisetQuitar<T>(s: seq<T>, i: nat)
    requires i < |s|
    ensures multiset(s) == multiset(Quitar(s, i)) + multiset{s[i]}
  {
    assert s == s[..i] + [s[i]] + s[i + 1..];
  }

  ghost predicate Ordenado<T>(s: seq<T>, clave: T -> int)
  {
    forall i, j :: 0 <= i < j < |s| ==> clave(s[i]) <= clave(s[j])
  }

  lemma InsertarEnOrden<T>(r: seq<T>, j: nat, x: T, clave: T -> int)
    requires j <= |r| && Ordenado(r, clave)
    requires j > 0 ==> clave(r[j - 1]) <= clave(x)
    requires j < |r| ==> clave(x) <= clave(r[j])
    ensures Ordenado(Insertar(r, j, x), clave)
    ensures multiset(Insertar(r, j, x)) == multiset(r) + multiset{x}
  {
    var t := Insertar(r, j, x);
    assert forall a :: 0 <= a < j ==> clave(r[a]) <= clave(x);
    assert forall a :: j <= a < |r| ==> clave(x) <= clave(r[a]);
    forall a, b | 0 <= a < b < |t|
      ensures clave(t[a]) <= clave(t[b])
    {
      if b < j {
        assert t[a] == r[a] && t[b] == r[b];
      } else if a > j {
        assert t[a] == r[a - 1] && t[b] == r[b - 1];
      } else if a < j < b {
        assert t[a] == r[a] && t[b] == r[b - 1];
      }
    }
    MultisetInsertar(r, j, x);
  }

  lemma MultisetInsertar<T>(r: seq<T>, j: nat, x: T)
    requires j <= |r|
    ensures multiset(Insertar(r, j, x)) == multiset(r) + multiset{x}
  {
    assert r == r[..j] + r[j..];
  }

  /** list_sort: some permutation in order; what it does with ties is not promised. */
  method Ordenar<T>(s: seq<T>, clave: T -> int) returns (r: seq<T>)
    ensures MismosElementos(r, s) && Ordenado(r, clave)
  {
    r := [];
    for i := 0 to |s|
      invariant MismosElementos(r, s[..i]) && Ordenado(r, clave)
    {
      var j := |r|;
      while j > 0 && clave(s[i]) < clave(r[j - 1])
        invariant 0 <= j <= |r|
        invariant j < |r| ==> clave(s[i]) < clave(r[j])
      {
        j := j - 1;
      }
      InsertarEnOrden(r, j, s[i], clave);
      assert s[..i + 1] == s[..i] + [s[i]];
      r := Insertar(r, j, s[i]);
    }
    assert s[..|s|] == s;
  }

  function Mapear<T, U>(s: seq<T>, f: T -> U): (r: seq<U>)
    ensures |r| == |s|
  {
    seq(|s|, i requires 0 <= i < |s| => f(s[i]))
  }

  lemma {:induction false} MapearPermutado<T, U>(s: seq<T>, t: seq<T>, f: T -> U)
    requires MismosElementos(s, t)
    ensures MismosElementos(Mapear(s, f), Mapear(t, f))
    decreases |s|
  {
    if s == [] {
      assert |multiset(t)| == 0;
    } else {
      assert s[0] in multiset(t);
      var i :| 0 <= i < |t| && t[i] == s[0];
      MultisetQuitar(s, 0);
      MultisetQuitar(t, i);
      assert multiset(Quitar(s, 0)) == multiset(s) - multiset{s[0]};
      assert multiset(Quitar(t, i)) == multiset(t) - multiset{s[0]};
      MapearPermutado(Quitar(s, 0), Quitar(t, i), f);
      assert Mapear(Quitar(s, 0), f) == Quitar(Mapear(s, f), 0);
      assert Mapear(Quitar(t, i), f) == Quitar(Mapear(t, f), i);
      MultisetQuitar(Mapear(s, f), 0);
      MultisetQuitar(Mapear(t, f), i);
    }
  }

  /** Texts one after the other. */
  function Juntar(textos: seq<string>): string
  {
    if textos == [] then "" else textos[0] + Juntar(textos[1..])
  }

  lemma {:induction false} JuntarMas(a: seq<string>, b: seq<string>)
    ensures Juntar(a + b) == Juntar(a) + Juntar(b)
    decreases |a|
  {
    if a == [] {
      assert a + b == b;
    } else {
      assert (a + b)[1..] == a[1..] + b;
      JuntarMas(a[1..], b);
    }
  }

  lemma JuntarUno(t: string)
    ensures Juntar([t]) == t
  {
    assert [t][1..] == [];
    assert t + "" == t;
  }

  lemma Asociativa<T>(a: seq<T>, b: seq<T>, c: seq<T>)
    ensures a + (b + c) == (a + b) + c
  {
  }

  lemma InsertarEnMedio<T>(a: seq<T>, b: seq<T>, c: seq<T>, x: T)
    ensures Insertar(a + b + c, |a + b|, x) == a + (b + [x]) + c
  {
  }

  /** list_remove_by_condition with an equality: takes the first occurrence out. */
  function Sacar<T(==)>(s: seq<T>, x: T): (r: seq<T>)
    ensures x in s ==> multiset(s) == multiset(r) + multiset{x}
    ensures x !in s ==> r == s
  {
    if s == [] then []
    else if s[0] == x then
      assert s == [x] + s[1..];
      s[1..]
    else
      assert s == [s[0]] + s[1..];
      [s[0]] + Sacar(s[1..], x)
  }

  lemma {:induction false} SacarUnico<T>(s: seq<T>, x: T)
    requires SinRepetidos(s) && x in s
    ensures SinRepetidos(Sacar(s, x))
    ensures forall k :: 0 <= k < |Sacar(s, x)| ==> Sacar(s, x)[k] in s && Sacar(s, x)[k] != x
    ensures forall k :: 0 <= k < |s| && s[k] != x ==> s[k] in Sacar(s, x)
  {
    if s[0] == x {
      assert forall k :: 1 <= k < |s| ==> s[k] == s[1..][k - 1];
    } else {
      SacarUnico(s[1..], x);
      assert forall k :: 1 <= k < |s| ==> s[k] == s[1..][k - 1];
      var r := Sacar(s[1..], x);
      assert s[0] !in s[1..];
      assert forall k :: 0 <= k < |r| ==> r[k] in r && ([s[0]] + r)[k + 1] == r[k];
      assert s[0] in [s[0]] + r;
    }
  }

  /** despues is antes without its first x: the others are as they were, in their order. */
  ghost predicate SinUno<T>(antes: seq<T>, x: T, despues: seq<T>)
  {
    if x in antes then
      exists k :: 0 <= k < |antes| && antes[k] == x && x !in antes[..k] && despues == antes[..k] + antes[k + 1..]
    else despues == antes
  }

  lemma SacarDetras<T>(y: T, s: seq<T>, x: T)
    requires y != x
    ensures Sacar([y] + s, x) == [y] + Sacar(s, x)
  {
    assert ([y] + s)[1..] == s;
  }

  lemma {:induction false} SacarEnMedio<T>(a: seq<T>, x: T, b: seq<T>)
    requires x !in a
    ensures Sacar(a + [x] + b, x) == a + b
  {
    if a == [] {
      assert (a + [x] + b)[1..] == b == a + b;
    } else {
      assert a + [x] + b == [a[0]] + (a[1..] + [x] + b);
      assert [a[0]] + (a[1..] + b) == a + b;
      hide Sacar;
      SacarEnMedio(a[1..], x, b);
      SacarDetras(a[0], a[1..] + [x] + b, x);
    }
  }

  /** What is left keeps its order, wherever in the list the element was. */
  lemma SacarDejaElResto<T>(s: seq<T>, x: T)
    ensures SinUno(s, x, Sacar(s, x))
  {
    if x in s {
      var k := PrimerLugar(s, x);
      assert s == s[..k] + [x] + s[k + 1..];
      SacarEnMedio(s[..k], x, s[k + 1..]);
    }
  }

  lemma PrimerLugar<T>(s: seq<T>, x: T) returns (k: nat)
    requires x in s
    ensures k < |s| && s[k] == x && x !in s[..k]
  {
    k := 0;
    while s[k] != x
      invariant k < |s| && x !in s[..k]
      decreases |s| - k
    {
      k := k + 1;
    }
  }

  function Minuscula(c: char): char
  {
    if 'A' <= c <= 'Z' then c - 'A' + 'a' else c
  }

  /** string_equals_ignore_case. */
  predicate IgualesSinCaja(a: string, b: string)
  {
    |a| == |b| && forall i :: 0 <= i < |a| ==> Minuscula(a[i]) == Minuscula(b[i])
  }

  /** The same character, or one a capital and the other the small letter of it. */
  predicate MismaLetra(a: char, b: char)
  {
    || a == b
    || ('A' <= a <= 'Z' && b as int == a as int + 32)
    || ('A' <= b <= 'Z' && a as int == b as int + 32)
  }

  lemma MinusculaSii(a: char, b: char)
    ensures Minuscula(a) == Minuscula(b) <==> MismaLetra(a, b)
  {
  }

  /** Equal but for capitals: as long, and character by character the same letter. */
  lemma IgualesSii(a: string, b: string)
    ensures IgualesSinCaja(a, b) <==> |a| == |b| && forall i :: 0 <= i < |a| ==> MismaLetra(a[i], b[i])
  {
    forall i | 0 <= i < |a| && i < |b|
      ensures Minuscula(a[i]) == Minuscula(b[i]) <==> MismaLetra(a[i], b[i])
    {
      MinusculaSii(a[i], b[i]);
    }
  }
}
