/**
 The Team's lists of `t_node_pokemon` (a species and how many of it), read as multisets of
 species.  Names are compared with string_contains in the program; here they are compared
 for equality.
 */
module Objetivos {
  import opened Secuencias

  datatype Nodo = Nodo(nombre: string, cantidad: int)

  /** One node per species, and a positive count in each. */
  ghost predicate ListaValida(l: seq<Nodo>)
  {
    && (forall i :: 0 <= i < |l| ==> l[i].cantidad > 0)
    && NombresDistintos(l)
  }

  ghost predicate NombresDistintos(l: seq<Nodo>)
  {
    forall i, j :: 0 <= i < j < |l| ==> l[i].nombre != l[j].nombre
  }

  /** The species a list holds, each as many times as its node says. */
  ghost function Contenido(l: seq<Nodo>): multiset<string>
    requires ListaValida(l)
  {
    if l == [] then multiset{}
    else Contenido(l[1..])[l[0].nombre := l[0].cantidad]
  }

  /** A list's content, read at every species. */
  lemma {:induction false} Cuantos(l: seq<Nodo>, s: string)
    requires ListaValida(l)
    ensures forall i :: 0 <= i < |l| && l[i].nombre == s ==> Contenido(l)[s] == l[i].cantidad
    ensures (forall i :: 0 <= i < |l| ==> l[i].nombre != s) ==> Contenido(l)[s] == 0
  {
    if l != [] {
      Cuantos(l[1..], s);
      if l[0].nombre != s {
        assert forall i :: 1 <= i < |l| ==> l[i] == l[1..][i - 1];
      }
    }
  }

  /** The content is determined by the counts alone: the order of the nodes plays no part. */
  lemma ContenidoEs(l: seq<Nodo>, m: multiset<string>)
    requires ListaValida(l)
    requires forall i :: 0 <= i < |l| ==> m[l[i].nombre] == l[i].cantidad
    requires forall s :: s in m ==> exists i :: 0 <= i < |l| && l[i].nombre == s
    ensures Contenido(l) == m
  {
    forall s
      ensures Contenido(l)[s] == m[s]
    {
      Cuantos(l, s);
    }
  }

  function Encontrar(l: seq<Nodo>, s: string): (r: Option<nat>)
  {
    Buscar(l, (n: Nodo) => n.nombre == s)
  }

  lemma EncontrarSiiEsta(l: seq<Nodo>, s: string)
    requires ListaValida(l)
    ensures Encontrar(l, s).Some? <==> s in Contenido(l)
    ensures Encontrar(l, s).Some? ==> Contenido(l)[s] == l[Encontrar(l, s).value].cantidad
  {
    Cuantos(l, s);
  }

  lemma CambiarCantidad(l: seq<Nodo>, i: nat, c: int)
    requires ListaValida(l) && i < |l| && c > 0
    ensures ListaValida(l[i := Nodo(l[i].nombre, c)])
    ensures Contenido(l[i := Nodo(l[i].nombre, c)]) == Contenido(l)[l[i].nombre := c]
  {
    hide Contenido;
    var r := l[i := Nodo(l[i].nombre, c)];
    var m := Contenido(l)[l[i].nombre := c];
    assert forall k :: 0 <= k < |r| ==> r[k].nombre == l[k].nombre;
    forall k | 0 <= k < |r|
      ensures m[r[k].nombre] == r[k].cantidad
    {
      Cuantos(l, l[k].nombre);
    }
    forall s | s in m
      ensures exists k :: 0 <= k < |r| && r[k].nombre == s
    {
      if s == l[i].nombre {
        assert r[i].nombre == s;
      } else {
        Cuantos(l, s);
        var k :| 0 <= k < |l| && l[k].nombre == s;
        assert r[k].nombre == s;
      }
    }
    ContenidoEs(r, m);
  }

  lemma AgregarNodo(l: seq<Nodo>, s: string, c: int)
    requires ListaValida(l) && c > 0 && Encontrar(l, s).None?
    ensures ListaValida(l + [Nodo(s, c)])
    ensures Contenido(l + [Nodo(s, c)]) == Contenido(l)[s := c]
  {
    hide Contenido;
    var r := l + [Nodo(s, c)];
    var m := Contenido(l)[s := c];
    forall k | 0 <= k < |r|
      ensures m[r[k].nombre] == r[k].cantidad
    {
      Cuantos(l, r[k].nombre);
    }
    forall x | x in m
      ensures exists k :: 0 <= k < |r| && r[k].nombre == x
    {
      if x == s {
        assert r[|l|].nombre == x;
      } else {
        Cuantos(l, x);
        var k :| 0 <= k < |l| && l[k].nombre == x;
        assert r[k].nombre == x;
      }
    }
    ContenidoEs(r, m);
  }

  lemma QuitarEnLista(l: seq<Nodo>, i: nat)
    requires ListaValida(l) && i < |l|
    ensures ListaValida(Quitar(l, i))
    ensures forall k :: 0 <= k < |l| && k != i ==> l[k] in Quitar(l, i)
    ensures forall n :: n in Quitar(l, i) ==> n in l && n.nombre != l[i].nombre
  {
    var r := Quitar(l, i);
    assert forall k :: 0 <= k < i ==> r[k] == l[k];
    assert forall k :: i <= k < |r| ==> r[k] == l[k + 1];
    forall k | 0 <= k < |l| && k != i
      ensures l[k] in r
    {
      assert r[if k < i then k else k - 1] == l[k];
    }
  }

  lemma QuitarNodo(l: seq<Nodo>, i: nat)
    requires ListaValida(l) && i < |l|
    ensures ListaValida(Quitar(l, i))
    ensures Contenido(Quitar(l, i)) == Contenido(l)[l[i].nombre := 0]
  {
    hide Contenido, Quitar;
    QuitarEnLista(l, i);
    var r := Quitar(l, i);
    var m := Contenido(l)[l[i].nombre := 0];
    forall k | 0 <= k < |r|
      ensures m[r[k].nombre] == r[k].cantidad
    {
      assert r[k] in r;
      Cuantos(l, r[k].nombre);
    }
    forall s | s in m
      ensures exists k :: 0 <= k < |r| && r[k].nombre == s
    {
      Cuantos(l, s);
      var k :| 0 <= k < |l| && l[k].nombre == s;
      assert l[k] in r;
    }
    ContenidoEs(r, m);
  }

  /** Adds c of a species: to its node when there is one, else as a new node at the end. */
  method Sumar(l: seq<Nodo>, s: string, c: int) returns (r: seq<Nodo>)
    requires ListaValida(l) && c > 0
    ensures ListaValida(r)
    ensures Contenido(r) == Contenido(l)[s := Contenido(l)[s] + c]
  {
    var k := Encontrar(l, s);
    EncontrarSiiEsta(l, s);
    if k.Some? {
      var i := k.value;
      CambiarCantidad(l, i, l[i].cantidad + c);
      r := l[i := Nodo(l[i].nombre, l[i].cantidad + c)];
    } else {
      AgregarNodo(l, s, c);
      r := l + [Nodo(s, c)];
    }
  }

  /** Takes one of a species, and its node with the last of them; a species without a node is left alone. */
  method RestarUno(l: seq<Nodo>, s: string) returns (r: seq<Nodo>)
    requires ListaValida(l)
    ensures ListaValida(r)
    ensures Contenido(r) == Contenido(l) - multiset{s}
  {
    var k := Encontrar(l, s);
    EncontrarSiiEsta(l, s);
    r := l;
    if k.Some? {
      var i := k.value;
      if l[i].cantidad - 1 == 0 {
        QuitarNodo(l, i);
        r := Quitar(l, i);
      } else {
        CambiarCantidad(l, i, l[i].cantidad - 1);
        r := l[i := Nodo(l[i].nombre, l[i].cantidad - 1)];
      }
    }
  }

  /** Reading a trainer's pokemons or objectives from its configuration: the list counts every piece. */
  method Contar(piezas: seq<string>) returns (l: seq<Nodo>)
    ensures ListaValida(l) && Contenido(l) == multiset(piezas)
  {
    l := [];
    var j := 0;
    while j < |piezas|
      invariant 0 <= j <= |piezas|
      invariant ListaValida(l) && Contenido(l) == multiset(piezas[..j])
    {
      l := Sumar(l, piezas[j], 1);
      assert piezas[..j + 1] == piezas[..j] + [piezas[j]];
      j := j + 1;
    }
    assert piezas[..j] == piezas;
  }

  /** Walking one node further along a list adds that node's pokemons. */
  lemma PrefijoMas(l: seq<Nodo>, i: nat)
    requires ListaValida(l) && i < |l|
    ensures ListaValida(l[..i]) && ListaValida(l[..i + 1])
    ensures Contenido(l[..i + 1]) == Contenido(l[..i])[l[i].nombre := l[i].cantidad]
    ensures Contenido(l[..i])[l[i].nombre] == 0
  {
    Cuantos(l[..i], l[i].nombre);
    AgregarNodo(l[..i], l[i].nombre, l[i].cantidad);
    assert l[..i + 1] == l[..i] + [Nodo(l[i].nombre, l[i].cantidad)];
  }

  /** The Team's global objectives absorb a trainer's, species by species. */
  method Absorber(globales: seq<Nodo>, propios: seq<Nodo>) returns (r: seq<Nodo>)
    requires ListaValida(globales) && ListaValida(propios)
    ensures ListaValida(r) && Contenido(r) == Contenido(globales) + Contenido(propios)
  {
    r := globales;
    var i := 0;
    while i < |propios|
      invariant 0 <= i <= |propios|
      invariant ListaValida(r) && ListaValida(propios[..i])
      invariant Contenido(r) == Contenido(globales) + Contenido(propios[..i])
    {
      PrefijoMas(propios, i);
      r := Sumar(r, propios[i].nombre, propios[i].cantidad);
      i := i + 1;
    }
    assert propios[..i] == propios;
  }

  /** How many of a species a list says it holds, as the program reads it: none without a node. */
  function CantidadDe(l: seq<Nodo>, s: string): int
  {
    var k := Encontrar(l, s);
    if k.Some? then l[k.value].cantidad else 0
  }

  /** What remains of one objective once the pokemons already held are discounted. */
  function Restante(n: Nodo, obtenidos: seq<Nodo>): seq<Nodo>
  {
    var resto := n.cantidad - CantidadDe(obtenidos, n.nombre);
    if resto == 0 then [] else [Nodo(n.nombre, resto)]
  }

  function Descontados(objetivos: seq<Nodo>, obtenidos: seq<Nodo>): seq<Nodo>
  {
    if objetivos == [] then []
    else
      Descontados(objetivos[..|objetivos| - 1], obtenidos) + Restante(objetivos[|objetivos| - 1], obtenidos)
  }

  lemma DescontarUnoMas(objetivos: seq<Nodo>, k: nat, obtenidos: seq<Nodo>)
    requires k < |objetivos|
    ensures Descontados(objetivos[..k + 1], obtenidos)
         == Descontados(objetivos[..k], obtenidos) + Restante(objetivos[k], obtenidos)
  {
    assert objetivos[..k + 1][..k] == objetivos[..k];
  }

  function SumaCantidades(l: seq<Nodo>): int
  {
    if l == [] then 0 else SumaCantidades(l[..|l| - 1]) + l[|l| - 1].cantidad
  }

  lemma SumarNodo(l: seq<Nodo>, n: Nodo)
    ensures SumaCantidades(l + [n]) == SumaCantidades(l) + n.cantidad
  {
    assert (l + [n])[..|l|] == l;
  }

  lemma EnElMedio(h: seq<Nodo>, l: seq<Nodo>, k: nat)
    requires k < |l|
    ensures Quitar(h + l[k..], |h|) == h + l[k + 1..]
    ensures forall y :: (h + l[k..])[|h| := y] == h + [y] + l[k + 1..]
  {
    assert h + l[k..] == h + [l[k]] + l[k + 1..];
  }

  /**
   The pass that discounts in place and counts what a trainer may still capture.  A node that
   reaches zero is removed under the index, which then steps back.
   */
  method EstablecerCantidadMaxima(objetivos: seq<Nodo>, obtenidos: seq<Nodo>)
    returns (restantes: seq<Nodo>, maximo: int)
    ensures restantes == Descontados(objetivos, obtenidos)
    ensures maximo == SumaCantidades(restantes)
  {
    hide Encontrar, CantidadDe;
    restantes, maximo := objetivos, 0;
    var i := 0;
    ghost var k, hechos: seq<Nodo> := 0, [];
    while i < |restantes|
      invariant 0 <= k <= |objetivos| && i == |hechos|
      invariant restantes == hechos + objetivos[k..]
      invariant hechos == Descontados(objetivos[..k], obtenidos)
      invariant maximo == SumaCantidades(hechos)
      decreases |restantes| - i
    {
      assert restantes[i] == objetivos[k];
      DescontarUnoMas(objetivos, k, obtenidos);
      EnElMedio(hechos, objetivos, k);
      var n := restantes[i];
      var resto := n.cantidad - CantidadDe(obtenidos, n.nombre);
      if resto == 0 {
        restantes := Quitar(restantes, i);
      } else {
        restantes := restantes[i := Nodo(n.nombre, resto)];
        SumarNodo(hechos, Nodo(n.nombre, resto));
        hechos := hechos + [Nodo(n.nombre, resto)];
        maximo := maximo + resto;
        i := i + 1;
      }
      k := k + 1;
    }
    assert objetivos[..k] == objetivos && objetivos[k..] == [];
  }

  /** No species is held in a larger number than the objectives ask for. */
  ghost predicate NingunoDeMas(objetivos: seq<Nodo>, obtenidos: seq<Nodo>)
  {
    forall i :: 0 <= i < |objetivos| ==> CantidadDe(obtenidos, objetivos[i].nombre) <= objetivos[i].cantidad
  }

  lemma {:induction false} NombresDescontados(objetivos: seq<Nodo>, obtenidos: seq<Nodo>, s: string)
    requires forall i :: 0 <= i < |objetivos| ==> objetivos[i].nombre != s
    ensures forall i :: 0 <= i < |Descontados(objetivos, obtenidos)| ==>
              Descontados(objetivos, obtenidos)[i].nombre != s
  {
    if objetivos != [] {
      NombresDescontados(objetivos[..|objetivos| - 1], obtenidos, s);
    }
  }

  /** A species held in excess leaves a node below zero. */
  lemma {:induction false} ElExcesoQuedaNegativo(objetivos: seq<Nodo>, obtenidos: seq<Nodo>, i: nat)
    requires i < |objetivos| && CantidadDe(obtenidos, objetivos[i].nombre) > objetivos[i].cantidad
    ensures exists k :: 0 <= k < |Descontados(objetivos, obtenidos)|
              && Descontados(objetivos, obtenidos)[k].cantidad < 0
  {
    var n := |objetivos| - 1;
    var d := Descontados(objetivos[..n], obtenidos);
    var r := Descontados(objetivos, obtenidos);
    if i < n {
      ElExcesoQuedaNegativo(objetivos[..n], obtenidos, i);
      var k :| 0 <= k < |d| && d[k].cantidad < 0;
      assert r[k] == d[k];
    } else {
      assert r[|d|].cantidad < 0;
    }
  }

  /**
   Without excess, what remains is the difference, and the cap on captures is how many pokemons remain.
   */
  lemma {:induction false} QuedaLaDiferencia(objetivos: seq<Nodo>, obtenidos: seq<Nodo>)
    requires ListaValida(objetivos) && ListaValida(obtenidos) && NingunoDeMas(objetivos, obtenidos)
    ensures ListaValida(Descontados(objetivos, obtenidos))
    ensures Contenido(Descontados(objetivos, obtenidos)) == Contenido(objetivos) - Contenido(obtenidos)
    ensures SumaCantidades(Descontados(objetivos, obtenidos)) == |Contenido(Descontados(objetivos, obtenidos))|
  {
    if objetivos != [] {
      var n := |objetivos| - 1;
      var u := objetivos[n];
      PrefijoMas(objetivos, n);
      assert objetivos[..n + 1] == objetivos;
      QuedaLaDiferencia(objetivos[..n], obtenidos);
      EncontrarSiiEsta(obtenidos, u.nombre);
      var d := Descontados(objetivos[..n], obtenidos);
      NombresDescontados(objetivos[..n], obtenidos, u.nombre);
      AgregarRestante(d, u, obtenidos, Contenido(objetivos[..n]));
    }
  }

  lemma AgregarRestante(d: seq<Nodo>, u: Nodo, obtenidos: seq<Nodo>, m: multiset<string>)
    requires ListaValida(d) && ListaValida(obtenidos) && Encontrar(d, u.nombre).None?
    requires CantidadDe(obtenidos, u.nombre) <= u.cantidad && u.cantidad > 0
    requires Contenido(d) == m - Contenido(obtenidos) && m[u.nombre] == 0
    requires SumaCantidades(d) == |Contenido(d)|
    ensures ListaValida(d + Restante(u, obtenidos))
    ensures Contenido(d + Restante(u, obtenidos)) == m[u.nombre := u.cantidad] - Contenido(obtenidos)
    ensures SumaCantidades(d + Restante(u, obtenidos)) == |Contenido(d + Restante(u, obtenidos))|
  {
    EncontrarSiiEsta(obtenidos, u.nombre);
    var resto := u.cantidad - CantidadDe(obtenidos, u.nombre);
    DiferenciaDeUno(m, Contenido(obtenidos), u.nombre, u.cantidad);
    if resto == 0 {
      assert d + Restante(u, obtenidos) == d;
    } else {
      assert Restante(u, obtenidos) == [Nodo(u.nombre, resto)];
      AgregarNodo(d, u.nombre, resto);
      SumarNodo(d, Nodo(u.nombre, resto));
    }
  }

  lemma DiferenciaDeUno(m: multiset<string>, o: multiset<string>, s: string, c: nat)
    requires m[s] == 0 && o[s] <= c
    ensures m[s := c] - o == (m - o)[s := c - o[s]]
    ensures |m[s := c] - o| == |m - o| + c - o[s]
  {
  }
}
