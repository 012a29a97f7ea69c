/**
 The frames of sample-socket: [n],[name],[size 1],...,[size n],[arg 1]...[arg n], what a whole
 byte stream means, and why cutting the stream elsewhere does not change that.
 */
module Tramas {
  import opened Secuencias
  import opened Numeros

  /** A remote call: the function's name and its arguments. */
  datatype Llamada = Llamada(nombre: string, args: seq<string>)

  // ---- the printer ----

  function Tamanios(args: seq<string>): string
  {
    if args == [] then "" else Itoa(|args[0]|) + "," + Tamanios(args[1..])
  }

  /** What runFunction sends for a call. */
  function Trama(l: Llamada): string
  {
    Itoa(|l.args|) + "," + l.nombre + "," + Tamanios(l.args) + Juntar(l.args)
  }

  function Flujo(ls: seq<Llamada>): string
  {
    if ls == [] then "" else Trama(ls[0]) + Flujo(ls[1..])
  }

  /** A call of two arguments. */
  lemma UnaTrama()
    ensures Trama(Llamada("f", ["ab", "c"])) == "2,f,2,1,abc"
  {
    var args := ["ab", "c"];
    assert args[1..] == ["c"] && ["c"][1..] == [];
    assert Tamanios(["c"]) == Itoa(1) + "," + "" == "1,";
    assert Tamanios(args) == Itoa(2) + "," + "1," == "2,1,";
    assert Juntar(["c"]) == "c" + "" == "c";
    assert Juntar(args) == "ab" + "c" == "abc";
    assert Trama(Llamada("f", args)) == Itoa(2) + "," + "f" + "," + "2,1," + "abc";
  }

  lemma {:induction false} TamaniosAgregar(args: seq<string>, a: string)
    ensures Tamanios(args + [a]) == Tamanios(args) + (Itoa(|a|) + ",")
    ensures Juntar(args + [a]) == Juntar(args) + a
    decreases |args|
  {
    var r := args + [a];
    if args == [] {
      assert r[1..] == [];
      assert Tamanios(r) == Itoa(|a|) + "," + "";
    } else {
      assert r[1..] == args[1..] + [a];
      TamaniosAgregar(args[1..], a);
      assert r[0] == args[0];
    }
  }

  /** runFunction: head and body grow together, one argument a turn. */
  method RunFunction(nombre: string, args: seq<string>) returns (paquete: string)
    ensures paquete == Trama(Llamada(nombre, args))
  {
    var packetHead := Itoa(|args|);
    packetHead := packetHead + ",";
    packetHead := packetHead + nombre;
    packetHead := packetHead + ",";
    ghost var inicio := packetHead;
    var packetBody := "";
    for i := 0 to |args|
      invariant packetHead == inicio + Tamanios(args[..i])
      invariant packetBody == Juntar(args[..i])
    {
      var arg := args[i];
      assert args[..i + 1] == args[..i] + [arg];
      TamaniosAgregar(args[..i], arg);
      packetHead := packetHead + Itoa(|arg|);
      packetHead := packetHead + ",";
      packetBody := packetBody + arg;
    }
    assert args[..|args|] == args;
    packetHead := packetHead + packetBody;
    return packetHead;
  }

  // ---- what a byte stream means ----

  /** How many bytes it takes to pass `faltan` commas, if s has them. */
  function HastaComa(s: string, faltan: nat): (r: Option<nat>)
    requires faltan > 0
    ensures r.Some? ==> 0 < r.value <= |s|
  {
    if s == "" then None
    else if s[0] == ',' && faltan == 1 then Some(1)
    else
      var r := HastaComa(s[1..], if s[0] == ',' then faltan - 1 else faltan);
      if r.Some? then Some(r.value + 1) else None
  }

  /** The argument count, read from one character. */
  function CantidadArgs(c: char): nat
  {
    Atoi([c])
  }

  /** Length of the head: up to the comma number n + 2, not counting the first character. */
  function Cabecera(s: string): (r: Option<nat>)
    ensures r.Some? ==> 1 < r.value <= |s|
  {
    if s == "" then None
    else
      var r := HastaComa(s[1..], CantidadArgs(s[0]) + 2);
      if r.Some? then Some(r.value + 1) else None
  }

  /** string_n_split by commas: at most k pieces, the last with whatever is left. */
  function NSplit(s: string, k: nat): (r: seq<string>)
    requires k > 0
    ensures 1 <= |r| <= k
  {
    var c := HastaComa(s, 1);
    if k == 1 || c.None? then [s] else [s[..c.value - 1]] + NSplit(s[c.value..], k - 1)
  }

  predicate SinComas(s: string)
  {
    forall i :: 0 <= i < |s| ==> s[i] != ','
  }

  /** Up to the first comma, and from there. */
  lemma {:induction false} HastaComaPaso(p: string, t: string, faltan: nat)
    requires SinComas(p) && faltan > 0
    ensures HastaComa(p + "," + t, faltan) ==
              if faltan == 1 then Some(|p| + 1)
              else if HastaComa(t, faltan - 1).Some? then Some(|p| + 1 + HastaComa(t, faltan - 1).value)
              else None
    decreases |p|
  {
    var s := p + "," + t;
    if p == "" {
      assert s == "," + t && s[1..] == t;
    } else {
      assert s[1..] == p[1..] + "," + t;
      HastaComaPaso(p[1..], t, faltan);
    }
  }

  lemma {:induction false} PrimeraComa(s: string)
    requires HastaComa(s, 1).Some?
    ensures var c := HastaComa(s, 1).value;
            SinComas(s[..c - 1]) && s == s[..c - 1] + "," + s[c..]
  {
    if s[0] != ',' {
      PrimeraComa(s[1..]);
      var c := HastaComa(s[1..], 1).value;
      assert s[..c] == [s[0]] + s[1..][..c - 1];
      assert s[c + 1..] == s[1..][c..];
    }
  }

  lemma {:induction false} MasComas(s: string, f: nat, g: nat)
    requires 0 < f <= g && HastaComa(s, g).Some?
    ensures HastaComa(s, f).Some?
    decreases |s|
  {
    if !(s[0] == ',' && f == 1) {
      if s[0] == ',' {
        MasComas(s[1..], f - 1, g - 1);
      } else {
        MasComas(s[1..], f, g);
      }
    }
  }

  lemma NSplitPaso(p: string, t: string, k: nat)
    requires SinComas(p) && k > 1
    ensures NSplit(p + "," + t, k) == [p] + NSplit(t, k - 1)
  {
    var s := p + "," + t;
    HastaComaPaso(p, t, 1);
    assert s[..|p|] == p && s[|p| + 1..] == t;
  }

  /** With k - 1 commas there are k pieces. */
  lemma {:induction false} NSplitCompleto(s: string, k: nat)
    requires k > 1 && HastaComa(s, k - 1).Some?
    ensures |NSplit(s, k)| == k
    decreases k
  {
    MasComas(s, 1, k - 1);
    PrimeraComa(s);
    var c := HastaComa(s, 1).value;
    HastaComaPaso(s[..c - 1], s[c..], k - 1);
    if k > 2 {
      NSplitCompleto(s[c..], k - 1);
    }
  }

  lemma {:induction false} HastaComaCorte(s: string, faltan: nat)
    requires faltan > 0 && HastaComa(s, faltan).Some?
    ensures HastaComa(s[..HastaComa(s, faltan).value], faltan) == HastaComa(s, faltan)
    decreases |s|
  {
    var r := HastaComa(s, faltan).value;
    if !(s[0] == ',' && faltan == 1) {
      assert s[..r][1..] == s[1..][..r - 1];
      HastaComaCorte(s[1..], if s[0] == ',' then faltan - 1 else faltan);
    }
  }

  /** A complete head splits into the count, the name and the sizes. */
  lemma CabeceraSePuedePartir(s: string)
    requires Cabecera(s).Some?
    ensures |NSplit(s[..Cabecera(s).value], CantidadArgs(s[0]) + 2)| == CantidadArgs(s[0]) + 2
  {
    var n, c := CantidadArgs(s[0]), Cabecera(s).value;
    var h := s[..c];
    HastaComaCorte(s[1..], n + 2);
    assert h[1..] == s[1..][..c - 1];
    MasComas(h[1..], n + 1, n + 2);
    if h[0] == ',' && n > 0 {
      MasComas(h[1..], n, n + 2);
    }
    assert HastaComa(h, n + 1).Some?;
    NSplitCompleto(h, n + 2);
  }

  function SumaTamanios(head: seq<string>): nat
  {
    if head == [] then 0 else Atoi(head[0]) + SumaTamanios(head[1..])
  }

  /** The arguments cut off a body, by the sizes of the head. */
  function Cortar(body: string, head: seq<string>): (r: seq<string>)
    requires SumaTamanios(head) <= |body|
    ensures |r| == |head|
  {
    if head == [] then [] else [body[..Atoi(head[0])]] + Cortar(body[Atoi(head[0])..], head[1..])
  }

  /** With no argument the second piece keeps the last comma, which is dropped. */
  function NombreDe(head: seq<string>, n: nat): string
    requires |head| > 1
  {
    if n == 0 && head[1] != "" then head[1][..|head[1]| - 1] else head[1]
  }

  /** The first whole frame of s, and how many bytes it takes. */
  function PrimerPaquete(s: string): (r: Option<(Llamada, nat)>)
    ensures r.Some? ==> 0 < r.value.1 <= |s|
  {
    var c := Cabecera(s);
    if c.None? then None
    else
      var n := CantidadArgs(s[0]);
      CabeceraSePuedePartir(s);
      var head := NSplit(s[..c.value], n + 2);
      var total := SumaTamanios(head[2..]);
      if c.value + total > |s| then None
      else Some((Llamada(NombreDe(head, n), Cortar(s[c.value..c.value + total], head[2..])), c.value + total))
  }

  /** All whole frames at the start of s, and the bytes left over. */
  function Consumir(s: string): (r: (seq<Llamada>, string))
    decreases |s|
  {
    var p := PrimerPaquete(s);
    if p.None? then ([], s)
    else
      var (ls, resto) := Consumir(s[p.value.1..]);
      ([p.value.0] + ls, resto)
  }

  // ---- chunks ----

  lemma {:induction false} HastaComaEstable(s: string, t: string, faltan: nat)
    requires faltan > 0 && HastaComa(s, faltan).Some?
    ensures HastaComa(s + t, faltan) == HastaComa(s, faltan)
    decreases |s|
  {
    assert (s + t)[1..] == s[1..] + t;
    if !(s[0] == ',' && faltan == 1) {
      HastaComaEstable(s[1..], t, if s[0] == ',' then faltan - 1 else faltan);
    }
  }

  lemma PaqueteEstable(s: string, t: string)
    requires PrimerPaquete(s).Some?
    ensures PrimerPaquete(s + t) == PrimerPaquete(s)
  {
    assert (s + t)[1..] == s[1..] + t;
    HastaComaEstable(s[1..], t, CantidadArgs(s[0]) + 2);
    var c := Cabecera(s).value;
    assert (s + t)[..c] == s[..c];
    var p := PrimerPaquete(s).value;
    assert (s + t)[c..p.1] == s[c..p.1];
  }

  /** Reading a stream in two parts, with what the first left over, reads it whole. */
  lemma {:induction false} ConsumirPorPartes(s: string, t: string)
    ensures var (ls, resto) := Consumir(s);
            var (ls', resto') := Consumir(resto + t);
            Consumir(s + t) == (ls + ls', resto')
    decreases |s|
  {
    var p := PrimerPaquete(s);
    if p.Some? {
      PaqueteEstable(s, t);
      assert (s + t)[p.value.1..] == s[p.value.1..] + t;
      ConsumirPorPartes(s[p.value.1..], t);
      var (ls, resto) := Consumir(s[p.value.1..]);
      var (ls', resto') := Consumir(resto + t);
      assert [p.value.0] + (ls + ls') == ([p.value.0] + ls) + ls';
    } else {
      var (ls', resto') := Consumir(s + t);
      assert [] + ls' == ls';
    }
  }

  /** Of the stream `todo`, `ls` has been made out and `resto` is still to be read. */
  ghost predicate Resta(todo: string, ls: seq<Llamada>, resto: string)
  {
    Consumir(todo) == (ls + Consumir(resto).0, Consumir(resto).1)
  }

  lemma RestaTodo(todo: string)
    ensures Resta(todo, [], todo)
  {
    assert [] + Consumir(todo).0 == Consumir(todo).0;
  }

  lemma RestaUnPaqueteMenos(todo: string, ls: seq<Llamada>, resto: string)
    requires Resta(todo, ls, resto) && PrimerPaquete(resto).Some?
    ensures var p := PrimerPaquete(resto).value; Resta(todo, ls + [p.0], resto[p.1..])
  {
    var p := PrimerPaquete(resto).value;
    var ls' := Consumir(resto[p.1..]).0;
    assert ls + ([p.0] + ls') == (ls + [p.0]) + ls';
  }

  lemma RestaNada(todo: string, ls: seq<Llamada>, resto: string)
    requires Resta(todo, ls, resto) && PrimerPaquete(resto).None?
    ensures Consumir(todo) == (ls, resto)
  {
    assert ls + [] == ls;
  }

  lemma RestaUnTrozoMenos(todo: string, ls: seq<Llamada>, pendiente: string, trozos: seq<string>, i: nat)
    requires i < |trozos| && Resta(todo, ls, pendiente + Juntar(trozos[i..]))
    ensures var (ls', resto) := Consumir(pendiente + trozos[i]);
            Resta(todo, ls + ls', resto + Juntar(trozos[i + 1..]))
  {
    var s, t := pendiente + trozos[i], Juntar(trozos[i + 1..]);
    assert trozos[i..][1..] == trozos[i + 1..];
    assert pendiente + Juntar(trozos[i..]) == s + t;
    RestaPorPartes(todo, ls, s, t);
  }

  lemma RestaPorPartes(todo: string, ls: seq<Llamada>, s: string, t: string)
    requires Resta(todo, ls, s + t)
    ensures Resta(todo, ls + Consumir(s).0, Consumir(s).1 + t)
  {
    ConsumirPorPartes(s, t);
    Asociativa(ls, Consumir(s).0, Consumir(Consumir(s).1 + t).0);
  }

  // ---- bytes a head can carry ----

  /**
   The reader keeps each byte of a head in a `char*` that it then appends as text: below 128 that is the
   byte and a final zero, and from 128 on the sign fills the pointer and the append reads past it.
   */
  predicate SieteBits(s: string)
  {
    forall i :: 0 <= i < |s| ==> s[i] as int < 128
  }

  /** The head of the first frame, or as much as there is of it, can be taken in. */
  predicate CabeceraSana(s: string)
  {
    SieteBits(if Cabecera(s).Some? then s[..Cabecera(s).value] else s)
  }

  /** So can the heads of all the frames of the stream. */
  predicate Sano(s: string)
    decreases |s|
  {
    CabeceraSana(s) && (PrimerPaquete(s).Some? ==> Sano(s[PrimerPaquete(s).value.1..]))
  }

  /** An unfinished head lies inside the finished one. */
  lemma CabeceraSinTerminar(s: string, t: string)
    requires Cabecera(s).None? && Cabecera(s + t).Some?
    ensures |s| < Cabecera(s + t).value
  {
    if s != "" && Cabecera(s + t).value <= |s| {
      var n, c := CantidadArgs(s[0]), Cabecera(s + t).value;
      assert (s + t)[1..] == s[1..] + t;
      HastaComaCorte((s + t)[1..], n + 2);
      assert (s + t)[1..][..c - 1] == s[1..c] && s[1..] == s[1..c] + s[c..];
      HastaComaEstable(s[1..c], s[c..], n + 2);
    }
  }

  lemma CabeceraSanaConMas(s: string, t: string)
    ensures Cabecera(s).Some? ==> (CabeceraSana(s + t) <==> CabeceraSana(s))
    ensures CabeceraSana(s + t) ==> CabeceraSana(s)
  {
    if Cabecera(s).Some? {
      assert (s + t)[1..] == s[1..] + t;
      HastaComaEstable(s[1..], t, CantidadArgs(s[0]) + 2);
      assert (s + t)[..Cabecera(s).value] == s[..Cabecera(s).value];
    } else if Cabecera(s + t).Some? {
      CabeceraSinTerminar(s, t);
      assert (s + t)[..Cabecera(s + t).value][..|s|] == s;
    } else {
      assert (s + t)[..|s|] == s;
    }
  }

  /** Whether a stream can be read does not depend on where it is cut either. */
  lemma {:induction false} SanoPorPartes(s: string, t: string)
    ensures Sano(s + t) <==> Sano(s) && Sano(Consumir(s).1 + t)
    decreases |s|
  {
    CabeceraSanaConMas(s, t);
    var p := PrimerPaquete(s);
    if p.Some? {
      PaqueteEstable(s, t);
      assert (s + t)[p.value.1..] == s[p.value.1..] + t;
      SanoPorPartes(s[p.value.1..], t);
    }
  }

  // ---- counting commas ----

  function Comas(s: string): nat
  {
    if s == "" then 0 else (if s[0] == ',' then 1 else 0) + Comas(s[1..])
  }

  lemma {:induction false} ComasAgregar(s: string, b: char)
    ensures Comas(s + [b]) == Comas(s) + if b == ',' then 1 else 0
    decreases |s|
  {
    if s == "" {
      assert s + [b] == [b];
      assert Comas([b]) == (if b == ',' then 1 else 0) + Comas("");
    } else {
      assert (s + [b])[1..] == s[1..] + [b];
      ComasAgregar(s[1..], b);
    }
  }

  lemma {:induction false} HastaComaSii(s: string, faltan: nat)
    requires faltan > 0
    ensures HastaComa(s, faltan).Some? <==> faltan <= Comas(s)
    decreases |s|
  {
    if s != "" && !(s[0] == ',' && faltan == 1) {
      HastaComaSii(s[1..], if s[0] == ',' then faltan - 1 else faltan);
    }
  }

  /** The comma that completes the count ends the head. */
  lemma {:induction false} HastaComaJusto(s: string, faltan: nat)
    requires faltan > 0 && Comas(s) == faltan - 1
    ensures HastaComa(s + ",", faltan) == Some(|s| + 1)
    decreases |s|
  {
    if s == "" {
      assert s + "," == ",";
    } else {
      assert (s + ",")[1..] == s[1..] + ",";
      HastaComaJusto(s[1..], if s[0] == ',' then faltan - 1 else faltan);
    }
  }

  // ---- the printer and the stream reader ----

  /** The sizes of a head are those of the arguments. */
  ghost predicate Miden(head: seq<string>, args: seq<string>)
  {
    |head| == |args| && forall j :: 0 <= j < |args| ==> Atoi(head[j]) == |args[j]|
  }

  lemma {:induction false} CortarLoQueMiden(head: seq<string>, args: seq<string>)
    requires Miden(head, args)
    ensures SumaTamanios(head) == |Juntar(args)|
    ensures Cortar(Juntar(args), head) == args
    decreases |args|
  {
    if args != [] {
      assert Miden(head[1..], args[1..]);
      CortarLoQueMiden(head[1..], args[1..]);
      var body := Juntar(args);
      assert body[..|args[0]|] == args[0];
      assert body[|args[0]|..] == Juntar(args[1..]);
    }
  }

  lemma ItoaSinComas(n: nat)
    ensures SinComas(Itoa(n))
  {
  }

  lemma {:induction false} NSplitTamanios(args: seq<string>)
    requires args != []
    ensures Miden(NSplit(Tamanios(args), |args|), args)
    decreases |args|
  {
    var s := Tamanios(args);
    var i0 := Itoa(|args[0]|);
    if |args| == 1 {
      assert args[1..] == [];
      assert Tamanios(args[1..]) == "";
      assert s == i0 + ",";
      AtoiItoa(|args[0]|, ",");
    } else {
      ItoaSinComas(|args[0]|);
      assert s == i0 + "," + Tamanios(args[1..]);
      NSplitPaso(i0, Tamanios(args[1..]), |args|);
      NSplitTamanios(args[1..]);
      AtoiItoa(|args[0]|, "");
      assert i0 + "" == i0;
    }
  }

  lemma {:induction false} ComasDeTamanios(args: seq<string>, d: nat, x: string)
    requires 1 <= d <= |args|
    ensures HastaComa(Tamanios(args) + x, d) == Some(|Tamanios(args[..d])|)
    decreases d
  {
    var i0 := Itoa(|args[0]|);
    ItoaSinComas(|args[0]|);
    assert Tamanios(args) + x == i0 + "," + (Tamanios(args[1..]) + x);
    HastaComaPaso(i0, Tamanios(args[1..]) + x, d);
    if d == 1 {
      assert args[..1] == [args[0]];
      assert Tamanios([args[0]]) == i0 + "," + Tamanios([]);
    } else {
      ComasDeTamanios(args[1..], d - 1, x);
      assert args[..d][1..] == args[1..][..d - 1];
    }
  }

  lemma {:induction false} TamaniosPartidos(args: seq<string>, d: nat)
    requires d <= |args|
    ensures Tamanios(args) == Tamanios(args[..d]) + Tamanios(args[d..])
    decreases d
  {
    if d == 0 {
      assert args[..0] == [] && args[0..] == args;
    } else {
      TamaniosPartidos(args[1..], d - 1);
      assert args[..d][1..] == args[1..][..d - 1];
      assert args[1..][d - 1..] == args[d..];
    }
  }

  lemma {:induction false} JuntarPrefijo(args: seq<string>, d: nat)
    requires d <= |args|
    ensures |Juntar(args[..d])| <= |Juntar(args)|
    decreases d
  {
    if d > 0 {
      JuntarPrefijo(args[1..], d - 1);
      assert args[..d][1..] == args[1..][..d - 1];
    }
  }

  /** Names the protocol can carry. */
  predicate NombreValido(nombre: string)
  {
    nombre != "" && SinComas(nombre)
  }

  /** The count the reader takes from a frame: the first digit of the real one. */
  function CantidadLeida(l: Llamada): nat
  {
    CantidadArgs(Itoa(|l.args|)[0])
  }

  lemma CantidadLeidaMenor(l: Llamada)
    ensures CantidadLeida(l) <= |l.args|
    ensures CantidadLeida(l) == |l.args| <==> |l.args| < 10
  {
    var n := |l.args|;
    PrimerDigito(n);
    var c := Itoa(n)[0];
    assert [c][1..] == "";
    assert Atoi([c]) == AtoiDesde(10 * 0 + ValorDigito(c), "");
  }

  function CabeceraLeida(l: Llamada, d: nat): string
    requires d <= |l.args|
  {
    Itoa(|l.args|) + "," + l.nombre + "," + Tamanios(l.args[..d])
  }

  lemma ComasTrasNombre(nombre: string, args: seq<string>, d: nat, x: string)
    requires SinComas(nombre) && d <= |args|
    ensures HastaComa(nombre + "," + (Tamanios(args) + x), d + 1) == Some(|nombre| + 1 + |Tamanios(args[..d])|)
  {
    HastaComaPaso(nombre, Tamanios(args) + x, d + 1);
    if d > 0 {
      ComasDeTamanios(args, d, x);
    } else {
      assert args[..0] == [];
    }
  }

  /** The head the reader makes out in a frame: the count, the name and the first d sizes. */
  lemma CabeceraDeTrama(l: Llamada, t: string)
    requires NombreValido(l.nombre)
    ensures CantidadLeida(l) <= |l.args|
    ensures Cabecera(Trama(l) + t) == Some(|CabeceraLeida(l, CantidadLeida(l))|)
  {
    hide Itoa, Tamanios, Juntar, HastaComa;
    CantidadLeidaMenor(l);
    var d := CantidadLeida(l);
    var i0 := Itoa(|l.args|);
    var s := Trama(l) + t;
    var x := Juntar(l.args) + t;
    var r := l.nombre + "," + (Tamanios(l.args) + x);
    ItoaSinComas(|l.args|);
    assert s[0] == i0[0];
    assert s[1..] == i0[1..] + "," + r;
    HastaComaPaso(i0[1..], r, d + 2);
    ComasTrasNombre(l.nombre, l.args, d, x);
  }

  lemma TramaTrasCabecera(l: Llamada, d: nat)
    requires d <= |l.args|
    ensures Trama(l) == CabeceraLeida(l, d) + (Tamanios(l.args[d..]) + Juntar(l.args))
    ensures |Juntar(l.args[..d])| <= |Juntar(l.args)|
  {
    TamaniosPartidos(l.args, d);
    JuntarPrefijo(l.args, d);
  }

  lemma PiezasSinArgs(l: Llamada)
    requires NombreValido(l.nombre)
    ensures var head := NSplit(CabeceraLeida(l, 0), 2);
            |head| == 2 && NombreDe(head, 0) == l.nombre && head[2..] == []
  {
    var i0 := Itoa(|l.args|);
    var r1 := l.nombre + ",";
    ItoaSinComas(|l.args|);
    assert l.args[..0] == [];
    assert CabeceraLeida(l, 0) == i0 + "," + r1;
    NSplitPaso(i0, r1, 2);
    assert r1[..|r1| - 1] == l.nombre;
  }

  /** The pieces of that head. */
  lemma PiezasDeCabecera(l: Llamada, d: nat)
    requires NombreValido(l.nombre) && d <= |l.args|
    ensures var head := NSplit(CabeceraLeida(l, d), d + 2);
            |head| == d + 2 && NombreDe(head, d) == l.nombre && Miden(head[2..], l.args[..d])
  {
    if d == 0 {
      PiezasSinArgs(l);
    } else {
      var i0 := Itoa(|l.args|);
      var r2 := Tamanios(l.args[..d]);
      ItoaSinComas(|l.args|);
      assert CabeceraLeida(l, d) == i0 + "," + (l.nombre + "," + r2);
      NSplitPaso(i0, l.nombre + "," + r2, d + 2);
      NSplitPaso(l.nombre, r2, d + 1);
      NSplitTamanios(l.args[..d]);
      assert NSplit(CabeceraLeida(l, d), d + 2)[2..] == NSplit(r2, d);
    }
  }

  /** What the reader takes for the first frame: the call itself with up to nine arguments. */
  lemma PaqueteDeTrama(l: Llamada, t: string)
    requires NombreValido(l.nombre)
    ensures PrimerPaquete(Trama(l) + t).Some?
    ensures |PrimerPaquete(Trama(l) + t).value.0.args| == CantidadLeida(l)
    ensures |l.args| < 10 ==> PrimerPaquete(Trama(l) + t).value == (l, |Trama(l)|)
  {
    CabeceraDeTrama(l, t);
    var d := CantidadLeida(l);
    PaqueteTrasCabecera(l, d, Trama(l) + t, t);
    CantidadLeidaMenor(l);
  }

  lemma PaqueteTrasCabecera(l: Llamada, d: nat, s: string, t: string)
    requires NombreValido(l.nombre) && d <= |l.args|
    requires s == Trama(l) + t && CantidadArgs(s[0]) == d && Cabecera(s) == Some(|CabeceraLeida(l, d)|)
    ensures PrimerPaquete(s).Some?
    ensures |PrimerPaquete(s).value.0.args| == d
    ensures d == |l.args| ==> PrimerPaquete(s).value == (l, |Trama(l)|)
  {
    hide Itoa, Tamanios, HastaComa, CantidadArgs;
    var c := |CabeceraLeida(l, d)|;
    TramaTrasCabecera(l, d);
    assert s[..c] == CabeceraLeida(l, d);
    PiezasDeCabecera(l, d);
    var head := NSplit(s[..c], d + 2);
    CortarLoQueMiden(head[2..], l.args[..d]);
    if d == |l.args| {
      assert l.args[..d] == l.args && l.args[d..] == [];
      assert s[c..c + |Juntar(l.args)|] == Juntar(l.args);
    }
  }

  lemma {:induction false} TamaniosDeSieteBits(args: seq<string>)
    ensures SieteBits(Tamanios(args))
  {
    if args != [] {
      TamaniosDeSieteBits(args[1..]);
      ItoaDeSieteBits(|args[0]|);
    }
  }

  lemma ItoaDeSieteBits(n: nat)
    ensures SieteBits(Itoa(n))
  {
  }

  /** In a printed frame only the name decides it. */
  lemma CabeceraDeSieteBits(l: Llamada, d: nat)
    requires d <= |l.args|
    ensures SieteBits(CabeceraLeida(l, d)) <==> SieteBits(l.nombre)
  {
    var i0, r, h := Itoa(|l.args|), Tamanios(l.args[..d]), CabeceraLeida(l, d);
    ItoaDeSieteBits(|l.args|);
    TamaniosDeSieteBits(l.args[..d]);
    assert h[|i0| + 1..|i0| + 1 + |l.nombre|] == l.nombre;
  }

  lemma UnaYLasDemas(ls: seq<Llamada>)
    requires ls != []
    ensures HastaNueveArgs(ls) <==> |ls[0].args| <= 9 && HastaNueveArgs(ls[1..])
    ensures NombresDeSieteBits(ls) <==> SieteBits(ls[0].nombre) && NombresDeSieteBits(ls[1..])
  {
    hide SieteBits;
    assert forall i :: 1 <= i < |ls| ==> ls[i] == ls[1..][i - 1];
  }

  lemma SanoSegunElNombre(l: Llamada, t: string)
    requires NombreValido(l.nombre)
    ensures CabeceraSana(Trama(l) + t) <==> SieteBits(l.nombre)
  {
    hide Itoa, Tamanios, Juntar, HastaComa, Trama;
    var d := CantidadLeida(l);
    CabeceraDeTrama(l, t);
    TramaTrasCabecera(l, d);
    CabeceraDeSieteBits(l, d);
    assert (Trama(l) + t)[..|CabeceraLeida(l, d)|] == CabeceraLeida(l, d);
  }

  ghost predicate NombresValidos(ls: seq<Llamada>)
  {
    forall i :: 0 <= i < |ls| ==> NombreValido(ls[i].nombre)
  }

  ghost predicate HastaNueveArgs(ls: seq<Llamada>)
  {
    forall i :: 0 <= i < |ls| ==> |ls[i].args| <= 9
  }

  ghost predicate NombresDeSieteBits(ls: seq<Llamada>)
  {
    forall i :: 0 <= i < |ls| ==> SieteBits(ls[i].nombre)
  }

  /**
   Reading a printed stream gives back exactly the calls, and nothing is left over, if and only if
   no call has ten arguments or more; and its heads can be taken in if and only if no name has a byte
   of 128 or more.
   */
  lemma {:induction false} IdaYVuelta(ls: seq<Llamada>)
    requires NombresValidos(ls)
    ensures Consumir(Flujo(ls)) == (ls, "") <==> HastaNueveArgs(ls)
    ensures Consumir(Flujo(ls)).0 == ls ==> HastaNueveArgs(ls)
    ensures HastaNueveArgs(ls) ==> (Sano(Flujo(ls)) <==> NombresDeSieteBits(ls))
    decreases |ls|
  {
    if ls == [] {
      assert PrimerPaquete("").None?;
    } else {
      var resto := Flujo(ls[1..]);
      PaqueteDeTrama(ls[0], resto);
      SanoSegunElNombre(ls[0], resto);
      CantidadLeidaMenor(ls[0]);
      var p := PrimerPaquete(Flujo(ls)).value;
      if |ls[0].args| <= 9 {
        assert Flujo(ls)[p.1..] == resto;
        IdaYVuelta(ls[1..]);
        assert ls == [ls[0]] + ls[1..];
        UnaYLasDemas(ls);
      } else {
        assert Consumir(Flujo(ls)).0[0] == p.0;
      }
    }
  }

  /** A call without arguments whose name is "ñ", two bytes in UTF-8, is not read. */
  lemma UnaEnie() returns (l: Llamada)
    ensures l == Llamada([195 as char, 177 as char], []) && NombreValido(l.nombre)
    ensures !Sano(Flujo([l]))
  {
    l := Llamada([195 as char, 177 as char], []);
    assert l.nombre[0] as int == 195 && !SieteBits([l][0].nombre);
    IdaYVuelta([l]);
  }

  /** With ten arguments the call that is dispatched has the first of them only. */
  lemma DiezArgumentos(l: Llamada)
    requires NombreValido(l.nombre) && |l.args| == 10
    ensures Consumir(Flujo([l])).0 != [] && |Consumir(Flujo([l])).0[0].args| == 1
  {
    assert Flujo([l]) == Trama(l) + "";
    PaqueteDeTrama(l, "");
    assert Itoa(10) == Itoa(1) + [Digito(0)] == ['1', '0'];
  }
}
