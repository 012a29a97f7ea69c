/**
 A run on a new cache that fails although every message fits it: five messages, two of them apart from each
 other and from the end used longest ago, and a request for the whole memory.
 */
module FallaDeMemoria {
  import opened Bytes
  import opened Secuencias
  import opened Particiones
  import opened EstadoDeMemoria
  import opened BusquedaDeParticion
  import opened CorridasDeMemoria
  import Serializacion

  /** Dynamic partitions, first fit and LRU, with a compaction every two evictions. */
  const CONFIG := Config(false, false, false, 2)

  const CAUGHT: nat := 1
  const GET: nat := 2

  /** The k-th CAUGHT to come. */
  function Llegado(k: nat): Mensaje
  {
    Mensaje(k, k, CAUGHT, 4, Bloque(4 * k, 4))
  }

  /** The first k in a row, one after the other from the start of the memory. */
  function Fila(k: nat): (r: seq<Mensaje>)
    ensures |r| == k
  {
    seq(k, i requires 0 <= i < k => Llegado(i))
  }

  /** Five CAUGHT, three of them sent again, and a GET as long as the memory. */
  function Pedidos(nombre: seq<byte>): seq<Pedido>
  {
    seq(5, k requires 0 <= k < 5 => Guardar(k, k, CAUGHT, Serializacion.Resultado(1)))
    + [Reenviar(1, 5), Reenviar(3, 6), Reenviar(4, 7), Guardar(8, 8, GET, Serializacion.Consulta(nombre))]
  }

  // ---- the first five ----

  lemma EnLaFila(k: nat, b: Bloque)
    ensures b in Usados(Fila(k)) <==> b.tam == 4 && b.pos % 4 == 0 && b.pos < 4 * k
  {
    var bs := Bloques(Fila(k));
    if b.tam == 4 && b.pos % 4 == 0 && b.pos < 4 * k {
      assert bs[b.pos / 4] == b;
    }
  }

  /** What is past the row is the one free stretch. */
  lemma UnTramoAlFinal(k: nat)
    requires k < 5
    ensures Tramos(CONFIG, 21, Fila(k)) == {Bloque(4 * k, 21 - 4 * k)}
  {
    var u, f := Usados(Fila(k)), Bloque(4 * k, 21 - 4 * k);
    forall b | Hueco(CONFIG, 21, u, b)
      ensures b.Dentro(f)
    {
      if b.pos < 4 * k {
        EnLaFila(k, Bloque(b.pos / 4 * 4, 4));
      }
    }
    forall p | p in u
      ensures Disjuntos(f, p)
    {
      EnLaFila(k, p);
    }
    assert EsTramo(CONFIG, 21, u, f);
    forall b | b in Tramos(CONFIG, 21, Fila(k))
      ensures b == f
    {
      assert b.Dentro(f);
    }
  }

  lemma UnaMasEnLaFila(r: Regla, k: nat, d: seq<Mensaje>)
    requires r.cfg == CONFIG && r.n == 21 && Clasifica(r.clasificar) && k < 5
    requires Paso(r, 0, Fila(k), Guardar(k, k, CAUGHT, Serializacion.Resultado(1)), d)
    ensures d == Fila(k + 1)
  {
    hide Clasifica, Vuelta, Tramos;
    UnTramoAlFinal(k);
    var f := Bloque(4 * k, 21 - 4 * k);
    assert f in Tramos(CONFIG, 21, Fila(k));
    HayLugarEnElTramo(Fila(k), f, 4);
    var m := d[|d| - 1];
    assert d == Fila(k) + [m];
    assert m == Llegado(k);
  }

  lemma HayLugarEnElTramo(ms: seq<Mensaje>, f: Bloque, t: nat)
    requires f in Tramos(CONFIG, 21, ms) && 0 < t <= f.tam
    ensures HayLugar(CONFIG, 21, ms, t)
  {
    assert Hueco(CONFIG, 21, Usados(ms), Bloque(f.pos, t));
  }

  // ---- the last ----

  /** The five with the second, the fourth and the last used after the others. */
  function Usadas(): seq<Mensaje>
  {
    [Llegado(0), Llegado(1).(timestamp := 5), Llegado(2), Llegado(3).(timestamp := 6), Llegado(4).(timestamp := 7)]
  }

  /** Whatever list_sort does with ties, one that is before all the others is the first. */
  lemma PrimeroElMenor(r: Regla, ms: seq<Mensaje>, m: Mensaje, resto: multiset<Mensaje>)
    requires Clasifica(r.clasificar) && !r.cfg.fifo && multiset(ms) == resto + multiset{m}
    requires forall x :: x in resto ==> m.timestamp < x.timestamp
    ensures multiset(Cola(r, ms)[1..]) == resto && |Cola(r, ms)| == |resto| + 1
  {
    var q := r.clasificar(ms);
    assert |multiset(ms)| == |resto| + 1;
    assert m in multiset(q);
    var i :| 0 <= i < |q| && q[i] == m;
    EnOrdenDeTimestamp(r, ms, i);
    assert q[0] in multiset(q);
    assert q[0] == m;
    assert q == [q[0]] + q[1..];
    assert multiset(q[1..]) == multiset(q) - multiset{m} == resto;
    assert Cola(r, ms) == q && |q| == |multiset(q)|;
  }

  lemma EnOrdenDeTimestamp(r: Regla, ms: seq<Mensaje>, i: nat)
    requires Clasifica(r.clasificar) && i < |r.clasificar(ms)|
    ensures r.clasificar(ms)[0].timestamp <= r.clasificar(ms)[i].timestamp
  {
    var q := r.clasificar(ms);
    var clave := (x: Mensaje) => x.timestamp;
    assert Ordenado(q, clave);
    assert i > 0 ==> clave(q[0]) <= clave(q[i]);
  }

  lemma QuedanTres(r: Regla)
    requires r.cfg == CONFIG && r.n == 21 && Clasifica(r.clasificar)
    ensures |Usadas()| == 5 && |Cola(r, Usadas())| == 5 && |Cola(r, Cola(r, Usadas())[1..])| == 4
    ensures multiset(Cola(r, Cola(r, Usadas())[1..])[1..]) == multiset{Usadas()[1], Usadas()[3], Usadas()[4]}
  {
    hide Clasifica, Cola;
    var u := Usadas();
    PrimeroElMenor(r, u, u[0], multiset{u[1], u[2], u[3], u[4]});
    PrimeroElMenor(r, Cola(r, u)[1..], u[2], multiset{u[1], u[3], u[4]});
  }

  /** Their partitions leave three free stretches. */
  lemma TresTramos(q: seq<Mensaje>)
    requires multiset(q) == multiset{Usadas()[1], Usadas()[3], Usadas()[4]}
    ensures |Tramos(CONFIG, 21, q)| >= 3
  {
    var u := Usados(q);
    forall b
      ensures b in u <==> b == Bloque(4, 4) || b == Bloque(12, 4) || b == Bloque(16, 4)
    {
      SonLosBloques(q, b);
    }
    var x, y, z := Bloque(0, 4), Bloque(8, 4), Bloque(20, 1);
    assert Bloque(4, 4) in u && Bloque(12, 4) in u && Bloque(16, 4) in u;
    assert EsTramo(CONFIG, 21, u, x) && EsTramo(CONFIG, 21, u, y) && EsTramo(CONFIG, 21, u, z);
    var s := {x, y, z};
    assert s <= Tramos(CONFIG, 21, q);
    CabenEn(s, Tramos(CONFIG, 21, q));
  }

  lemma SonLosBloques(q: seq<Mensaje>, b: Bloque)
    requires multiset(q) == multiset{Usadas()[1], Usadas()[3], Usadas()[4]}
    ensures b in Usados(q) <==> b == Bloque(4, 4) || b == Bloque(12, 4) || b == Bloque(16, 4)
  {
    forall m | m in multiset(q)
      ensures m.particion in Usados(q)
    {
      var k :| 0 <= k < |q| && q[k] == m;
      assert Bloques(q)[k] == m.particion;
    }
    if b in Usados(q) {
      var k :| 0 <= k < |q| && Bloques(q)[k] == b;
      assert q[k] in multiset(q);
    }
  }

  lemma {:induction false} CabenEn(s: set<Bloque>, t: set<Bloque>)
    requires s <= t
    ensures |s| <= |t|
  {
    assert t == s + (t - s);
  }

  lemma NoEntraTodo(ms: seq<Mensaje>, m: Mensaje)
    requires m in ms && 0 < m.particion.tam && m.particion.Fin() <= 21
    ensures !HayLugar(CONFIG, 21, ms, 21)
  {
    var k :| 0 <= k < |ms| && ms[k] == m;
    assert Bloques(ms)[k] == m.particion && m.particion in Usados(ms);
    assert forall p: nat :: Hueco(CONFIG, 21, Usados(ms), Bloque(p, 21)) ==> Disjuntos(Bloque(p, 21), m.particion);
  }

  /** The request for the whole memory comes to a compaction with three free stretches. */
  lemma NoSeAtiende(r: Regla, nombre: seq<byte>)
    requires r.cfg == CONFIG && r.n == 21 && !r.pliega && Clasifica(r.clasificar) && |nombre| == 17
    ensures !SeAtiende(r, 0, Usadas(), Guardar(8, 8, GET, Serializacion.Consulta(nombre)))
  {
    hide Clasifica, Tramos, HayLugar, Cola, Compactados;
    var u := Usadas();
    QuedanTres(r);
    var q := Cola(r, u)[1..];
    var z := Cola(r, q)[1..];
    NoEntraTodo(u, u[0]);
    assert u[1] in multiset(z);
    ConElla(r, u, q, z);
    TresTramos(z);
    assert Desalojo(r, q, 21, 2) == Marcha([z], None);
    assert Vuelta(r, u, 21, 1) == Desalojo(r, q, 21, 2);
    assert Busqueda(r, u, 21).compactadas[0] == z;
  }

  /** After the first eviction there is still a message, and so no room for all. */
  lemma ConElla(r: Regla, u: seq<Mensaje>, q: seq<Mensaje>, z: seq<Mensaje>)
    requires r.cfg == CONFIG && Clasifica(r.clasificar) && u == Usadas() && q == Cola(r, u)[1..]
    requires |q| == 4 && z == Cola(r, q)[1..] && u[1] in multiset(z)
    ensures !HayLugar(CONFIG, 21, q, 21)
  {
    hide Cola;
    assert Cola(r, q) == [Cola(r, q)[0]] + z;
    assert u[1] in multiset(q);
    NoEntraTodo(q, u[1]);
  }

  // ---- the run ----

  lemma {:induction false} LosPrimerosCinco(r: Regla, nombre: seq<byte>, h: seq<seq<Mensaje>>, k: nat)
    requires r.cfg == CONFIG && r.n == 21 && Clasifica(r.clasificar) && EsCorrida(r, 0, Pedidos(nombre), h)
    requires k <= 5 && k < |h|
    ensures h[k] == Fila(k)
  {
    hide Paso, SeAtiende, Clasifica;
    if k > 0 {
      LosPrimerosCinco(r, nombre, h, k - 1);
      UnaMasEnLaFila(r, k - 1, h[k]);
    }
  }

  lemma LaUltimaNo(r: Regla, nombre: seq<byte>, h: seq<seq<Mensaje>>)
    requires r.cfg == CONFIG && r.n == 21 && !r.pliega && Clasifica(r.clasificar) && |nombre| == 17
    requires EsCorrida(r, 0, Pedidos(nombre), h)
    ensures |h| < 10
  {
    hide SeAtiende, Clasifica, TrasGuardar;
    if |h| == 10 {
      var ps := Pedidos(nombre);
      LosPrimerosCinco(r, nombre, h, 5);
      assert Paso(r, 0, h[5], ps[5], h[6]) && Paso(r, 0, h[6], ps[6], h[7]) && Paso(r, 0, h[7], ps[7], h[8]);
      assert h[8] == Usadas();
      assert SeAtiende(r, 0, h[8], ps[8]);
      NoSeAtiende(r, nombre);
    }
  }

  /** Every message fits; as written the run fails, and with compactions that fold it does not. */
  method CorrerLaFalla(nombre: seq<byte>, clasificar: seq<Mensaje> -> seq<Mensaje>, pliega: bool) returns (ok: bool)
    requires |nombre| == 17 && Clasifica(clasificar)
    ensures forall i :: 0 <= i < |Pedidos(nombre)| ==> Entra(CONFIG, 21, 0, Pedidos(nombre)[i])
    ensures ok <==> pliega
  {
    hide Clasifica, EsCorrida;
    var m;
    ghost var h;
    m, ok, h := Atender(CONFIG, 21, 0, Pedidos(nombre), clasificar, pliega);
    if !pliega {
      LaUltimaNo(Regla(CONFIG, 21, clasificar, pliega), nombre, h);
    }
  }
}
