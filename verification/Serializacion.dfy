/**
 What the broker writes of a message in its cache, what it sends from there, and what the
 subscribers read.
 */
module Serializacion {
  import opened Bytes
  import opened Secuencias

  const U32: nat := 0x1_0000_0000

  /** A message as its reader knows it: the name is a C string without its final zero. */
  datatype Contenido =
    | Nuevo(nombre: seq<byte>, x: nat, y: nat, cantidad: nat)
    | Aparicion(nombre: seq<byte>, x: nat, y: nat)
    | Localizado(nombre: seq<byte>, coordenadas: seq<(nat, nat)>)
    | Consulta(nombre: seq<byte>)
    | Resultado(confirmacion: nat)

  function Entero(n: nat): (r: seq<byte>)
    ensures |r| == 4
  {
    EnBytes(n, 4)
  }

  /** The integers of a message fit in 32 bits, and its name has no zero in it. */
  predicate EsContenido(c: Contenido)
  {
    match c
    case Nuevo(nombre, x, y, cantidad) => SinCeros(nombre) && x < U32 && y < U32 && cantidad < U32
    case Aparicion(nombre, x, y) => SinCeros(nombre) && x < U32 && y < U32
    case Localizado(nombre, cs) =>
      SinCeros(nombre) && |cs| < U32 && forall i :: 0 <= i < |cs| ==> cs[i].0 < U32 && cs[i].1 < U32
    case Consulta(nombre) => SinCeros(nombre)
    case Resultado(confirmacion) => confirmacion < U32
  }

  function Pares(cs: seq<(nat, nat)>): (r: seq<byte>)
    ensures |r| == 8 * |cs|
  {
    if cs == [] then [] else Pares(cs[..|cs| - 1]) + Entero(cs[|cs| - 1].0) + Entero(cs[|cs| - 1].1)
  }

  /** What follows the name in the cache. */
  function Resto(c: Contenido): seq<byte>
    requires !c.Resultado?
  {
    match c
    case Nuevo(_, x, y, cantidad) => Entero(x) + Entero(y) + Entero(cantidad)
    case Aparicion(_, x, y) => Entero(x) + Entero(y)
    case Localizado(_, cs) => Entero(|cs|) + Pares(cs)
    case Consulta(_) => []
  }

  /** What escribir_en_cache writes. */
  function ImagenEnCache(c: Contenido): seq<byte>
  {
    if c.Resultado? then Entero(c.confirmacion) else Entero(|c.nombre|) + c.nombre + Resto(c)
  }

  /** obtener_tam_msg, on lengths that include the name's final zero. */
  function TamMsg(c: Contenido, minimo: nat): nat
  {
    var tam := match c
      case Nuevo(nombre, _, _, _) => (|nombre| + 1) - 1 + 4 * 4
      case Aparicion(nombre, _, _) => (|nombre| + 1) - 1 + 4 * 3
      case Localizado(nombre, cs) => (|nombre| + 1) - 1 + 4 * 2 + |cs| * 4 * 2
      case Consulta(nombre) => (|nombre| + 1) - 1 + 4
      case Resultado(_) => 4;
    if tam > minimo then tam else minimo
  }

  /** The computed length is that of what is written or, when this is shorter, the minimum partition. */
  lemma LoEscritoEntra(c: Contenido, minimo: nat)
    ensures TamMsg(c, minimo) == if |ImagenEnCache(c)| < minimo then minimo else |ImagenEnCache(c)|
    ensures |ImagenEnCache(c)| ==
            match c
            case Nuevo(nombre, _, _, _) => |nombre| + 16
            case Aparicion(nombre, _, _) => |nombre| + 12
            case Localizado(nombre, cs) => |nombre| + 8 + 8 * |cs|
            case Consulta(nombre) => |nombre| + 4
            case Resultado(_) => 4
    ensures |ImagenEnCache(c)| <= TamMsg(c, minimo)
    ensures TamMsg(c, minimo) > minimo ==> |ImagenEnCache(c)| == TamMsg(c, minimo)
  {
  }

  /** memcpy into a buffer. */
  method Copiar(a: array<byte>, desde: nat, datos: seq<byte>)
    requires desde + |datos| <= a.Length
    modifies a
    ensures a[..] == old(a[..desde]) + datos + old(a[desde + |datos|..])
  {
    forall x | 0 <= x < |datos| {
      a[desde + x] := datos[x];
    }
  }

  /** What a run of copies at a moving offset leaves. */
  ghost predicate Escrito(a: seq<byte>, antes: seq<byte>, pos: nat, datos: seq<byte>)
  {
    pos + |datos| <= |antes| && a == antes[..pos] + datos + antes[pos + |datos|..]
  }

  lemma NadaEscrito(antes: seq<byte>, pos: nat)
    requires pos <= |antes|
    ensures Escrito(antes, antes, pos, [])
  {
  }

  lemma UnaCopiaMas(a: seq<byte>, antes: seq<byte>, pos: nat, datos: seq<byte>, mas: seq<byte>, b: seq<byte>)
    requires Escrito(a, antes, pos, datos) && pos + |datos| + |mas| <= |antes|
    requires b == a[..pos + |datos|] + mas + a[pos + |datos| + |mas|..]
    ensures Escrito(b, antes, pos, datos + mas)
  {
  }

  method Agregar(a: array<byte>, ghost antes: seq<byte>, ghost pos: nat, ghost datos: seq<byte>, offset: nat,
      mas: seq<byte>)
    requires Escrito(a[..], antes, pos, datos) && offset == pos + |datos| && offset + |mas| <= a.Length
    modifies a
    ensures Escrito(a[..], antes, pos, datos + mas)
  {
    ghost var viejo := a[..];
    Copiar(a, offset, mas);
    UnaCopiaMas(viejo, antes, pos, datos, mas, a[..]);
  }

  /** escribir_en_cache, from the first byte of the partition that was reserved. */
  method EscribirEnCache(cache: array<byte>, pos: nat, c: Contenido)
    requires pos + |ImagenEnCache(c)| <= cache.Length
    modifies cache
    ensures Escrito(cache[..], old(cache[..]), pos, ImagenEnCache(c))
  {
    hide Entero, Pares, Escrito;
    ghost var antes := cache[..];
    if c.Resultado? {
      NadaEscrito(antes, pos);
      Agregar(cache, antes, pos, [], pos, Entero(c.confirmacion));
      assert [] + Entero(c.confirmacion) == Entero(c.confirmacion);
    } else {
      var offset := EscribirNombre(cache, pos, c.nombre);
      ghost var datos := Entero(|c.nombre|) + c.nombre;
      match c
      case Nuevo(_, x, y, cantidad) => EscribirTres(cache, antes, pos, datos, offset, x, y, cantidad);
      case Aparicion(_, x, y) => EscribirDos(cache, antes, pos, datos, offset, x, y);
      case Localizado(_, cs) =>
        Agregar(cache, antes, pos, datos, offset, Entero(|cs|));
        EscribirPares(cache, antes, pos, datos + Entero(|cs|), offset + 4, cs);
        assert datos + (Entero(|cs|) + Pares(cs)) == datos + Entero(|cs|) + Pares(cs);
      case Consulta(_) => assert datos + [] == datos;
    }
  }

  method EscribirDos(a: array<byte>, ghost antes: seq<byte>, ghost pos: nat, ghost datos: seq<byte>, offset: nat,
      x: nat, y: nat)
    requires Escrito(a[..], antes, pos, datos) && offset == pos + |datos| && offset + 8 <= a.Length
    modifies a
    ensures Escrito(a[..], antes, pos, datos + (Entero(x) + Entero(y)))
  {
    Agregar(a, antes, pos, datos, offset, Entero(x));
    Agregar(a, antes, pos, datos + Entero(x), offset + 4, Entero(y));
    assert datos + (Entero(x) + Entero(y)) == datos + Entero(x) + Entero(y);
  }

  method EscribirTres(a: array<byte>, ghost antes: seq<byte>, ghost pos: nat, ghost datos: seq<byte>, offset: nat,
      x: nat, y: nat, z: nat)
    requires Escrito(a[..], antes, pos, datos) && offset == pos + |datos| && offset + 12 <= a.Length
    modifies a
    ensures Escrito(a[..], antes, pos, datos + (Entero(x) + Entero(y) + Entero(z)))
  {
    EscribirDos(a, antes, pos, datos, offset, x, y);
    Agregar(a, antes, pos, datos + (Entero(x) + Entero(y)), offset + 8, Entero(z));
    assert datos + (Entero(x) + Entero(y) + Entero(z)) == datos + (Entero(x) + Entero(y)) + Entero(z);
  }

  method EscribirNombre(cache: array<byte>, pos: nat, nombre: seq<byte>) returns (offset: nat)
    requires pos + 4 + |nombre| <= cache.Length
    modifies cache
    ensures Escrito(cache[..], old(cache[..]), pos, Entero(|nombre|) + nombre) && offset == pos + 4 + |nombre|
  {
    ghost var antes := cache[..];
    Copiar(cache, pos, Entero(|nombre|));
    Agregar(cache, antes, pos, Entero(|nombre|), pos + 4, nombre);
    offset := pos + 4 + |nombre|;
  }

  method EscribirPares(a: array<byte>, ghost antes: seq<byte>, ghost pos: nat, ghost datos: seq<byte>, desde: nat,
      cs: seq<(nat, nat)>)
    requires Escrito(a[..], antes, pos, datos) && desde == pos + |datos| && desde + 8 * |cs| <= a.Length
    modifies a
    ensures Escrito(a[..], antes, pos, datos + Pares(cs))
  {
    var i := 0;
    assert datos + Pares(cs[..0]) == datos;
    while i < |cs|
      invariant 0 <= i <= |cs|
      invariant Escrito(a[..], antes, pos, datos + Pares(cs[..i]))
    {
      var offset := desde + 8 * i;
      Agregar(a, antes, pos, datos + Pares(cs[..i]), offset, Entero(cs[i].0));
      Agregar(a, antes, pos, datos + Pares(cs[..i]) + Entero(cs[i].0), offset + 4, Entero(cs[i].1));
      assert cs[..i + 1][..i] == cs[..i];
      assert datos + Pares(cs[..i + 1]) == datos + Pares(cs[..i]) + Entero(cs[i].0) + Entero(cs[i].1);
      i := i + 1;
    }
    assert cs[..i] == cs;
  }

  datatype Tipo = NP | AP | LP | GP | CAUP

  function TipoDe(c: Contenido): Tipo
  {
    match c
    case Nuevo(_, _, _, _) => NP
    case Aparicion(_, _, _) => AP
    case Localizado(_, _) => LP
    case Consulta(_) => GP
    case Resultado(_) => CAUP
  }

  /** A length taken from one signed char: from 128 on it becomes a huge unsigned number. */
  function LargoLeido(b: byte): nat
  {
    if b < 128 then b as nat else U32 - (256 - b as nat)
  }

  /** `stream[offset]++` on the length field: only its first byte changes. */
  function MasUno(campo: seq<byte>): (r: seq<byte>)
    requires campo != []
    ensures |r| == |campo|
  {
    campo[0 := ((campo[0] as int + 1) % 256) as byte]
  }

  /** The integers that follow the name, for each type. */
  function Campos(t: Tipo): nat
  {
    if t == NP then 12 else if t == GP then 0 else 8
  }

  /** What serializar_mensaje makes of the bytes kept in the cache; None when a copy runs out of them. */
  function Serie(t: Tipo, id: nat, mem: seq<byte>): Option<seq<byte>>
    requires |mem| >= 4
  {
    var l := LargoLeido(mem[0]);
    match t
    case CAUP => Some(Entero(id) + mem[..4])
    case LP =>
      if 8 + l > |mem| then None
      else
        var k := LargoLeido(mem[4 + l]);
        if 8 + l + 8 * k > |mem| then None
        else Some(Entero(id) + MasUno(mem[..4]) + mem[4..4 + l] + [0] + mem[4 + l..8 + l + 8 * k]
            + Ceros(|mem| - 8 - l - 8 * k))
    case _ =>
      if 4 + l + Campos(t) > |mem| then None
      else Some(MasUno(mem[..4]) + mem[4..4 + l] + [0] + mem[4 + l..4 + l + Campos(t)] + Entero(id)
          + Ceros(|mem| - 4 - l - Campos(t)))
  }

  /**
   What a subscriber has read: the name with its final zero, the numbers, and the identifier. The reader of a
   GET does not read the identifier it is sent.
   */
  datatype Leido = Leido(pokemon: seq<byte>, numeros: seq<nat>, pares: seq<(nat, nat)>, id: Option<nat>)

  function EnteroEn(b: seq<byte>, i: nat): nat
    requires i + 4 <= |b|
  {
    DesdeBytes(b[i..i + 4])
  }

  function ParesEn(b: seq<byte>, i: nat, n: nat): (r: seq<(nat, nat)>)
    requires i + 8 * n <= |b|
    ensures |r| == n
  {
    if n == 0 then [] else ParesEn(b, i, n - 1) + [(EnteroEn(b, i + 8 * n - 8), EnteroEn(b, i + 8 * n - 4))]
  }

  /** What the deserializers of serverUtils.c read; None when they would read past the message. */
  function Lectura(t: Tipo, b: seq<byte>): Option<Leido>
  {
    match t
    case CAUP => if |b| < 8 then None else Some(Leido([], [EnteroEn(b, 4)], [], Some(EnteroEn(b, 0))))
    case LP =>
      if |b| < 8 then None
      else
        var l := EnteroEn(b, 4);
        if |b| < 12 + l then None
        else
          var n := EnteroEn(b, 8 + l);
          if |b| < 12 + l + 8 * n then None
          else Some(Leido(b[8..8 + l], [n], ParesEn(b, 12 + l, n), Some(EnteroEn(b, 0))))
    case NP =>
      if |b| < 4 || |b| < 20 + EnteroEn(b, 0) then None
      else
        var l := EnteroEn(b, 0);
        Some(Leido(b[4..4 + l], [EnteroEn(b, 4 + l), EnteroEn(b, 8 + l), EnteroEn(b, 12 + l)], [],
                   Some(EnteroEn(b, 16 + l))))
    case AP =>
      if |b| < 4 || |b| < 16 + EnteroEn(b, 0) then None
      else
        var l := EnteroEn(b, 0);
        Some(Leido(b[4..4 + l], [EnteroEn(b, 4 + l), EnteroEn(b, 8 + l)], [], Some(EnteroEn(b, 12 + l))))
    case GP =>
      if |b| < 4 || |b| < 4 + EnteroEn(b, 0) then None
      else Some(Leido(b[4..4 + EnteroEn(b, 0)], [], [], None))
  }

  /** What a subscriber is to read. */
  function Esperado(c: Contenido, id: nat): Leido
  {
    match c
    case Nuevo(nombre, x, y, cantidad) => Leido(nombre + [0], [x, y, cantidad], [], Some(id))
    case Aparicion(nombre, x, y) => Leido(nombre + [0], [x, y], [], Some(id))
    case Localizado(nombre, cs) => Leido(nombre + [0], [|cs|], cs, Some(id))
    case Consulta(nombre) => Leido(nombre + [0], [], [], None)
    case Resultado(confirmacion) => Leido([], [confirmacion], [], Some(id))
  }

  lemma EnteroVuelve(n: nat)
    requires n < U32
    ensures DesdeBytes(Entero(n)) == n
  {
    assert Potencia256(4) == U32;
    EnteroIdaYVuelta(n, 4);
  }

  /** The increment of a length is right unless it carries into the second byte. */
  lemma MasUnoSuma(n: nat)
    requires n % 256 != 255
    ensures MasUno(Entero(n)) == Entero(n + 1)
  {
    assert EnBytes(n, 4)[1..] == EnBytes(n / 256, 3) && EnBytes(n + 1, 4)[1..] == EnBytes((n + 1) / 256, 3);
    assert (n + 1) / 256 == n / 256 && (n + 1) % 256 == n % 256 + 1;
  }

  lemma LoLeidoDeUnLargo(n: nat)
    ensures Entero(n)[0] as nat == n % 256
    ensures n <= 127 ==> LargoLeido(Entero(n)[0]) == n
    ensures n % 256 >= 128 ==> LargoLeido(Entero(n)[0]) >= U32 - 128
    ensures n > 127 && n % 256 < 128 ==> LargoLeido(Entero(n)[0]) == n % 256 < n
  {
  }

  /** The condition under which what is sent is what was stored. */
  predicate SeLeeBien(c: Contenido)
  {
    match c
    case Resultado(_) => true
    case Localizado(nombre, cs) => |nombre| <= 127 && CoordenadasBien(cs)
    case _ => |c.nombre| <= 127
  }

  /** Only as many coordinates are copied as the low byte of their number says; the rest are left at zero. */
  predicate CoordenadasBien(cs: seq<(nat, nat)>)
  {
    |cs| % 256 < 128 && forall i :: |cs| % 256 <= i < |cs| ==> cs[i] == (0, 0)
  }

  /** A field of four bytes found where it was put reads as what was put. */
  lemma Campo(b: seq<byte>, i: nat, n: nat)
    requires n < U32 && i + 4 <= |b| && b[i..i + 4] == Entero(n)
    ensures EnteroEn(b, i) == n
  {
    EnteroVuelve(n);
  }

  /** Where each part lies in what is sent, and in what the cache keeps. */
  lemma Tramos(f: seq<byte>, nombre: seq<byte>, resto: seq<byte>, i: seq<byte>, z: seq<byte>)
    requires |f| == |i| == 4
    ensures var l, n, b := |nombre|, |resto|, f + nombre + [0] + resto + i + z;
            b[0..4] == f && b[4..5 + l] == nombre + [0] && b[5 + l..5 + l + n] == resto && b[5 + l + n..9 + l + n] == i
  {
  }

  lemma TresTramos(x: seq<byte>, y: seq<byte>, z: seq<byte>, w: seq<byte>)
    ensures var p, q, s := |x|, |x| + |y|, x + y + z + w;
            s[..p] == x && s[p..q] == y && s[q..q + |z|] == z
  {
    var s := x + y + z + w;
    assert s[..|x|] == x;
    assert s[|x|..|x| + |y|] == y;
  }

  lemma TramosDeImagen(c: Contenido, sobra: seq<byte>)
    requires !c.Resultado?
    ensures var l, n, mem := |c.nombre|, |Resto(c)|, ImagenEnCache(c) + sobra;
            |mem| == 4 + l + n + |sobra| && mem[0] == Entero(l)[0]
            && mem[..4] == Entero(l) && mem[4..4 + l] == c.nombre && mem[4 + l..4 + l + n] == Resto(c)
  {
    hide Entero, Resto;
    TresTramos(Entero(|c.nombre|), c.nombre, Resto(c), sobra);
    var mem := ImagenEnCache(c) + sobra;
    assert mem[0] == mem[..4][0];
  }

  lemma SubTramo(b: seq<byte>, i: nat, t: seq<byte>, j: nat, n: nat)
    requires i + |t| <= |b| && b[i..i + |t|] == t && j + n <= |t|
    ensures b[i + j..i + j + n] == t[j..j + n]
  {
    var u, v, w := b[i + j..i + j + n], t[j..j + n], b[i..i + |t|];
    forall x | 0 <= x < n
      ensures u[x] == v[x]
    {
      assert w[j + x] == t[j + x];
    }
  }

  lemma VuelveNuevo(c: Contenido, id: nat, sobra: seq<byte>)
    requires c.Nuevo? && EsContenido(c) && id < U32 && |c.nombre| <= 127
    ensures var mem := ImagenEnCache(c) + sobra;
            Serie(NP, id, mem).Some? && Lectura(NP, Serie(NP, id, mem).value) == Some(Esperado(c, id))
  {
    hide Entero, EnteroEn, ImagenEnCache, MasUno;
    var l, mem, t := |c.nombre|, ImagenEnCache(c) + sobra, Resto(c);
    LoLeidoDeUnLargo(l);
    MasUnoSuma(l);
    TramosDeImagen(c, sobra);
    var b := Serie(NP, id, mem).value;
    Tramos(Entero(l + 1), c.nombre, t, Entero(id), Ceros(|mem| - 16 - l));
    SubTramo(b, 5 + l, t, 0, 4);
    SubTramo(b, 5 + l, t, 4, 4);
    SubTramo(b, 5 + l, t, 8, 4);
    assert t[0..4] == Entero(c.x) && t[4..8] == Entero(c.y) && t[8..12] == Entero(c.cantidad);
    Campo(b, 0, l + 1);
    Campo(b, 5 + l, c.x);
    Campo(b, 9 + l, c.y);
    Campo(b, 13 + l, c.cantidad);
    Campo(b, 17 + l, id);
  }

  lemma VuelveAparicion(c: Contenido, id: nat, sobra: seq<byte>)
    requires c.Aparicion? && EsContenido(c) && id < U32 && |c.nombre| <= 127
    ensures var mem := ImagenEnCache(c) + sobra;
            Serie(AP, id, mem).Some? && Lectura(AP, Serie(AP, id, mem).value) == Some(Esperado(c, id))
  {
    hide Entero, EnteroEn, ImagenEnCache, MasUno;
    var l, mem, t := |c.nombre|, ImagenEnCache(c) + sobra, Resto(c);
    LoLeidoDeUnLargo(l);
    MasUnoSuma(l);
    TramosDeImagen(c, sobra);
    var b := Serie(AP, id, mem).value;
    Tramos(Entero(l + 1), c.nombre, t, Entero(id), Ceros(|mem| - 12 - l));
    SubTramo(b, 5 + l, t, 0, 4);
    SubTramo(b, 5 + l, t, 4, 4);
    assert t[0..4] == Entero(c.x) && t[4..8] == Entero(c.y);
    Campo(b, 0, l + 1);
    Campo(b, 5 + l, c.x);
    Campo(b, 9 + l, c.y);
    Campo(b, 13 + l, id);
  }

  lemma VuelveConsulta(c: Contenido, id: nat, sobra: seq<byte>)
    requires c.Consulta? && EsContenido(c) && |c.nombre| <= 127
    ensures var mem := ImagenEnCache(c) + sobra;
            Serie(GP, id, mem).Some? && Lectura(GP, Serie(GP, id, mem).value) == Some(Esperado(c, id))
  {
    hide Entero, EnteroEn, ImagenEnCache, MasUno;
    var l, mem := |c.nombre|, ImagenEnCache(c) + sobra;
    LoLeidoDeUnLargo(l);
    MasUnoSuma(l);
    TramosDeImagen(c, sobra);
    var b := Serie(GP, id, mem).value;
    assert mem[4 + l..4 + l] == [];
    Tramos(Entero(l + 1), c.nombre, [], Entero(id), Ceros(|mem| - 4 - l));
    Campo(b, 0, l + 1);
  }

  lemma VuelveResultado(c: Contenido, id: nat, sobra: seq<byte>)
    requires c.Resultado? && EsContenido(c) && id < U32
    ensures Lectura(CAUP, Serie(CAUP, id, ImagenEnCache(c) + sobra).value) == Some(Esperado(c, id))
  {
    hide Entero, EnteroEn;
    var b := Serie(CAUP, id, ImagenEnCache(c) + sobra).value;
    assert b[0..4] == Entero(id) && b[4..8] == Entero(c.confirmacion);
    Campo(b, 0, id);
    Campo(b, 4, c.confirmacion);
  }

  lemma {:induction false} ParesVuelven(b: seq<byte>, i: nat, cs: seq<(nat, nat)>)
    requires i + 8 * |cs| <= |b| && b[i..i + 8 * |cs|] == Pares(cs)
    requires forall k :: 0 <= k < |cs| ==> cs[k].0 < U32 && cs[k].1 < U32
    ensures ParesEn(b, i, |cs|) == cs
  {
    if cs == [] {
    } else {
      hide Entero, Pares, EnteroEn, ParesEn;
      var n, p := |cs| - 1, Pares(cs);
      UltimoPar(cs);
      UnParMas(b, i, n);
      SubTramo(b, i, p, 0, 8 * n);
      ParesVuelven(b, i, cs[..n]);
      UltimoCampo(b, i, p, 8 * n, cs[n].0);
      UltimoCampo(b, i, p, 8 * n + 4, cs[n].1);
    }
  }

  lemma UltimoCampo(b: seq<byte>, i: nat, p: seq<byte>, j: nat, x: nat)
    requires i + |p| <= |b| && b[i..i + |p|] == p && j + 4 <= |p| && p[j..j + 4] == Entero(x) && x < U32
    ensures EnteroEn(b, i + j) == x
  {
    SubTramo(b, i, p, j, 4);
    Campo(b, i + j, x);
  }

  lemma UnParMas(b: seq<byte>, i: nat, n: nat)
    requires i + 8 * n + 8 <= |b|
    ensures ParesEn(b, i, n + 1) == ParesEn(b, i, n) + [(EnteroEn(b, i + 8 * n), EnteroEn(b, i + 8 * n + 4))]
  {
  }

  lemma UltimoPar(cs: seq<(nat, nat)>)
    requires cs != []
    ensures var n, p := |cs| - 1, Pares(cs);
            p[0..8 * n] == Pares(cs[..n]) && p[8 * n..8 * n + 4] == Entero(cs[n].0)
                && p[8 * n + 4..8 * n + 8] == Entero(cs[n].1)
  {
    hide Entero;
    var n := |cs| - 1;
    TresTramos(Pares(cs[..n]), Entero(cs[n].0), Entero(cs[n].1), []);
    assert Pares(cs) + [] == Pares(cs);
  }

  lemma {:induction false} PrimerosPares(cs: seq<(nat, nat)>, k: nat)
    requires k <= |cs|
    ensures Pares(cs)[..8 * k] == Pares(cs[..k])
  {
    if k == |cs| {
      assert cs[..k] == cs;
    } else {
      var n := |cs| - 1;
      PrimerosPares(cs[..n], k);
      assert cs[..n][..k] == cs[..k];
      assert Pares(cs)[..8 * k] == Pares(cs[..n])[..8 * k];
    }
  }

  lemma {:induction false} ParesEnCero(cs: seq<(nat, nat)>, k: nat)
    requires k <= |cs| && forall i :: k <= i < |cs| ==> cs[i] == (0, 0)
    ensures Pares(cs) == Pares(cs[..k]) + Ceros(8 * (|cs| - k))
  {
    if k == |cs| {
      assert cs[..k] == cs;
    } else {
      var n := |cs| - 1;
      ParesEnCero(cs[..n], k);
      assert cs[..n][..k] == cs[..k];
      CeroEsCeros();
    }
  }

  lemma CeroEsCeros()
    ensures Entero(0) == Ceros(4)
  {
    assert EnBytes(0, 1) == [0] && EnBytes(0, 2) == [0, 0] && EnBytes(0, 3) == [0, 0, 0];
  }

  /** The coordinates that are copied. */
  lemma CoordenadasEnviadas(cs: seq<(nat, nat)>, k: nat, mem: seq<byte>, p: nat)
    requires k <= |cs| && p + 4 + 8 * |cs| <= |mem| && mem[p..p + 4 + 8 * |cs|] == Entero(|cs|) + Pares(cs)
    ensures mem[p] == Entero(|cs|)[0]
    ensures mem[p..p + 4 + 8 * k] == Entero(|cs|) + Pares(cs[..k])
  {
    hide Entero, Pares;
    var t := Entero(|cs|) + Pares(cs);
    PrimerosPares(cs, k);
    Prefijo(Entero(|cs|), Pares(cs), 8 * k);
    SubTramo(mem, p, t, 0, 4 + 8 * k);
    SubTramo(mem, p, t, 0, 4);
    assert mem[p] == mem[p..p + 4][0];
  }

  lemma Prefijo(x: seq<byte>, y: seq<byte>, k: nat)
    requires k <= |y|
    ensures (x + y)[0..|x| + k] == x + y[..k] && (x + y)[0..|x|] == x
  {
  }

  lemma TramosDeLocalizado(i: seq<byte>, f: seq<byte>, nombre: seq<byte>, n: seq<byte>, pares: seq<byte>, z: seq<byte>)
    requires |f| == |i| == |n| == 4
    ensures var l, b := |nombre|, i + f + nombre + [0] + (n + pares) + z;
            && b[0..4] == i && b[4..8] == f && b[8..9 + l] == nombre + [0] && b[9 + l..13 + l] == n
            && b[13 + l..] == pares + z
  {
  }

  /** What is sent of a LOCALIZED whose name is short and of which k coordinates are copied. */
  ghost function SerieLocalizado(c: Contenido, id: nat, k: nat, z: seq<byte>): seq<byte>
    requires c.Localizado? && k <= |c.coordenadas|
  {
    var cs := c.coordenadas;
    Entero(id) + Entero(|c.nombre| + 1) + c.nombre + [0] + (Entero(|cs|) + Pares(cs[..k])) + z
  }

  lemma SerieDeLocalizado(c: Contenido, id: nat, sobra: seq<byte>, k: nat)
    requires c.Localizado? && EsContenido(c) && |c.nombre| <= 127 && k == |c.coordenadas| % 256 < 128
    ensures var mem := ImagenEnCache(c) + sobra;
            var z := 8 * (|c.coordenadas| - k) + |sobra|;
            z >= 0 && Serie(LP, id, mem) == Some(SerieLocalizado(c, id, k, Ceros(z)))
  {
    hide Entero, Pares, ImagenEnCache, MasUno;
    var cs, l, mem := c.coordenadas, |c.nombre|, ImagenEnCache(c) + sobra;
    LoLeidoDeUnLargo(l);
    LoLeidoDeUnLargo(|cs|);
    MasUnoSuma(l);
    TramosDeImagen(c, sobra);
    CoordenadasEnviadas(cs, k, mem, 4 + l);
  }

  lemma VuelveLocalizado(c: Contenido, id: nat, sobra: seq<byte>)
    requires c.Localizado? && EsContenido(c) && id < U32 && SeLeeBien(c)
    ensures var mem := ImagenEnCache(c) + sobra;
            Serie(LP, id, mem).Some? && Lectura(LP, Serie(LP, id, mem).value) == Some(Esperado(c, id))
  {
    hide Entero, Pares, Serie, Lectura, EnteroEn, ImagenEnCache;
    var cs, l := c.coordenadas, |c.nombre|;
    var n, k := |cs|, |cs| % 256;
    var z := Ceros(8 * (n - k) + |sobra|);
    SerieDeLocalizado(c, id, sobra, k);
    TramosDeLocalizado(Entero(id), Entero(l + 1), c.nombre, Entero(n), Pares(cs[..k]), z);
    ParesEnCero(cs, k);
    LosParesYMas(Pares(cs[..k]), z, 8 * (n - k));
    var b := SerieLocalizado(c, id, k, z);
    PrefijoDeCola(b, 13 + l, Pares(cs[..k]) + z, 8 * n);
    LeerLocalizado(b, id, c);
  }

  lemma LosParesYMas(x: seq<byte>, z: seq<byte>, n: nat)
    requires z == Ceros(|z|) && n <= |z|
    ensures (x + z)[..|x| + n] == x + Ceros(n)
  {
  }

  lemma PrefijoDeCola(b: seq<byte>, p: nat, q: seq<byte>, n: nat)
    requires p <= |b| && b[p..] == q && n <= |q|
    ensures p + n <= |b| && b[p..p + n] == q[..n]
  {
    var u, v := b[p..p + n], q[..n];
    forall x | 0 <= x < n
      ensures u[x] == v[x]
    {
      assert b[p..][x] == q[x];
    }
  }

  lemma LeerLocalizado(b: seq<byte>, id: nat, c: Contenido)
    requires c.Localizado? && EsContenido(c) && id < U32 && |c.nombre| <= 127
    requires var l, n := |c.nombre|, |c.coordenadas|;
             && 13 + l + 8 * n <= |b| && b[0..4] == Entero(id) && b[4..8] == Entero(l + 1)
                 && b[8..9 + l] == c.nombre + [0]
             && b[9 + l..13 + l] == Entero(n) && b[13 + l..13 + l + 8 * n] == Pares(c.coordenadas)
    ensures Lectura(LP, b) == Some(Esperado(c, id))
  {
    hide Entero, EnteroEn, Pares;
    var l := |c.nombre|;
    Campo(b, 0, id);
    Campo(b, 4, l + 1);
    Campo(b, 9 + l, |c.coordenadas|);
    ParesVuelven(b, 13 + l, c.coordenadas);
  }

  /** A long name is cut short or cannot be copied at all. */
  lemma NombreLargo(c: Contenido, id: nat, sobra: seq<byte>)
    requires !c.Resultado? && EsContenido(c) && |c.nombre| > 127
    requires |ImagenEnCache(c)| + |sobra| < U32 - 0x200
    ensures var r := Serie(TipoDe(c), id, ImagenEnCache(c) + sobra);
            r.Some? ==> Lectura(TipoDe(c), r.value) != Some(Esperado(c, id))
  {
    hide Entero, EnteroEn, ImagenEnCache, MasUno, Pares;
    var mem, l := ImagenEnCache(c) + sobra, |c.nombre|;
    LoLeidoDeUnLargo(l);
    TramosDeImagen(c, sobra);
    var k, o := l % 256, if c.Localizado? then 8 else 4;
    var r := Serie(TipoDe(c), id, mem);
    if r.Some? {
      assert k < 128 && LargoLeido(mem[0]) == k;
      CeroTrasElNombre(c, id, mem, k);
      var leido := Lectura(TipoDe(c), r.value);
      if leido.Some? && |leido.value.pokemon| > k {
        assert leido.value.pokemon[k] == r.value[o + k];
        assert Esperado(c, id).pokemon[k] == c.nombre[k];
      }
    }
  }

  lemma CeroTrasElNombre(c: Contenido, id: nat, mem: seq<byte>, k: nat)
    requires !c.Resultado? && |mem| >= 4 && LargoLeido(mem[0]) == k && Serie(TipoDe(c), id, mem).Some?
    ensures var b, o := Serie(TipoDe(c), id, mem).value, if c.Localizado? then 8 else 4;
            o + k < |b| && b[o + k] == 0
  {
    hide Entero, MasUno;
    assert |MasUno(mem[..4])| == 4;
  }

  /** The coordinates past the number that its low byte gives read as zeros, or cannot be copied at all. */
  lemma DemasiadasCoordenadas(c: Contenido, id: nat, sobra: seq<byte>)
    requires c.Localizado? && EsContenido(c) && id < U32 && |c.nombre| <= 127 && !CoordenadasBien(c.coordenadas)
    requires |ImagenEnCache(c)| + |sobra| < U32 - 0x200
    ensures var r := Serie(LP, id, ImagenEnCache(c) + sobra);
            r.Some? ==> Lectura(LP, r.value) != Some(Esperado(c, id))
  {
    hide Entero, Pares, Serie, Lectura, EnteroEn, ImagenEnCache;
    var cs, l := c.coordenadas, |c.nombre|;
    var n, k := |cs|, |cs| % 256;
    if k < 128 {
      var i :| k <= i < n && cs[i] != (0, 0);
      SerieDeLocalizado(c, id, sobra, k);
      var z := Ceros(8 * (n - k) + |sobra|);
      TramosDeLocalizado(Entero(id), Entero(l + 1), c.nombre, Entero(n), Pares(cs[..k]), z);
      ParEnCero(SerieLocalizado(c, id, k, z), l, n, i, Pares(cs[..k]), z);
    } else {
      NoSePuedenCopiar(c, id, sobra);
    }
  }

  lemma NoSePuedenCopiar(c: Contenido, id: nat, sobra: seq<byte>)
    requires c.Localizado? && EsContenido(c) && |c.nombre| <= 127 && |c.coordenadas| % 256 >= 128
    requires |ImagenEnCache(c)| + |sobra| < U32 - 0x200
    ensures Serie(LP, id, ImagenEnCache(c) + sobra).None?
  {
    hide Entero, Pares, ImagenEnCache, MasUno;
    var cs, l, mem := c.coordenadas, |c.nombre|, ImagenEnCache(c) + sobra;
    LoLeidoDeUnLargo(l);
    LoLeidoDeUnLargo(|cs|);
    TramosDeImagen(c, sobra);
    CoordenadasEnviadas(cs, |cs|, mem, 4 + l);
  }

  lemma ParEnCero(b: seq<byte>, l: nat, n: nat, i: nat, x: seq<byte>, z: seq<byte>)
    requires 13 + l + 8 * n <= |b| && n < U32 && l + 1 < U32 && i < n && b[4..8] == Entero(l + 1)
             && b[9 + l..13 + l] == Entero(n)
    requires b[13 + l..] == x + z && z == Ceros(|z|) && |x| <= 8 * i
    ensures Lectura(LP, b).Some? && |Lectura(LP, b).value.pares| == n && Lectura(LP, b).value.pares[i] == (0, 0)
  {
    hide Entero, EnteroEn;
    Campo(b, 4, l + 1);
    Campo(b, 9 + l, n);
    CerosAlFinal(b, 13 + l, x, z, i);
    ParEnSuLugar(b, 13 + l, n, i);
  }

  lemma CerosAlFinal(b: seq<byte>, p: nat, x: seq<byte>, z: seq<byte>, i: nat)
    requires p <= |b| && b[p..] == x + z && z == Ceros(|z|) && |x| <= 8 * i && p + 8 * i + 8 <= |b|
    ensures EnteroEn(b, p + 8 * i) == 0 && EnteroEn(b, p + 8 * i + 4) == 0
  {
    hide Entero;
    CeroEsCeros();
    forall j | p + 8 * i <= j < p + 8 * i + 8
      ensures b[j] == 0
    {
      assert b[p..][j - p] == b[j] && (x + z)[j - p] == z[j - p - |x|];
    }
    assert b[p + 8 * i..p + 8 * i + 4] == Ceros(4) && b[p + 8 * i + 4..p + 8 * i + 8] == Ceros(4);
    Campo(b, p + 8 * i, 0);
    Campo(b, p + 8 * i + 4, 0);
  }

  lemma {:induction false} ParEnSuLugar(b: seq<byte>, p: nat, n: nat, i: nat)
    requires i < n && p + 8 * n <= |b|
    ensures ParesEn(b, p, n)[i] == (EnteroEn(b, p + 8 * i), EnteroEn(b, p + 8 * i + 4))
  {
    if i < n - 1 {
      ParEnSuLugar(b, p, n - 1, i);
    }
  }

  /**
   What is sent is read as what was stored exactly when the name has at most 127 characters and, for
   LOCALIZED, the coordinates past the low byte of their number are none or all zeros.
   */
  lemma IdaYVuelta(c: Contenido, id: nat, sobra: seq<byte>)
    requires EsContenido(c) && id < U32 && |ImagenEnCache(c)| + |sobra| < U32 - 0x200
    ensures |ImagenEnCache(c) + sobra| >= 4
    ensures var r := Serie(TipoDe(c), id, ImagenEnCache(c) + sobra);
            r.Some? && Lectura(TipoDe(c), r.value) == Some(Esperado(c, id)) <==> SeLeeBien(c)
  {
    if SeLeeBien(c) {
      match c
      case Nuevo(_, _, _, _) => VuelveNuevo(c, id, sobra);
      case Aparicion(_, _, _) => VuelveAparicion(c, id, sobra);
      case Localizado(_, _) => VuelveLocalizado(c, id, sobra);
      case Consulta(_) => VuelveConsulta(c, id, sobra);
      case Resultado(_) => VuelveResultado(c, id, sobra);
    } else if |c.nombre| > 127 {
      NombreLargo(c, id, sobra);
    } else {
      DemasiadasCoordenadas(c, id, sobra);
    }
  }

  lemma ElRestoEnCero(a: seq<byte>, ceros: seq<byte>, datos: seq<byte>)
    requires Escrito(a, ceros, 0, datos) && ceros == Ceros(|ceros|)
    ensures a == datos + Ceros(|ceros| - |datos|)
  {
  }

  lemma ElCeroYaEstaba(a: seq<byte>, antes: seq<byte>, datos: seq<byte>)
    requires Escrito(a, antes, 0, datos) && |datos| < |antes| && antes[|datos|] == 0
    ensures Escrito(a, antes, 0, datos + [0])
  {
  }

  /**
   serializar_mensaje: lengths are read back through a char, the name's final zero is the one that
   memset left, and what follows goes one byte further.
   */
  method SerializarMensaje(t: Tipo, id: nat, mem: seq<byte>) returns (r: Option<seq<byte>>)
    requires |mem| >= 4
    ensures r == Serie(t, id, mem)
  {
    if t == CAUP {
      var stream := new byte[8](_ => 0);
      Copiar(stream, 0, Entero(id));
      Copiar(stream, 4, mem[..4]);
      assert stream[..] == Entero(id) + mem[..4];
      return Some(stream[..]);
    }
    if t == LP {
      r := SerializarLocalizado(id, mem);
    } else {
      r := SerializarConCampos(t, id, mem);
    }
  }

  method SerializarConCampos(t: Tipo, id: nat, mem: seq<byte>) returns (r: Option<seq<byte>>)
    requires |mem| >= 4 && (t == NP || t == AP || t == GP)
    ensures r == Serie(t, id, mem)
  {
    hide Entero, MasUno, Escrito;
    var stream := new byte[5 + |mem|](_ => 0);
    ghost var ceros := stream[..];
    var pokLen, n := LargoLeido(mem[0]), Campos(t);
    if 4 + pokLen + n > |mem| {
      return None;
    }
    NadaEscrito(ceros, 0);
    NombreALaSerie(stream, ceros, [], 0, mem, pokLen);
    ghost var datos := MasUno(mem[..4]) + mem[4..4 + pokLen] + [0];
    assert [] + MasUno(mem[..4]) == MasUno(mem[..4]);
    Agregar(stream, ceros, 0, datos, 5 + pokLen, mem[4 + pokLen..4 + pokLen + n]);
    Agregar(stream, ceros, 0, datos + mem[4 + pokLen..4 + pokLen + n], 5 + pokLen + n, Entero(id));
    ElRestoEnCero(stream[..], ceros, datos + mem[4 + pokLen..4 + pokLen + n] + Entero(id));
    return Some(stream[..]);
  }

  method SerializarLocalizado(id: nat, mem: seq<byte>) returns (r: Option<seq<byte>>)
    requires |mem| >= 4
    ensures r == Serie(LP, id, mem)
  {
    hide Entero, MasUno, Escrito, LargoLeido;
    var stream := new byte[5 + |mem|](_ => 0);
    ghost var ceros := stream[..];
    assert ceros == Ceros(|ceros|);
    var pokLen := LargoLeido(mem[0]);
    if 8 + pokLen > |mem| {
      return None;
    }
    var cantidad := LargoLeido(mem[4 + pokLen]);
    if 8 + pokLen + 8 * cantidad > |mem| {
      return None;
    }
    NadaEscrito(ceros, 0);
    Agregar(stream, ceros, 0, [], 0, Entero(id));
    assert [] + Entero(id) == Entero(id);
    NombreALaSerie(stream, ceros, Entero(id), 4, mem, pokLen);
    ghost var datos := Entero(id) + MasUno(mem[..4]) + mem[4..4 + pokLen] + [0];
    var desde := 4 + pokLen;
    CoordenadasALaSerie(stream, ceros, datos, 9 + pokLen, mem, desde, cantidad);
    ElRestoEnCero(stream[..], ceros, datos + mem[desde..desde + 4 + 8 * cantidad]);
    return Some(stream[..]);
  }

  method NombreALaSerie(stream: array<byte>, ghost ceros: seq<byte>, ghost datos: seq<byte>, offset: nat,
      mem: seq<byte>, pokLen: nat)
    requires Escrito(stream[..], ceros, 0, datos) && ceros == Ceros(|ceros|) && offset == |datos|
    requires 4 + pokLen <= |mem| && offset + 5 + pokLen <= stream.Length
    modifies stream
    ensures Escrito(stream[..], ceros, 0, datos + MasUno(mem[..4]) + mem[4..4 + pokLen] + [0])
  {
    Agregar(stream, ceros, 0, datos, offset, MasUno(mem[..4]));
    Agregar(stream, ceros, 0, datos + MasUno(mem[..4]), offset + 4, mem[4..4 + pokLen]);
    ElCeroYaEstaba(stream[..], ceros, datos + MasUno(mem[..4]) + mem[4..4 + pokLen]);
  }

  method CoordenadasALaSerie(stream: array<byte>, ghost ceros: seq<byte>, ghost datos: seq<byte>, offset: nat,
                             mem: seq<byte>, desde: nat, cantidad: nat)
    requires Escrito(stream[..], ceros, 0, datos) && offset == |datos|
    requires desde + 4 + 8 * cantidad <= |mem| && offset + 4 + 8 * cantidad <= stream.Length
    modifies stream
    ensures Escrito(stream[..], ceros, 0, datos + mem[desde..desde + 4 + 8 * cantidad])
  {
    Agregar(stream, ceros, 0, datos, offset, mem[desde..desde + 4]);
    var i := 0;
    while i < cantidad
      invariant 0 <= i <= cantidad
      invariant Escrito(stream[..], ceros, 0, datos + mem[desde..desde + 4 + 8 * i])
    {
      var o := 4 + 8 * i;
      Agregar(stream, ceros, 0, datos + mem[desde..desde + o], offset + o, mem[desde + o..desde + o + 4]);
      assert datos + mem[desde..desde + o] + mem[desde + o..desde + o + 4] == datos + mem[desde..desde + o + 4];
      Agregar(stream, ceros, 0, datos + mem[desde..desde + o + 4], offset + o + 4, mem[desde + o + 4..desde + o + 8]);
      assert datos + mem[desde..desde + o + 4] + mem[desde + o + 4..desde + o + 8] == datos + mem[desde..desde + o + 8];
      i := i + 1;
    }
  }

  /** The deserializers, with the stream pointer moving along; coordinates are added to a list one by one. */
  method Deserializar(t: Tipo, b: seq<byte>) returns (r: Option<Leido>)
    ensures r == Lectura(t, b)
  {
    var stream, id, pokemon := 0, 0, [];
    if t == LP || t == CAUP {
      if |b| < 8 {
        return None;
      }
      id := EnteroEn(b, 0);
      stream := 4;
    }
    if t == CAUP {
      return Some(Leido([], [EnteroEn(b, stream)], [], Some(id)));
    }
    if |b| < stream + 4 {
      return None;
    }
    var largo := EnteroEn(b, stream);
    stream := stream + 4;
    if |b| < stream + largo + (if t == NP then 16 else if t == AP then 12 else if t == LP then 4 else 0) {
      return None;
    }
    pokemon := b[stream..stream + largo];
    stream := stream + largo;
    if t == GP {
      return Some(Leido(pokemon, [], [], None));
    }
    if t == LP {
      var n := EnteroEn(b, stream);
      stream := stream + 4;
      if |b| < stream + 8 * n {
        return None;
      }
      var coordenadas, i := [], 0;
      while i < n
        invariant 0 <= i <= n && coordenadas == ParesEn(b, stream, i)
      {
        coordenadas := coordenadas + [(EnteroEn(b, stream + 8 * i), EnteroEn(b, stream + 8 * i + 4))];
        i := i + 1;
      }
      return Some(Leido(pokemon, [n], coordenadas, Some(id)));
    }
    var x, y := EnteroEn(b, stream), EnteroEn(b, stream + 4);
    var numeros := [x, y];
    stream := stream + 8;
    if t == NP {
      numeros := numeros + [EnteroEn(b, stream)];
      assert numeros == [x, y, EnteroEn(b, stream)];
      stream := stream + 4;
    }
    return Some(Leido(pokemon, numeros, [], Some(EnteroEn(b, stream))));
  }
}
