/** Where each field of a message lies, byte by byte: in the cache of the broker and in what it sends. */
module DisposicionDeMensajes {
  import opened Bytes
  import opened Secuencias
  import opened Serializacion

  /** Four bytes, the lowest first. */
  lemma CuatroBytes(n: nat)
    requires n < 0x1_0000_0000
    ensures Entero(n)[0] as nat == n % 0x100
    ensures Entero(n)[1] as nat == n / 0x100 % 0x100
    ensures Entero(n)[2] as nat == n / 0x1_0000 % 0x100
    ensures Entero(n)[3] as nat == n / 0x100_0000
  {
    assert EnBytes(n, 4)[1..] == EnBytes(n / 256, 3);
    assert EnBytes(n / 256, 3)[1..] == EnBytes(n / 256 / 256, 2);
    assert EnBytes(n / 256 / 256, 2)[1..] == EnBytes(n / 256 / 256 / 256, 1);
  }

  /** The integer n is at that place. */
  predicate Esta(b: seq<byte>, i: nat, n: nat)
  {
    i + 4 <= |b| && b[i..i + 4] == Entero(n)
  }

  lemma EstaDentro(b: seq<byte>, i: nat, t: seq<byte>, j: nat, n: nat)
    requires i + |t| <= |b| && b[i..i + |t|] == t && Esta(t, j, n)
    ensures Esta(b, i + j, n)
  {
    SubTramo(b, i, t, j, 4);
  }

  predicate EstanLosPares(b: seq<byte>, p: nat, cs: seq<(nat, nat)>)
  {
    forall i :: 0 <= i < |cs| ==> Esta(b, p + 8 * i, cs[i].0) && Esta(b, p + 4 + 8 * i, cs[i].1)
  }

  /** From the place p on: two coordinates and the amount, two coordinates, or as many as it says first. */
  predicate EstanLosNumeros(c: Contenido, b: seq<byte>, p: nat)
    requires !c.Resultado?
  {
    match c
    case Nuevo(_, x, y, cantidad) => Esta(b, p, x) && Esta(b, p + 4, y) && Esta(b, p + 8, cantidad)
    case Aparicion(_, x, y) => Esta(b, p, x) && Esta(b, p + 4, y)
    case Localizado(_, cs) => Esta(b, p, |cs|) && EstanLosPares(b, p + 4, cs)
    case Consulta(_) => true
  }

  lemma {:induction false} LosPares(b: seq<byte>, p: nat, cs: seq<(nat, nat)>)
    requires p + 8 * |cs| <= |b| && b[p..p + 8 * |cs|] == Pares(cs)
    ensures EstanLosPares(b, p, cs)
  {
    hide Entero, Pares, Esta;
    if cs != [] {
      var n, t := |cs| - 1, Pares(cs);
      UltimoPar(cs);
      SubTramo(b, p, t, 0, 8 * n);
      LosPares(b, p, cs[..n]);
      ElUltimoPar(b, p, t, cs[n], n);
      forall i | 0 <= i < |cs|
        ensures Esta(b, p + 8 * i, cs[i].0) && Esta(b, p + 4 + 8 * i, cs[i].1)
      {
        assert i < n ==> cs[..n][i] == cs[i];
      }
    }
  }

  lemma ElUltimoPar(b: seq<byte>, p: nat, t: seq<byte>, x: (nat, nat), n: nat)
    requires |t| == 8 * n + 8 && p + |t| <= |b| && b[p..p + |t|] == t
    requires t[8 * n..8 * n + 4] == Entero(x.0) && t[8 * n + 4..8 * n + 8] == Entero(x.1)
    ensures Esta(b, p + 8 * n, x.0) && Esta(b, p + 4 + 8 * n, x.1)
  {
    hide Entero;
    EstaDentro(b, p, t, 8 * n, x.0);
    EstaDentro(b, p, t, 8 * n + 4, x.1);
  }

  lemma LosNumeros(c: Contenido, b: seq<byte>, p: nat)
    requires !c.Resultado? && p + |Resto(c)| <= |b| && b[p..p + |Resto(c)|] == Resto(c)
    ensures EstanLosNumeros(c, b, p)
  {
    hide Entero, Pares, EstanLosPares;
    var t := Resto(c);
    match c {
      case Nuevo(_, x, y, cantidad) =>
        assert t[0..4] == Entero(x) && t[4..8] == Entero(y) && t[8..12] == Entero(cantidad);
        EstaDentro(b, p, t, 0, x);
        EstaDentro(b, p, t, 4, y);
        EstaDentro(b, p, t, 8, cantidad);
      case Aparicion(_, x, y) =>
        assert t[0..4] == Entero(x) && t[4..8] == Entero(y);
        EstaDentro(b, p, t, 0, x);
        EstaDentro(b, p, t, 4, y);
      case Localizado(_, cs) =>
        assert t[0..4] == Entero(|cs|) && t[4..4 + 8 * |cs|] == Pares(cs);
        EstaDentro(b, p, t, 0, |cs|);
        SubTramo(b, p, t, 4, 8 * |cs|);
        LosPares(b, p + 4, cs);
      case Consulta(_) =>
    }
  }

  /** In the cache: the length of the name, the name and the numbers; or the one number of a CAUGHT. */
  lemma EnLaCache(c: Contenido)
    ensures var b := ImagenEnCache(c);
            if c.Resultado? then Esta(b, 0, c.confirmacion)
            else
              var l := |c.nombre|;
              Esta(b, 0, l) && |b| >= 4 + l && b[4..4 + l] == c.nombre && EstanLosNumeros(c, b, 4 + l)
  {
    hide Entero, EstanLosNumeros, Resto;
    assert ImagenEnCache(c) + [] == ImagenEnCache(c);
    if !c.Resultado? {
      TramosDeImagen(c, []);
      LosNumeros(c, ImagenEnCache(c), 4 + |c.nombre|);
    }
  }

  /** Between the place of the numbers and that of the identifier. */
  function Ocupan(c: Contenido): nat
    requires !c.Resultado? && !c.Localizado?
  {
    match c
    case Nuevo(_, _, _, _) => 12
    case Aparicion(_, _, _) => 8
    case Consulta(_) => 0
  }

  /**
   What is sent: the name has its final zero and its length counts it, and the identifier is the last or, for
   LOCALIZED and CAUGHT, the first.
   */
  lemma EnElEnvio(c: Contenido, id: nat, sobra: seq<byte>)
    requires EsContenido(c) && SeLeeBien(c)
    ensures var s := Serie(TipoDe(c), id, ImagenEnCache(c) + sobra);
            && s.Some?
            && if c.Resultado? then Esta(s.value, 0, id) && Esta(s.value, 4, c.confirmacion)
               else if c.Localizado? then Esta(s.value, 0, id) && ConNombreEn(c, s.value, 4)
               else ConNombreEn(c, s.value, 0) && Esta(s.value, 5 + |c.nombre| + Ocupan(c), id)
  {
    hide Entero, Pares, ConNombreEn;
    if c.Resultado? {
      var b := Serie(CAUP, id, ImagenEnCache(c) + sobra).value;
      assert b[0..4] == Entero(id) && b[4..8] == Entero(c.confirmacion);
    } else if c.Localizado? {
      LocalizadoEnElEnvio(c, id, sobra);
    } else {
      LosDemasEnElEnvio(c, id, sobra);
    }
  }

  /** From the place p on: the length with the zero, the name with it, and the numbers. */
  predicate ConNombreEn(c: Contenido, b: seq<byte>, p: nat)
    requires !c.Resultado?
  {
    var l := |c.nombre|;
    && Esta(b, p, l + 1) && p + 5 + l <= |b| && b[p + 4..p + 5 + l] == c.nombre + [0]
    && EstanLosNumeros(c, b, p + 5 + l)
  }

  lemma LosDemasEnElEnvio(c: Contenido, id: nat, sobra: seq<byte>)
    requires !c.Resultado? && !c.Localizado? && |c.nombre| <= 127
    ensures var s := Serie(TipoDe(c), id, ImagenEnCache(c) + sobra);
            s.Some? && ConNombreEn(c, s.value, 0) && Esta(s.value, 5 + |c.nombre| + Ocupan(c), id)
  {
    hide Entero, ImagenEnCache, MasUno, EstanLosNumeros;
    var l, mem, t := |c.nombre|, ImagenEnCache(c) + sobra, Resto(c);
    LoLeidoDeUnLargo(l);
    MasUnoSuma(l);
    TramosDeImagen(c, sobra);
    Tramos(Entero(l + 1), c.nombre, t, Entero(id), Ceros(|mem| - 4 - l - |t|));
    LosNumeros(c, Serie(TipoDe(c), id, mem).value, 5 + l);
  }

  lemma LocalizadoEnElEnvio(c: Contenido, id: nat, sobra: seq<byte>)
    requires c.Localizado? && EsContenido(c) && SeLeeBien(c)
    ensures var s := Serie(LP, id, ImagenEnCache(c) + sobra);
            s.Some? && Esta(s.value, 0, id) && ConNombreEn(c, s.value, 4)
  {
    hide Entero, Pares, Serie, ImagenEnCache, EstanLosPares;
    var cs, l := c.coordenadas, |c.nombre|;
    var n, k := |cs|, |cs| % 256;
    var z := Ceros(8 * (n - k) + |sobra|);
    SerieDeLocalizado(c, id, sobra, k);
    TramosDeLocalizado(Entero(id), Entero(l + 1), c.nombre, Entero(n), Pares(cs[..k]), z);
    ParesEnCero(cs, k);
    LosParesYMas(Pares(cs[..k]), z, 8 * (n - k));
    var b := SerieLocalizado(c, id, k, z);
    PrefijoDeCola(b, 13 + l, Pares(cs[..k]) + z, 8 * n);
    LosPares(b, 13 + l, cs);
  }
}
