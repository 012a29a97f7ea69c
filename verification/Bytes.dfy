/** Bytes, integers laid out in memory from their lowest byte, and text that a zero ends. */
module Bytes {

  newtype byte = x: int | 0 <= x < 256

  function Potencia256(n: nat): (p: nat)
    ensures p > 0
  {
    if n == 0 then 1 else 256 * Potencia256(n - 1)
  }

  /** What memcpy of an unsigned integer of this many bytes leaves in memory. */
  function EnBytes(n: nat, largo: nat): (r: seq<byte>)
    ensures |r| == largo
  {
    if largo == 0 then [] else [(n % 256) as byte] + EnBytes(n / 256, largo - 1)
  }

  /** What memcpy into an unsigned integer reads back. */
  function DesdeBytes(b: seq<byte>): nat
  {
    if b == [] then 0 else b[0] as nat + 256 * DesdeBytes(b[1..])
  }

  /** Copied in and out, an integer keeps what fits in its bytes. */
  lemma {:induction false} EnteroIdaYVuelta(n: nat, largo: nat)
    ensures DesdeBytes(EnBytes(n, largo)) == n % Potencia256(largo)
  {
    if largo == 0 {
    } else {
      EnteroIdaYVuelta(n / 256, largo - 1);
      var p := Potencia256(largo - 1);
      assert EnBytes(n, largo)[1..] == EnBytes(n / 256, largo - 1);
      RestoPorPartes(n, p);
    }
  }

  lemma RestoPorPartes(n: nat, p: nat)
    requires p > 0
    ensures n % (256 * p) == n % 256 + 256 * ((n / 256) % p)
  {
    var q, r := n / 256, n % 256;
    var a, b := q / p, q % p;
    assert q == a * p + b;
    assert n == 256 * q + r == (256 * p) * a + (256 * b + r) by {
      assert 256 * (a * p) == (256 * p) * a;
    }
    assert b <= p - 1;
    assert 0 <= 256 * b + r < 256 * p;
    UnicoResto(n, 256 * p, a, 256 * b + r);
  }

  lemma UnicoResto(n: int, d: int, c: int, r: int)
    requires n == d * c + r && 0 <= r < d
    ensures n % d == r
  {
    var c' := n / d;
    assert d * (c - c') == n % d - r && d * (c' - c) == r - n % d;
    if c > c' {
      AlMenosUnaVez(d, c - c');
    } else if c < c' {
      AlMenosUnaVez(d, c' - c);
    }
  }

  lemma AlMenosUnaVez(d: int, k: int)
    requires d > 0 && k > 0
    ensures d * k >= d
  {
    if k > 1 {
      AlMenosUnaVez(d, k - 1);
    }
  }

  /** A C string: what comes before the first zero. */
  function HastaCero(b: seq<byte>): (r: seq<byte>)
    ensures |r| <= |b| && r == b[..|r|] && SinCeros(r)
  {
    if b == [] || b[0] == 0 then [] else [b[0]] + HastaCero(b[1..])
  }

  predicate SinCeros(b: seq<byte>)
  {
    forall i :: 0 <= i < |b| ==> b[i] != 0
  }

  function Ceros(n: nat): (r: seq<byte>)
    ensures |r| == n
  {
    seq(n, _ => 0 as byte)
  }

  lemma {:induction false} TextoIdaYVuelta(texto: seq<byte>, resto: seq<byte>)
    requires SinCeros(texto) && (resto == [] || resto[0] == 0)
    ensures HastaCero(texto + resto) == texto
  {
    if texto == [] {
      assert texto + resto == resto;
    } else {
      TextoIdaYVuelta(texto[1..], resto);
      assert (texto + resto)[1..] == texto[1..] + resto;
    }
  }
}
