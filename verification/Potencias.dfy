/** Integer powers of two, standing for the `pow (2.0, e)` of the broker's buddy system. */
module Potencias {

  function Pow2(e: nat): (r: nat)
    ensures r >= 1
  {
    if e == 0 then 1 else 2 * Pow2(e - 1)
  }

  /** Says whether n is a power of two, by halving it. */
  predicate EsPotencia(n: nat)
  {
    n == 1 || (n > 1 && n % 2 == 0 && EsPotencia(n / 2))
  }

  lemma {:induction false} PotenciaDePow2(e: nat)
    ensures EsPotencia(Pow2(e))
  {
    if e > 0 {
      PotenciaDePow2(e - 1);
    }
  }

  lemma {:induction false} Pow2Creciente(d: nat, e: nat)
    requires d < e
    ensures 2 * Pow2(d) <= Pow2(e)
  {
    if d + 1 < e {
      Pow2Creciente(d, e - 1);
    }
  }

  lemma {:induction false} Multiplo(s: nat, k: nat)
    requires s > 0
    ensures (k * s) % s == 0
    ensures (k * s) / s == k
  {
    if k > 0 {
      Multiplo(s, k - 1);
      assert k * s == (k - 1) * s + s;
      SumaModulo((k - 1) * s, s);
    }
  }

  lemma SumaModulo(x: nat, s: nat)
    requires s > 0
    ensures (x + s) % s == x % s
    ensures (x + s) / s == x / s + 1
  {
    var q, r := x / s, x % s;
    assert x == q * s + r;
    assert x + s == (q + 1) * s + r;
    CocienteUnico(x + s, s, q + 1, r);
  }

  lemma CocienteUnico(x: nat, s: nat, q: nat, r: nat)
    requires s > 0 && r < s && x == q * s + r
    ensures x / s == q && x % s == r
  {
    var q', r' := x / s, x % s;
    assert x == q' * s + r';
    MultiplosOrdenados(q', q, s);
    MultiplosOrdenados(q, q', s);
  }

  lemma MultiplosOrdenados(i: int, k: int, s: nat)
    requires s > 0
    ensures i < k ==> i * s + s <= k * s
    ensures k <= i ==> k * s <= i * s
  {
    if i < k {
      ProductoNoNegativo(k - i - 1, s);
      assert k * s == i * s + s + (k - i - 1) * s;
    } else {
      ProductoNoNegativo(i - k, s);
      assert i * s == k * s + (i - k) * s;
    }
  }

  lemma ProductoNoNegativo(a: int, b: int)
    requires a >= 0 && b >= 0
    ensures a * b >= 0
  {
  }

  /** A multiple of s, and a stretch of m such multiples, are apart or nested. */
  lemma MultiplosAnidados(i: nat, j: nat, m: nat, s: nat)
    requires s > 0
    ensures i * s + s <= j * (m * s) || j * (m * s) + m * s <= i * s
            || (j * (m * s) <= i * s && i * s + s <= j * (m * s) + m * s)
  {
    assert j * (m * s) == (j * m) * s;
    assert (j * m + m) * s == (j * m) * s + m * s;
    MultiplosOrdenados(i, j * m, s);
    MultiplosOrdenados(i, j * m + m, s);
  }

  /** Of two powers of two, the smaller divides the larger. */
  lemma {:induction false} PotenciaDivide(s: nat, t: nat)
    requires EsPotencia(s) && EsPotencia(t) && s <= t
    ensures t % s == 0
  {
    if s > 1 {
      PotenciaDivide(s / 2, t / 2);
      var m := (t / 2) / (s / 2);
      assert t / 2 == m * (s / 2);
      assert t == m * s by {
        assert 2 * (m * (s / 2)) == m * (2 * (s / 2));
      }
      Multiplo(s, m);
    }
  }

  lemma {:induction false} PotenciaMayorAlMenosDoble(s: nat, t: nat)
    requires EsPotencia(s) && EsPotencia(t) && s < t
    ensures 2 * s <= t
  {
    if s > 1 {
      PotenciaMayorAlMenosDoble(s / 2, t / 2);
    }
  }

  lemma {:induction false} PotenciaEsPow2(n: nat) returns (e: nat)
    requires EsPotencia(n)
    ensures n == Pow2(e)
  {
    if n == 1 {
      e := 0;
    } else {
      e := PotenciaEsPow2(n / 2);
      e := e + 1;
    }
  }

  // ---- exponente_buddy ----

  /** The first exponent from e on whose power holds t. */
  function ExponenteDesde(e: nat, t: nat): (r: nat)
    ensures r >= e && t <= Pow2(r)
    ensures r > e ==> Pow2(r - 1) < t
    decreases if Pow2(e) < t then t - Pow2(e) else 0
  {
    if Pow2(e) < t then ExponenteDesde(e + 1, t) else e
  }

  /** The exponent of the partition for a message of t bytes; never below 1. */
  function Exponente(t: nat): nat
  {
    ExponenteDesde(1, t)
  }

  method ExponenteBuddy(largo: nat) returns (exponente: nat)
    ensures exponente == Exponente(largo)
  {
    exponente := 1;
    while Pow2(exponente) < largo
      invariant ExponenteDesde(exponente, largo) == Exponente(largo)
      decreases largo - Pow2(exponente)
    {
      exponente := exponente + 1;
    }
  }

  /** The rounded size is the least power of two that is at least 2 and holds t. */
  lemma RedondeoMinimo(t: nat, p: nat)
    requires EsPotencia(p) && p >= 2 && p >= t
    ensures EsPotencia(Pow2(Exponente(t)))
    ensures 2 <= Pow2(Exponente(t)) <= p
    ensures t <= Pow2(Exponente(t))
  {
    var e := Exponente(t);
    PotenciaDePow2(e);
    if e > 1 {
      PotenciaDePow2(e - 1);
      PotenciaMayorAlMenosDoble(Pow2(e - 1), p);
    }
  }

  lemma ExponenteDePow2(e: nat)
    requires e >= 1
    ensures Exponente(Pow2(e)) == e
  {
    MismoExponente(e, Exponente(Pow2(e)));
  }

  lemma MismoExponente(e: nat, r: nat)
    requires e >= 1 && r >= 1 && Pow2(e) <= Pow2(r)
    requires r > 1 ==> Pow2(r - 1) < Pow2(e)
    ensures e == r
  {
    if r < e {
      Pow2Creciente(r, e);
    } else if e < r {
      Pow2NoDecrece(e, r - 1);
    }
  }

  lemma Pow2NoDecrece(d: nat, e: nat)
    requires d <= e
    ensures Pow2(d) <= Pow2(e)
  {
    if d < e {
      Pow2Creciente(d, e);
    }
  }

  /** Rounding a power of two leaves it, so a partition size asked for again is itself. */
  lemma RedondeoDePotencia(p: nat)
    requires EsPotencia(p) && p >= 2
    ensures Pow2(Exponente(p)) == p
  {
    var e := PotenciaEsPow2(p);
    ExponenteDePow2(e);
  }
}
