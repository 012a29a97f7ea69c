/** Numbers as text: the commons string_itoa and the C library's atoi. */
module Numeros {

  predicate EsDigito(c: char) { '0' <= c <= '9' }

  function Digito(n: nat): char
    requires n < 10
  {
    (n as char) + '0'
  }

  function ValorDigito(c: char): nat
    requires EsDigito(c)
  {
    (c as int) - ('0' as int)
  }

  /** string_itoa */
  function Itoa(n: nat): (s: string)
    ensures s != "" && forall i :: 0 <= i < |s| ==> EsDigito(s[i])
    decreases n
  {
    if n < 10 then [Digito(n)] else Itoa(n / 10) + [Digito(n % 10)]
  }

  /** atoi over the digits a text starts with; 0 when it starts with none. */
  function Atoi(s: string): nat
  {
    AtoiDesde(0, s)
  }

  function AtoiDesde(acc: nat, s: string): nat
    decreases |s|
  {
    if s == "" || !EsDigito(s[0]) then acc else AtoiDesde(10 * acc + ValorDigito(s[0]), s[1..])
  }

  lemma {:induction false} AtoiDigitosYMas(acc: nat, s: string, c: char, t: string)
    requires forall i :: 0 <= i < |s| ==> EsDigito(s[i])
    requires EsDigito(c)
    ensures AtoiDesde(acc, s + [c] + t) == AtoiDesde(10 * AtoiDesde(acc, s) + ValorDigito(c), t)
    decreases |s|
  {
    if s == "" {
      assert s + [c] + t == [c] + t;
      assert ([c] + t)[1..] == t;
    } else {
      assert (s + [c] + t)[1..] == s[1..] + [c] + t;
      AtoiDigitosYMas(10 * acc + ValorDigito(s[0]), s[1..], c, t);
    }
  }

  /** atoi undoes string_itoa, whatever follows the digits. */
  lemma {:induction false} AtoiItoa(n: nat, t: string)
    requires t == "" || !EsDigito(t[0])
    ensures Atoi(Itoa(n) + t) == n
    decreases n
  {
    if n < 10 {
      assert Itoa(n) + t == "" + [Digito(n)] + t;
      AtoiDigitosYMas(0, "", Digito(n), t);
    } else {
      AtoiDigitosYMas(0, Itoa(n / 10), Digito(n % 10), t);
      AtoiItoa(n / 10, "");
      assert Itoa(n / 10) + "" == Itoa(n / 10);
      assert Itoa(n) + t == Itoa(n / 10) + [Digito(n % 10)] + t;
    }
  }

  /** The first digit is the number itself up to nine arguments, and less than it from ten on. */
  lemma {:induction false} PrimerDigito(n: nat)
    ensures n < 10 ==> Itoa(n) == [Digito(n)]
    ensures n >= 10 ==> |Itoa(n)| > 1 && 1 <= ValorDigito(Itoa(n)[0])
    ensures ValorDigito(Itoa(n)[0]) < 10
    decreases n
  {
    if n >= 10 {
      PrimerDigito(n / 10);
    }
  }

  /** In base ten, the highest first. */
  lemma UnNumero()
    ensures Itoa(1907) == "1907" && Itoa(0) == "0"
  {
    assert Itoa(19) == Itoa(1) + [Digito(9)] == "19";
    assert Itoa(190) == Itoa(19) + [Digito(0)] == "190";
    assert Itoa(1907) == Itoa(190) + [Digito(7)];
  }
}
