/** Lissandra's block files and the bitmap that says which of them are taken. */
module Disco {
  import opened Secuencias

  /** What a file of a table says: SIZE and BLOCKS. */
  datatype Archivo = Archivo(size: nat, blocks: seq<nat>)

  /** The contents of the listed blocks, one after the other. */
  function Contenidos(bloques: seq<string>, blocks: seq<nat>): (r: seq<string>)
    requires forall i :: 0 <= i < |blocks| ==> blocks[i] < |bloques|
    ensures |r| == |blocks|
  {
    seq(|blocks|, i requires 0 <= i < |blocks| => bloques[blocks[i]])
  }

  function CantidadLibres(bits: seq<bool>): nat
  {
    if bits == [] then 0 else (if bits[0] then 0 else 1) + CantidadLibres(bits[1..])
  }

  /** Free blocks are empty files. */
  ghost predicate LibresVacios(bits: seq<bool>, bloques: seq<string>)
  {
    |bits| == |bloques| && forall b :: 0 <= b < |bits| && !bits[b] ==> bloques[b] == ""
  }

  ghost predicate Tomados(bits: seq<bool>, blocks: seq<nat>)
  {
    forall i :: 0 <= i < |blocks| ==> blocks[i] < |bits| && bits[blocks[i]]
  }

  lemma {:induction false} MarcarUno(bits: seq<bool>, b: nat, v: bool)
    requires b < |bits| && bits[b] != v
    ensures CantidadLibres(bits[b := v]) == if v then CantidadLibres(bits) - 1 else CantidadLibres(bits) + 1
    ensures CantidadLibres(bits) >= if v then 1 else 0
    decreases |bits|
  {
    var r := bits[b := v];
    if b == 0 {
      assert r[1..] == bits[1..];
    } else {
      assert r[1..] == bits[1..][b - 1 := v];
      MarcarUno(bits[1..], b - 1, v);
    }
  }

  lemma {:induction false} TodosTomados(bits: seq<bool>)
    requires forall b :: 0 <= b < |bits| ==> bits[b]
    ensures CantidadLibres(bits) == 0
  {
    if bits != [] {
      TodosTomados(bits[1..]);
    }
  }

  class Bloques {
    const bitarray: array<bool>
    const bloques: array<string>

    ghost predicate Valid()
      reads this, bitarray, bloques
    {
      LibresVacios(bitarray[..], bloques[..])
    }

    constructor (n: nat)
      ensures Valid() && fresh(bitarray) && fresh(bloques)
      ensures bitarray.Length == n && forall b :: 0 <= b < n ==> !bitarray[b]
    {
      bitarray := new bool[n](_ => false);
      bloques := new string[n](_ => "");
    }

    /** The first free block, taken; -1 when there is none. */
    method BuscarBloqueLibre() returns (b: int)
      requires Valid()
      modifies bitarray
      ensures Valid()
      ensures b == -1 <==> CantidadLibres(old(bitarray[..])) == 0
      ensures b == -1 ==> bitarray[..] == old(bitarray[..])
      ensures b != -1 ==> 0 <= b < bitarray.Length && !old(bitarray[b]) && bitarray[..] == old(bitarray[..])[b := true]
      ensures b != -1 ==> forall i :: 0 <= i < b ==> old(bitarray[i])
      ensures b != -1 ==> CantidadLibres(bitarray[..]) == CantidadLibres(old(bitarray[..])) - 1 && bloques[b] == ""
    {
      var i := 0;
      while i < bitarray.Length
        invariant i <= bitarray.Length && bitarray[..] == old(bitarray[..])
        invariant forall k :: 0 <= k < i ==> bitarray[k]
      {
        if !bitarray[i] {
          MarcarUno(bitarray[..], i, true);
          assert bloques[..][i] == "";
          bitarray[i] := true;
          assert bitarray[..] == old(bitarray[..])[i := true];
          return i;
        }
        i := i + 1;
      }
      TodosTomados(bitarray[..]);
      return -1;
    }

    /** bitarray_clean_bit and a new empty file in place of the block's. */
    method LiberarBloque(b: nat)
      requires Valid() && b < bitarray.Length && bitarray[b]
      modifies bitarray, bloques
      ensures Valid()
      ensures bitarray[..] == old(bitarray[..])[b := false] && bloques[..] == old(bloques[..])[b := ""]
      ensures CantidadLibres(bitarray[..]) == CantidadLibres(old(bitarray[..])) + 1
    {
      MarcarUno(bitarray[..], b, false);
      bitarray[b] := false;
      bloques[b] := "";
      assert bitarray[..] == old(bitarray[..])[b := false];
      assert bloques[..] == old(bloques[..])[b := ""];
    }

    /** liberarBloquesDeParticion */
    method LiberarBloques(blocks: seq<nat>)
      requires Valid() && Tomados(bitarray[..], blocks) && SinRepetidos(blocks)
      modifies bitarray, bloques
      ensures Valid()
      ensures forall b :: 0 <= b < bitarray.Length ==> bitarray[b] == (old(bitarray[b]) && b !in blocks)
      ensures forall b :: 0 <= b < bitarray.Length && b !in blocks ==> bloques[b] == old(bloques[b])
      ensures CantidadLibres(bitarray[..]) == CantidadLibres(old(bitarray[..])) + |blocks|
    {
      for i := 0 to |blocks|
        invariant Valid()
        invariant forall b :: 0 <= b < bitarray.Length ==> bitarray[b] == (old(bitarray[b]) && b !in blocks[..i])
        invariant forall b :: 0 <= b < bitarray.Length && b !in blocks[..i] ==> bloques[b] == old(bloques[b])
        invariant CantidadLibres(bitarray[..]) == CantidadLibres(old(bitarray[..])) + i
      {
        assert bitarray[blocks[i]] by {
          assert blocks[i] !in blocks[..i];
        }
        LiberarBloque(blocks[i]);
        assert blocks[..i + 1] == blocks[..i] + [blocks[i]];
      }
      assert blocks[..|blocks|] == blocks;
    }

    /** txt_open_for_append and a write. */
    method EscribirAlFinal(b: nat, t: string)
      requires Valid() && b < bitarray.Length && bitarray[b]
      modifies bloques
      ensures Valid() && bloques[..] == old(bloques[..])[b := old(bloques[b]) + t]
    {
      bloques[b] := bloques[b] + t;
      assert bloques[..] == old(bloques[..])[b := old(bloques[b]) + t];
    }
  }
}
