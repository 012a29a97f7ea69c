/** Files of a Lissandra table: appending a record, and rewriting a whole partition. */
module Archivos {
  import opened Secuencias
  import opened LineasDeBloque
  import opened Cortes
  import opened Disco

  /** File a holds the text s, canonically cut over blocks of its own. */
  ghost predicate Cortado(bits: seq<bool>, bloques: seq<string>, a: Archivo, s: string, b: nat)
    requires b > 0
  {
    && |bits| == |bloques|
    && Tomados(bits, a.blocks) && SinRepetidos(a.blocks)
    && Contenidos(bloques, a.blocks) == Trozos(s, b)
    && a.size == |s|
  }

  /** Only the listed blocks changed. */
  ghost predicate Igual(bits: seq<bool>, bloques: seq<string>, bits': seq<bool>, bloques': seq<string>, salvo: seq<nat>)
  {
    && |bits| == |bits'| && |bloques| == |bloques'| == |bits|
    && forall i :: 0 <= i < |bits| && i !in salvo ==> bits[i] == bits'[i] && bloques[i] == bloques'[i]
  }

  lemma CortadoSigue(bits: seq<bool>, bloques: seq<string>, bits': seq<bool>, bloques': seq<string>, salvo: seq<nat>,
                     a: Archivo, s: string, b: nat)
    requires b > 0 && Cortado(bits, bloques, a, s, b) && Igual(bits, bloques, bits', bloques', salvo)
    requires forall i :: 0 <= i < |a.blocks| ==> a.blocks[i] !in salvo
    ensures Cortado(bits', bloques', a, s, b)
  {
    assert Contenidos(bloques', a.blocks) == Contenidos(bloques, a.blocks);
  }

  lemma ContenidosCambiado(bloques: seq<string>, blocks: seq<nat>, i: nat, t: string)
    requires i < |blocks| && SinRepetidos(blocks)
    requires forall k :: 0 <= k < |blocks| ==> blocks[k] < |bloques|
    ensures Contenidos(bloques[blocks[i] := t], blocks) == Contenidos(bloques, blocks)[i := t]
  {
  }

  lemma ContenidosConUnoMas(bloques: seq<string>, blocks: seq<nat>, c: nat, t: string)
    requires c < |bloques| && c !in blocks
    requires forall k :: 0 <= k < |blocks| ==> blocks[k] < |bloques|
    ensures Contenidos(bloques[c := t], blocks + [c]) == Contenidos(bloques, blocks) + [t]
  {
  }

  /** Where the record goes: the hole of the last block, by SIZE and the number of blocks. */
  lemma HuecoDelUltimo(a: Archivo, s: string, b: nat)
    requires b > 0 && a.size == |s| && |a.blocks| == |Trozos(s, b)|
    ensures var r := Trozos(s, b);
            && b * |a.blocks| - a.size == b - |r[|r| - 1]| >= 0
  {
    TrozosSuma(s, b);
    TrozosSonCorte(s, b);
    var n := |a.blocks|;
    assert b * n == b * (n - 1) + b;
  }

  class Archivador {
    const disco: Bloques
    const tamBloque: nat

    ghost predicate Valid()
      reads this, disco, disco.bitarray, disco.bloques
    {
      tamBloque > 0 && disco.Valid()
    }

    constructor (disco: Bloques, tamBloque: nat)
      requires disco.Valid() && tamBloque > 0
      ensures Valid() && this.disco == disco && this.tamBloque == tamBloque
    {
      this.disco := disco;
      this.tamBloque := tamBloque;
    }

    ghost predicate Guarda(a: Archivo, s: string)
      requires tamBloque > 0
      reads this, disco, disco.bitarray, disco.bloques
    {
      Cortado(disco.bitarray[..], disco.bloques[..], a, s, tamBloque)
    }

    /** The blocks of the file are set in the bitmap and hold these texts. */
    ghost predicate Tiene(a: Archivo, ts: seq<string>)
      reads this, disco, disco.bitarray, disco.bloques
    {
      && disco.bitarray.Length == disco.bloques.Length && Tomados(disco.bitarray[..], a.blocks)
      && Contenidos(disco.bloques[..], a.blocks) == ts
    }

    /** establecerBloqueYDatosAOcupar: a new file with one empty block. */
    method EstablecerBloque() returns (a: Archivo, ok: bool)
      requires Valid()
      modifies disco.bitarray
      ensures Valid()
      ensures ok <==> CantidadLibres(old(disco.bitarray[..])) > 0
      ensures !ok ==> disco.bitarray[..] == old(disco.bitarray[..])
      ensures ok ==> |a.blocks| == 1 && a.blocks[0] < disco.bitarray.Length && !old(disco.bitarray[..])[a.blocks[0]]
      ensures ok ==> disco.bitarray[..] == old(disco.bitarray[..])[a.blocks[0] := true]
      ensures ok ==> Guarda(a, "") && CantidadLibres(disco.bitarray[..]) == CantidadLibres(old(disco.bitarray[..])) - 1
    {
      var b := disco.BuscarBloqueLibre();
      if b == -1 {
        return Archivo(0, []), false;
      }
      a, ok := Archivo(0, [b]), true;
      assert Contenidos(disco.bloques[..], a.blocks) == Trozos("", tamBloque);
    }

    /** The first block of the file that is not full, or how many there are. */
    method PrimerNoLleno(a: Archivo, ghost s: string) returns (indice: nat)
      requires Valid() && Guarda(a, s)
      ensures var r := Trozos(s, tamBloque);
              indice == if |r[|r| - 1]| < tamBloque then |r| - 1 else |r|
    {
      hide Trozos, Juntar, LibresVacios, SinRepetidos;
      ghost var r := Trozos(s, tamBloque);
      TrozosSonCorte(s, tamBloque);
      indice := 0;
      while indice < |a.blocks|
        invariant indice <= |a.blocks|
        invariant forall k :: 0 <= k < indice ==> |r[k]| == tamBloque
      {
        assert disco.bloques[..][a.blocks[indice]] == r[indice];
        if |disco.bloques[a.blocks[indice]]| != tamBloque {
          return;
        }
        indice := indice + 1;
      }
    }

    /** The record fits the last block. */
    method EscribirEntero(l: string, a: Archivo, ghost s: string, indice: nat) returns (a': Archivo)
      requires Valid() && Guarda(a, s) && 0 < |l|
      requires var r := Trozos(s, tamBloque); indice == |r| - 1 && |r[indice]| + |l| <= tamBloque
      modifies disco.bloques
      ensures Valid() && Guarda(a', s + l) && a'.blocks == a.blocks
      ensures Tiene(a', TrasAgregar(s, l, tamBloque))
      ensures Igual(disco.bitarray[..], old(disco.bloques[..]), disco.bitarray[..], disco.bloques[..], a.blocks)
    {
      ghost var bls := disco.bloques[..];
      ghost var r := Trozos(s, tamBloque);
      AgregarEsTrozos(s, l, tamBloque);
      assert bls[a.blocks[indice]] == r[indice];
      disco.EscribirAlFinal(a.blocks[indice], l);
      ContenidosCambiado(bls, a.blocks, indice, r[indice] + l);
      a' := Archivo(a.size + |l|, a.blocks);
    }

    /** The record is cut: what fits the last block, and the rest in block c, just taken. */
    method EscribirPartido(l: string, a: Archivo, ghost s: string, indice: nat, c: nat, primerResto: nat)
        returns (a': Archivo)
      requires Valid() && Guarda(a, s) && 0 < |l|
      requires var r := Trozos(s, tamBloque);
               && primerResto == tamBloque - |r[|r| - 1]| < |l|
               && (primerResto != 0 ==> indice == |r| - 1)
      requires c < disco.bitarray.Length && disco.bitarray[c] && disco.bloques[c] == "" && c !in a.blocks
      modifies disco.bloques
      ensures Valid() && a'.blocks == a.blocks + [c] && a'.size == |s| + |l|
      ensures Tiene(a', TrasAgregar(s, l, tamBloque))
      ensures Guarda(a', s + l) <==> EntraEnDos(Trozos(s, tamBloque), l, tamBloque)
      ensures Igual(disco.bitarray[..], old(disco.bloques[..]), disco.bitarray[..], disco.bloques[..], a'.blocks)
    {
      ghost var bls := disco.bloques[..];
      ghost var r := Trozos(s, tamBloque);
      ghost var n := |r| - 1;
      ghost var x := r[n] + l[..primerResto];
      AgregarEsTrozos(s, l, tamBloque);
      assert bls[a.blocks[n]] == r[n];
      if primerResto != 0 {
        disco.EscribirAlFinal(a.blocks[indice], l[..primerResto]);
      } else {
        assert x == r[n];
      }
      assert disco.bloques[..] == bls[a.blocks[n] := x];
      ContenidosCambiado(bls, a.blocks, n, x);
      ContenidosConUnoMas(disco.bloques[..], a.blocks, c, l[primerResto..]);
      assert "" + l[primerResto..] == l[primerResto..];
      disco.EscribirAlFinal(c, l[primerResto..]);
      ConjAgregar(a.blocks, c);
      a' := Archivo(a.size + |l|, a.blocks + [c]);
    }

    /**
     insertarRegistroDentroDelBloque: writes at the end of the last block and, past it, in a new
     one. Without a free block for that the record is not written at all. All that is past the last
     block goes into the one new block, so the file stays canonically cut exactly when it fits there.
     */
    method InsertarRegistro(l: string, a: Archivo, ghost s: string) returns (a': Archivo, ok: bool)
      requires Valid() && Guarda(a, s) && 0 < |l|
      modifies disco.bitarray, disco.bloques
      ensures Valid()
      ensures ok <==> a.size + |l| <= tamBloque * |a.blocks| || CantidadLibres(old(disco.bitarray[..])) > 0
      ensures |l| <= tamBloque ==>
                (ok <==> CantidadBloques(|s| + |l|, tamBloque) <= |a.blocks| + CantidadLibres(old(disco.bitarray[..])))
      ensures !ok ==>
                a' == a && disco.bitarray[..] == old(disco.bitarray[..]) && disco.bloques[..] == old(disco.bloques[..])
      ensures ok ==> (Guarda(a', s + l) <==> EntraEnDos(Trozos(s, tamBloque), l, tamBloque))
      ensures ok && |l| <= tamBloque ==> Guarda(a', s + l)
      ensures ok ==> a'.size == |s| + |l| && Tiene(a', TrasAgregar(s, l, tamBloque))
      ensures a.blocks <= a'.blocks && forall i :: |a.blocks| <= i < |a'.blocks| ==>
                !old(disco.bitarray[..])[a'.blocks[i]]
      ensures Igual(old(disco.bitarray[..]), old(disco.bloques[..]), disco.bitarray[..], disco.bloques[..], a'.blocks)
      ensures CantidadLibres(disco.bitarray[..]) == CantidadLibres(old(disco.bitarray[..])) - (|a'.blocks| - |a.blocks|)
    {
      hide Trozos, Agregar, TrasAgregar, Juntar, LibresVacios, CantidadBloques;
      var indice := PrimerNoLleno(a, s);
      if |l| <= tamBloque {
        CuantosBloques(s, l, tamBloque);
      }
      HuecoDelUltimo(a, s, tamBloque);
      var cantidadElementos := |a.blocks|;
      var tamanioArchivo := a.size + |l|;
      if tamanioArchivo <= tamBloque * cantidadElementos {
        a' := EscribirEntero(l, a, s, indice);
        ok := true;
      } else {
        var posicionBloque := disco.BuscarBloqueLibre();
        if posicionBloque == -1 {
          return a, false;
        }
        var segundoResto := tamanioArchivo - tamBloque * cantidadElementos;
        var primerResto := |l| - segundoResto;
        assert posicionBloque !in a.blocks;
        a' := EscribirPartido(l, a, s, indice, posicionBloque, primerResto);
        ok := true;
      }
    }

    // ---- rewriting a partition ----

    /** reservarArrayBloques; `ok` when no -1 was stored. */
    method ReservarArrayBloques(cantidad: nat) returns (almacen: seq<nat>, ok: bool)
      requires Valid()
      modifies disco.bitarray
      ensures Valid()
      ensures ok <==> cantidad <= CantidadLibres(old(disco.bitarray[..]))
      ensures ok ==> |almacen| == cantidad && SinRepetidos(almacen) && Tomados(disco.bitarray[..], almacen)
      ensures ok ==> forall i :: 0 <= i < cantidad ==>
                !old(disco.bitarray[..])[almacen[i]] && disco.bloques[almacen[i]] == ""
      ensures ok ==> Igual(old(disco.bitarray[..]), disco.bloques[..], disco.bitarray[..], disco.bloques[..], almacen)
      ensures ok ==> CantidadLibres(disco.bitarray[..]) == CantidadLibres(old(disco.bitarray[..])) - cantidad
    {
      almacen := [];
      while |almacen| < cantidad
        invariant |almacen| <= cantidad && Valid() && SinRepetidos(almacen)
        invariant forall i :: 0 <= i < |almacen| ==>
            && almacen[i] < disco.bitarray.Length && disco.bitarray[almacen[i]]
            && !old(disco.bitarray[..])[almacen[i]] && disco.bloques[almacen[i]] == ""
        invariant Igual(old(disco.bitarray[..]), disco.bloques[..], disco.bitarray[..], disco.bloques[..], almacen)
        invariant CantidadLibres(disco.bitarray[..]) == CantidadLibres(old(disco.bitarray[..])) - |almacen|
      {
        var b := disco.BuscarBloqueLibre();
        if b == -1 {
          return almacen, false;
        }
        assert b !in almacen;
        ConjAgregar(almacen, b);
        almacen := almacen + [b];
      }
      ok := true;
    }

    /** What the writing loop keeps: the text so far, cut over the blocks up to `indice`. */
    ghost predicate Escrito(almacen: seq<nat>, indice: nat, s: string)
      requires Tomados(disco.bitarray[..], almacen) && disco.Valid() && tamBloque > 0
      reads this, disco, disco.bitarray, disco.bloques
    {
      && indice < |almacen|
      && Contenidos(disco.bloques[..], almacen)[..indice + 1] == Trozos(s, tamBloque)
      && forall k :: indice < k < |almacen| ==> disco.bloques[almacen[k]] == ""
    }

    /**
     One turn of the loop of modificarParticionesOriginales: what is past the block in course goes into the
     next one, so what is written stays canonically cut exactly when it fits there.
     */
    method EscribirRegistro(registro: string, almacen: seq<nat>, indice: nat, tamanio: nat, ghost s: string)
        returns (indice': nat, tamanio': nat)
      requires Valid() && Tomados(disco.bitarray[..], almacen) && SinRepetidos(almacen)
      requires Escrito(almacen, indice, s) && tamanio == |disco.bloques[almacen[indice]]| && 0 < |registro|
      requires CantidadBloques(|s| + |registro|, tamBloque) <= |almacen|
      modifies disco.bloques
      ensures Valid() && indice' < |almacen| && tamanio' == |disco.bloques[almacen[indice']]|
      ensures Escrito(almacen, indice', s + registro) <==> EntraEnDos(Trozos(s, tamBloque), registro, tamBloque)
      ensures tamanio' <= tamBloque <==> EntraEnDos(Trozos(s, tamBloque), registro, tamBloque)
      ensures Igual(disco.bitarray[..], old(disco.bloques[..]), disco.bitarray[..], disco.bloques[..], almacen)
    {
      ghost var bls := disco.bloques[..];
      ghost var r := Trozos(s, tamBloque);
      HayOtroBloque(s, registro, tamBloque);
      AgregarEsTrozos(s, registro, tamBloque);
      assert bls[almacen[indice]] == r[indice];
      tamanio' := tamanio + |registro|;
      if tamanio' <= tamBloque {
        disco.EscribirAlFinal(almacen[indice], registro);
        ContenidosCambiado(bls, almacen, indice, r[indice] + registro);
        indice' := indice;
      } else {
        var segundoResto := tamanio' - tamBloque;
        var primerResto := |registro| - segundoResto;
        ghost var x := r[indice] + registro[..primerResto];
        if primerResto != 0 {
          disco.EscribirAlFinal(almacen[indice], registro[..primerResto]);
        } else {
          assert x == r[indice];
        }
        assert disco.bloques[..] == bls[almacen[indice] := x];
        ContenidosCambiado(bls, almacen, indice, x);
        indice' := indice + 1;
        tamanio' := segundoResto;
        ContenidosCambiado(disco.bloques[..], almacen, indice', registro[primerResto..]);
        assert "" + registro[primerResto..] == registro[primerResto..];
        disco.EscribirAlFinal(almacen[indice'], registro[|registro| - segundoResto..]);
      }
    }

    /** devolverTamanioTotalDeArchivo */
    static method TamanioTotal(registros: seq<string>) returns (total: nat)
      ensures total == |Juntar(registros)|
    {
      total := 0;
      for i := 0 to |registros|
        invariant total == |Juntar(registros[..i])|
      {
        SiguienteLinea(registros, i);
        total := total + |registros[i]|;
      }
      assert registros[..|registros|] == registros;
    }

    /**
     What modificarParticionesOriginales does with one partition: reserve as many blocks as its
     records take and write them through. Without enough free blocks the original goes on with a
     block number of -1, and after a record that leaves more than a block in the last it goes on with
     a count that is off; here `ok` is false.
     */
    method EscribirParticion(registros: seq<string>) returns (a: Archivo, ok: bool)
      requires Valid() && forall i :: 0 <= i < |registros| ==> 0 < |registros[i]|
      modifies disco.bitarray, disco.bloques
      ensures Valid()
      ensures ok <==> CantidadBloques(|Juntar(registros)|, tamBloque) <= CantidadLibres(old(disco.bitarray[..]))
                      && TodosEntran(registros, tamBloque)
      ensures ok ==> Guarda(a, Juntar(registros)) && |a.blocks| == CantidadBloques(|Juntar(registros)|, tamBloque)
      ensures ok ==> forall i :: 0 <= i < |a.blocks| ==> !old(disco.bitarray[..])[a.blocks[i]]
      ensures ok ==> Igual(old(disco.bitarray[..]), old(disco.bloques[..]), disco.bitarray[..], disco.bloques[..],
                a.blocks)
      ensures ok ==> CantidadLibres(disco.bitarray[..]) == CantidadLibres(old(disco.bitarray[..])) - |a.blocks|
    {
      var totalSizeFile := TamanioTotal(registros);
      var almacen;
      almacen, ok := ReservarArrayBloques(CantidadBloques(totalSizeFile, tamBloque));
      if !ok {
        return Archivo(0, []), false;
      }
      ok := EscribirTodos(registros, almacen);
      a := Archivo(totalSizeFile, almacen);
    }

    method EscribirTodos(registros: seq<string>, almacen: seq<nat>) returns (ok: bool)
      requires Valid() && forall i :: 0 <= i < |registros| ==> 0 < |registros[i]|
      requires Tomados(disco.bitarray[..], almacen) && SinRepetidos(almacen)
      requires forall i :: 0 <= i < |almacen| ==> disco.bloques[almacen[i]] == ""
      requires |almacen| == CantidadBloques(|Juntar(registros)|, tamBloque)
      modifies disco.bloques
      ensures Valid() && (ok <==> TodosEntran(registros, tamBloque))
      ensures ok ==> Contenidos(disco.bloques[..], almacen) == Trozos(Juntar(registros), tamBloque)
      ensures Igual(disco.bitarray[..], old(disco.bloques[..]), disco.bitarray[..], disco.bloques[..], almacen)
    {
      var indiceBloque: nat, tamanioRegistro: nat := 0, 0;
      assert Contenidos(disco.bloques[..], almacen)[..1] == Trozos("", tamBloque);
      for i := 0 to |registros|
        invariant Valid() && Escrito(almacen, indiceBloque, Juntar(registros[..i]))
        invariant tamanioRegistro == |disco.bloques[almacen[indiceBloque]]|
        invariant forall k :: 0 <= k < i ==>
                    EntraEnDos(Trozos(Juntar(registros[..k]), tamBloque), registros[k], tamBloque)
        invariant Igual(disco.bitarray[..], old(disco.bloques[..]), disco.bitarray[..], disco.bloques[..], almacen)
      {
        SiguienteLinea(registros, i);
        PrefijoNoMayor(registros, i + 1);
        CantidadCrece(|Juntar(registros[..i + 1])|, |Juntar(registros)|, tamBloque);
        indiceBloque, tamanioRegistro :=
          EscribirRegistro(registros[i], almacen, indiceBloque, tamanioRegistro, Juntar(registros[..i]));
        if tamanioRegistro > tamBloque {
          return false;
        }
      }
      ok := true;
      assert registros[..|registros|] == registros;
      TrozosSonCorte(Juntar(registros), tamBloque);
      assert Contenidos(disco.bloques[..], almacen)[..indiceBloque + 1] == Contenidos(disco.bloques[..], almacen);
    }
  }

  /** One record takes one block more exactly when it does not fit the hole of the last. */
  /** A record that does not fit the last block takes the count of blocks past it. */
  lemma HayOtroBloque(s: string, l: string, b: nat)
    requires b > 0 && 0 < |l|
    ensures var r := Trozos(s, b);
            |r[|r| - 1]| <= b && (|r[|r| - 1]| + |l| > b ==> |r| + 1 <= CantidadBloques(|s| + |l|, b))
  {
    TrozosSonCorte(s, b);
    TrozosSonCorte(s + l, b);
    TrozosSuma(s, b);
    TrozosSuma(s + l, b);
    var r, t := Trozos(s, b), Trozos(s + l, b);
    hide Trozos;
    MasDeUnBloque(b, |r|, |t|, |r[|r| - 1]|, |t[|t| - 1]|, |l|);
  }

  lemma MasDeUnBloque(b: nat, n: nat, m: nat, u: nat, v: nat, l: nat)
    requires b * (n - 1) + u + l == b * (m - 1) + v && v <= b
    ensures u + l > b ==> n + 1 <= m
  {
    if m <= n {
      assert b * (n - 1) == b * (m - 1) + b * (n - m);
      assert b * (n - m) >= 0;
    }
  }

  lemma CuantosBloques(s: string, l: string, b: nat)
    requires b > 0 && 0 < |l| <= b
    ensures var r := Trozos(s, b);
            && |r| == CantidadBloques(|s|, b) && |r[|r| - 1]| <= b
            && CantidadBloques(|s| + |l|, b) == if |r[|r| - 1]| + |l| <= b then |r| else |r| + 1
  {
    AgregarEsTrozos(s, l, b);
    TrozosSonCorte(s, b);
    TrozosSonCorte(s + l, b);
  }

  lemma PrefijoNoMayor(ts: seq<string>, i: nat)
    requires i <= |ts|
    ensures |Juntar(ts[..i])| <= |Juntar(ts)|
  {
    assert ts == ts[..i] + ts[i..];
    JuntarMas(ts[..i], ts[i..]);
  }

  // ---- who owns the blocks ----

  ghost predicate BloqueDe(files: seq<Archivo>, c: nat)
  {
    exists f :: 0 <= f < |files| && c in files[f].blocks
  }

  ghost predicate Separados(files: seq<Archivo>)
  {
    forall f, g, c :: 0 <= f < |files| && 0 <= g < |files| && c in files[f].blocks && c in files[g].blocks ==> f == g
  }

  /**
   The live files hold their texts, and the set bits of the bitmap are exactly the disjoint union
   of their blocks and those of other tables.
   */
  ghost predicate Tiene(bits: seq<bool>, bloques: seq<string>, files: seq<Archivo>, textos: seq<string>,
                        ajenos: set<nat>, b: nat)
  {
    && b > 0 && |files| == |textos|
    && LibresVacios(bits, bloques)
    && (forall f :: 0 <= f < |files| ==> Cortado(bits, bloques, files[f], textos[f], b))
    && Separados(files)
    && (forall c :: 0 <= c < |bits| ==> (bits[c] <==> BloqueDe(files, c) || c in ajenos))
    && (forall c :: c in ajenos ==> c < |bits| && !BloqueDe(files, c))
  }

  lemma BloqueDeInsertar(files: seq<Archivo>, i: nat, a: Archivo, c: nat)
    requires i <= |files|
    ensures BloqueDe(Insertar(files, i, a), c) <==> BloqueDe(files, c) || c in a.blocks
  {
    var r := Insertar(files, i, a);
    if BloqueDe(files, c) {
      var f :| 0 <= f < |files| && c in files[f].blocks;
      assert r[if f < i then f else f + 1] == files[f];
    }
    if BloqueDe(r, c) {
      var f :| 0 <= f < |r| && c in r[f].blocks;
      assert f != i ==> r[f] == files[if f < i then f else f - 1];
    }
    assert r[i] == a;
  }

  lemma SeparadosInsertar(files: seq<Archivo>, i: nat, a: Archivo)
    requires i <= |files| && Separados(files) && forall c :: c in a.blocks ==> !BloqueDe(files, c)
    ensures Separados(Insertar(files, i, a))
  {
    var r := Insertar(files, i, a);
    forall f, g, c | 0 <= f < |r| && 0 <= g < |r| && c in r[f].blocks && c in r[g].blocks
      ensures f == g
    {
      var f', g' := if f < i then f else f - 1, if g < i then g else g - 1;
      assert f != i ==> r[f] == files[f'] && BloqueDe(files, c);
      assert g != i ==> r[g] == files[g'] && BloqueDe(files, c);
    }
  }

  lemma CortadosInsertar(bits: seq<bool>, bloques: seq<string>, files: seq<Archivo>, textos: seq<string>,
                         b: nat, bits': seq<bool>, bloques': seq<string>, i: nat, a: Archivo, s: string)
    requires b > 0 && |files| == |textos| && i <= |files|
    requires forall f :: 0 <= f < |files| ==> Cortado(bits, bloques, files[f], textos[f], b)
    requires Cortado(bits', bloques', a, s, b) && Igual(bits, bloques, bits', bloques', a.blocks)
    requires forall k :: 0 <= k < |a.blocks| ==> a.blocks[k] < |bits| && !bits[a.blocks[k]]
    ensures var r, t := Insertar(files, i, a), Insertar(textos, i, s);
            forall f :: 0 <= f < |r| ==> Cortado(bits', bloques', r[f], t[f], b)
  {
    var r, t := Insertar(files, i, a), Insertar(textos, i, s);
    forall f | 0 <= f < |r|
      ensures Cortado(bits', bloques', r[f], t[f], b)
    {
      if f != i {
        var g := if f < i then f else f - 1;
        assert r[f] == files[g] && t[f] == textos[g];
        forall k | 0 <= k < |files[g].blocks|
          ensures files[g].blocks[k] !in a.blocks
        {
          assert bits[files[g].blocks[k]];
        }
        CortadoSigue(bits, bloques, bits', bloques', a.blocks, files[g], textos[g], b);
      }
    }
  }

  /** A file of blocks that were free, put among the others. */
  lemma TieneInsertar(bits: seq<bool>, bloques: seq<string>, files: seq<Archivo>, textos: seq<string>, ajenos: set<nat>,
                      b: nat, bits': seq<bool>, bloques': seq<string>, i: nat, a: Archivo, s: string)
    requires Tiene(bits, bloques, files, textos, ajenos, b) && i <= |files|
    requires LibresVacios(bits', bloques') && Cortado(bits', bloques', a, s, b)
    requires Igual(bits, bloques, bits', bloques', a.blocks)
    requires forall k :: 0 <= k < |a.blocks| ==> !bits[a.blocks[k]]
    ensures Tiene(bits', bloques', Insertar(files, i, a), Insertar(textos, i, s), ajenos, b)
  {
    CortadosInsertar(bits, bloques, files, textos, b, bits', bloques', i, a, s);
    forall c | c in a.blocks
      ensures c < |bits| && bits'[c] && !BloqueDe(files, c) && c !in ajenos
    {
      var k :| 0 <= k < |a.blocks| && a.blocks[k] == c;
    }
    SeparadosInsertar(files, i, a);
    forall c: nat
      ensures BloqueDe(Insertar(files, i, a), c) <==> BloqueDe(files, c) || c in a.blocks
    {
      BloqueDeInsertar(files, i, a, c);
    }
  }

  lemma QuitarEn(files: seq<Archivo>, i: nat, f: nat)
    requires i < |files| && f < |files| - 1
    ensures Quitar(files, i)[f] == files[if f < i then f else f + 1]
  {
  }

  lemma BloqueDeQuitar(files: seq<Archivo>, i: nat, c: nat)
    requires i < |files| && Separados(files)
    ensures BloqueDe(Quitar(files, i), c) <==> BloqueDe(files, c) && c !in files[i].blocks
  {
    var r := Quitar(files, i);
    if BloqueDe(files, c) && c !in files[i].blocks {
      var f :| 0 <= f < |files| && c in files[f].blocks;
      QuitarEn(files, i, if f < i then f else f - 1);
      assert c in r[if f < i then f else f - 1].blocks;
    }
    if BloqueDe(r, c) {
      var f :| 0 <= f < |r| && c in r[f].blocks;
      QuitarEn(files, i, f);
    }
  }

  lemma SeparadosQuitar(files: seq<Archivo>, i: nat)
    requires i < |files| && Separados(files)
    ensures Separados(Quitar(files, i))
  {
    var r := Quitar(files, i);
    forall f, g, c | 0 <= f < |r| && 0 <= g < |r| && c in r[f].blocks && c in r[g].blocks
      ensures f == g
    {
      QuitarEn(files, i, f);
      QuitarEn(files, i, g);
    }
  }

  lemma CortadosQuitar(bits: seq<bool>, bloques: seq<string>, files: seq<Archivo>, textos: seq<string>,
                       b: nat, bits': seq<bool>, bloques': seq<string>, i: nat)
    requires b > 0 && |files| == |textos| && i < |files| && Separados(files)
    requires forall f :: 0 <= f < |files| ==> Cortado(bits, bloques, files[f], textos[f], b)
    requires Igual(bits, bloques, bits', bloques', files[i].blocks)
    ensures var r, t := Quitar(files, i), Quitar(textos, i);
            forall f :: 0 <= f < |r| ==> Cortado(bits', bloques', r[f], t[f], b)
  {
    var r, t := Quitar(files, i), Quitar(textos, i);
    forall f | 0 <= f < |r|
      ensures Cortado(bits', bloques', r[f], t[f], b)
    {
      var g := if f < i then f else f + 1;
      QuitarEn(files, i, f);
      assert t[f] == textos[g];
      forall k | 0 <= k < |files[g].blocks|
        ensures files[g].blocks[k] !in files[i].blocks
      {
        assert files[g].blocks[k] in files[g].blocks;
      }
      CortadoSigue(bits, bloques, bits', bloques', files[i].blocks, files[g], textos[g], b);
    }
  }

  /** A file whose blocks have been freed leaves the others as they were. */
  lemma TieneQuitar(bits: seq<bool>, bloques: seq<string>, files: seq<Archivo>, textos: seq<string>, ajenos: set<nat>,
                    b: nat, bits': seq<bool>, bloques': seq<string>, i: nat)
    requires Tiene(bits, bloques, files, textos, ajenos, b) && i < |files|
    requires LibresVacios(bits', bloques') && |bits'| == |bits|
    requires forall c :: 0 <= c < |bits| ==> bits'[c] == (bits[c] && c !in files[i].blocks)
    requires forall c :: 0 <= c < |bits| && c !in files[i].blocks ==> bloques'[c] == bloques[c]
    ensures Tiene(bits', bloques', Quitar(files, i), Quitar(textos, i), ajenos, b)
  {
    CortadosQuitar(bits, bloques, files, textos, b, bits', bloques', i);
    SeparadosQuitar(files, i);
    forall c: nat
      ensures BloqueDe(Quitar(files, i), c) <==> BloqueDe(files, c) && c !in files[i].blocks
    {
      BloqueDeQuitar(files, i, c);
    }
    forall c | c in files[i].blocks
      ensures BloqueDe(files, c)
    {
    }
  }
}
