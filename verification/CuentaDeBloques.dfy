/**
 How many blocks a table needs: the free ones, its own and those of the other tables are all there
 are, and no file takes more blocks than it has records, or one.
 */
module CuentaDeBloques {
  import opened Secuencias
  import opened LineasDeBloque
  import opened Cortes
  import opened Disco
  import opened Archivos
  import opened Lsm
  import opened Lissandra

  ghost function Tomadas(bits: seq<bool>): set<nat>
  {
    set c: nat | c < |bits| && bits[c]
  }

  ghost function Primeros(n: nat): (r: set<nat>)
    ensures forall c: nat :: c in r <==> c < n
    ensures |r| == n
  {
    if n == 0 then {} else Primeros(n - 1) + {n - 1}
  }

  lemma {:induction false} LibresYTomadas(bits: seq<bool>)
    ensures CantidadLibres(bits) + |Tomadas(bits)| == |bits|
    decreases CantidadLibres(bits)
  {
    if b: nat :| b < |bits| && !bits[b] {
      MarcarUno(bits, b, true);
      LibresYTomadas(bits[b := true]);
      assert Tomadas(bits[b := true]) == Tomadas(bits) + {b};
    } else {
      TodosTomados(bits);
      assert Tomadas(bits) == Primeros(|bits|);
    }
  }

  ghost function Propios(files: seq<Archivo>): set<nat>
  {
    if files == [] then {} else Conj(files[0].blocks) + Propios(files[1..])
  }

  lemma {:induction false} PropiosSonBloques(files: seq<Archivo>, c: nat)
    ensures c in Propios(files) <==> BloqueDe(files, c)
  {
    if files != [] {
      PropiosSonBloques(files[1..], c);
      if BloqueDe(files, c) && c !in files[0].blocks {
        var f :| 0 <= f < |files| && c in files[f].blocks;
        assert files[1..][f - 1] == files[f];
      }
      if BloqueDe(files[1..], c) {
        var f :| 0 <= f < |files| - 1 && c in files[1..][f].blocks;
        assert files[f + 1] == files[1..][f];
      }
    }
  }

  lemma {:induction false} CuantosPropios(files: seq<Archivo>)
    requires Separados(files) && forall f :: 0 <= f < |files| ==> SinRepetidos(files[f].blocks)
    ensures |Propios(files)| == Ocupados(files)
  {
    if files != [] {
      var resto := files[1..];
      forall f, g, c | 0 <= f < |resto| && 0 <= g < |resto| && c in resto[f].blocks && c in resto[g].blocks
        ensures f == g
      {
        assert resto[f] == files[f + 1] && resto[g] == files[g + 1];
      }
      CuantosPropios(resto);
      CardinalConj(files[0].blocks);
      forall c | c in Conj(files[0].blocks)
        ensures c !in Propios(resto)
      {
        PropiosSonBloques(resto, c);
        assert forall f :: 0 <= f < |resto| ==> resto[f] == files[f + 1] && c !in resto[f].blocks;
      }
    }
  }

  /** Free, owned and foreign blocks are all the blocks. */
  lemma TodosLosBloques(bits: seq<bool>, bloques: seq<string>, files: seq<Archivo>, textos: seq<string>,
                        ajenos: set<nat>, b: nat)
    requires Tiene(bits, bloques, files, textos, ajenos, b)
    ensures CantidadLibres(bits) + Ocupados(files) + |ajenos| == |bits|
  {
    LibresYTomadas(bits);
    CuantosPropios(files);
    forall c: nat
      ensures c in Propios(files) <==> BloqueDe(files, c)
    {
      PropiosSonBloques(files, c);
    }
    forall c | c in Propios(files)
      ensures c < |bits| && bits[c]
    {
      var f :| 0 <= f < |files| && c in files[f].blocks;
      assert Cortado(bits, bloques, files[f], textos[f], b);
    }
    assert Tomadas(bits) == Propios(files) + ajenos;
  }

  /** Each file has the blocks that its text takes. */
  lemma {:induction false} OcupadosSonNecesarios(bits: seq<bool>, bloques: seq<string>, files: seq<Archivo>,
                                                 regs: seq<seq<Registro>>, b: nat)
    requires b > 0 && |files| == |regs|
    requires forall f :: 0 <= f < |files| ==> Cortado(bits, bloques, files[f], Texto(regs[f]), b)
    ensures Ocupados(files) == Necesarios(regs, b)
    decreases |files|
  {
    if files != [] {
      assert Cortado(bits, bloques, files[0], Texto(regs[0]), b);
      TrozosSonCorte(Texto(regs[0]), b);
      assert |files[0].blocks| == |Contenidos(bloques, files[0].blocks)|;
      forall f | 0 <= f < |files| - 1
        ensures Cortado(bits, bloques, files[1..][f], Texto(regs[1..][f]), b)
      {
        assert files[1..][f] == files[f + 1] && regs[1..][f] == regs[f + 1];
      }
      OcupadosSonNecesarios(bits, bloques, files[1..], regs[1..], b);
    }
  }

  // ---- records and blocks ----

  function Cantidad(regs: seq<seq<Registro>>): nat
  {
    if regs == [] then 0 else |regs[0]| + Cantidad(regs[1..])
  }

  /** A text no longer than k blocks takes k of them, or one. */
  lemma {:induction false} EnKBloques(n: nat, k: nat, b: nat)
    requires b > 0 && k > 0 && n <= k * b
    ensures CantidadBloques(n, b) <= k
    decreases k
  {
    TechoPaso(n, b);
    if n > b {
      assert k > 1 && (k - 1) * b == k * b - b;
      EnKBloques(n - b, k - 1, b);
    }
  }

  lemma {:induction false} LargoDelTexto(rs: seq<Registro>, b: nat)
    requires Aceptables(rs, b)
    ensures |Texto(rs)| <= |rs| * b
    decreases |rs|
  {
    if rs != [] {
      var n := |rs| - 1;
      assert rs == rs[..n] + [rs[n]];
      TextoMas(rs[..n], rs[n]);
      LargoDelTexto(rs[..n], b);
      assert Aceptable(rs[n], b) && (n + 1) * b == n * b + b;
    }
  }

  lemma UnoPorRegistro(rs: seq<Registro>, b: nat)
    requires b > 0 && Aceptables(rs, b)
    ensures CantidadBloques(|Texto(rs)|, b) <= if rs == [] then 1 else |rs|
  {
    LargoDelTexto(rs, b);
    if rs != [] {
      EnKBloques(|Texto(rs)|, |rs|, b);
    } else {
      TechoPaso(|Texto(rs)|, b);
    }
  }

  lemma {:induction false} NecesariosAcotados(regs: seq<seq<Registro>>, b: nat)
    requires b > 0 && TodosAceptables(regs, b)
    ensures Necesarios(regs, b) <= |regs| + Cantidad(regs)
    ensures (forall f :: 0 <= f < |regs| ==> regs[f] != []) ==> Necesarios(regs, b) <= Cantidad(regs)
    decreases |regs|
  {
    if regs != [] {
      UnoPorRegistro(regs[0], b);
      assert forall f :: 0 <= f < |regs| - 1 ==> regs[1..][f] == regs[f + 1];
      NecesariosAcotados(regs[1..], b);
    }
  }

  lemma {:induction false} CantidadMas(regs: seq<seq<Registro>>, rs: seq<Registro>)
    ensures Cantidad(regs + [rs]) == Cantidad(regs) + |rs|
    decreases |regs|
  {
    if regs == [] {
      assert [] + [rs] == [rs] && [rs][1..] == [];
    } else {
      assert (regs + [rs])[1..] == regs[1..] + [rs];
      CantidadMas(regs[1..], rs);
    }
  }

  lemma {:induction false} CantidadCambia(regs: seq<seq<Registro>>, i: nat, rs: seq<Registro>)
    requires i < |regs|
    ensures Cantidad(regs[i := rs]) == Cantidad(regs) - |regs[i]| + |rs|
    decreases |regs|
  {
    if i == 0 {
      assert regs[0 := rs][1..] == regs[1..];
    } else {
      assert regs[i := rs][1..] == regs[1..][i - 1 := rs];
      CantidadCambia(regs[1..], i - 1, rs);
    }
  }

  lemma {:induction false} MezclarNoCrece(parts: seq<seq<Registro>>, rs: seq<Registro>)
    requires parts != []
    ensures Cantidad(Mezclar(parts, rs)) <= Cantidad(parts) + |rs|
    decreases |rs|
  {
    if rs != [] {
      var i := rs[0].key % |parts|;
      var nueva := Actualizar(parts[i], rs[0]);
      CantidadCambia(parts, i, nueva);
      MezclarNoCrece(parts[i := nueva], rs[1..]);
    }
  }

  lemma {:induction false} MezclarArchivosNoCrece(parts: seq<seq<Registro>>, files: seq<seq<Registro>>)
    requires parts != []
    ensures Cantidad(MezclarArchivos(parts, files)) <= Cantidad(parts) + Cantidad(files)
    decreases |files|
  {
    if files != [] {
      MezclarNoCrece(parts, files[0]);
      MezclarArchivosNoCrece(Mezclar(parts, files[0]), files[1..]);
    }
  }

  /** The records of a table between compactions: no dumped file is empty, and at most n records are kept. */
  ghost predicate Acotado(e: Estado, p: nat, n: nat)
  {
    && |e.parts| == p > 0 && e.tmpcs == []
    && (forall f :: 0 <= f < |e.tmps| ==> e.tmps[f] != [])
    && |e.mem| + Cantidad(e.tmps) + Cantidad(e.parts) <= n
  }

  lemma {:induction false} CantidadNueva(p: nat)
    ensures Cantidad(seq(p, _ => [])) == 0
  {
    if p > 0 {
      var s: seq<seq<Registro>> := seq(p, _ => []);
      var r: seq<seq<Registro>> := seq(p - 1, _ => []);
      assert s[1..] == r;
      CantidadNueva(p - 1);
    }
  }

  lemma SigueAcotado(e: Estado, ev: Evento, p: nat, n: nat)
    requires Acotado(e, p, n)
    ensures Acotado(Siguiente(e, ev), p, if ev.Insercion? then n + 1 else n)
  {
    match ev
    case Insercion(r) =>
    case Volcar =>
      CantidadMas(e.tmps, e.mem);
    case Compactacion =>
      MezclarArchivosNoCrece(e.parts, e.tmps);
      assert [] + e.tmps == e.tmps;
  }
}
