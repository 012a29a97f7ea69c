/** Whole runs of one table on its block files, from its creation to a SELECT. */
module CorridasDeTabla {
  import opened Secuencias
  import opened LineasDeBloque
  import opened Cortes
  import opened Disco
  import opened Archivos
  import opened Lsm
  import opened Lissandra
  import opened CuentaDeBloques

  ghost predicate InsertanAceptables(evs: seq<Evento>, b: nat)
  {
    forall i :: 0 <= i < |evs| && evs[i].Insercion? ==> Aceptable(evs[i].r, b)
  }

  /** The free blocks and its own are all those the table may use. */
  lemma BloquesDeLaTabla(t: Tabla)
    requires t.Valid()
    ensures t.Libres() + Ocupados(t.tmpcs + t.tmps + t.particiones) + |t.ajenos| == t.arch.disco.bitarray.Length
    ensures Ocupados(t.tmpcs + t.tmps + t.particiones) == Necesarios(t.regTmpcs + t.regTmps + t.regParts,
              t.arch.tamBloque)
  {
    var files, regs := t.tmpcs + t.tmps + t.particiones, t.regTmpcs + t.regTmps + t.regParts;
    var bits, bloques := t.arch.disco.bitarray[..], t.arch.disco.bloques[..];
    TodosLosBloques(bits, bloques, files, Textos(regs), t.ajenos, t.arch.tamBloque);
    OcupadosSonNecesarios(bits, bloques, files, regs, t.arch.tamBloque);
  }

  /** With room for a block per partition and per record, a dump finds the blocks it takes. */
  lemma AlcanzanParaVolcar(t: Tabla, p: nat, n: nat)
    requires t.Valid() && Acotado(t.Registros(), p, n) && p + n + |t.ajenos| <= t.arch.disco.bitarray.Length
    ensures t.memTable == [] || CantidadBloques(|Texto(t.memTable)|, t.arch.tamBloque) <= t.Libres()
  {
    var b := t.arch.tamBloque;
    BloquesDeLaTabla(t);
    assert t.regTmpcs + t.regTmps + t.regParts == t.regTmps + t.regParts;
    NecesariosMas(t.regTmps, t.regParts, b);
    Aparte(t.regTmps, t.regParts, b);
    NecesariosAcotados(t.regTmps, b);
    NecesariosAcotados(t.regParts, b);
    UnoPorRegistro(t.memTable, b);
  }

  /** And so does a compaction, which frees all it had before it takes any. */
  lemma AlcanzanParaCompactar(t: Tabla, p: nat, n: nat)
    requires t.Valid() && Acotado(t.Registros(), p, n) && p + n + |t.ajenos| <= t.arch.disco.bitarray.Length
    requires t.tmpcs == [] && t.tmps != []
    ensures Necesarios(Compactar(t.Registros()).parts, t.arch.tamBloque)
         <= t.Libres() + Ocupados(t.particiones) + Ocupados(t.tmps)
  {
    hide Tiene, Cantidad, Necesarios, Ocupados, MezclarArchivos, CantidadLibres, Aceptables;
    var b := t.arch.tamBloque;
    BloquesDeLaTabla(t);
    assert t.tmpcs + t.tmps + t.particiones == t.tmps + t.particiones;
    assert t.regTmpcs + t.regTmps + t.regParts == t.regTmps + t.regParts;
    OcupadosMas(t.tmps, t.particiones);
    Aparte(t.regTmps, t.regParts, b);
    SigueAcotado(t.Registros(), Compactacion, p, n);
    MezclarArchivosAceptables(t.regParts, t.regTmps, b);
    assert [] + t.regTmps == t.regTmps;
    NecesariosAcotados(Compactar(t.Registros()).parts, b);
  }

  lemma Aparte(a: seq<seq<Registro>>, c: seq<seq<Registro>>, b: nat)
    requires TodosAceptables(a + c, b)
    ensures TodosAceptables(a, b) && TodosAceptables(c, b)
  {
    assert forall f :: 0 <= f < |a| ==> (a + c)[f] == a[f];
    assert forall f :: 0 <= f < |c| ==> (a + c)[|a| + f] == c[f];
  }

  lemma {:induction false} MezclarArchivosAceptables(parts: seq<seq<Registro>>, files: seq<seq<Registro>>, b: nat)
    requires parts != [] && TodosAceptables(parts, b) && TodosAceptables(files, b)
    ensures TodosAceptables(MezclarArchivos(parts, files), b)
    decreases |files|
  {
    if files != [] {
      MezclarAceptables(parts, files[0], b);
      assert forall f :: 0 <= f < |files| - 1 ==> files[1..][f] == files[f + 1];
      MezclarArchivosAceptables(Mezclar(parts, files[0]), files[1..], b);
    }
  }

  /** One event; `ok` when there were blocks for what it had to write. */
  method Ocurre(t: Tabla, ev: Evento, ghost p: nat, ghost n: nat) returns (ok: bool)
    requires t.Valid() && t.tmpcs == [] && Acotado(t.Registros(), p, n)
    requires ev.Insercion? ==> Aceptable(ev.r, t.arch.tamBloque)
    modifies t, t.arch.disco.bitarray, t.arch.disco.bloques
    ensures ok ==> t.Valid() && t.tmpcs == [] && t.Registros() == Siguiente(old(t.Registros()), ev)
    ensures p + n + |t.ajenos| <= t.arch.disco.bitarray.Length ==> ok
  {
    hide Acotado, Cortado, Tiene, Compactar;
    match ev
    case Insercion(r) =>
      t.InsertarValores(r);
      ok := true;
    case Volcar =>
      if p + n + |t.ajenos| <= t.arch.disco.bitarray.Length {
        AlcanzanParaVolcar(t, p, n);
      }
      ok := t.Volcar();
    case Compactacion =>
      if p + n + |t.ajenos| <= t.arch.disco.bitarray.Length && t.tmps != [] {
        AlcanzanParaCompactar(t, p, n);
      }
      ok := t.CompactarTabla();
  }

  lemma InsertadosMas(evs: seq<Evento>, ev: Evento)
    ensures |Insertados(evs + [ev])| == |Insertados(evs)| + if ev.Insercion? then 1 else 0
    decreases |evs|
  {
    if evs == [] {
      assert [] + [ev] == [ev] && [ev][1..] == [];
    } else {
      assert (evs + [ev])[0] == evs[0] && (evs + [ev])[1..] == evs[1..] + [ev];
      InsertadosMas(evs[1..], ev);
    }
  }

  lemma {:induction false} InsertadosHasta(evs: seq<Evento>, i: nat)
    requires i <= |evs|
    ensures |Insertados(evs[..i])| <= |Insertados(evs)|
    decreases |evs| - i
  {
    if i == |evs| {
      assert evs[..i] == evs;
    } else {
      assert evs[..i + 1] == evs[..i] + [evs[i]];
      InsertadosMas(evs[..i], evs[i]);
      InsertadosHasta(evs, i + 1);
    }
  }

  /**
   Any run of inserts, dumps and compactions on a new table, with every record read back from the
   blocks and cut over them again each time. If the blocks were enough, a SELECT at its end answers
   with the greatest timestamp inserted for the key; and with the very record of it, if no two
   records of one key share a timestamp. A free block for each partition and each insert is enough.
   */
  method CorrerYSeleccionar(arch: Archivador, p: nat, ghost ajenos: set<nat>, evs: seq<Evento>, key: nat)
      returns (m: Mejor, ok: bool)
    requires p > 0 && arch.Valid() && p <= CantidadLibres(arch.disco.bitarray[..])
    requires Tiene(arch.disco.bitarray[..], arch.disco.bloques[..], [], [], ajenos, arch.tamBloque)
    requires InsertanAceptables(evs, arch.tamBloque)
    modifies arch.disco.bitarray, arch.disco.bloques
    ensures p + |Insertados(evs)| <= CantidadLibres(old(arch.disco.bitarray[..])) ==> ok
    ensures ok ==> m.ts == MejorDe(Insertados(evs), key).ts
    ensures ok && TimestampsDistintos(Insertados(evs)) ==> m == MejorDe(Insertados(evs), key)
  {
    hide Siguiente, MejorDe, Insertados, Select, Cortado, Tiene, Aceptable, Acotado, CantidadLibres;
    TodosLosBloques(arch.disco.bitarray[..], arch.disco.bloques[..], [], [], ajenos, arch.tamBloque);
    var t := new Tabla(arch, p, ajenos);
    ok := true;
    NuevaAcotada(p);
    var i := 0;
    assert evs[..0] == [];
    while i < |evs| && ok
      invariant 0 <= i <= |evs| && fresh(t) && t.arch == arch
      invariant ok ==> t.Valid() && t.tmpcs == [] && t.Registros() == Correr(Nueva(p), evs[..i])
      invariant ok ==> Acotado(t.Registros(), p, |Insertados(evs[..i])|) && t.ajenos == ajenos
      invariant p + |Insertados(evs)| + |ajenos| <= arch.disco.bitarray.Length ==> ok
      decreases |evs| - i, ok
    {
      ghost var n := |Insertados(evs[..i])|;
      InsertadosHasta(evs, i);
      InsertadosMas(evs[..i], evs[i]);
      SigueAcotado(t.Registros(), evs[i], p, n);
      CorrerUnoMas(Nueva(p), evs[..i], evs[i]);
      assert evs[..i] + [evs[i]] == evs[..i + 1];
      ok := Ocurre(t, evs[i], p, n);
      if ok {
        i := i + 1;
      }
    }
    if ok {
      assert evs[..i] == evs;
      m := t.Seleccionar(key);
      LaRespuesta(p, evs, key);
    } else {
      m := Mejor(0, None);
    }
  }

  lemma NuevaAcotada(p: nat)
    requires p > 0
    ensures Acotado(Nueva(p), p, |Insertados([])|)
  {
    CantidadNueva(p);
  }

  lemma LaRespuesta(p: nat, evs: seq<Evento>, key: nat)
    requires p > 0
    ensures Select(Correr(Nueva(p), evs), key).ts == MejorDe(Insertados(evs), key).ts
    ensures TimestampsDistintos(Insertados(evs)) ==> Select(Correr(Nueva(p), evs), key) == MejorDe(Insertados(evs), key)
  {
    TodaCorrida(p, evs, key);
    if TimestampsDistintos(Insertados(evs)) {
      TodaCorridaSinEmpates(p, evs, key);
    }
  }
}
