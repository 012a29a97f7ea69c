/**
 Lissandra's table as records: memtable, dumped files (.tmp), files under compaction (.tmpc) and
 partitions. What SELECT answers, and when dumping and compacting leave that answer alone.
 */
module Lsm {
  import opened Secuencias

  datatype Registro = Registro(ts: nat, key: nat, value: string)

  datatype Estado = Estado(mem: seq<Registro>, tmps: seq<seq<Registro>>, tmpcs: seq<seq<Registro>>,
                           parts: seq<seq<Registro>>)

  /** timeStampMaximo and lineaConElMaximoTS; 0 and NULL at the start. */
  datatype Mejor = Mejor(ts: nat, registro: Option<Registro>)

  const NADA := Mejor(0, None)

  /** One record seen by a SELECT. */
  function Mirar(m: Mejor, r: Registro, key: nat): Mejor
  {
    if r.key == key && r.ts > m.ts then Mejor(r.ts, Some(r)) else m
  }

  function MirarTodos(m: Mejor, rs: seq<Registro>, key: nat): Mejor
    decreases |rs|
  {
    if rs == [] then m else MirarTodos(Mirar(m, rs[0], key), rs[1..], key)
  }

  function MirarArchivos(m: Mejor, files: seq<seq<Registro>>, key: nat): Mejor
    decreases |files|
  {
    if files == [] then m else MirarArchivos(MirarTodos(m, files[0], key), files[1..], key)
  }

  /** calculoModuloParticion, counting partitions from 0. */
  function Particion(e: Estado, key: nat): seq<Registro>
    requires e.parts != []
  {
    e.parts[key % |e.parts|]
  }

  /** The order of a SELECT: memtable, .tmp, .tmpc, and the one partition of the key. */
  function Select(e: Estado, key: nat): Mejor
    requires e.parts != []
  {
    MirarTodos(MirarArchivos(MirarArchivos(MirarTodos(NADA, e.mem, key), e.tmps, key), e.tmpcs, key),
               Particion(e, key), key)
  }

  function Dump(e: Estado): Estado
  {
    if e.mem == [] then e else e.(mem := [], tmps := e.tmps + [e.mem])
  }

  /** The renaming of every .tmp to .tmpc. */
  function Renombrar(e: Estado): Estado
  {
    e.(tmps := [], tmpcs := e.tmpcs + e.tmps)
  }

  /** The record list of a partition once r has been taken in. */
  function Actualizar(part: seq<Registro>, r: Registro): seq<Registro>
  {
    var i := Buscar(part, (x: Registro) => x.key == r.key);
    if i.None? then part + [r]
    else if r.ts > part[i.value].ts then Quitar(part, i.value) + [r]
    else part
  }

  function Mezclar(parts: seq<seq<Registro>>, rs: seq<Registro>): (r: seq<seq<Registro>>)
    requires parts != []
    ensures |r| == |parts|
    decreases |rs|
  {
    if rs == [] then parts
    else
      var i := rs[0].key % |parts|;
      Mezclar(parts[i := Actualizar(parts[i], rs[0])], rs[1..])
  }

  function MezclarArchivos(parts: seq<seq<Registro>>, files: seq<seq<Registro>>): (r: seq<seq<Registro>>)
    requires parts != []
    ensures |r| == |parts|
    decreases |files|
  {
    if files == [] then parts else MezclarArchivos(Mezclar(parts, files[0]), files[1..])
  }

  /** iniciarEnUnaTablaLaCOMPACTACION: nothing without a dump to compact. */
  function Compactar(e: Estado): Estado
    requires e.parts != []
  {
    if e.tmps == [] then e
    else
      var r := Renombrar(e);
      r.(tmpcs := [], parts := MezclarArchivos(r.parts, r.tmpcs))
  }

  // ---- the best of two ----

  function Entre(a: Mejor, b: Mejor): Mejor
  {
    if b.ts > a.ts then b else a
  }

  function MejorDe(rs: seq<Registro>, key: nat): Mejor
  {
    MirarTodos(NADA, rs, key)
  }

  function MejorDeArchivos(files: seq<seq<Registro>>, key: nat): Mejor
  {
    MirarArchivos(NADA, files, key)
  }

  lemma {:induction false} MirarEsEntre(m: Mejor, rs: seq<Registro>, key: nat)
    ensures MirarTodos(m, rs, key) == Entre(m, MejorDe(rs, key))
    decreases |rs|
  {
    if rs != [] {
      MirarEsEntre(Mirar(m, rs[0], key), rs[1..], key);
      MirarEsEntre(Mirar(NADA, rs[0], key), rs[1..], key);
    }
  }

  lemma {:induction false} MirarArchivosEsEntre(m: Mejor, files: seq<seq<Registro>>, key: nat)
    ensures MirarArchivos(m, files, key) == Entre(m, MejorDeArchivos(files, key))
    decreases |files|
  {
    if files != [] {
      MirarEsEntre(m, files[0], key);
      MirarEsEntre(NADA, files[0], key);
      MirarArchivosEsEntre(MirarTodos(m, files[0], key), files[1..], key);
      MirarArchivosEsEntre(MirarTodos(NADA, files[0], key), files[1..], key);
    }
  }

  lemma {:induction false} MejorDeArchivosMas(files: seq<seq<Registro>>, mas: seq<seq<Registro>>, key: nat)
    ensures MejorDeArchivos(files + mas, key) == Entre(MejorDeArchivos(files, key), MejorDeArchivos(mas, key))
    decreases |files|
  {
    if files == [] {
      assert files + mas == mas;
      SinArchivosNada(mas, key);
    } else {
      assert (files + mas)[1..] == files[1..] + mas;
      MejorDeArchivosMas(files[1..], mas, key);
      var m := MirarTodos(NADA, files[0], key);
      MirarArchivosEsEntre(m, files[1..] + mas, key);
      MirarArchivosEsEntre(m, files[1..], key);
    }
  }

  lemma MejorDeUnArchivo(file: seq<Registro>, key: nat)
    ensures MejorDeArchivos([file], key) == MejorDe(file, key)
  {
    assert [file][1..] == [];
    assert MirarArchivos(MejorDe(file, key), [], key) == MejorDe(file, key);
  }

  lemma {:induction false} SinArchivosNada(files: seq<seq<Registro>>, key: nat)
    ensures MejorDeArchivos(files, key).ts == 0 ==> MejorDeArchivos(files, key) == NADA
    decreases |files|
  {
    if files != [] {
      MejorDeEsElMasNuevo(files[0], key);
      MirarArchivosEsEntre(MejorDe(files[0], key), files[1..], key);
      SinArchivosNada(files[1..], key);
    }
  }

  /** SELECT as the best of its four sources, the earlier one winning ties. */
  lemma SelectEsEntre(e: Estado, key: nat)
    requires e.parts != []
    ensures Select(e, key) ==
              Entre(MejorDe(e.mem, key),
                    Entre(MejorDeArchivos(e.tmps, key),
                          Entre(MejorDeArchivos(e.tmpcs, key), MejorDe(Particion(e, key), key))))
  {
    var m := MejorDe(e.mem, key);
    MirarArchivosEsEntre(m, e.tmps, key);
    MirarArchivosEsEntre(MirarArchivos(m, e.tmps, key), e.tmpcs, key);
    MirarEsEntre(MirarArchivos(MirarArchivos(m, e.tmps, key), e.tmpcs, key), Particion(e, key), key);
  }

  // ---- what the answer is ----

  /** The best of a list is one of its records, of that key, and none of that key is newer. */
  lemma {:induction false} MejorDeEsElMasNuevo(rs: seq<Registro>, key: nat)
    ensures var m := MejorDe(rs, key);
            && (m == NADA || (m.registro.Some? && m.registro.value in rs && m.registro.value.key == key
                              && m.registro.value.ts == m.ts > 0))
            && forall r :: r in rs && r.key == key ==> r.ts <= m.ts
    decreases |rs|
  {
    if rs != [] {
      MejorDeEsElMasNuevo(rs[1..], key);
      MirarEsEntre(Mirar(NADA, rs[0], key), rs[1..], key);
      var m := MejorDe(rs, key);
      forall r | r in rs && r.key == key
        ensures r.ts <= m.ts
      {
        assert r == rs[0] || r in rs[1..];
      }
    }
  }

  // ---- dump ----

  /** No dumped record is as new as the newest in the memtable and different from it. */
  predicate SinEmpateAlVolcar(e: Estado, key: nat)
    requires e.parts != []
  {
    var a, b := MejorDe(e.mem, key), MejorDeArchivos(e.tmps, key);
    var c := Entre(MejorDeArchivos(e.tmpcs, key), MejorDe(Particion(e, key), key));
    a.ts == b.ts && b.ts >= c.ts ==> a == b
  }

  /**
   A dump never changes the timestamp SELECT answers with, and leaves the record alone exactly
   when memtable and dumped files do not tie on it.
   */
  lemma DumpConservaSelect(e: Estado, key: nat)
    requires e.parts != []
    ensures Select(Dump(e), key).ts == Select(e, key).ts
    ensures Select(Dump(e), key) == Select(e, key) <==> e.mem == [] || SinEmpateAlVolcar(e, key)
  {
    if e.mem != [] {
      var d := Dump(e);
      SelectEsEntre(e, key);
      SelectEsEntre(d, key);
      MejorDeArchivosMas(e.tmps, [e.mem], key);
      MejorDeUnArchivo(e.mem, key);
      assert MejorDe(d.mem, key) == NADA;
      MejorDeEsElMasNuevo(e.mem, key);
      SinArchivosNada(e.tmps, key);
      SinArchivosNada(e.tmpcs, key);
      MejorDeEsElMasNuevo(Particion(e, key), key);
    }
  }

  // ---- compaction ----

  predicate ClavesUnicas(part: seq<Registro>)
  {
    forall i, j :: 0 <= i < j < |part| ==> part[i].key != part[j].key
  }

  /** Every key at most once, and only in its own partition. */
  predicate Particionado(parts: seq<seq<Registro>>)
  {
    && parts != []
    && (forall p :: 0 <= p < |parts| ==> ClavesUnicas(parts[p]))
    && (forall p, i :: 0 <= p < |parts| && 0 <= i < |parts[p]| ==> parts[p][i].key % |parts| == p)
  }

  lemma ActualizarConserva(part: seq<Registro>, r: Registro)
    requires ClavesUnicas(part)
    ensures ClavesUnicas(Actualizar(part, r))
    ensures forall x :: x in Actualizar(part, r) ==> x in part || x == r
  {
    var i := Buscar(part, (x: Registro) => x.key == r.key);
    var r' := Actualizar(part, r);
    if i.Some? && r.ts > part[i.value].ts {
      var q := Quitar(part, i.value);
      forall k | 0 <= k < |q|
        ensures q[k].key != r.key && q[k] in part
      {
        assert q[k] == part[if k < i.value then k else k + 1];
      }
      assert ClavesUnicas(q);
    }
  }

  lemma {:induction false} SinClave(rs: seq<Registro>, key: nat)
    requires forall i :: 0 <= i < |rs| ==> rs[i].key != key
    ensures MejorDe(rs, key) == NADA
  {
    if rs != [] {
      SinClave(rs[1..], key);
    }
  }

  lemma {:induction false} MejorDeMas(rs: seq<Registro>, mas: seq<Registro>, key: nat)
    ensures MejorDe(rs + mas, key) == Entre(MejorDe(rs, key), MejorDe(mas, key))
    decreases |rs|
  {
    if rs == [] {
      assert rs + mas == mas;
      MejorDeEsElMasNuevo(mas, key);
    } else {
      assert (rs + mas)[1..] == rs[1..] + mas;
      MejorDeMas(rs[1..], mas, key);
      MirarEsEntre(Mirar(NADA, rs[0], key), rs[1..] + mas, key);
      MirarEsEntre(Mirar(NADA, rs[0], key), rs[1..], key);
    }
  }

  lemma MejorDeUno(r: Registro, key: nat)
    ensures MejorDe([r], key) == if r.key == key && r.ts > 0 then Mejor(r.ts, Some(r)) else NADA
  {
    assert [r][1..] == [];
    assert MirarTodos(Mirar(NADA, r, key), [], key) == Mirar(NADA, r, key);
  }

  /** The best of a list around the record at i. */
  lemma MejorDePartido(part: seq<Registro>, i: nat, key: nat)
    requires i < |part|
    ensures MejorDe(part, key) ==
              Entre(MejorDe(part[..i], key), Entre(MejorDe([part[i]], key), MejorDe(part[i + 1..], key)))
    ensures MejorDe(Quitar(part, i), key) == Entre(MejorDe(part[..i], key), MejorDe(part[i + 1..], key))
  {
    MejorDeMas(part[..i], [part[i]] + part[i + 1..], key);
    MejorDeMas([part[i]], part[i + 1..], key);
    MejorDeMas(part[..i], part[i + 1..], key);
    assert part == part[..i] + ([part[i]] + part[i + 1..]);
  }

  /** Taking a record in makes the best of the partition the better of the two, the partition's on ties. */
  lemma ActualizarEsEntre(part: seq<Registro>, r: Registro, key: nat)
    requires ClavesUnicas(part)
    ensures MejorDe(Actualizar(part, r), key) == Entre(MejorDe(part, key), MejorDe([r], key))
  {
    var i := Buscar(part, (x: Registro) => x.key == r.key);
    MejorDeUno(r, key);
    if i.None? {
      MejorDeMas(part, [r], key);
    } else {
      MejorDePartido(part, i.value, key);
      MejorDeUno(part[i.value], key);
      MejorDeMas(Quitar(part, i.value), [r], key);
      if key == r.key {
        SinClave(part[..i.value], key);
        SinClave(part[i.value + 1..], key);
      }
    }
  }

  lemma {:induction false} MezclarConserva(parts: seq<seq<Registro>>, rs: seq<Registro>)
    requires Particionado(parts)
    ensures Particionado(Mezclar(parts, rs))
    decreases |rs|
  {
    if rs != [] {
      var i := rs[0].key % |parts|;
      ActualizarConserva(parts[i], rs[0]);
      var parts': seq<seq<Registro>> := parts[i := Actualizar(parts[i], rs[0])];
      forall p, k | 0 <= p < |parts'| && 0 <= k < |parts'[p]|
        ensures parts'[p][k].key % |parts'| == p
      {
        if p == i {
          var x := parts'[p][k];
          assert x in parts[i] || x == rs[0];
        }
      }
      MezclarConserva(parts', rs[1..]);
    }
  }

  lemma {:induction false} MezclarEsEntre(parts: seq<seq<Registro>>, rs: seq<Registro>, key: nat)
    requires Particionado(parts)
    ensures MejorDe(Mezclar(parts, rs)[key % |parts|], key) ==
              Entre(MejorDe(parts[key % |parts|], key), MejorDe(rs, key))
    decreases |rs|
  {
    if rs != [] {
      var i := rs[0].key % |parts|;
      var parts' := parts[i := Actualizar(parts[i], rs[0])];
      ActualizarEsEntre(parts[i], rs[0], key);
      assert Mezclar(parts, [rs[0]]) == parts' by {
        assert [rs[0]][1..] == [];
      }
      MezclarConserva(parts, [rs[0]]);
      MezclarEsEntre(parts', rs[1..], key);
      MejorDeUno(rs[0], key);
      MejorDeMas([rs[0]], rs[1..], key);
      assert rs == [rs[0]] + rs[1..];
    }
  }

  lemma {:induction false} MezclarArchivosEsEntre(parts: seq<seq<Registro>>, files: seq<seq<Registro>>, key: nat)
    requires Particionado(parts)
    ensures Particionado(MezclarArchivos(parts, files))
    ensures MejorDe(MezclarArchivos(parts, files)[key % |parts|], key) ==
              Entre(MejorDe(parts[key % |parts|], key), MejorDeArchivos(files, key))
    decreases |files|
  {
    if files != [] {
      MezclarConserva(parts, files[0]);
      MezclarEsEntre(parts, files[0], key);
      MezclarArchivosEsEntre(Mezclar(parts, files[0]), files[1..], key);
      MirarArchivosEsEntre(MejorDe(files[0], key), files[1..], key);
    }
  }

  /** The dumped files' newest record and the partition's do not tie with different contents. */
  predicate SinEmpateAlCompactar(e: Estado, key: nat)
    requires e.parts != []
  {
    var a, p := MejorDe(e.mem, key), MejorDe(Particion(e, key), key);
    var d := MejorDeArchivos(e.tmpcs + e.tmps, key);
    d.ts == p.ts && d.ts > a.ts ==> d == p
  }

  /** Renaming .tmp to .tmpc between two SELECTs is never seen. */
  lemma RenombrarConservaSelect(e: Estado, key: nat)
    requires e.parts != [] && e.tmpcs == []
    ensures Select(Renombrar(e), key) == Select(e, key)
  {
    SelectEsEntre(e, key);
    SelectEsEntre(Renombrar(e), key);
    assert e.tmpcs + e.tmps == e.tmps;
  }

  /**
   A compaction keeps the partitioning, never changes the timestamp SELECT answers with, and leaves
   the record alone exactly when dumped files and partition do not tie on it.
   */
  lemma CompactarConservaSelect(e: Estado, key: nat)
    requires Particionado(e.parts) && e.tmpcs == []
    ensures Particionado(Compactar(e).parts)
    ensures Select(Compactar(e), key).ts == Select(e, key).ts
    ensures Select(Compactar(e), key) == Select(e, key) <==> e.tmps == [] || SinEmpateAlCompactar(e, key)
  {
    if e.tmps != [] {
      var c := Compactar(e);
      assert e.tmpcs + e.tmps == e.tmps;
      SelectEsEntre(e, key);
      SelectEsEntre(c, key);
      MezclarArchivosEsEntre(e.parts, e.tmps, key);
    }
  }

  // ---- runs ----

  datatype Evento = Insercion(r: Registro) | Volcar | Compactacion

  function Siguiente(e: Estado, ev: Evento): Estado
    requires e.parts != []
    ensures Siguiente(e, ev).parts != []
  {
    match ev
    case Insercion(r) => e.(mem := e.mem + [r])
    case Volcar => Dump(e)
    case Compactacion => Compactar(e)
  }

  function Correr(e: Estado, evs: seq<Evento>): Estado
    requires e.parts != []
    ensures Correr(e, evs).parts != []
    decreases |evs|
  {
    if evs == [] then e else Correr(Siguiente(e, evs[0]), evs[1..])
  }

  /** A new table: P empty partitions and nothing else. */
  function Nueva(p: nat): Estado
    requires p > 0
  {
    Estado([], [], [], seq(p, _ => []))
  }

  function Insertados(evs: seq<Evento>): seq<Registro>
    decreases |evs|
  {
    if evs == [] then []
    else (if evs[0].Insercion? then [evs[0].r] else []) + Insertados(evs[1..])
  }

  /** The timestamp a SELECT would find if it looked at everything stored. */
  lemma {:induction false} CorrerSelect(e: Estado, evs: seq<Evento>, key: nat)
    requires Particionado(e.parts) && e.tmpcs == []
    ensures Particionado(Correr(e, evs).parts) && Correr(e, evs).tmpcs == []
    ensures Select(Correr(e, evs), key).ts ==
              Entre(Select(e, key), MejorDe(Insertados(evs), key)).ts
    decreases |evs|
  {
    if evs != [] {
      var s := Siguiente(e, evs[0]);
      match evs[0] {
        case Insercion(r) =>
          SelectEsEntre(e, key);
          SelectEsEntre(s, key);
          MejorDeMas(e.mem, [r], key);
          MejorDeMas([r], Insertados(evs[1..]), key);
        case Volcar =>
          DumpConservaSelect(e, key);
        case Compactacion =>
          CompactarConservaSelect(e, key);
      }
      CorrerSelect(s, evs[1..], key);
      assert evs[0].Insercion? || Insertados(evs) == Insertados(evs[1..]);
    }
  }

  /**
   After any run of inserts, dumps and compactions on a new table, SELECT answers with the greatest
   timestamp ever inserted for the key, and partitions hold each key once, in its place.
   */
  lemma TodaCorrida(p: nat, evs: seq<Evento>, key: nat)
    requires p > 0
    ensures var e := Correr(Nueva(p), evs);
            && Particionado(e.parts)
            && Select(e, key).ts == MejorDe(Insertados(evs), key).ts
  {
    CorrerSelect(Nueva(p), evs, key);
    SelectEsEntre(Nueva(p), key);
  }

  /** Distinct records of one key never share a timestamp. */
  ghost predicate TimestampsDistintos(rs: seq<Registro>)
  {
    forall a, b :: a in rs && b in rs && a.key == b.key && a.ts == b.ts ==> a == b
  }

  /** Every record the table holds is one of `rs`. */
  ghost predicate SoloDe(e: Estado, rs: set<Registro>)
  {
    && DeLista(e.mem, rs) && DeArchivos(e.tmps, rs) && DeArchivos(e.tmpcs, rs) && DeArchivos(e.parts, rs)
  }

  ghost predicate DeLista(l: seq<Registro>, rs: set<Registro>)
  {
    forall i :: 0 <= i < |l| ==> l[i] in rs
  }

  ghost predicate DeArchivos(files: seq<seq<Registro>>, rs: set<Registro>)
  {
    forall f :: 0 <= f < |files| ==> DeLista(files[f], rs)
  }

  lemma ActualizarSoloDe(part: seq<Registro>, r: Registro, rs: set<Registro>)
    requires DeLista(part, rs) && r in rs
    ensures DeLista(Actualizar(part, r), rs)
  {
  }

  lemma {:induction false} MezclarSoloDe(parts: seq<seq<Registro>>, l: seq<Registro>, rs: set<Registro>)
    requires parts != [] && DeArchivos(parts, rs) && DeLista(l, rs)
    ensures DeArchivos(Mezclar(parts, l), rs)
    decreases |l|
  {
    if l != [] {
      var i := l[0].key % |parts|;
      ActualizarSoloDe(parts[i], l[0], rs);
      MezclarSoloDe(parts[i := Actualizar(parts[i], l[0])], l[1..], rs);
    }
  }

  lemma {:induction false} MezclarArchivosSoloDe(parts: seq<seq<Registro>>, files: seq<seq<Registro>>,
      rs: set<Registro>)
    requires parts != [] && DeArchivos(parts, rs) && DeArchivos(files, rs)
    ensures DeArchivos(MezclarArchivos(parts, files), rs)
    decreases |files|
  {
    if files != [] {
      MezclarSoloDe(parts, files[0], rs);
      MezclarArchivosSoloDe(Mezclar(parts, files[0]), files[1..], rs);
    }
  }

  lemma {:induction false} CorrerSoloDe(e: Estado, evs: seq<Evento>, rs: set<Registro>)
    requires e.parts != [] && SoloDe(e, rs) && Conj(Insertados(evs)) <= rs
    ensures SoloDe(Correr(e, evs), rs)
    decreases |evs|
  {
    if evs != [] {
      var s := Siguiente(e, evs[0]);
      forall r | r in Conj(Insertados(evs[1..]))
        ensures r in rs
      {
        assert r in Insertados(evs);
        assert r in Conj(Insertados(evs));
      }
      match evs[0] {
        case Insercion(r) =>
          assert Insertados(evs)[0] == r;
          assert r in Conj(Insertados(evs));
        case Volcar =>
        case Compactacion =>
          MezclarArchivosSoloDe(e.parts, e.tmpcs + e.tmps, rs);
      }
      CorrerSoloDe(s, evs[1..], rs);
    }
  }

  lemma MejorDeArchivosViene(files: seq<seq<Registro>>, rs: set<Registro>, key: nat)
    requires DeArchivos(files, rs)
    ensures var m := MejorDeArchivos(files, key);
            m == NADA || (m.registro.Some? && m.registro.value in rs && m.registro.value.key == key
                          && m.registro.value.ts == m.ts)
    decreases |files|
  {
    if files != [] {
      MejorDeEsElMasNuevo(files[0], key);
      MirarArchivosEsEntre(MejorDe(files[0], key), files[1..], key);
      MejorDeArchivosViene(files[1..], rs, key);
    }
  }

  lemma {:induction false} CorrerUnoMas(e: Estado, evs: seq<Evento>, x: Evento)
    requires e.parts != []
    ensures Correr(e, evs + [x]) == Siguiente(Correr(e, evs), x)
    decreases |evs|
  {
    hide Dump, Compactar;
    if evs == [] {
      assert [] + [x] == [x] && [x][1..] == [];
    } else {
      assert (evs + [x])[0] == evs[0] && (evs + [x])[1..] == evs[1..] + [x];
      CorrerUnoMas(Siguiente(e, evs[0]), evs[1..], x);
    }
  }

  /** Compacting one record over nothing, or over one of its key as new as it. */
  lemma CompactarUno(parte: seq<Registro>, r: Registro)
    requires parte == [] || (|parte| == 1 && parte[0].key == r.key && parte[0].ts == r.ts)
    ensures Compactar(Estado([], [[r]], [], [parte])).tmps == []
              && Compactar(Estado([], [[r]], [], [parte])).tmpcs == []
    ensures Compactar(Estado([], [[r]], [], [parte])).parts == [if parte == [] then [r] else parte]
  {
    var nueva := Actualizar(parte, r);
    assert nueva == if parte == [] then [r] else parte;
    assert [r][1..] == [] && [[r]][1..] == [] && [parte][0 := nueva] == [nueva];
    assert Mezclar([parte], [r]) == Mezclar([nueva], []);
    assert MezclarArchivos([parte], [[r]]) == MezclarArchivos([nueva], []);
    assert [] + [[r]] == [[r]];
  }

  /**
   On a tie the answer changes. With b inserted after a, both of one key and timestamp, a dump puts a
   before b again; and so does a compaction when a was in the partition already.
   */
  lemma UnEmpateSeVe(a: Registro, b: Registro)
    requires a.key == b.key && a.ts == b.ts > 0
    ensures var evs := [Insercion(a)] + [Volcar] + [Insercion(b)];
            && Select(Correr(Nueva(1), evs), a.key).registro == Some(b)
            && Select(Correr(Nueva(1), evs + [Volcar]), a.key).registro == Some(a)
    ensures var evs := [Insercion(a)] + [Volcar] + [Compactacion] + [Insercion(b)] + [Volcar];
            && Select(Correr(Nueva(1), evs), a.key).registro == Some(b)
            && Select(Correr(Nueva(1), evs + [Compactacion]), a.key).registro == Some(a)
  {
    hide Compactar, Select;
    var ia, ib := [Insercion(a)], Insercion(b);
    assert Nueva(1) == Estado([], [], [], [[]]);
    assert Correr(Nueva(1), []) == Nueva(1) && [] + [Insercion(a)] == ia && [] + [a] == [a] && [] + [[a]] == [[a]];
    CorrerUnoMas(Nueva(1), [], Insercion(a));
    CorrerUnoMas(Nueva(1), ia, Volcar);
    assert Correr(Nueva(1), ia + [Volcar]) == Estado([], [[a]], [], [[]]);

    CorrerUnoMas(Nueva(1), ia + [Volcar], ib);
    CorrerUnoMas(Nueva(1), ia + [Volcar] + [ib], Volcar);
    assert [] + [b] == [b] && [[a]] + [[b]] == [[a], [b]];
    UnaDeCadaLado(a, b, Estado([b], [[a]], [], [[]]), Estado([], [[a], [b]], [], [[]]));

    CompactarUno([], a);
    CorrerUnoMas(Nueva(1), ia + [Volcar], Compactacion);
    CorrerUnoMas(Nueva(1), ia + [Volcar] + [Compactacion], ib);
    CorrerUnoMas(Nueva(1), ia + [Volcar] + [Compactacion] + [ib], Volcar);
    CompactarUno([a], b);
    CorrerUnoMas(Nueva(1), ia + [Volcar] + [Compactacion] + [ib] + [Volcar], Compactacion);
    CompactarNoTocaLaMemtable(Estado([], [[a]], [], [[]]));
    assert Compactar(Estado([], [[a]], [], [[]])) == Estado([], [], [], [[a]]);
    CompactarNoTocaLaMemtable(Estado([], [[b]], [], [[a]]));
    assert [] + [[b]] == [[b]];
    assert Correr(Nueva(1), ia + [Volcar] + [Compactacion] + [ib] + [Volcar]) == Estado([], [[b]], [], [[a]]);
    assert Compactar(Estado([], [[b]], [], [[a]])) == Estado([], [], [], [[a]]);
    UnaDeCadaLado(a, b, Estado([], [[b]], [], [[a]]), Estado([], [], [], [[a]]));
  }

  lemma CompactarNoTocaLaMemtable(e: Estado)
    requires e.parts != []
    ensures Compactar(e).mem == e.mem
  {
  }

  /** e has b before a in the order of a SELECT, and f has only a, or a before b. */
  lemma UnaDeCadaLado(a: Registro, b: Registro, e: Estado, f: Estado)
    requires a.key == b.key && a.ts == b.ts > 0
    requires e == Estado([b], [[a]], [], [[]]) || e == Estado([], [[b]], [], [[a]])
    requires f == Estado([], [[a], [b]], [], [[]]) || f == Estado([], [], [], [[a]])
    ensures Select(e, a.key).registro == Some(b) && Select(f, a.key).registro == Some(a)
  {
    SelectEsEntre(e, a.key);
    SelectEsEntre(f, a.key);
    MejorDeUno(a, a.key);
    MejorDeUno(b, a.key);
    MejorDeUnArchivo([a], a.key);
    MejorDeUnArchivo([b], a.key);
    MejorDeArchivosMas([[a]], [[b]], a.key);
    assert [[a]] + [[b]] == [[a], [b]];
  }

  /** With timestamps distinct for each key, the answer is the very record inserted last. */
  lemma TodaCorridaSinEmpates(p: nat, evs: seq<Evento>, key: nat)
    requires p > 0 && TimestampsDistintos(Insertados(evs))
    ensures Select(Correr(Nueva(p), evs), key) == MejorDe(Insertados(evs), key)
  {
    var e := Correr(Nueva(p), evs);
    var rs := Conj(Insertados(evs));
    TodaCorrida(p, evs, key);
    CorrerSoloDe(Nueva(p), evs, rs);
    SelectEsEntre(e, key);
    MejorDeEsElMasNuevo(e.mem, key);
    MejorDeEsElMasNuevo(Particion(e, key), key);
    MejorDeArchivosViene(e.tmps, rs, key);
    MejorDeArchivosViene(e.tmpcs, rs, key);
    MejorDeEsElMasNuevo(Insertados(evs), key);
  }
}
