/**
 One table of the Lissandra file system: records inserted in the memtable, dumped to files,
 compacted into partitions and selected, over block files shared with other tables.
 */
module Lissandra {
  import opened Secuencias
  import opened Lsm
  import opened LineasDeBloque
  import opened Cortes
  import opened Disco
  import opened Archivos

  /** A record whose line can be stored: parseable, and no longer than a block. */
  ghost predicate Aceptable(r: Registro, b: nat)
  {
    ValorValido(r.value) && |Linea(r)| <= b
  }

  ghost predicate Aceptables(rs: seq<Registro>, b: nat)
  {
    forall i :: 0 <= i < |rs| ==> Aceptable(rs[i], b)
  }

  ghost predicate TodosAceptables(regs: seq<seq<Registro>>, b: nat)
  {
    forall f :: 0 <= f < |regs| ==> Aceptables(regs[f], b)
  }

  ghost function Textos(regs: seq<seq<Registro>>): (r: seq<string>)
    ensures |r| == |regs|
  {
    seq(|regs|, f requires 0 <= f < |regs| => Texto(regs[f]))
  }

  ghost function LineasDeTodas(regs: seq<seq<Registro>>): (r: seq<seq<string>>)
    ensures |r| == |regs|
  {
    seq(|regs|, f requires 0 <= f < |regs| => LineasDe(regs[f]))
  }

  /** The blocks some files occupy, and those some texts will take. */
  function Ocupados(files: seq<Archivo>): nat
  {
    if files == [] then 0 else |files[0].blocks| + Ocupados(files[1..])
  }

  function Necesarios(regs: seq<seq<Registro>>, b: nat): nat
    requires b > 0
  {
    if regs == [] then 0 else CantidadBloques(|Texto(regs[0])|, b) + Necesarios(regs[1..], b)
  }

  lemma {:induction false} NecesariosMas(regs: seq<seq<Registro>>, mas: seq<seq<Registro>>, b: nat)
    requires b > 0
    ensures Necesarios(regs + mas, b) == Necesarios(regs, b) + Necesarios(mas, b)
    decreases |regs|
  {
    if regs == [] {
      assert regs + mas == mas;
    } else {
      assert (regs + mas)[1..] == regs[1..] + mas;
      NecesariosMas(regs[1..], mas, b);
    }
  }

  lemma NecesariosHasta(regs: seq<seq<Registro>>, i: nat, b: nat)
    requires b > 0 && i < |regs|
    ensures Necesarios(regs[..i + 1], b) == Necesarios(regs[..i], b) + CantidadBloques(|Texto(regs[i])|, b)
    ensures Necesarios(regs[..i + 1], b) <= Necesarios(regs, b)
  {
    assert regs[..i + 1] == regs[..i] + [regs[i]];
    NecesariosMas(regs[..i], [regs[i]], b);
    assert [regs[i]][1..] == [];
    assert Necesarios([regs[i]], b) == CantidadBloques(|Texto(regs[i])|, b) + Necesarios([], b);
    assert regs == regs[..i + 1] + regs[i + 1..];
    NecesariosMas(regs[..i + 1], regs[i + 1..], b);
  }

  lemma LineasCaben(rs: seq<Registro>, b: nat)
    requires Aceptables(rs, b)
    ensures ValoresValidos(rs)
    ensures forall i :: 0 <= i < |rs| ==> 0 < |LineasDe(rs)[i]| <= b
  {
  }

  /** Both readers, over the canonical cut of a file, return its records' lines. */
  lemma LeerLoCortado(rs: seq<Registro>, b: nat)
    requires b > 0 && Aceptables(rs, b)
    ensures Juntar(Trozos(Texto(rs), b)) == Texto(rs)
    ensures !Pendiente(Texto(rs)) && Lineas(Texto(rs)) == LineasDe(rs)
    ensures FragmentosAlcanzan(Trozos(Texto(rs), b))
  {
    LineasCaben(rs, b);
    TrozosSonCorte(Texto(rs), b);
    LineasDeTexto(rs);
    TextoTermina(rs);
    CorteAlcanza(Texto(rs), b);
  }

  lemma TextoPrefijo(rs: seq<Registro>, i: nat)
    requires i < |rs|
    ensures Texto(rs[..i + 1]) == Texto(rs[..i]) + Linea(rs[i])
    ensures |Texto(rs[..i + 1])| <= |Texto(rs)|
  {
    assert rs[..i + 1] == rs[..i] + [rs[i]];
    TextoMas(rs[..i], rs[i]);
    assert LineasDe(rs)[..i + 1] == LineasDe(rs[..i + 1]);
    PrefijoNoMayor(LineasDe(rs), i + 1);
  }

  lemma ActualizarAceptables(part: seq<Registro>, r: Registro, b: nat)
    requires Aceptables(part, b) && Aceptable(r, b)
    ensures Aceptables(Actualizar(part, r), b)
  {
  }

  lemma {:induction false} MezclarAceptables(parts: seq<seq<Registro>>, rs: seq<Registro>, b: nat)
    requires parts != [] && TodosAceptables(parts, b) && Aceptables(rs, b)
    ensures TodosAceptables(Mezclar(parts, rs), b)
    decreases |rs|
  {
    if rs != [] {
      var i := rs[0].key % |parts|;
      ActualizarAceptables(parts[i], rs[0], b);
      MezclarAceptables(parts[i := Actualizar(parts[i], rs[0])], rs[1..], b);
    }
  }

  // ---- the loops of SELECT and of the merge ----

  /** The scan of a record list for the newest of a key. */
  method BuscarEn(lineas: seq<string>, key: nat, m: Mejor, ghost rs: seq<Registro>) returns (r: Mejor)
    requires lineas == LineasDe(rs) && ValoresValidos(rs)
    ensures r == MirarTodos(m, rs, key)
  {
    r := m;
    assert rs[0..] == rs;
    for i := 0 to |lineas|
      invariant MirarTodos(r, rs[i..], key) == MirarTodos(m, rs, key)
    {
      LeerLinea(rs[i]);
      var leido := Leer(lineas[i]);
      assert rs[i..][1..] == rs[i + 1..];
      if leido.key == key {
        if leido.ts > r.ts {
          r := Mejor(leido.ts, Some(leido));
        }
      }
    }
  }

  /** The inner loop of actualizacionDeRegistros: one record against the list of its partition. */
  method ActualizarLista(lista: seq<string>, linea: string, ghost rs: seq<Registro>, ghost r: Registro)
      returns (lista': seq<string>)
    requires lista == LineasDe(rs) && linea == Linea(r) && ValoresValidos(rs) && ValorValido(r.value)
    ensures lista' == LineasDe(Actualizar(rs, r))
  {
    LeerLinea(r);
    var registro := Leer(linea);
    var indice := 0;
    while indice < |lista|
      invariant indice <= |lista|
      invariant forall k :: 0 <= k < indice ==> rs[k].key != r.key
    {
      LeerLinea(rs[indice]);
      var enLista := Leer(lista[indice]);
      if registro.key == enLista.key {
        PrimeraConClave(rs, r, indice);
        if registro.ts > enLista.ts {
          LineasDeMovida(rs, indice, r);
          return Quitar(lista, indice) + [linea];
        }
        return lista;
      }
      indice := indice + 1;
    }
    SinLaClave(rs, r);
    LineasDeMas(rs, r);
    return lista + [linea];
  }

  lemma LineasDeMas(rs: seq<Registro>, r: Registro)
    ensures LineasDe(rs + [r]) == LineasDe(rs) + [Linea(r)]
  {
  }

  lemma LineasDeMovida(rs: seq<Registro>, i: nat, r: Registro)
    requires i < |rs|
    ensures LineasDe(Quitar(rs, i) + [r]) == Quitar(LineasDe(rs), i) + [Linea(r)]
  {
  }

  lemma PrimeraConClave(rs: seq<Registro>, r: Registro, i: nat)
    requires i < |rs| && rs[i].key == r.key && forall k :: 0 <= k < i ==> rs[k].key != r.key
    ensures Actualizar(rs, r) == if r.ts > rs[i].ts then Quitar(rs, i) + [r] else rs
  {
    var j := Buscar(rs, (x: Registro) => x.key == r.key);
    assert j.Some?;
    assert j.value == i;
  }

  lemma SinLaClave(rs: seq<Registro>, r: Registro)
    requires forall k :: 0 <= k < |rs| ==> rs[k].key != r.key
    ensures Actualizar(rs, r) == rs + [r]
  {
    var j := Buscar(rs, (x: Registro) => x.key == r.key);
    assert j.None?;
  }

  /** The records of one .tmpc into the lists of their partitions. */
  method MezclarLineas(almacen: seq<seq<string>>, lineas: seq<string>, ghost parts: seq<seq<Registro>>,
      ghost rs: seq<Registro>)
      returns (almacen': seq<seq<string>>)
    requires parts != [] && almacen == LineasDeTodas(parts) && lineas == LineasDe(rs) && ValoresValidos(rs)
    requires forall f :: 0 <= f < |parts| ==> ValoresValidos(parts[f])
    ensures almacen' == LineasDeTodas(Mezclar(parts, rs))
  {
    almacen' := almacen;
    ghost var ps := parts;
    assert rs[0..] == rs;
    for i := 0 to |lineas|
      invariant |ps| == |parts| && almacen' == LineasDeTodas(ps)
      invariant forall f :: 0 <= f < |ps| ==> ValoresValidos(ps[f])
      invariant Mezclar(ps, rs[i..]) == Mezclar(parts, rs)
    {
      LeerLinea(rs[i]);
      var registro := Leer(lineas[i]);
      var moduloResto := registro.key % |almacen'|;
      var lista := ActualizarLista(almacen'[moduloResto], lineas[i], ps[moduloResto], rs[i]);
      assert rs[i..][1..] == rs[i + 1..];
      ghost var ps' := ps[moduloResto := Actualizar(ps[moduloResto], rs[i])];
      almacen' := almacen'[moduloResto := lista];
      assert almacen' == LineasDeTodas(ps');
      ps := ps';
    }
  }

  lemma TextosInsertar(regs: seq<seq<Registro>>, i: nat, rs: seq<Registro>)
    requires i <= |regs|
    ensures Textos(Insertar(regs, i, rs)) == Insertar(Textos(regs), i, Texto(rs))
  {
  }

  lemma InsertarAceptable(regs: seq<seq<Registro>>, i: nat, rs: seq<Registro>, b: nat)
    requires i <= |regs| && TodosAceptables(regs, b) && Aceptables(rs, b)
    ensures TodosAceptables(Insertar(regs, i, rs), b)
  {
    var r := Insertar(regs, i, rs);
    forall f | 0 <= f < |r|
      ensures Aceptables(r[f], b)
    {
      assert r[f] == if f < i then regs[f] else if f == i then rs else regs[f - 1];
    }
  }

  // ---- the table ----

  class Tabla {
    const arch: Archivador
    ghost const ajenos: set<nat>       // blocks of the other tables
    var memTable: seq<Registro>
    var tmps: seq<Archivo>
    var tmpcs: seq<Archivo>
    var particiones: seq<Archivo>
    ghost var regTmps: seq<seq<Registro>>
    ghost var regTmpcs: seq<seq<Registro>>
    ghost var regParts: seq<seq<Registro>>

    /** The table as records. */
    ghost function Registros(): Estado
      reads this
    {
      Estado(memTable, regTmps, regTmpcs, regParts)
    }

    ghost predicate Posee(files: seq<Archivo>, regs: seq<seq<Registro>>)
      reads this, arch, arch.disco, arch.disco.bitarray, arch.disco.bloques
    {
      && arch.Valid()
      && |files| == |regs|
      && TodosAceptables(regs, arch.tamBloque)
      && Tiene(arch.disco.bitarray[..], arch.disco.bloques[..], files, Textos(regs), ajenos, arch.tamBloque)
    }

    ghost predicate Valid()
      reads this, arch, arch.disco, arch.disco.bitarray, arch.disco.bloques
    {
      && |tmps| == |regTmps| && |tmpcs| == |regTmpcs| && |particiones| == |regParts|
      && Posee(tmpcs + tmps + particiones, regTmpcs + regTmps + regParts)
      && Aceptables(memTable, arch.tamBloque)
      && Particionado(regParts)
    }

    ghost function Libres(): nat
      reads arch, arch.disco, arch.disco.bitarray
    {
      CantidadLibres(arch.disco.bitarray[..])
    }

    /** A new table: each partition starts with one empty block. */
    constructor (arch: Archivador, p: nat, ghost ajenos: set<nat>)
      requires p > 0 && arch.Valid()
      requires Tiene(arch.disco.bitarray[..], arch.disco.bloques[..], [], [], ajenos, arch.tamBloque)
      requires p <= CantidadLibres(arch.disco.bitarray[..])
      modifies arch.disco.bitarray
      ensures Valid() && Registros() == Nueva(p) && this.arch == arch && this.ajenos == ajenos
      ensures Libres() == CantidadLibres(old(arch.disco.bitarray[..])) - p
    {
      this.arch := arch;
      this.ajenos := ajenos;
      memTable, tmps, tmpcs, particiones := [], [], [], [];
      regTmps, regTmpcs, regParts := [], [], seq(p, _ => []);
      new;
      CrearParticiones(p);
      SoloParticiones();
    }

    lemma SoloParticiones()
      requires tmps == [] && tmpcs == [] && regTmps == [] && regTmpcs == [] && Posee(particiones, regParts)
      requires memTable == [] || Aceptables(memTable, arch.tamBloque)
      requires Particionado(regParts)
      ensures Valid()
    {
      assert tmpcs + tmps + particiones == particiones && regTmpcs + regTmps + regParts == regParts;
    }

    method CrearParticiones(p: nat)
      requires 0 < p <= Libres() && particiones == [] && arch.Valid()
      requires Tiene(arch.disco.bitarray[..], arch.disco.bloques[..], [], [], ajenos, arch.tamBloque)
      modifies `particiones, arch.disco.bitarray
      ensures Posee(particiones, Nueva(p).parts) && |particiones| == p
      ensures Libres() == old(Libres()) - p
    {
      ghost var regs: seq<seq<Registro>> := [];
      assert Textos(regs) == [];
      for i := 0 to p
        invariant |regs| == i && (forall f :: 0 <= f < i ==> regs[f] == [])
        invariant Posee(particiones, regs)
        invariant Libres() == old(Libres()) - i
      {
        ghost var bits, bls := arch.disco.bitarray[..], arch.disco.bloques[..];
        var a, ok := arch.EstablecerBloque();
        AgregarAlFinal(bits, bls, particiones, regs, a, []);
        particiones := particiones + [a];
        regs := regs + [[]];
      }
      assert regs == Nueva(p).parts;
    }

    /** One more file at the end of a list of files that owned their blocks before it was written. */
    lemma AgregarAlFinal(bits: seq<bool>, bls: seq<string>, files: seq<Archivo>, regs: seq<seq<Registro>>,
                         a: Archivo, rs: seq<Registro>)
      requires arch.Valid() && |files| == |regs| && TodosAceptables(regs, arch.tamBloque)
               && Aceptables(rs, arch.tamBloque)
      requires Tiene(bits, bls, files, Textos(regs), ajenos, arch.tamBloque)
      requires arch.Guarda(a, Texto(rs)) && forall k :: 0 <= k < |a.blocks| ==>
               a.blocks[k] < |bits| && !bits[a.blocks[k]]
      requires Igual(bits, bls, arch.disco.bitarray[..], arch.disco.bloques[..], a.blocks)
      ensures Posee(files + [a], regs + [rs])
    {
      TieneInsertar(bits, bls, files, Textos(regs), ajenos, arch.tamBloque,
                    arch.disco.bitarray[..], arch.disco.bloques[..], |files|, a, Texto(rs));
      assert Insertar(files, |files|, a) == files + [a];
      assert Insertar(Textos(regs), |regs|, Texto(rs)) == Textos(regs + [rs]);
    }

    /** insertarValoresEnTabla */
    method InsertarValores(r: Registro)
      requires Valid() && Aceptable(r, arch.tamBloque)
      modifies `memTable
      ensures Valid() && Registros() == Siguiente(old(Registros()), Insercion(r))
    {
      memTable := memTable + [r];
    }

    // ---- reading ----

    /** The lines of a file of this table, fragments joined. */
    method LeerArchivo(a: Archivo, ghost rs: seq<Registro>) returns (lineas: seq<string>)
      requires arch.Valid() && arch.Guarda(a, Texto(rs)) && Aceptables(rs, arch.tamBloque)
      ensures lineas == LineasDe(rs)
    {
      var bloques := [];
      for i := 0 to |a.blocks|
        invariant bloques == Contenidos(arch.disco.bloques[..], a.blocks)[..i]
      {
        bloques := bloques + [arch.disco.bloques[a.blocks[i]]];
      }
      assert bloques == Contenidos(arch.disco.bloques[..], a.blocks);
      LeerLoCortado(rs, arch.tamBloque);
      lineas := LeerPorFragmentos(bloques);
    }

    /** The record list of a partition, as descargarRegistrosALista fills it. */
    method LeerParticion(a: Archivo, ghost rs: seq<Registro>) returns (lineas: seq<string>)
      requires arch.Valid() && arch.Guarda(a, Texto(rs)) && Aceptables(rs, arch.tamBloque)
      ensures lineas == LineasDe(rs)
    {
      ghost var cs := Contenidos(arch.disco.bloques[..], a.blocks);
      lineas := [];
      for i := 0 to |a.blocks|
        invariant SonLineas(lineas, Juntar(cs[..i]))
      {
        SiguienteLinea(cs, i);
        lineas := MeterRegistrosEnLaLista(lineas, arch.disco.bloques[a.blocks[i]], Juntar(cs[..i]));
      }
      assert cs[..|a.blocks|] == cs;
      LeerLoCortado(rs, arch.tamBloque);
    }

    /** buscarLineaMaxima */
    method BuscarLineaMaxima(a: Archivo, key: nat, m: Mejor, ghost rs: seq<Registro>) returns (r: Mejor)
      requires arch.Valid() && arch.Guarda(a, Texto(rs)) && Aceptables(rs, arch.tamBloque)
      ensures r == MirarTodos(m, rs, key)
    {
      var lineas := LeerArchivo(a, rs);
      LineasCaben(rs, arch.tamBloque);
      r := BuscarEn(lineas, key, m, rs);
    }

    method BuscarEnArchivos(files: seq<Archivo>, key: nat, m: Mejor, ghost regs: seq<seq<Registro>>) returns (r: Mejor)
      requires arch.Valid() && |files| == |regs| && TodosAceptables(regs, arch.tamBloque)
      requires forall f :: 0 <= f < |files| ==> arch.Guarda(files[f], Texto(regs[f]))
      ensures r == MirarArchivos(m, regs, key)
    {
      r := m;
      assert regs[0..] == regs;
      for i := 0 to |files|
        invariant MirarArchivos(r, regs[i..], key) == MirarArchivos(m, regs, key)
      {
        assert regs[i..][1..] == regs[i + 1..];
        r := BuscarLineaMaxima(files[i], key, r, regs[i]);
      }
    }

    ghost predicate Guardan(files: seq<Archivo>, regs: seq<seq<Registro>>)
      requires arch.tamBloque > 0
      reads this, arch, arch.disco, arch.disco.bitarray, arch.disco.bloques
    {
      && |files| == |regs| && TodosAceptables(regs, arch.tamBloque)
      && forall f :: 0 <= f < |files| ==> arch.Guarda(files[f], Texto(regs[f]))
    }

    lemma Tramo(files: seq<Archivo>, regs: seq<seq<Registro>>, i: nat, sub: seq<Archivo>, subregs: seq<seq<Registro>>)
      requires Posee(files, regs) && |sub| == |subregs| && i + |sub| <= |files|
      requires sub == files[i..i + |sub|] && subregs == regs[i..i + |sub|]
      ensures Guardan(sub, subregs)
    {
      forall f | 0 <= f < |sub|
        ensures arch.Guarda(sub[f], Texto(subregs[f])) && Aceptables(subregs[f], arch.tamBloque)
      {
        assert sub[f] == files[i + f] && subregs[f] == regs[i + f];
        assert Textos(regs)[i + f] == Texto(regs[i + f]);
      }
    }

    lemma PorPartes()
      requires Valid()
      ensures Guardan(tmpcs, regTmpcs) && Guardan(tmps, regTmps) && Guardan(particiones, regParts)
    {
      var files, regs := tmpcs + tmps + particiones, regTmpcs + regTmps + regParts;
      Tramo(files, regs, 0, tmpcs, regTmpcs);
      Tramo(files, regs, |tmpcs|, tmps, regTmps);
      Tramo(files, regs, |tmpcs| + |tmps|, particiones, regParts);
    }

    /** seleccionarYEncontrarUltimaKeyActualizada */
    method Seleccionar(key: nat) returns (m: Mejor)
      requires Valid()
      ensures m == Select(Registros(), key)
    {
      PorPartes();
      m := BuscarEnMemTable(key);
      m := BuscarEnArchivos(tmps, key, m, regTmps);
      m := BuscarEnArchivos(tmpcs, key, m, regTmpcs);
      var particionObjetivo := key % |particiones|;
      m := BuscarLineaMaxima(particiones[particionObjetivo], key, m, regParts[particionObjetivo]);
    }

    method BuscarEnMemTable(key: nat) returns (m: Mejor)
      ensures m == MirarTodos(NADA, memTable, key)
    {
      m := NADA;
      assert memTable[0..] == memTable;
      for i := 0 to |memTable|
        invariant MirarTodos(m, memTable[i..], key) == MirarTodos(NADA, memTable, key)
      {
        assert memTable[i..][1..] == memTable[i + 1..];
        var r := memTable[i];
        if r.key == key {
          if r.ts > m.ts {
            m := Mejor(r.ts, Some(r));
          }
        }
      }
    }

    // ---- dump ----

    /** The records of the memtable written to a new file, one by one; `todos` when none was lost. */
    method VolcarRegistros(a0: Archivo) returns (a: Archivo, todos: bool, ghost escritos: seq<Registro>)
      requires arch.Valid() && arch.Guarda(a0, "") && |a0.blocks| == 1 && Aceptables(memTable, arch.tamBloque)
      modifies arch.disco.bitarray, arch.disco.bloques
      ensures arch.Valid() && Aceptables(escritos, arch.tamBloque) && arch.Guarda(a, Texto(escritos))
      ensures a0.blocks <= a.blocks
      ensures forall i :: 1 <= i < |a.blocks| ==> !old(arch.disco.bitarray[..])[a.blocks[i]]
      ensures Igual(old(arch.disco.bitarray[..]), old(arch.disco.bloques[..]),
                    arch.disco.bitarray[..], arch.disco.bloques[..], a.blocks)
      ensures todos ==> escritos == memTable
      ensures todos <==>
                CantidadBloques(|Texto(memTable)|, arch.tamBloque) <= 1 + CantidadLibres(old(arch.disco.bitarray[..]))
    {
      var b := arch.tamBloque;
      a, todos, escritos := a0, true, [];
      ghost var bits, bls := arch.disco.bitarray[..], arch.disco.bloques[..];
      ghost var disponibles := 1 + CantidadLibres(bits);
      TechoPaso(0, b);
      for i := 0 to |memTable|
        invariant arch.Valid() && Aceptables(escritos, b) && arch.Guarda(a, Texto(escritos))
        invariant Nuevos(bits, bls, a0, a)
        invariant if todos then escritos == memTable[..i] && Cuenta(a, disponibles, i)
                  else CantidadBloques(|Texto(memTable)|, b) > disponibles
      {
        var ok;
        a, ok, escritos := VolcarRegistro(a0, a, i, bits, bls, disponibles, todos, escritos);
        todos := todos && ok;
      }
      assert memTable[..|memTable|] == memTable;
    }

    /** The file grew from a0 to a over blocks that were free, and nothing else changed. */
    ghost predicate Nuevos(bits: seq<bool>, bls: seq<string>, a0: Archivo, a: Archivo)
      reads arch, arch.disco, arch.disco.bitarray, arch.disco.bloques
    {
      && a0.blocks <= a.blocks
      && (forall k :: |a0.blocks| <= k < |a.blocks| ==> a.blocks[k] < |bits| && !bits[a.blocks[k]])
      && Igual(bits, bls, arch.disco.bitarray[..], arch.disco.bloques[..], a.blocks)
    }

    /** With nothing lost so far, the blocks left are those not used. */
    ghost predicate Cuenta(a: Archivo, disponibles: nat, i: nat)
      requires i <= |memTable| && arch.tamBloque > 0
      reads this, arch, arch.disco, arch.disco.bitarray
    {
      && |a.blocks| + Libres() == disponibles
      && CantidadBloques(|Texto(memTable[..i])|, arch.tamBloque) <= disponibles
    }

    method VolcarRegistro(ghost a0: Archivo, a: Archivo, i: nat, ghost bits: seq<bool>, ghost bls: seq<string>,
                          ghost disponibles: nat, ghost todos: bool, ghost escritos: seq<Registro>)
        returns (a': Archivo, ok: bool, ghost escritos': seq<Registro>)
      requires i < |memTable| && Aceptables(memTable, arch.tamBloque)
      requires arch.Valid() && Aceptables(escritos, arch.tamBloque) && arch.Guarda(a, Texto(escritos))
      requires Nuevos(bits, bls, a0, a)
      requires todos ==> escritos == memTable[..i] && Cuenta(a, disponibles, i)
      modifies arch.disco.bitarray, arch.disco.bloques
      ensures arch.Valid() && Aceptables(escritos', arch.tamBloque) && arch.Guarda(a', Texto(escritos'))
      ensures Nuevos(bits, bls, a0, a')
      ensures todos && ok ==> escritos' == memTable[..i + 1] && Cuenta(a', disponibles, i + 1)
      ensures todos && !ok ==> CantidadBloques(|Texto(memTable)|, arch.tamBloque) > disponibles
    {
      hide EntraEnDos, TrasAgregar, Trozos;
      var registro := Linea(memTable[i]);
      TextoPrefijo(memTable, i);
      CantidadCrece(|Texto(memTable[..i + 1])|, |Texto(memTable)|, arch.tamBloque);
      TextoMas(escritos, memTable[i]);
      assert memTable[..i + 1] == memTable[..i] + [memTable[i]];
      a', ok := arch.InsertarRegistro(registro, a, Texto(escritos));
      escritos' := if ok then escritos + [memTable[i]] else escritos;
    }

    /** A file written since the state (bits, bls), as one more .tmp. */
    lemma AgregarArchivo(bits: seq<bool>, bls: seq<string>, a: Archivo, rs: seq<Registro>)
      requires arch.Valid() && |tmps| == |regTmps| && |tmpcs| == |regTmpcs| && |particiones| == |regParts|
      requires TodosAceptables(regTmpcs + regTmps + regParts, arch.tamBloque) && Aceptables(rs, arch.tamBloque)
      requires Tiene(bits, bls, tmpcs + tmps + particiones, Textos(regTmpcs + regTmps + regParts), ajenos,
               arch.tamBloque)
      requires arch.Guarda(a, Texto(rs)) && forall k :: 0 <= k < |a.blocks| ==>
               a.blocks[k] < |bits| && !bits[a.blocks[k]]
      requires Igual(bits, bls, arch.disco.bitarray[..], arch.disco.bloques[..], a.blocks)
      ensures Posee(tmpcs + (tmps + [a]) + particiones, regTmpcs + (regTmps + [rs]) + regParts)
    {
      var files, regs := tmpcs + tmps + particiones, regTmpcs + regTmps + regParts;
      var i := |tmpcs + tmps|;
      TieneInsertar(bits, bls, files, Textos(regs), ajenos, arch.tamBloque,
                    arch.disco.bitarray[..], arch.disco.bloques[..], i, a, Texto(rs));
      TextosInsertar(regs, i, rs);
      InsertarAceptable(regs, i, rs, arch.tamBloque);
      InsertarEnMedio(tmpcs, tmps, particiones, a);
      InsertarEnMedio(regTmpcs, regTmps, regParts, rs);
    }

    /**
     iniciarProcesoDUMP for this table. `ok` when every record reached the new file; otherwise the
     memtable is emptied all the same.
     */
    method Volcar() returns (ok: bool)
      requires Valid()
      modifies this, arch.disco.bitarray, arch.disco.bloques
      ensures Valid() && memTable == []
      ensures ok ==> Registros() == Dump(old(Registros()))
      ensures ok <==> old(memTable) == []
                      || CantidadBloques(|Texto(old(memTable))|, arch.tamBloque) <= old(Libres())
      ensures regTmpcs == old(regTmpcs) && regParts == old(regParts) && tmpcs == old(tmpcs)
      ensures old(memTable) == [] ==> tmps == old(tmps) && regTmps == old(regTmps)
      ensures old(memTable) != [] && ok ==> regTmps == old(regTmps) + [old(memTable)]
    {
      if memTable == [] {
        return true;
      }
      CantidadPositiva(|Texto(memTable)|, arch.tamBloque);
      var a0;
      a0, ok := arch.EstablecerBloque();
      if !ok {
        memTable := [];
        return;
      }
      ghost var bits1 := arch.disco.bitarray[..];
      var a;
      ghost var escritos;
      a, ok, escritos := VolcarRegistros(a0);
      AgregarArchivo(old(arch.disco.bitarray[..]), old(arch.disco.bloques[..]), a, escritos);
      tmps := tmps + [a];
      regTmps := regTmps + [escritos];
      memTable := [];
    }

    // ---- compaction ----

    /** The blocks of a file freed: it leaves the list, the others stay. */
    method Soltar(files: seq<Archivo>, ghost regs: seq<seq<Registro>>, k: nat)
      requires k < |files| && Posee(files, regs)
      modifies arch.disco.bitarray, arch.disco.bloques
      ensures Posee(Quitar(files, k), Quitar(regs, k))
      ensures Libres() == old(Libres()) + |files[k].blocks|
    {
      ghost var bits, bls := arch.disco.bitarray[..], arch.disco.bloques[..];
      arch.disco.LiberarBloques(files[k].blocks);
      TieneQuitar(bits, bls, files, Textos(regs), ajenos, arch.tamBloque,
                  arch.disco.bitarray[..], arch.disco.bloques[..], k);
      assert Quitar(Textos(regs), k) == Textos(Quitar(regs, k));
    }

    /** descargarRegistrosALista: every partition read into a list of lines, and its blocks freed. */
    method DescargarRegistros(files: seq<Archivo>, ghost regs: seq<seq<Registro>>, resto: seq<Archivo>,
        ghost regResto: seq<seq<Registro>>)
        returns (almacen: seq<seq<string>>)
      requires |files| == |regs| && Posee(resto + files, regResto + regs)
      modifies arch.disco.bitarray, arch.disco.bloques
      ensures Posee(resto, regResto) && almacen == LineasDeTodas(regs)
      ensures Libres() == old(Libres()) + Ocupados(files)
    {
      almacen := [];
      assert files[0..] == files && regs[0..] == regs;
      for i := 0 to |files|
        invariant Posee(resto + files[i..], regResto + regs[i..])
        invariant almacen == LineasDeTodas(regs[..i])
        invariant Libres() + Ocupados(files[i..]) == old(Libres()) + Ocupados(files)
      {
        assert files[i..][1..] == files[i + 1..];
        var lineas := LeerYSoltar(files, regs, resto, regResto, i);
        almacen := almacen + [lineas];
      }
      assert resto + files[|files|..] == resto && regResto + regs[|files|..] == regResto;
      assert regs[..|files|] == regs;
    }

    method LeerYSoltar(files: seq<Archivo>, ghost regs: seq<seq<Registro>>, resto: seq<Archivo>,
        ghost regResto: seq<seq<Registro>>,
                       i: nat)
        returns (lineas: seq<string>)
      requires i < |files| == |regs| && Posee(resto + files[i..], regResto + regs[i..])
      modifies arch.disco.bitarray, arch.disco.bloques
      ensures Posee(resto + files[i + 1..], regResto + regs[i + 1..])
      ensures lineas == LineasDe(regs[i])
      ensures Libres() == old(Libres()) + |files[i].blocks|
    {
      var todos := resto + files[i..];
      ghost var regTodos := regResto + regs[i..];
      var k := |resto|;
      assert todos[k] == files[i] && regTodos[k] == regs[i];
      assert Textos(regTodos)[k] == Texto(regs[i]);
      lineas := LeerParticion(files[i], regs[i]);
      Soltar(todos, regTodos, k);
      assert Quitar(todos, k) == resto + files[i + 1..];
      assert Quitar(regTodos, k) == regResto + regs[i + 1..];
    }

    /** actualizacionDeRegistros: the .tmpc files merged in order, each removed once merged. */
    method ActualizarRegistros(almacen: seq<seq<string>>, files: seq<Archivo>, ghost regs: seq<seq<Registro>>,
                               ghost parts: seq<seq<Registro>>)
        returns (almacen': seq<seq<string>>)
      requires parts != [] && almacen == LineasDeTodas(parts) && TodosAceptables(parts, arch.tamBloque)
      requires Posee(files, regs)
      modifies arch.disco.bitarray, arch.disco.bloques
      ensures Posee([], []) && almacen' == LineasDeTodas(MezclarArchivos(parts, regs))
      ensures TodosAceptables(MezclarArchivos(parts, regs), arch.tamBloque)
      ensures Libres() == old(Libres()) + Ocupados(files)
    {
      almacen' := almacen;
      ghost var ps := parts;
      assert files[0..] == files && regs[0..] == regs;
      for i := 0 to |files|
        invariant Posee(files[i..], regs[i..])
        invariant |ps| == |parts| && almacen' == LineasDeTodas(ps) && TodosAceptables(ps, arch.tamBloque)
        invariant MezclarArchivos(ps, regs[i..]) == MezclarArchivos(parts, regs)
        invariant Libres() + Ocupados(files[i..]) == old(Libres()) + Ocupados(files)
      {
        assert files[i..][1..] == files[i + 1..] && regs[i..][1..] == regs[i + 1..];
        assert Quitar(files[i..], 0) == files[i + 1..] && Quitar(regs[i..], 0) == regs[i + 1..];
        assert files[i..][0] == files[i] && regs[i..][0] == regs[i] && Textos(regs[i..])[0] == Texto(regs[i]);
        var lineas := LeerArchivo(files[i], regs[i]);
        almacen' := MezclarLineas(almacen', lineas, ps, regs[i]);
        MezclarAceptables(ps, regs[i], arch.tamBloque);
        ps := Mezclar(ps, regs[i]);
        Soltar(files[i..], regs[i..], 0);
      }
      assert files[|files|..] == [] && regs[|files|..] == [];
    }

    /** modificarParticionesOriginales */
    method ModificarParticiones(almacen: seq<seq<string>>, ghost parts: seq<seq<Registro>>)
        returns (nuevas: seq<Archivo>, ok: bool)
      requires almacen == LineasDeTodas(parts) && TodosAceptables(parts, arch.tamBloque) && Posee([], [])
      modifies arch.disco.bitarray, arch.disco.bloques
      ensures ok ==> Posee(nuevas, parts)
      ensures ok <==> Necesarios(parts, arch.tamBloque) <= old(Libres())
    {
      var b := arch.tamBloque;
      nuevas, ok := [], true;
      for i := 0 to |almacen|
        invariant ok && Posee(nuevas, parts[..i])
        invariant Libres() == old(Libres()) - Necesarios(parts[..i], b)
      {
        NecesariosHasta(parts, i, b);
        assert parts[..i + 1] == parts[..i] + [parts[i]];
        nuevas, ok := ModificarParticion(almacen[i], nuevas, parts[..i], parts[i]);
        if !ok {
          return;
        }
      }
      assert parts[..|almacen|] == parts;
    }

    /** One turn of it: the records `rs` of a partition written to new blocks. */
    method ModificarParticion(lineas: seq<string>, nuevas: seq<Archivo>, ghost hechas: seq<seq<Registro>>,
        ghost rs: seq<Registro>)
        returns (nuevas': seq<Archivo>, ok: bool)
      requires lineas == LineasDe(rs) && Aceptables(rs, arch.tamBloque) && Posee(nuevas, hechas)
      modifies arch.disco.bitarray, arch.disco.bloques
      ensures ok ==> Posee(nuevas', hechas + [rs])
      ensures ok <==> CantidadBloques(|Texto(rs)|, arch.tamBloque) <= old(Libres())
      ensures ok ==> Libres() == old(Libres()) - CantidadBloques(|Texto(rs)|, arch.tamBloque)
    {
      ghost var bits, bls := arch.disco.bitarray[..], arch.disco.bloques[..];
      LineasCaben(rs, arch.tamBloque);
      LosCortosEntran(lineas, arch.tamBloque);
      var a;
      a, ok := arch.EscribirParticion(lineas);
      nuevas' := nuevas;
      if ok {
        AgregarAlFinal(bits, bls, nuevas, hechas, a, rs);
        nuevas' := nuevas + [a];
      }
    }

    /** Every .tmp renamed to .tmpc. */
    method RenombrarTemporales()
      requires Valid() && tmpcs == []
      modifies `tmps, `tmpcs, `regTmps, `regTmpcs
      ensures Valid() && Registros() == Renombrar(old(Registros()))
      ensures tmps == [] && tmpcs == old(tmps)
    {
      for i := 0 to |tmps|
        invariant tmps == old(tmps) && tmpcs == tmps[..i]
        invariant regTmps == old(regTmps) && regTmpcs == old(regTmpcs)
      {
        tmpcs := tmpcs + [tmps[i]];
      }
      assert tmps[..|tmps|] == tmps;
      assert regTmpcs == [];
      assert tmpcs + [] + particiones == [] + old(tmps) + particiones;
      assert regTmps + [] + regParts == [] + regTmps + regParts;
      assert [] + regTmps == regTmps;
      tmps := [];
      regTmpcs, regTmps := regTmps, [];
    }

    lemma TramoAceptable(a: seq<seq<Registro>>, c: seq<seq<Registro>>)
      requires TodosAceptables(a + c, arch.tamBloque)
      ensures TodosAceptables(a, arch.tamBloque) && TodosAceptables(c, arch.tamBloque)
    {
      assert forall f :: 0 <= f < |a| ==> (a + c)[f] == a[f];
      assert forall f :: 0 <= f < |c| ==> (a + c)[|a| + f] == c[f];
    }

    /**
     iniciarEnUnaTablaLaCOMPACTACION, run on its own. `ok` when every partition got its blocks;
     otherwise the original goes on writing in a block numbered -1.
     */
    method CompactarTabla() returns (ok: bool)
      requires Valid() && tmpcs == []
      modifies this, arch.disco.bitarray, arch.disco.bloques
      ensures ok ==> Valid() && tmpcs == [] && Registros() == Compactar(old(Registros()))
      ensures ok <==> old(tmps) == []
                      || Necesarios(Compactar(old(Registros())).parts, arch.tamBloque)
                         <= old(Libres()) + Ocupados(old(particiones)) + Ocupados(old(tmps))
      ensures memTable == old(memTable) && (ok ==> tmps == [])
      ensures old(tmps) == [] ==> particiones == old(particiones) && regParts == old(regParts)
    {
      if tmps == [] {
        assert regTmpcs == [] && regTmps == [];
        return true;
      }
      RenombrarTemporales();
      assert [] + old(regTmps) == old(regTmps);
      ok := AcotarArchivosCompactados();
    }

    /** acotarTodosLosArchivosCompactadosDeLaTabla: partitions read, .tmpc merged in, partitions rewritten. */
    method AcotarArchivosCompactados() returns (ok: bool)
      requires Valid() && tmps == []
      modifies this, arch.disco.bitarray, arch.disco.bloques
      ensures memTable == old(memTable)
      ensures ok ==> Valid() && tmps == [] && tmpcs == [] && regParts == MezclarArchivos(old(regParts), old(regTmpcs))
      ensures ok <==> Necesarios(MezclarArchivos(old(regParts), old(regTmpcs)), arch.tamBloque)
                      <= old(Libres()) + Ocupados(old(particiones)) + Ocupados(old(tmpcs))
    {
      ghost var partes := MezclarArchivos(regParts, regTmpcs);
      MezclarArchivosEsEntre(regParts, regTmpcs, 0);
      var nuevas;
      nuevas, ok := Reescribir();
      particiones, tmpcs := nuevas, [];
      regTmpcs, regParts := [], partes;
      if ok {
        SoloParticiones();
      }
    }

    method Reescribir() returns (nuevas: seq<Archivo>, ok: bool)
      requires Valid() && tmps == []
      modifies arch.disco.bitarray, arch.disco.bloques
      ensures ok ==> Posee(nuevas, MezclarArchivos(regParts, regTmpcs))
      ensures ok <==> Necesarios(MezclarArchivos(regParts, regTmpcs), arch.tamBloque)
                      <= old(Libres()) + Ocupados(particiones) + Ocupados(tmpcs)
    {
      assert tmpcs + tmps + particiones == tmpcs + particiones && regTmpcs + regTmps + regParts == regTmpcs + regParts;
      TramoAceptable(regTmpcs, regParts);
      var almacen := DescargarRegistros(particiones, regParts, tmpcs, regTmpcs);
      almacen := ActualizarRegistros(almacen, tmpcs, regTmpcs, regParts);
      nuevas, ok := ModificarParticiones(almacen, MezclarArchivos(regParts, regTmpcs));
    }

    /** destruirEnCascadaElDirectorio: the blocks of the dumped files and of the partitions, freed. */
    method Destruir()
      requires Valid() && tmpcs == []
      modifies this, arch.disco.bitarray, arch.disco.bloques
      ensures Posee([], []) && memTable == [] && tmps == [] && particiones == []
      ensures forall c :: 0 <= c < arch.disco.bitarray.Length ==> (arch.disco.bitarray[c] <==> c in ajenos)
      ensures Libres() == old(Libres()) + Ocupados(old(tmps)) + Ocupados(old(particiones))
    {
      assert tmpcs + tmps + particiones == tmps + particiones && regTmpcs + regTmps + regParts == regTmps + regParts;
      OcupadosMas(tmps, particiones);
      SoltarTodos(tmps + particiones, regTmps + regParts);
      assert forall c: nat :: !BloqueDe([], c);
      memTable, tmps, particiones := [], [], [];
      regTmps, regTmpcs, regParts := [], [], [];
    }

    method SoltarTodos(files: seq<Archivo>, ghost regs: seq<seq<Registro>>)
      requires Posee(files, regs)
      modifies arch.disco.bitarray, arch.disco.bloques
      ensures Posee([], []) && Libres() == old(Libres()) + Ocupados(files)
    {
      assert files[0..] == files && regs[0..] == regs;
      for i := 0 to |files|
        invariant Posee(files[i..], regs[i..])
        invariant Libres() + Ocupados(files[i..]) == old(Libres()) + Ocupados(files)
      {
        assert files[i..][1..] == files[i + 1..];
        assert Quitar(files[i..], 0) == files[i + 1..] && Quitar(regs[i..], 0) == regs[i + 1..];
        Soltar(files[i..], regs[i..], 0);
      }
      assert files[|files|..] == [] && regs[|files|..] == [];
    }
  }

  lemma {:induction false} OcupadosMas(a: seq<Archivo>, c: seq<Archivo>)
    ensures Ocupados(a + c) == Ocupados(a) + Ocupados(c)
    decreases |a|
  {
    if a == [] {
      assert a + c == c;
    } else {
      assert (a + c)[1..] == a[1..] + c;
      OcupadosMas(a[1..], c);
    }
  }

  lemma CantidadPositiva(n: nat, b: nat)
    requires b > 0
    ensures CantidadBloques(n, b) >= 1
  {
  }
}
