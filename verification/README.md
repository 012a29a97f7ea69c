# Verified models of three operating-systems projects

Six cores of this repository, modelled in Dafny and proved. The source is C: global lists, byte
arrays and bitmaps changed in place. The model keeps that form: classes with the same fields, methods
with the same branches and loops. Each class is tied to a specification on plain values, and the
properties are proved about that specification. Names follow the source; comments are in English.

1. **Broker cache** (`TP-2020/Delibird/Broker/memoria.c`). One byte array, the list of free partitions
   and the list of stored messages, in buddy-system or dynamic-partition mode, with eviction (FIFO or
   LRU) and compaction. Files `Potencias`, `Particiones`, `PasosDeParticion`, `EstadoDeMemoria`,
   `Corrimiento`, `Compactacion`, `Busqueda`, `Memoria`, `CorridasDeMemoria`, `FallaDeMemoria`.
2. **RPC framing** (`TP-2018/src/sample-socket/socket.c`). `runFunction` prints a frame;
   `receiptMessage` is an incremental parser whose state survives from one `recv` to the next. Files
   `Numeros`, `Tramas`, `Receptor`.
3. **Lissandra storage engine** (`TP-2019/Lissandra-Project/Lissandra-File-System/src`). Memtable, dump,
   compaction into hash partitions, SELECT, and records cut across fixed-size blocks owned through a
   bitmap. Files `Lsm`, `Lineas`, `Cortes`, `Disco`, `Archivos`, `Lissandra`, `CuentaDeBloques`,
   `CorridasDeTabla`.
4. **Team** (`TP-2020/Delibird/Team`). Trainers, their objectives as multisets, captures, and the pairwise
   exchanges that resolve deadlocks. Files `Objetivos`, `Leyes`, `Entrenador`, `Tratos`, `Resolucion`,
   `Capturas`, `Colas`, `Equipo`, `CorridasDeEquipo`, `FallaDeEquipo`.
5. **Paged memory** (`TP-2019/Lissandra-Project/Pool-Memorias/Memoria1/src/libMemoria.c`). Frames, bitmap,
   page tables, LRU and journal. Files `Bytes`, `ModeloDePaginas`, `ReemplazoDePaginas`, `Marcos`,
   `MemoriaPaginada`.
6. **Broker delivery and re-serialisation** (`serverBroker.c`, `libBroker.c`, `serverUtils.c`). To whom
   each message is sent and how often, and what a subscriber reads of the image kept in the cache. Files
   `Despacho`, `CorridasDeDespacho`, `Serializacion`, `Disposicion`.

`Secuencias` and `Bytes` hold what several of them share. `dafny verify dfyconfig.toml` checks it all.

## Where the code departs from its intent

The model does what the code does. Where a promised property is false of it, the exact condition under
which it holds is proved, and a concrete case or family in which it fails.

- `compactar` advances `i` while it removes element `i`: it works for one or two free partitions and
  uses a null node for any other number (`BrokerMemoria.Memoria.Compactar`). So a request that fits the
  memory can crash: it does exactly when some compaction it comes to meets another number of maximal free
  stretches, which the messages before it decide (`BusquedaDeParticion.SeEncuentraSii`). A run on a new
  cache that crashes is `FallaDeMemoria.CorrerLaFalla`. With the sweep that the comment asks for
  (`BrokerMemoria.Memoria.PlegarParticionesLibres`; the models take it as the parameter `pliega`, which is
  false in the source) and a frequency other than zero, no request that fits ever does.
- The framing reader takes the argument count from one character, and each byte of a head through a
  `char*`, where the sign of a byte of 128 or more fills the pointer and the append reads past it. So the
  round trip holds exactly up to nine arguments and for names of seven-bit bytes (`Tramas.IdaYVuelta`,
  `ReceptorDeTramas.Transmitir`, `Tramas.DiezArgumentos`, `Tramas.UnaEnie`).
- On equal timestamps SELECT prefers newer files and a compaction keeps the partition's record, so dumps
  and compactions leave the answer alone exactly when there is no such tie (`Lsm.DumpConservaSelect`,
  `Lsm.CompactarConservaSelect`, `Lsm.UnEmpateSeVe`).
- The reader that joins fragments keeps only one, so it fails exactly when a record goes on past a whole
  block (`Cortes.LeerPorFragmentos`, `Cortes.TresFragmentos`); records no longer than a block never do.
- A capture of a species that is no longer in the Team's objectives uses a null node
  (`Team.Equipo.AccionesAlCapturarConExito`).
- `pokemonACambiar` of the trainer that moves is freed and not set to null; an exchange fails exactly when
  the trainer that waits wants nothing in return and still has such a name (`Team.Equipo.Ronda`). Which
  exchanges a run comes to depends on the lists and the order of BLOCKED alone, so whether it ends well is
  a condition on the state before the first exchange, `Resolucion.Resuelve`, and on the configuration and
  the captures, `Capturas.TodosTerminan` (`Team.Equipo.ResolverDeadlocks`, `CorridasDeEquipo.Correr`). It
  always does when nobody holds more than one pokemon in excess (`Resolucion.UnoDeMasSeResuelve`), and
  always when the name is nulled after use (`Resolucion.AnulandoSeResuelve`; the parameter `anula`, which is
  false in the source). A configuration and captures from which it does not are in
  `FallaDeEquipo.LaFallaSeAlcanza`.
- Updating a page does not set its flag, and bringing a key from the file system clears it, so a change
  can be lost (`ModeloDePaginas.TraerPisaLoModificado`); nothing else loses one
  (`ModeloDePaginas.LoModificadoNoSePierde`). SELECT looks for the name in upper case
  (`MemoriaPaginada.SeleccionarTrasInsertar`).
- Subscribers of LOCALIZED are matched with the messages of GET, and one that comes back can be looked for
  where it is not (`DespachoDeMensajes.LocalizedQueVuelve`); a Game Boy in the list is compared through a
  null address (`DespachoDeMensajes.Broker.ObtenerSuscriptor`). A run of the queues breaks exactly at the
  first event of one of these two kinds, which the events before it decide (`CorridasDeDespacho.Rompe`,
  `CorridasDeDespacho.Correr`).
- Lengths are read back through a signed char, so what is re-sent is what was stored exactly for names of
  up to 127 characters and few coordinates (`Serializacion.IdaYVuelta`).

## Model

| member | source | states |
|---|---|---|
| Potencias.ExponenteBuddy | TP-2020/Delibird/Broker/memoria.c:260-273 | the loop returns the least exponent, never below 1, whose power of two holds the length |
| Potencias.RedondeoMinimo | TP-2020/Delibird/Broker/memoria.c:694-704 | the power of the exponent found holds the message and is at most any power of two (two or more) that does |
| Particiones.CompanieroEsMutuo | TP-2020/Delibird/Broker/memoria.c:131-162 | the buddy found by parity is an aligned block of the same size, apart from the block, and its buddy is the block itself |
| Particiones.UnidoEsAlineado | TP-2020/Delibird/Broker/memoria.c:164-171 | joining two buddies gives an aligned block of twice the size that covers exactly the bytes of both |
| Particiones.RegionLibreBuddy | TP-2020/Delibird/Broker/memoria.c:105-129 | in canonical form any aligned stretch without messages lies inside one free partition |
| Particiones.UnicidadBuddy | TP-2020/Delibird/Broker/memoria.c:105-171 | in buddy mode two canonical free sets for the same used partitions are equal |
| Particiones.UnicidadDinamica | TP-2020/Delibird/Broker/memoria.c:60-96 | the same for dynamic partitions, where canonical means that no two free ones are adjacent |
| Particiones.VacioEsEntera | TP-2020/Delibird/Broker/memoria.c:60-129 | with no message left, in whatever order they went, the only free partition is the whole memory |
| PasosDeParticion.PartirBuddy | TP-2020/Delibird/Broker/memoria.c:501-507 | halving the block being split keeps the tiling, the alignment, and no pair of free buddies but the one in hand |
| PasosDeParticion.UnirBuddy | TP-2020/Delibird/Broker/memoria.c:115-125 | joining the block being freed with its buddy keeps them too, with the union in hand |
| PasosDeParticion.SinCompanieroEsCanonico | TP-2020/Delibird/Broker/memoria.c:115-129 | when the buddy is not free the coalescing loop has reached the canonical form |
| PasosDeParticion.TomarDinamica | TP-2020/Delibird/Broker/memoria.c:488-495 | cutting a request off a free partition, or taking all of it, keeps the tiling and leaves no free neighbours |
| PasosDeParticion.DevolverConAmbas | TP-2020/Delibird/Broker/memoria.c:87-91 | with free partitions on both sides, one that covers the three keeps the canonical form |
| PasosDeParticion.DevolverConDerecha | TP-2020/Delibird/Broker/memoria.c:78-81 | the same when only the right neighbour is free |
| PasosDeParticion.DevolverConIzquierda | TP-2020/Delibird/Broker/memoria.c:83-85 | the same when only the left neighbour is free |
| PasosDeParticion.DevolverSuelta | TP-2020/Delibird/Broker/memoria.c:93-96 | the same when neither is |
| EstadoDeMemoria.HayLugarSiiHayLibre | TP-2020/Delibird/Broker/memoria.c:480-516 | some free partition is large enough exactly when the messages leave room for the request, in both modes |
| EstadoDeMemoria.RedondeoEsElMenor | TP-2020/Delibird/Broker/memoria.c:694-704 | the size of a partition is that of the message or, with buddies, the least power of two of at least two that holds it; it fits a memory exactly when some such power does |
| EstadoDeMemoria.LibresSegunUsados | TP-2020/Delibird/Broker/memoria.c:60-171 | two reachable states with the same used partitions have the same free ones |
| EstadoDeMemoria.SinMensajesUnaLibre | TP-2020/Delibird/Broker/memoria.c:60-129 | a reachable state without messages has one free partition, the whole memory |
| EstadoDeMemoria.SinMensajesHayLugar | TP-2020/Delibird/Broker/memoria.c:404-443 | with no message left there is room exactly for what fits the memory, so evicting ends the search |
| EstadoDeMemoria.ConMensajesNoEntraTodo | TP-2020/Delibird/Broker/memoria.c:404-443 | while a message is left there is no room for the whole memory |
| EstadoDeMemoria.HistoriaAvanza | TP-2020/Delibird/Broker/memoria.c:421-440 | one more eviction extends the account: what went is a prefix in FIFO or timestamp order and, in buddy mode, no shorter prefix would have made room |
| EstadoDeMemoria.QuedaLimpia | TP-2020/Delibird/Broker/memoria.c:98-126 | an eviction leaves no byte of the message outside the partitions still in use |
| Corrimiento.CorrerConserva | TP-2020/Delibird/Broker/memoria.c:206-240 | sliding the messages between two consecutive free partitions keeps the canonical tiling, with one grown partition in place of the two |
| Compactacion.HayMensajeEn | TP-2020/Delibird/Broker/memoria.c:222-231 | until the next free partition is reached some message starts where the walk stands, so the walk advances |
| Compactacion.ImagenCorrida | TP-2020/Delibird/Broker/memoria.c:228-236 | the memmove and the moved pointers together keep every message's bytes, order and length |
| BusquedaDeParticion.LibresSonTramos | TP-2020/Delibird/Broker/memoria.c:60-171 | in both modes the list of free partitions holds exactly the maximal free stretches that the messages leave, each once |
| BusquedaDeParticion.PlegarLasPrimeras | TP-2020/Delibird/Broker/memoria.c:186-200 | folding the head pair of the sorted free list is the first step of what a compaction makes of the messages, which depends on them alone |
| BusquedaDeParticion.SeEncuentraSii | TP-2020/Delibird/Broker/memoria.c:404-443 | going by the messages before it, a search ends with room if and only if the request fits the memory and every compaction it comes to meets one or two maximal free stretches (one at least, if compactions fold) |
| BusquedaDeParticion.LaPrimeraCompactacion | TP-2020/Delibird/Broker/memoria.c:411-440 | under FIFO, or LRU with the messages in order of use, the first compaction of a request meets the list without its first messages, as many as the frequency; if fewer evictions make room there is none, and exactly those messages go |
| BusquedaDeParticion.UnSoloOrden | TP-2020/Delibird/Broker/memoria.c:38-57 | messages used at different times have one order by timestamp, so under LRU too it is known which go |
| BusquedaDeParticion.SoloDesalojos | TP-2020/Delibird/Broker/memoria.c:404-443 | with buddies, or with frequency -1, a search that makes room with messages left only evicts: the fewest, in order, and nothing moves |
| BusquedaDeParticion.DespuesDeCompactar | TP-2020/Delibird/Broker/memoria.c:411-440 | a compaction after as many evictions as the frequency; if it makes no room, another at once, and from what that leaves the search goes on as a new one |
| BusquedaDeParticion.AntesDeCadaUno | TP-2020/Delibird/Broker/memoria.c:411-440 | with frequency 0 there is a compaction before each eviction |
| BrokerMemoria.Memoria.constructor | TP-2020/Delibird/Broker/memoria.c:12-20 | the initial state meets the invariant: one free partition of the whole size, every byte blank |
| BrokerMemoria.Memoria.TomarPartiendo | TP-2020/Delibird/Broker/memoria.c:497-510 | the splitting loop ends with a partition of the asked exponent reserved, the rest canonical and no message touched |
| BrokerMemoria.Memoria.TomarSinPartir | TP-2020/Delibird/Broker/memoria.c:488-495 | the dynamic branch reserves exactly the bytes asked for at the start of the partition and keeps the invariant |
| BrokerMemoria.Memoria.ObtenerPosicionLibre | TP-2020/Delibird/Broker/memoria.c:465-519 | finds a partition if and only if the messages leave room; of the listed free ones that hold the request it takes the smallest with best fit and otherwise the first by position; every message is kept |
| BrokerMemoria.Memoria.ObtenerParticionCompaniero | TP-2020/Delibird/Broker/memoria.c:131-162 | takes the buddy off the free list if and only if it is there whole, and nothing else |
| BrokerMemoria.Memoria.Unificar | TP-2020/Delibird/Broker/memoria.c:164-171 | the listed partition becomes the union with its buddy |
| BrokerMemoria.Memoria.ConsolidarBuddySystem | TP-2020/Delibird/Broker/memoria.c:105-129 | giving a partition back reaches the canonical form, blanks exactly its bytes and keeps the other messages |
| BrokerMemoria.Memoria.ConsolidarParticionesDinamicas | TP-2020/Delibird/Broker/memoria.c:60-103 | the same in dynamic mode, with at most one free partition more or less |
| BrokerMemoria.Memoria.EliminarParticionFIFO | TP-2020/Delibird/Broker/memoria.c:22-36 | evicts the first message, blanks its bytes, keeps the rest in order and the invariant |
| BrokerMemoria.Memoria.EliminarParticionLRU | TP-2020/Delibird/Broker/memoria.c:38-57 | evicts one of least timestamp; the rest stays, sorted by timestamp |
| BrokerMemoria.Memoria.CorrerPunteros | TP-2020/Delibird/Broker/memoria.c:206-231 | the walk of mover_particion ends at the next free partition and moves exactly the messages before it |
| BrokerMemoria.Memoria.MoverParticion | TP-2020/Delibird/Broker/memoria.c:206-248 | exact new message list and free list, invariant once the first partition is removed, every message's bytes kept |
| BrokerMemoria.Memoria.Compactar | TP-2020/Delibird/Broker/memoria.c:173-204 | as written: does nothing with one free partition, folds exactly two keeping all messages and blanking the free bytes, and fails if and only if there is another number of them; the messages left are a function of those before |
| BrokerMemoria.Memoria.PlegarParticionesLibres | TP-2020/Delibird/Broker/memoria.c:186-200 | mover_particion over the head pair until one is left: its size is the sum of the free sizes, it ends where the last one did, all messages kept |
| BrokerMemoria.Memoria.CompactarSegun | TP-2020/Delibird/Broker/memoria.c:173-204 | either compaction fails if and only if the messages before it leave a number of maximal free stretches it cannot take, and otherwise leaves one |
| BrokerMemoria.Memoria.BusquedaParticionLibre | TP-2020/Delibird/Broker/memoria.c:404-443 | the driver ends; it finds a partition if and only if the rounded size fits the memory and every compaction of the request, as the messages before the call decide them, can be made (so always in buddy mode); what is left is what that search leaves, the partition is where the fit places it, and in buddy mode the evicted are the shortest prefix that makes room; total for requests that fit when compactions fold and the frequency is not zero |
| BrokerMemoria.Memoria.Almacenar | TP-2020/Delibird/Broker/memoria.c:557-602 | the new message is the last one with its bytes, in a partition of its length or, with buddies, of the least power of two of at least two that holds it; the others are those the search left, unchanged; success if and only if the request fits and every compaction it comes to can be made, which with buddies is that some such power fits the memory |
| BrokerMemoria.Memoria.ReservarYDevolver | TP-2020/Delibird/Broker/memoria.c:105-129 | reserving a partition and giving it back restores the same free set, in both modes |
| BrokerMemoria.Memoria.ActualizarTimestamp | TP-2020/Delibird/Broker/serverBroker.c:292-294 | using a message again changes its timestamp only and keeps the invariant |
| CorridasDeMemoria.AtenderUno | TP-2020/Delibird/Broker/serverBroker.c:90-113 | in any mode and with any frequency a request succeeds if and only if, going by the messages before it, it fits and every compaction it comes to can be made; then it is the last kept, and every kept message is one that was brought, byte for byte; one sent again changes its timestamp under LRU and nothing under FIFO |
| CorridasDeMemoria.Atender | TP-2020/Delibird/Broker/memoria.c:404-443 | any run from a new cache goes on to the first request that, going by the messages kept before it, cannot be served; in buddy mode, with frequency 1 or -1, or with compactions that fold, that is the first that does not fit; every resident message keeps its bytes, and no byte of the evicted ones is left |
| CorridasDeMemoria.SeReenviaLoGuardado | TP-2020/Delibird/Broker/serverBroker.c:251-300 | a message still in the cache, whatever was evicted or moved since, is re-sent so that a late subscriber reads it as brought, if and only if its lengths can be read back |
| FallaDeMemoria.NoSeAtiende | TP-2020/Delibird/Broker/memoria.c:186-194 | after five messages of which the first and the third were used longest ago, a request for the whole memory comes to a compaction with three free stretches |
| FallaDeMemoria.CorrerLaFalla | TP-2020/Delibird/Broker/memoria.c:404-443 | a run on a new cache (LRU, frequency 2) in which every message fits: it fails as written, and does not with compactions that fold |
| Numeros.AtoiItoa | TP-2018/src/sample-socket/socket.c:142-144 | atoi of a number printed by string_itoa is the number, whatever follows its digits |
| Numeros.UnNumero | TP-2018/src/sample-socket/socket.c:260-313 | a number is printed in base ten, the highest digit first |
| Tramas.RunFunction | TP-2018/src/sample-socket/socket.c:260-313 | the two buffers filled in the loop end as the frame: count, name, sizes, arguments |
| Tramas.UnaTrama | TP-2018/src/sample-socket/socket.c:260-313 | the frame of a call with two arguments, written out |
| Tramas.PaqueteEstable | TP-2018/src/sample-socket/socket.c:94-213 | once a frame is complete, bytes after it do not change it |
| Tramas.ConsumirPorPartes | TP-2018/src/sample-socket/socket.c:94-213 | parsing a stream in two parts, with the bytes the first left over, is parsing it whole |
| Tramas.SanoPorPartes | TP-2018/src/sample-socket/socket.c:107-132 | whether all the heads of a stream can be taken in does not depend on where it is cut |
| Tramas.PaqueteDeTrama | TP-2018/src/sample-socket/socket.c:115-116 | what the reader takes for the first frame has the number of arguments its first digit says; with fewer than ten it is the call itself |
| Tramas.CantidadLeidaMenor | TP-2018/src/sample-socket/socket.c:115-116 | the count read is the real one if and only if there are fewer than ten arguments |
| Tramas.IdaYVuelta | TP-2018/src/sample-socket/socket.c:94-313 | reading a printed stream gives back exactly the calls, with nothing left over, if and only if none has ten arguments or more; and then its heads can be taken in if and only if no name has a byte of 128 or more |
| Tramas.DiezArgumentos | TP-2018/src/sample-socket/socket.c:115-116 | a call with ten arguments is dispatched with one |
| Tramas.UnaEnie | TP-2018/src/sample-socket/socket.c:112-122 | a call without arguments named with the two bytes of n with tilde is not read |
| ReceptorDeTramas.Receptor.ArmarCabecera | TP-2018/src/sample-socket/socket.c:107-132 | scanning the buffer keeps what is known of an unfinished head, and stops on the first byte of the body; it fails if and only if a byte of the head is 128 or more |
| ReceptorDeTramas.Receptor.PartirCabecera | TP-2018/src/sample-socket/socket.c:137-144 | a complete head is split into the count, the name and the sizes, and the sizes added up |
| ReceptorDeTramas.Receptor.CompletarCuerpo | TP-2018/src/sample-socket/socket.c:134-167 | with the head complete, dispatches exactly when the body is whole and hands back the bytes past it |
| ReceptorDeTramas.CortarArgumentos | TP-2018/src/sample-socket/socket.c:172-181 | the loop cuts the body into the arguments the sizes give |
| ReceptorDeTramas.Receptor.Despachar | TP-2018/src/sample-socket/socket.c:169-207 | dispatches that one call and returns to the initial state |
| ReceptorDeTramas.Receptor.Analizar | TP-2018/src/sample-socket/socket.c:93-210 | one turn dispatches the first whole frame, if there is one, and what is to be analysed next is shorter, so the turns end; it fails if and only if the head it is in cannot be taken in |
| ReceptorDeTramas.Receptor.Recibir | TP-2018/src/sample-socket/socket.c:85-213 | one recv dispatches the whole frames and keeps exactly the rest, if and only if all the heads in it can be taken in |
| ReceptorDeTramas.Receptor.RecibirTodo | TP-2018/src/sample-socket/socket.c:72-213 | any number of recv dispatch what parsing the joined bytes at once would, if and only if all the heads in them can be taken in |
| ReceptorDeTramas.Transmitir | TP-2018/src/sample-socket/socket.c:28-313 | for every list of calls and every way of cutting the stream into non-empty pieces, exactly those calls are dispatched if and only if none has ten arguments or more and no name a byte of 128 or more, and then the parser is back in its initial state |
| Lsm.MejorDeEsElMasNuevo | TP-2019/Lissandra-Project/Lissandra-File-System/src/consolaLissandra.c:566-610 | the scan with a running maximum ends on a record of the key that none of the list is newer than |
| Lsm.SelectEsEntre | TP-2019/Lissandra-Project/Lissandra-File-System/src/consolaLissandra.c:539-669 | SELECT is the best of memtable, .tmp, .tmpc and the key's partition, the earlier source winning ties |
| Lsm.DumpConservaSelect | TP-2019/Lissandra-Project/Lissandra-File-System/src/libLissandra.c:780-851 | a dump never changes the timestamp answered, and leaves the record alone if and only if memtable and dumped files do not tie on it |
| Lsm.RenombrarConservaSelect | TP-2019/Lissandra-Project/Lissandra-File-System/src/libLissandra.c:882-912 | renaming .tmp to .tmpc is never seen by a SELECT |
| Lsm.ActualizarEsEntre | TP-2019/Lissandra-Project/Lissandra-File-System/src/libLissandra.c:1086-1135 | merging a record makes the partition's best the better of the two, the partition's on ties |
| Lsm.MezclarConserva | TP-2019/Lissandra-Project/Lissandra-File-System/src/libLissandra.c:1086-1135 | merging keeps every key at most once and only in partition key mod P |
| Lsm.CompactarConservaSelect | TP-2019/Lissandra-Project/Lissandra-File-System/src/libLissandra.c:866-922 | a compaction keeps the partitioning and the timestamp answered, and the record if and only if dumped files and partition do not tie on it |
| Lsm.TodaCorrida | TP-2019/Lissandra-Project/Lissandra-File-System/src/libLissandra.c:780-922 | after any run of inserts, dumps and compactions, SELECT answers with the greatest timestamp inserted for the key |
| Lsm.TodaCorridaSinEmpates | TP-2019/Lissandra-Project/Lissandra-File-System/src/libLissandra.c:780-922 | and with that very record, when no two records of a key share a timestamp |
| Lsm.UnEmpateSeVe | TP-2019/Lissandra-Project/Lissandra-File-System/src/libLissandra.c:1113-1113 | two runs from a new table in which a tie makes a dump, and a compaction, change the answer |
| LineasDeBloque.LeerLinea | TP-2019/Lissandra-Project/Lissandra-File-System/src/libLissandra.c:1081-1086 | splitting a dumped line by semicolons gives back the record |
| LineasDeBloque.ComoSeEscribe | TP-2019/Lissandra-Project/Lissandra-File-System/src/libLissandra.c:780-851 | the line of a record, written out: time, key and value between semicolons, and a newline |
| LineasDeBloque.LineasDeTexto | TP-2019/Lissandra-Project/Lissandra-File-System/src/libLissandra.c:1162-1193 | the lines read of a file's text are those of its records, in order |
| Cortes.TrozosSonCorte | TP-2019/Lissandra-Project/Lissandra-File-System/src/libLissandra.c:1213-1225 | the canonical cut has n over B blocks rounded up, at least one, all full but the last, which is empty only if alone, and joins to the text |
| Cortes.CorteEsTrozos | TP-2019/Lissandra-Project/Lissandra-File-System/src/libLissandra.c:1213-1285 | it is the only cut with full pieces and a last one that is not empty unless alone |
| Cortes.AgregarEsTrozos | TP-2019/Lissandra-Project/Lissandra-File-System/src/libLissandra.c:657-755 | appending a record, whole or cut in two, keeps the cut canonical if and only if what the last block holds and the record fit two blocks together |
| Cortes.MeterRegistrosEnLaLista | TP-2019/Lissandra-Project/Lissandra-File-System/src/libLissandra.c:1162-1193 | read block by block, the list holds the lines of what was read so far, the last perhaps incomplete |
| Cortes.LeerPorFragmentos | TP-2019/Lissandra-Project/Lissandra-File-System/src/libLissandra.c:1048-1078 | the reader of a compaction and of a SELECT returns the lines of the file if and only if no record goes on past a whole block |
| Cortes.CorteAlcanza | TP-2019/Lissandra-Project/Lissandra-File-System/src/consolaLissandra.c:702-740 | files of lines no longer than a block, cut canonically, always meet that condition |
| Cortes.TresFragmentos | TP-2019/Lissandra-Project/Lissandra-File-System/src/consolaLissandra.c:702-740 | a record over three blocks does not |
| Disco.Bloques.BuscarBloqueLibre | TP-2019/Lissandra-Project/Lissandra-File-System/src/libLissandra.c:561-575 | takes the first free block and no other, or -1 if and only if there is none |
| Disco.Bloques.LiberarBloques | TP-2019/Lissandra-Project/Lissandra-File-System/src/libLissandra.c:521-559 | exactly the listed bits are cleared and those blocks emptied |
| Archivos.Archivador.EstablecerBloque | TP-2019/Lissandra-Project/Lissandra-File-System/src/libLissandra.c:499-519 | a new file owns one block that was free, if and only if there was one |
| Archivos.Archivador.PrimerNoLleno | TP-2019/Lissandra-Project/Lissandra-File-System/src/libLissandra.c:657-675 | the search for a block that is not full finds the last one, or none when that is full |
| Archivos.Archivador.InsertarRegistro | TP-2019/Lissandra-Project/Lissandra-File-System/src/libLissandra.c:635-778 | a record of any length is written over the old blocks and at most a free one, if and only if the hole of the last is enough or there is a free one; the file stays canonically cut if and only if what goes into the new block fits it, as it does for every record of at most a block |
| Archivos.Archivador.ReservarArrayBloques | TP-2019/Lissandra-Project/Lissandra-File-System/src/libLissandra.c:583-588 | reserves that many distinct empty blocks, if and only if there are so many |
| Archivos.Archivador.TamanioTotal | TP-2019/Lissandra-Project/Lissandra-File-System/src/libLissandra.c:1411-1426 | the sum of the lengths of the records of a partition |
| Archivos.Archivador.EscribirRegistro | TP-2019/Lissandra-Project/Lissandra-File-System/src/libLissandra.c:1232-1285 | one turn of the rewriting loop never indexes past the reserved blocks, and keeps what is written so far canonically cut if and only if what goes into the next block fits it |
| Archivos.Archivador.EscribirParticion | TP-2019/Lissandra-Project/Lissandra-File-System/src/libLissandra.c:1213-1310 | the rewritten partition holds exactly its records over as many blocks as they take, if and only if there are so many and no record leaves more than a block in the last |
| Archivos.TieneInsertar | TP-2019/Lissandra-Project/Lissandra-File-System/src/libLissandra.c:499-519 | a file of blocks that were free, put among the live ones, keeps the bitmap as the disjoint union of the block lists and every text as it was |
| Archivos.TieneQuitar | TP-2019/Lissandra-Project/Lissandra-File-System/src/libLissandra.c:521-559 | and so does taking out a file whose blocks were freed |
| Lissandra.LeerLoCortado | TP-2019/Lissandra-Project/Lissandra-File-System/src/consolaLissandra.c:702-740 | over the blocks of a file that holds some records both readers return the lines of those records |
| Lissandra.BuscarEn | TP-2019/Lissandra-Project/Lissandra-File-System/src/consolaLissandra.c:742-766 | the scan of the lines of a file is that of its records |
| Lissandra.ActualizarLista | TP-2019/Lissandra-Project/Lissandra-File-System/src/libLissandra.c:1086-1135 | the scan that edits a list of lines while walking it takes the record in, replaces an older one or ignores it |
| Lissandra.MezclarLineas | TP-2019/Lissandra-Project/Lissandra-File-System/src/libLissandra.c:1057-1137 | every line of a .tmpc goes into the list of its key's partition |
| Lissandra.Tabla.constructor | TP-2019/Lissandra-Project/Lissandra-File-System/src/libLissandra.c:140-159 | a new table owns one empty block for each partition and holds nothing |
| Lissandra.Tabla.InsertarValores | TP-2019/Lissandra-Project/Lissandra-File-System/src/consolaLissandra.c:514-537 | the record goes to the end of the memtable |
| Lissandra.Tabla.LeerArchivo | TP-2019/Lissandra-Project/Lissandra-File-System/src/libLissandra.c:1036-1078 | reading a file block by block with fragments joined gives the lines of its records |
| Lissandra.Tabla.LeerParticion | TP-2019/Lissandra-Project/Lissandra-File-System/src/libLissandra.c:985-1009 | and so does reading it into a list |
| Lissandra.Tabla.BuscarLineaMaxima | TP-2019/Lissandra-Project/Lissandra-File-System/src/consolaLissandra.c:671-776 | the running maximum over a file's blocks is that over its records |
| Lissandra.Tabla.Seleccionar | TP-2019/Lissandra-Project/Lissandra-File-System/src/consolaLissandra.c:539-669 | the answer read from memtable and blocks is that of the table as records |
| Lissandra.Tabla.Volcar | TP-2019/Lissandra-Project/Lissandra-File-System/src/libLissandra.c:780-851 | a dump moves the whole memtable to one new file, the last, if and only if the blocks are enough, and does nothing with an empty memtable; block ownership and the other files are kept |
| Lissandra.Tabla.RenombrarTemporales | TP-2019/Lissandra-Project/Lissandra-File-System/src/libLissandra.c:882-912 | every .tmp becomes a .tmpc, with its blocks |
| Lissandra.Tabla.DescargarRegistros | TP-2019/Lissandra-Project/Lissandra-File-System/src/libLissandra.c:969-1022 | the partitions' records are read in order and exactly their blocks freed |
| Lissandra.Tabla.ActualizarRegistros | TP-2019/Lissandra-Project/Lissandra-File-System/src/libLissandra.c:1024-1160 | all the .tmpc are merged in order and their blocks freed |
| Lissandra.Tabla.ModificarParticiones | TP-2019/Lissandra-Project/Lissandra-File-System/src/libLissandra.c:1195-1311 | the partitions are rewritten over blocks of their own, if and only if the free ones are enough |
| Lissandra.Tabla.CompactarTabla | TP-2019/Lissandra-Project/Lissandra-File-System/src/libLissandra.c:866-922 | the table on disk becomes the compaction of the table as records, owning exactly its blocks, if and only if the blocks are enough; the memtable is not touched, and without dumped files nothing is |
| Lissandra.Tabla.Destruir | TP-2019/Lissandra-Project/Lissandra-File-System/src/consolaLissandra.c:352-392 | after a drop the set bits are exactly the blocks of the other tables |
| CuentaDeBloques.TodosLosBloques | TP-2019/Lissandra-Project/Lissandra-File-System/src/libLissandra.c:499-588 | free, owned and foreign blocks add up to all the blocks |
| CuentaDeBloques.SigueAcotado | TP-2019/Lissandra-Project/Lissandra-File-System/src/libLissandra.c:866-922 | dumps and compactions never increase the records of a table, and leave no empty dumped file |
| CorridasDeTabla.AlcanzanParaCompactar | TP-2019/Lissandra-Project/Lissandra-File-System/src/libLissandra.c:969-1225 | with a block for each partition and record, a compaction finds the blocks it takes |
| CorridasDeTabla.CorrerYSeleccionar | TP-2019/Lissandra-Project/Lissandra-File-System/src/consolaLissandra.c:539-669 | any run of inserts, dumps and compactions on the block files, then a SELECT: greatest timestamp inserted, and the very record without ties; no block is ever missing if there is a free one for each partition and insert |
| Objetivos.Contar | TP-2020/Delibird/Team/libTeam.c:90-131 | reading a trainer's pieces gives one node per species with its count |
| Objetivos.Absorber | TP-2020/Delibird/Team/libTeam.c:298-347 | the global list becomes the sum of the two, species by species |
| Objetivos.RestarUno | TP-2020/Delibird/Team/libTeam.c:639-658 | one of the species is taken, with its node when it was the last; a species without a node is left alone |
| Objetivos.EstablecerCantidadMaxima | TP-2020/Delibird/Team/libTeam.c:239-282 | the pass that removes nodes under its index visits each once, discounts it, and adds up what remains |
| Objetivos.QuedaLaDiferencia | TP-2020/Delibird/Team/libTeam.c:239-282 | without excess the list is objectives minus pokemons held, and the cap on captures is how many are missing |
| Objetivos.ElExcesoQuedaNegativo | TP-2020/Delibird/Team/libTeam.c:239-282 | a species held in excess leaves a node below zero |
| Leyes.CapturasQueQuedan | TP-2020/Delibird/Team/libTeam.c:239-282 | under the laws the captures trainers may still make add up to those the Team still needs |
| Leyes.CapturaConserva | TP-2020/Delibird/Team/serverTeam.c:484-492 | a capture by a trainer that may still capture, of a species still needed, keeps both conservation laws |
| Leyes.IntercambioConserva | TP-2020/Delibird/Team/planificador.c:639-707 | an exchange keeps both laws, and what is missing overall drops by one, or by two if both needed what they got |
| Leyes.HayIntercambio | TP-2020/Delibird/Team/planificador.c:488-534 | with nothing left to capture, a trainer that lacks something finds another that holds it in excess, and both have something to give |
| Leyes.SinIntercambioSiiSatisfechos | TP-2020/Delibird/Team/planificador.c:488-534 | no pair has anything to exchange if and only if everybody is satisfied, and then nobody holds an excess |
| Leyes.RecibirNoMueveLaMeta | TP-2020/Delibird/Team/libTeam.c:599-658 | receiving a pokemon, wanted or not, does not change what a trainer is to end up with |
| Secuencias.SacarEnMedio | TP-2020/Delibird/Team/planificador.c:219-231 | taking an element out of a list leaves what was before it and what was after it, in that order |
| Secuencias.SacarDejaElResto | TP-2020/Delibird/Team/planificador.c:219-231 | so the first occurrence goes, wherever it is, and the order of the others is kept |
| Entrenadores.TomaElPrimero | TP-2020/Delibird/Team/planificador.c:540-562 | what a trainer would take of a list is the first name there that it lacks |
| Entrenadores.Entrenador.constructor | TP-2020/Delibird/Team/libTeam.c:38-227 | the trainer read from the configuration meets the law of trainers if and only if it holds no objective species in excess |
| Entrenadores.Entrenador.AgregarPokemonComoObtenido | TP-2020/Delibird/Team/libTeam.c:599-637 | what is received goes to what was wanted, or to what is not needed |
| Entrenadores.Entrenador.AnotarCaptura | TP-2020/Delibird/Team/serverTeam.c:486-492 | what a capture changes in its trainer, and what it leaves alone |
| Entrenadores.Entrenador.NecesitaUnPokemonDelOtro | TP-2020/Delibird/Team/planificador.c:540-562 | true exactly when some name in the other's excess is lacked; the note is then the name at a place of that list with no lacked name before it |
| Entrenadores.Entrenador.TomarDe | TP-2020/Delibird/Team/planificador.c:665-696 | the one that waited takes what it noted, or the first thing there is; it fails if and only if its note was freed |
| Entrenadores.Entrenador.EjecutarIntercambio | TP-2020/Delibird/Team/planificador.c:639-707 | exact lists of both after the exchange, which fails if and only if the waiting one's note was freed |
| Entrenadores.ExcesoDePiezas | TP-2020/Delibird/Team/libTeam.c:239-282 | the discounted list is well formed if and only if no species is held in excess |
| Team.Equipo.AgregarEntrenador | TP-2020/Delibird/Team/libTeam.c:38-347 | adding a trainer leaves exactly the Team with one more at the end, in NEW, keeps the laws and the queues, and adds what it lacks to the global objectives |
| Team.Equipo.SalirACapturar | TP-2020/Delibird/Team/planificador.c:88-101 | going for a pokemon leaves the trainer at the end of BLOCKED with its CATCH, the other queues and the laws kept |
| Team.Equipo.OlvidarElCatch | TP-2020/Delibird/Team/serverTeam.c:466-475 | a failed attempt changes nothing that the laws or the queues speak of |
| Team.Equipo.AccionesAlCapturarConExito | TP-2020/Delibird/Team/serverTeam.c:484-508 | the laws and the queues are kept and the species leaves the global objectives; what was lacked joins what the trainer has, what was not is the last of its excess, and it may capture one less; it leaves BLOCKED exactly if it lacks nothing more, and the others wait in the order they did; it fails if and only if the species was not there |
| Team.Equipo.Capturar | TP-2020/Delibird/Team/planificador.c:80-101 | an attempt from NEW or BLOCKED, failed or not, keeps the invariant of the Team; the trainer ends at the end of BLOCKED or, lacking nothing, in FINISHED, the others wait in the order they did, only its own lists change, and as the capture says; exact failure |
| Team.Equipo.BuscarIntercambio | TP-2020/Delibird/Team/planificador.c:488-534 | finds the first pair in the order of the two loops in which one wants something, says who moves, and changes no other note; finds none if and only if no pair wants anything |
| Colas.ElParDelOrden | TP-2020/Delibird/Team/planificador.c:488-534 | the pair found over the queue of trainers is the one that the two loops pick over the order of the queue, with who moves |
| Team.Equipo.Elegir | TP-2020/Delibird/Team/planificador.c:488-534 | the pair, who moves and the notes left are those that the lists and the order of BLOCKED decide, and none is found if and only if they decide none |
| Team.Equipo.AsignarYMover | TP-2020/Delibird/Team/planificador.c:564-580 | the one that moves leaves BLOCKED for the end of READY and both are taken |
| Team.Equipo.Despachar | TP-2020/Delibird/Team/planificador.c:398-412 | the first of READY, and only it, goes to EXECUTE |
| Team.Equipo.TransicionarAlFinalizar | TP-2020/Delibird/Team/planificador.c:716-773 | after an exchange a trainer is in FINISHED if it lacks nothing and in BLOCKED otherwise, free again, in the right place of its queue |
| Team.Equipo.Ronda | TP-2020/Delibird/Team/planificador.c:473-773 | with everybody quiet: nothing happens if and only if no blocked trainer wants another's excess; otherwise the first pair of the queue exchanges: the one that moves takes the first name it lacks in the excess of the other and gives the first that the other lacks or, if none, its own first; both end free, in FINISHED if they lack nothing, with the rest of the queue in its order and nobody else changed; it fails if and only if the waiting one lacks nothing of the other's and kept a name |
| Team.Equipo.RepetirRondas | TP-2020/Delibird/Team/planificador.c:473-537 | the repeated search ends, after at most as many exchanges as pokemons are missing; it succeeds if and only if no exchange that the initial lists and queue lead to meets a freed name |
| Team.Equipo.ResolverDeadlocks | TP-2020/Delibird/Team/planificador.c:473-714 | once everything is captured the exchanges end with every trainer holding exactly what it was to have, if and only if none that the initial lists and queue lead to meets a freed name: always if the name is nulled after use, and always if nobody holds more than one pokemon in excess |
| Tratos.UnIntercambio | TP-2020/Delibird/Team/planificador.c:639-714 | an exchange keeps the laws and every trainer in its queue, and fewer pokemons are missing |
| Tratos.UnaCaptura | TP-2020/Delibird/Team/serverTeam.c:484-508 | a capture keeps them too |
| Tratos.NadaSiiSatisfechos | TP-2020/Delibird/Team/planificador.c:488-534 | with nothing to capture and everybody quiet there is nothing to exchange if and only if all are satisfied |
| Resolucion.EleccionSirve | TP-2020/Delibird/Team/planificador.c:498-534 | the pair the loops pick may exchange, and they pick none only if no two of the list want anything of each other |
| Resolucion.LaPrimeraEleccion | TP-2020/Delibird/Team/planificador.c:498-534 | the pair the loops pick is the first, in their order, of which one wants something, and the first of the two moves if it is the one that wants |
| Resolucion.LugaresDelPar | TP-2020/Delibird/Team/planificador.c:488-534 | the pair picked is the first of the queue, by places, of two that are free, hold something in excess and one of which lacks something of the other's |
| Resolucion.ALosQueLesToca | TP-2020/Delibird/Team/planificador.c:498-534 | of that pair the first moves if it lacks something of the other's; the exchange goes well exactly if the one that waits lacks something of the mover's or kept no name |
| Resolucion.ElCambio | TP-2020/Delibird/Team/planificador.c:639-773 | what the exchange leaves, by the lists: which two names change hands, what each trainer has, lacks and holds in excess, its state and note, and the order of the queue |
| Resolucion.NadaQueElegir | TP-2020/Delibird/Team/planificador.c:488-534 | with everybody quiet the search picks no pair if and only if no blocked trainer wants what another has in excess |
| Resolucion.UnTratoMas | TP-2020/Delibird/Team/planificador.c:564-773 | the exchange of the pair picked keeps the laws and the order of the queue coherent, and fewer pokemons are missing |
| Resolucion.AnulandoSeResuelve | TP-2020/Delibird/Team/planificador.c:704-706 | if the name were nulled after use, every run of exchanges from a quiet Team would end well |
| Resolucion.UnoDeMasSeResuelve | TP-2020/Delibird/Team/planificador.c:473-773 | as written, every run ends well from a Team with everything captured in which nobody that waits holds more than one pokemon in excess |
| Resolucion.LaMetaNoSeMueve | TP-2020/Delibird/Team/planificador.c:639-714 | over any run of exchanges what each trainer is to end up with stays the same |
| Capturas.InicioEnRegla | TP-2020/Delibird/Team/libTeam.c:38-347 | the Team of any configuration meets the laws and the queues, whatever its trainers want and hold |
| Capturas.LaGuarda | TP-2020/Delibird/Team/planificador.c:80-101 | the trainers that may be sent to capture are exactly those that may still capture something |
| Capturas.ElIntento | TP-2020/Delibird/Team/planificador.c:80-101 | what an attempt leaves: its trainer at the end of the queue or out of it, the others in their order, its lists as the capture says |
| Capturas.LaCaptura | TP-2020/Delibird/Team/serverTeam.c:484-508 | and what a capture by one that waits leaves: its place, unless it lacks nothing more |
| Capturas.CapturasEnRegla | TP-2020/Delibird/Team/serverTeam.c:435-508 | captures in any order that ask for no more than is needed keep the laws and the queues, and take exactly their species off what is needed |
| Capturas.LaMetaTrasCapturas | TP-2020/Delibird/Team/serverTeam.c:484-508 | whoever captures what, each trainer is to end up with the same |
| Capturas.AnulandoTerminan | TP-2020/Delibird/Team/planificador.c:704-706 | with the name nulled after use, every Team that captures what it needed has all its trainers end |
| Capturas.ConUnoDeMasTerminan | TP-2020/Delibird/Team/planificador.c:473-773 | and so, as written, has every Team whose captures leave nobody with more than one in excess |
| CorridasDeEquipo.UnaCapturaMas | TP-2020/Delibird/Team/serverTeam.c:435-508 | an attempt is made only by a trainer that may still capture; it fails if and only if it succeeds with a species nobody needs; exact lists, order of the queue and objectives after it |
| CorridasDeEquipo.HacerCapturas | TP-2020/Delibird/Team/serverTeam.c:435-508 | a run of captures goes through if and only if those that take effect, with their repetitions, are among what the Team still needed; exact state after it |
| CorridasDeEquipo.LeTocanSusObjetivos | TP-2020/Delibird/Team/libTeam.c:239-282 | and that is exactly its objectives when it starts with nothing outside them |
| CorridasDeEquipo.Correr | TP-2020/Delibird/Team/planificador.c:473-714 | from the configuration, through any captures, to the exchanges: the captures go through if and only if none that takes effect is of a species no longer needed; with everything captured, every trainer ends with what it started with and the rest of its objectives, nothing else, if and only if no exchange that the configuration and the captures lead to meets a freed name |
| FallaDeEquipo.SeTraban | TP-2020/Delibird/Team/serverTeam.c:484-508 | five trainers and seven captures of what others want leave everybody in BLOCKED in that order, with nothing left to capture |
| FallaDeEquipo.LaFallaSeAlcanza | TP-2020/Delibird/Team/planificador.c:704-706 | from that configuration and those captures the search has two pairs trade, and the third exchange must read a freed name |
| FallaDeEquipo.CorrerLaFalla | TP-2020/Delibird/Team/planificador.c:473-773 | the whole run from that configuration fails as written, and ends well with the name nulled after use |
| Bytes.EnteroIdaYVuelta | TP-2019/Lissandra-Project/Pool-Memorias/Memoria1/src/libMemoria.c:783-799 | an integer copied as little-endian bytes reads back as itself when it fits them |
| Marcos.MarcoIdaYVuelta | TP-2019/Lissandra-Project/Pool-Memorias/Memoria1/src/libMemoria.c:783-799 | a frame gives back the key, the time and the value written in it |
| Marcos.EnElMarco | TP-2019/Lissandra-Project/Pool-Memorias/Memoria1/src/libMemoria.c:783-799 | two bytes of key, the lower first, eight of time, the value from the tenth on and zeros after it |
| Marcos.HayMarcoLibre | TP-2019/Lissandra-Project/Pool-Memorias/Memoria1/src/libMemoria.c:813-825 | some bit is clear if and only if fewer pages are kept than there are frames |
| Marcos.DosPaginasNo | TP-2019/Lissandra-Project/Pool-Memorias/Memoria1/src/libMemoria.c:813-825 | while pages and set bits are in bijection no two pages share a frame |
| Marcos.NuevaPagina | TP-2019/Lissandra-Project/Pool-Memorias/Memoria1/src/libMemoria.c:973-987 | a page in a frame that was free keeps the bijection and adds one cell, changing no other |
| Marcos.ReescribirPagina | TP-2019/Lissandra-Project/Pool-Memorias/Memoria1/src/libMemoria.c:716-721 | writing over a page's frame changes its cell and no other |
| Marcos.PaginaMenos | TP-2019/Lissandra-Project/Pool-Memorias/Memoria1/src/libMemoria.c:885-897 | a page given up takes its cell with it and no other, and its frame can be cleared |
| ModeloDePaginas.SeEnviaLoModificado | TP-2019/Lissandra-Project/Pool-Memorias/Memoria1/src/libMemoria.c:903-955 | a journal sends an insert if and only if that key is in memory, modified, with that value |
| ModeloDePaginas.CadaUnoUnaVez | TP-2019/Lissandra-Project/Pool-Memorias/Memoria1/src/libMemoria.c:903-955 | and each once |
| ModeloDePaginas.InsertarBien | TP-2019/Lissandra-Project/Pool-Memorias/Memoria1/src/libMemoria.c:693-781 | after an insert the key has the value, any other key has what it had or is gone, and if gone and modified it was sent; keys stay unique |
| ModeloDePaginas.PasoConserva | TP-2019/Lissandra-Project/Pool-Memorias/Memoria1/src/libMemoria.c:653-1048 | every operation keeps tables and keys unique and no more cells than frames, and never unsends |
| ModeloDePaginas.LoModificadoNoSePierde | TP-2019/Lissandra-Project/Pool-Memorias/Memoria1/src/libMemoria.c:693-1048 | a modified page stays modified, or is sent, or its table is dropped, or its key is brought again |
| ModeloDePaginas.LoModificadoLlega | TP-2019/Lissandra-Project/Pool-Memorias/Memoria1/src/libMemoria.c:693-1048 | over any run without those two last cases what was modified is modified at the end, or the very value it held when it left the memory was sent and is still among what was sent |
| ModeloDePaginas.TraerPisaLoModificado | TP-2019/Lissandra-Project/Pool-Memorias/Memoria1/src/libMemoria.c:268-281 | bringing a key that is in memory and modified always loses the change |
| ReemplazoDePaginas.LaMasVieja | TP-2019/Lissandra-Project/Pool-Memorias/Memoria1/src/libMemoria.c:840-883 | where some page may be given up there is an oldest of them, the first of the tables if several |
| ReemplazoDePaginas.HayVictimaSii | TP-2019/Lissandra-Project/Pool-Memorias/Memoria1/src/libMemoria.c:840-883 | the LRU has a page to give up exactly when one is not modified and was used before 99999999999999, and it is the oldest of those |
| ReemplazoDePaginas.InsertarSegunElLugar | TP-2019/Lissandra-Project/Pool-Memorias/Memoria1/src/libMemoria.c:693-781 | an insert, by what is found before and after: over a key that is there, or with room, nothing else changes and nothing is sent; a full memory gives up exactly the oldest page that may be and sends nothing; with none of those it sends what was modified and keeps the new page alone |
| MemoriaPaginada.Memoria.constructor | TP-2019/Lissandra-Project/Pool-Memorias/Memoria1/src/libMemoria.c:303-342 | an empty memory with as many frames as fit |
| MemoriaPaginada.Memoria.GuardarPaginaEnMP | TP-2019/Lissandra-Project/Pool-Memorias/Memoria1/src/libMemoria.c:783-799 | three copies at a moving offset write one frame and leave the others |
| MemoriaPaginada.Memoria.SetearMarcoLibreEnBitarray | TP-2019/Lissandra-Project/Pool-Memorias/Memoria1/src/libMemoria.c:813-825 | sets the first clear bit, or none when all are set |
| MemoriaPaginada.Memoria.BuscarVictima | TP-2019/Lissandra-Project/Pool-Memorias/Memoria1/src/libMemoria.c:840-883 | the scan finds the page not modified and used before 99999999999999 that was used longest ago, the first of those, and none if and only if there is none |
| MemoriaPaginada.Memoria.AlgoritmoLRU | TP-2019/Lissandra-Project/Pool-Memorias/Memoria1/src/libMemoria.c:840-901 | the victim's page goes, the other cells stay, and its frame is the one to use |
| MemoriaPaginada.Memoria.EnviarModificadas | TP-2019/Lissandra-Project/Pool-Memorias/Memoria1/src/libMemoria.c:903-939 | what is read back from the frames and sent is what the model says |
| MemoriaPaginada.Memoria.Journal | TP-2019/Lissandra-Project/Pool-Memorias/Memoria1/src/libMemoria.c:903-971 | afterwards the memory is empty and every bit clear |
| MemoriaPaginada.Memoria.BuscarOCrearSegmento | TP-2019/Lissandra-Project/Pool-Memorias/Memoria1/src/libMemoria.c:355-419 | the table is there afterwards, and nothing else changed |
| MemoriaPaginada.Memoria.Actualizar | TP-2019/Lissandra-Project/Pool-Memorias/Memoria1/src/libMemoria.c:716-721 | the key's cell has the new value and time and its old flag |
| MemoriaPaginada.Memoria.CrearPagina | TP-2019/Lissandra-Project/Pool-Memorias/Memoria1/src/libMemoria.c:973-987 | a new cell, flagged, in the frame set aside |
| MemoriaPaginada.Memoria.InsertarOActualizar | TP-2019/Lissandra-Project/Pool-Memorias/Memoria1/src/libMemoria.c:693-781 | frames and bitmap after it are those of the insert of the model: the key has the value and the time; with room or over a key that is there nothing else changes; a full memory gives up exactly the unmodified page used longest ago, sending nothing, and only without one is everything modified sent and the rest forgotten |
| MemoriaPaginada.Memoria.Insertar | TP-2019/Lissandra-Project/Pool-Memorias/Memoria1/src/libMemoria.c:653-691 | the same for the key's low 16 bits; a value too long changes nothing |
| MemoriaPaginada.Memoria.Traer | TP-2019/Lissandra-Project/Pool-Memorias/Memoria1/src/libMemoria.c:268-281 | an insert whose page ends unflagged |
| MemoriaPaginada.Memoria.Seleccionar | TP-2019/Lissandra-Project/Pool-Memorias/Memoria1/src/libMemoria.c:527-609 | reads back from the frame the value and time of the key under the upper-case name, if it is there |
| MemoriaPaginada.LasMayusculas | TP-2019/Lissandra-Project/Pool-Memorias/Memoria1/src/libMemoria.c:529-529 | a name in upper case is the same but for capitals and has no small letters; one that had none is left as it was |
| MemoriaPaginada.SeleccionarTrasInsertar | TP-2019/Lissandra-Project/Pool-Memorias/Memoria1/src/libMemoria.c:527-550 | a select after an insert under the same name finds that value when the name is in upper case, and otherwise nothing that the insert brought |
| MemoriaPaginada.Memoria.Drop | TP-2019/Lissandra-Project/Pool-Memorias/Memoria1/src/libMemoria.c:1001-1048 | the table's cells go, the others stay, and exactly its frames are freed |
| MemoriaPaginada.Correr | TP-2019/Lissandra-Project/Pool-Memorias/Memoria1/src/libMemoria.c:653-1048 | any run of requests on the frames and the bitmap is a run of the model, so every property of runs holds of them |
| DespachoDeMensajes.Llega | TP-2020/Delibird/Broker/memoria.c:557-629 | a message that arrives keeps the account of sends right, going at once to its queue's subscribers |
| DespachoDeMensajes.SeSuscribe | TP-2020/Delibird/Broker/serverBroker.c:251-300 | a new subscriber gets every resident message of its queue and the account stays right |
| DespachoDeMensajes.UnaVezACadaUno | TP-2020/Delibird/Broker/serverBroker.c:245-301 | in NEW, APPEARED, CATCH and CAUGHT each resident message was sent once to each subscriber and to nobody else, with one flagged entry each |
| DespachoDeMensajes.Broker.EnviarMensajeASuscriptos | TP-2020/Delibird/Broker/serverBroker.c:770-797 | every entry ends flagged and exactly those that were not are sent |
| DespachoDeMensajes.Broker.Publicar | TP-2020/Delibird/Broker/memoria.c:557-629 | a message published goes to each subscriber of its queue, keeping the invariant |
| DespachoDeMensajes.Broker.ObtenerSuscriptor | TP-2020/Delibird/Broker/libBroker.c:104-119 | finds the process by address without regard to case; reads a null address if and only if a Game Boy is met before it |
| Secuencias.IgualesSii | TP-2020/Delibird/Broker/libBroker.c:114-114 | texts are equal without regard to case exactly when they are as long and have the same letter at each place, capital or small |
| DespachoDeMensajes.EsElSii | TP-2020/Delibird/Broker/libBroker.c:104-119 | a subscriber is the process looked for exactly when both its address and its port are, letter by letter; a Game Boy is nobody |
| DespachoDeMensajes.Broker.ReenviarANuevo | TP-2020/Delibird/Broker/serverBroker.c:251-300 | every resident message matched with the queue gets one flagged entry and one send |
| DespachoDeMensajes.Broker.ReenviarAConocido | TP-2020/Delibird/Broker/serverBroker.c:251-300 | nothing is sent again; fails if and only if some matched message has no entry with the socket |
| DespachoDeMensajes.Broker.Suscribir | TP-2020/Delibird/Broker/serverBroker.c:245-301 | first time: added and sent what is resident; later: only the socket changes; never fails for a process found in a queue other than LOCALIZED; exact failures |
| DespachoDeMensajes.Broker.Atender | TP-2020/Delibird/Broker/serverBroker.c:245-301 | each event: a published message of that kind is the last kept, with a flagged entry and a send for each subscriber of its queue; an eviction takes one message; a process that is not in the list is its last and gets what is kept for its queue; one that is changes its socket and nothing else; exact failures |
| DespachoDeMensajes.LocalizedQueVuelve | TP-2020/Delibird/Broker/serverBroker.c:868-870 | a process of LOCALIZED that comes back after a GET always fails |
| CorridasDeDespacho.SinDesalojos | TP-2020/Delibird/Broker/memoria.c:557-629 | without evictions every message published is kept |
| CorridasDeDespacho.VivosUnaVez | TP-2020/Delibird/Broker/memoria.c:557-629 | the messages kept are in the order in which they were published |
| CorridasDeDespacho.AnotadosSonLasPrimeras | TP-2020/Delibird/Broker/serverBroker.c:245-301 | the list of a queue holds the first subscription of each process to it, each once, in order |
| CorridasDeDespacho.SuPrimeraVez | TP-2020/Delibird/Broker/libBroker.c:104-119 | whoever subscribes has a first subscription to that queue |
| CorridasDeDespacho.EsPrimeraSii | TP-2020/Delibird/Broker/libBroker.c:104-119 | a subscription is the first of its process exactly when nobody in the list has its address and port |
| CorridasDeDespacho.TropiezaSii | TP-2020/Delibird/Broker/libBroker.c:104-119 | the search over the list meets a Game Boy exactly when one subscribed before the process first did, or it never did |
| CorridasDeDespacho.GetAjenoSii | TP-2020/Delibird/Broker/serverBroker.c:251-300 | a process that comes back to LOCALIZED is not found in some GET kept exactly when none of those that message is for has its socket |
| CorridasDeDespacho.LlegaMensaje | TP-2020/Delibird/Broker/memoria.c:557-629 | a message published is for the processes in the list of its queue, and sent to them |
| CorridasDeDespacho.LlegaSuscriptor | TP-2020/Delibird/Broker/serverBroker.c:251-300 | a process that subscribes for the first time is sent the messages kept of its queue (of GET, for LOCALIZED) |
| CorridasDeDespacho.UnEventoMas | TP-2020/Delibird/Broker/serverBroker.c:245-301 | one event on the broker goes well if and only if the events before it do not say that it breaks, and keeps it what the events say |
| CorridasDeDespacho.Correr | TP-2020/Delibird/Broker/serverBroker.c:245-301 | any run of publications, evictions and subscriptions, by the events alone: it goes well if and only if no event breaks; then the messages kept are those published less those evicted, of their kinds and in order; each queue holds the processes that subscribed to it, each once (a Game Boy each time), with the socket of its last subscription; a message was sent to a process exactly when it was subscribed to its queue as the message came or subscribed while it was kept, once, and nothing else was sent; in the four queues each resident message has one flagged entry for each subscriber |
| Serializacion.LoEscritoEntra | TP-2020/Delibird/Broker/memoria.c:657-692 | the computed length is that of what is written or, if that is shorter, the minimum partition; and the length of each kind of message |
| Serializacion.EscribirEnCache | TP-2020/Delibird/Broker/memoria.c:276-361 | the image of the message is written from the partition's start and no byte outside it |
| DisposicionDeMensajes.CuatroBytes | TP-2020/Delibird/Broker/memoria.c:276-361 | an integer takes four bytes, the lowest first |
| DisposicionDeMensajes.EnLaCache | TP-2020/Delibird/Broker/memoria.c:276-361 | where each field of the image lies: length of the name, name, and the numbers or each coordinate |
| DisposicionDeMensajes.EnElEnvio | TP-2020/Delibird/Broker/serverBroker.c:582-756 | where each field of what is sent lies: the length counts the final zero of the name, and the identifier is the last or, for LOCALIZED and CAUGHT, the first |
| Serializacion.LoLeidoDeUnLargo | TP-2020/Delibird/Broker/serverBroker.c:582-756 | a length read through its first byte as a signed char is right up to 127, huge for a low byte of 128 or more, and too small otherwise |
| Serializacion.SerializarMensaje | TP-2020/Delibird/Broker/serverBroker.c:582-756 | the copies at a moving offset make the series that the round trip is proved about, or run out of bytes |
| Serializacion.Deserializar | TP-2020/Delibird/utilCommons/serverSide/serverUtils.c:220-415 | the moving stream pointer reads the fields the round trip is proved about |
| Serializacion.VuelveNuevo | TP-2020/Delibird/utilCommons/serverSide/serverUtils.c:319-349 | a NEW message with a name of up to 127 characters is read as stored, with its id |
| Serializacion.VuelveAparicion | TP-2020/Delibird/utilCommons/serverSide/serverUtils.c:220-317 | the same for APPEARED and CATCH |
| Serializacion.VuelveConsulta | TP-2020/Delibird/utilCommons/serverSide/serverUtils.c:351-369 | the same for GET, whose reader does not read the identifier |
| Serializacion.VuelveResultado | TP-2020/Delibird/utilCommons/serverSide/serverUtils.c:274-290 | the same for CAUGHT |
| Serializacion.VuelveLocalizado | TP-2020/Delibird/utilCommons/serverSide/serverUtils.c:371-415 | the same for LOCALIZED, under its condition on the coordinates |
| Serializacion.NombreLargo | TP-2020/Delibird/Broker/serverBroker.c:582-756 | no message with a longer name is read as stored |
| Serializacion.DemasiadasCoordenadas | TP-2020/Delibird/Broker/serverBroker.c:582-756 | nor is a LOCALIZED with coordinates, not all zero, past the low byte of their number |
| Serializacion.IdaYVuelta | TP-2020/Delibird/Broker/serverBroker.c:582-756 | what is sent from the cache is read as it was stored if and only if the name has at most 127 characters and the coordinates past the low byte of their number are none or zero |

## Left out

- Compactar: after the failing branch nothing is said of the result, as the original reads a null node there.
- EscribirRegistro: the records written are not empty, as no line is; after one that leaves more than a block in the last the original goes on with a count that is off, and the model stops there.
- EscribirParticion: the same, and with too few free blocks the original goes on with a block numbered -1.
- MemoriaPaginada.Memoria.constructor: a memory smaller than one frame, in which nothing can be kept, is excluded.
- InsertarValores: records are taken to have no semicolon or newline in the value and a line no longer than a block; the original does not check it.
- ModificarParticiones: with too few free blocks the original goes on with a block numbered -1; the model stops there.
- AgregarEntrenador: a trainer that starts with more of a species than it wants is outside the laws; what its list becomes is `Objetivos.ElExcesoQuedaNegativo`.
- SerializarMensaje: names with a zero byte in them, which a C string cannot have, and images of 4 GB less 512 bytes or more.
- Sockets, threads, mutexes, semaphores, logs, configuration files, consoles, the dump of the cache and the debug print (which also sorts the free list): inputs become parameters, regions under a mutex are atomic steps, and there is no scheduling but the order of calls.
- Integer width: sizes and counters are unbounded except where a cast decides the result (16-bit keys, 32-bit fields, the signed char); `pow` is a power of integers.
- `list_sort` is any correct sort, and over the messages a parameter, so that what it does with ties is whatever it is; where best fit finds two partitions of the same size either may be taken; buddy mode is for memories whose size is a power of two of at least two.
- Framing: `send` takes the whole message; names are not empty and have no comma, and neither names nor arguments have a zero byte, being C strings; pointers are little-endian and wider than a byte; after a byte of 128 or more in a head nothing is said, as the append reads past the pointer; malformed heads, atoi's signs and blanks, and the lookup of the function by name are not modelled.
- List nodes are values, so freeing and sharing them is not modelled, except for `pokemonACambiar` and the null nodes named above.
- Lissandra: one table over shared blocks. The pairing of memtable and table lists by index, lookup by substring, re-reading the disk at start, a SELECT in the middle of a compaction and the contents of Metadata are not modelled. A record with timestamp 0 is never selected, as in the source; the final newline of a line read from a file is not part of the answer.
- Team: names are compared for equality where the source uses string_contains. Positions, distances, quantum, estimators, the choice of who goes for which pokemon, the GET and LOCALIZED messages, the backup list and the count of captures in course are not modelled: any trainer that may capture may be the one, and READY and EXECUTE are passed through within one call.
- Paged memory: replies to the kernel, what the file system answers and the text of a timestamp; the double is its eight bytes and a real number.
- Broker delivery: acknowledgements, failed sends and the bytes sent are elsewhere or left out; eviction takes any message, since which one is decided by the cache.
- Other programs of the repository (S-AFA, CPU, DAM, FM9, MDJ, the Lissandra kernel, Game Card, Game Boy, tp0): mostly plumbing between processes, or the same ideas in a simpler form.
