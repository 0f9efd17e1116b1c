# health-db core, modelled in Dafny

This project models the sequential core of the kyriosdata health-db
substrate (Java). It covers:

- two slot allocators that let many producers hand log events to one consumer:
  - the `RingBuffer`;
  - its predecessor `Shared`;
- the buffer pool's LRU list and the pin/unpin counting of `BufferManager`;
- the bit utilities of both `Bits` classes;
- the byte staging of the three logging classes;
- the time-of-day encoder of `DateFormat` and `InstanteFormatter`;
- the two configuration-file parsers.

Each Java class is modelled by one module, and each module lives in its own file:

| file | module | Java |
|---|---|---|
| `base.dfy` | `Base` | `Option`, `Result` (a value or the exception Java would throw), bytes, distinctness |
| `slots.dfy` | `Slots` | a counter reduced to a slot of a circular array |
| `bits.dfy` | `Bits` | `system-hdb` `Bits` and the shared `Bits` |
| `ring_buffer.dfy` | `RingBuffer` | `RingBuffer` |
| `shared.dfy` | `Shared` | `Shared` |
| `lru.dfy` | `Lru` | `LRU` |
| `buffer_manager.dfy` | `BufferManager` | `BufferManager` (`lock`, `unlock`, `start`) |
| `staging.dfy` | `Staging` | `ByteBuffer`, `copyToBuffer` (`Log`, `Buffers`), `transferToBuffer`, `flush`/`descarrega` |
| `log_records.dfy` | `LogRecords` | level tables and `consome` of `Log` and both `Logging` classes |
| `time_format.dfy` | `TimeFormat` | `DateFormat`, `InstanteFormatter` |
| `config.dfy` | `Config` | both `Configuracao` classes |

## How the model is built

State is immutable. Each Java method is a pure function from the old state to
the new state, or a method when it loops. A Java exception becomes a `Failure`.

**Java integers.** A Java `int` used as a bit pattern is a `bv32`, and a shift
distance counts modulo 32. The counters `ff`, `lf`, `firstFree` and
`primeiroParaTratar` grow without bound. Java reduces these counters with the
mask `size - 1`; the model writes that mask as `% size`, and `Bits.MaskIsModulo`
shows the two agree for the default size 1024.

**Ring buffer.**
- The consumer hook `consome(slot, ultimo)` is modelled by two things:
  - a trace of `Consumed(slot, ultimo)` events;
  - the set `failing` of slots whose consumption throws.
- `aloca` on a full ring whose flush frees nothing never returns; in the model it ends as `Blocked`.

**Logging.** The log file is the sequence of chunks it has been handed. A
`Stage` is the buffer together with those chunks, and `Written` is every byte
the stage has received: the chunks, then the buffer's content.

**Time and configuration.** Two inputs stand in for what the model does not
compute:
- `Midnight` is what the clock libraries answer for an instant: its date in the JVM's default time zone, and the UTC midnights that begin and end its UTC day.
- `File` is the file system's answer: missing, size unreadable, or the size and the lines.

**Flushing the ring.**
- `realFlush` repeats passes (`while (true)`) until a pass finds nothing produced or the last `consome` of a pass throws. `RingBuffer.SecondPassEmpty` proves that a second pass finds nothing, so `RingBuffer.RealFlush` equals one `RingBuffer.Pass`.
- An exception thrown by `consome` on the last slot of a pass is not caught:
  - it reaches the caller of `flush`;
  - it leaves `working` set, so every later `flush` is a no-op;
  - `lf` is not advanced.
  See `RingBuffer.FlushOutcome` and `RingBuffer.StuckAfterRaise`.
- `Shared.consume` can return with `working` still set; see Findings.

## Model

| member | source | states |
|---|---|---|
| Bits.Value | system-hdb/src/main/java/com/github/kyriosdata/healthdb/system/Bits.java:23-25 | `value(x, n)` is 0 or 1 |
| Bits.ValueReadsBit | system-hdb/src/main/java/com/github/kyriosdata/healthdb/system/Bits.java:23-25 | `value(x, n)` is 1 exactly when bit `n & 31` of `x` is set, and 0 exactly when it is clear |
| Bits.ClsAt | system-hdb/src/main/java/com/github/kyriosdata/healthdb/system/Bits.java:37-39 | after `cls(x, n)` a bit is set iff it is not bit `n` and was set in `x` |
| Bits.SetAt | system-hdb/src/main/java/com/github/kyriosdata/healthdb/system/Bits.java:50-52 | after `set(x, n)` a bit is set iff it is bit `n` or was set in `x` |
| Bits.ClsClearsOnlyBitN | src/main/java/com/github/kyriosdata/shared/Bits.java:38-40 | `cls` clears bit `n` and leaves each of the other 31 bits as it was |
| Bits.SetSetsOnlyBitN | src/main/java/com/github/kyriosdata/shared/Bits.java:50-52 | `set` sets bit `n` and leaves each of the other 31 bits as it was |
| Bits.ClsSetIdempotent | src/main/java/com/github/kyriosdata/shared/Bits.java:35-36 | `cls` of a clear bit, and `set` of a set bit, return `x` unchanged |
| Bits.ReapplyRestores | system-hdb/src/test/java/com/github/kyriosdata/healthdb/system/BitsTest.java:17-36 | re-applying `cls` or `set` according to the bit `value` reads gives back the original word |
| Bits.PowerOfTwoIff | system-hdb/src/main/java/com/github/kyriosdata/healthdb/system/Bits.java:62-64 | `isPowerOfTwo` accepts a word iff it is `1 << k` for some `k < 31`, i.e. it is positive with exactly one bit set |
| Bits.PowerPasses | system-hdb/src/main/java/com/github/kyriosdata/healthdb/system/Bits.java:62-64 | every positive power of two an `int` can hold passes the test |
| Bits.OnlyPowersPass | system-hdb/src/main/java/com/github/kyriosdata/healthdb/system/Bits.java:62-64 | a word that passes is one of the 31 powers 1, 2, 4, …, 2^30 |
| Bits.PowerExamples | system-hdb/src/test/java/com/github/kyriosdata/healthdb/system/BitsTest.java:50-59 | 1, 2, 4 and 1024 pass; 3, 1025, 0 and `Integer.MIN_VALUE` do not |
| Bits.ValueAt | system-hdb/src/main/java/com/github/kyriosdata/healthdb/system/Bits.java:23-25 | `value(x, i)` reads the `i`-th entry of the word's list of bits, lowest first |
| Bits.BitsToString | system-hdb/src/main/java/com/github/kyriosdata/healthdb/system/Bits.java:74-94 | the rendering has 39 characters: the 32 bits from bit 31 down to bit 0, with a space between groups of four and none at the end |
| Bits.ShowBits | src/main/java/com/github/kyriosdata/shared/Bits.java:58-68 | the rendering has 40 characters: the 32 bits from bit 0 up, with a space after every fourth, the last one included |
| Bits.MaskIsModulo | ringbuffer/src/main/java/com/github/kyriosdata/healthdb/concurrency/RingBuffer.java:164-165 | masking a counter with `SIZE - 1` gives the counter modulo 1024 |
| RingBuffer.Available | ringbuffer/src/main/java/com/github/kyriosdata/healthdb/concurrency/RingBuffer.java:138-140 | `entradasDisponiveis` lies in `[0, size]` and is `size` minus the counters handed out but not yet consumed |
| RingBuffer.Fresh | ringbuffer/src/main/java/com/github/kyriosdata/healthdb/concurrency/RingBuffer.java:63-66 | a new ring is valid, has every entry available, no counter outstanding and the guard released |
| RingBuffer.Create | ringbuffer/src/main/java/com/github/kyriosdata/healthdb/concurrency/RingBuffer.java:88-99 | construction succeeds iff the size is a positive power of two; the ring then has that size and all of it available |
| RingBuffer.CreateAsWritten | ringbuffer/src/main/java/com/github/kyriosdata/healthdb/concurrency/RingBuffer.java:63-70 | as written, construction succeeds iff `isPowerOfTwo` holds, but the ring then reports `SIZE` entries available whatever its size |
| RingBuffer.CreateIsFresh | ringbuffer/src/main/java/com/github/kyriosdata/healthdb/concurrency/RingBuffer.java:88-99 | every accepted size yields the fresh ring of that size |
| RingBuffer.CreateRejects | ringbuffer/src/test/java/com/github/kyriosdata/healthdb/concurrency/RingBufferTest.java:39-43 | -1 and 3 are refused; 1 and 2^30 are accepted |
| RingBuffer.Produz | ringbuffer/src/main/java/com/github/kyriosdata/healthdb/concurrency/RingBuffer.java:128-130 | `produz(v)` fails iff `v` is outside the array; otherwise it marks slot `v` produced and changes nothing else |
| RingBuffer.Produzido | ringbuffer/src/main/java/com/github/kyriosdata/healthdb/concurrency/RingBuffer.java:149-151 | `produzido(v)` fails iff `v` is outside the array |
| RingBuffer.ProduzidoReadsProduz | ringbuffer/src/main/java/com/github/kyriosdata/healthdb/concurrency/RingBuffer.java:149-151 | after `produz(v)`, `produzido` answers true for `v` and as before for every other slot |
| RingBuffer.TotalDaProducao | ringbuffer/src/main/java/com/github/kyriosdata/healthdb/concurrency/RingBuffer.java:232-241 | the count is the length of the maximal run of produced slots starting at `first`: all inside are produced, the one after it (if in range) is not, and the run stays within `[first, last]` |
| RingBuffer.ScanIsLive | ringbuffer/src/main/java/com/github/kyriosdata/healthdb/concurrency/RingBuffer.java:198 | the scan starting at `lf + 1` visits the outstanding counters oldest first |
| RingBuffer.RunSpec | ringbuffer/src/main/java/com/github/kyriosdata/healthdb/concurrency/RingBuffer.java:202-206 | on a valid ring, the run counted covers only outstanding counters, all produced, and stops at the first unproduced one |
| RingBuffer.Pass | ringbuffer/src/main/java/com/github/kyriosdata/healthdb/concurrency/RingBuffer.java:197-228 | a pass keeps size, `ff` and the guard; with nothing to consume it changes nothing, and a pass that completes advances `lf` |
| RingBuffer.RealFlush | ringbuffer/src/main/java/com/github/kyriosdata/healthdb/concurrency/RingBuffer.java:195-230 | `realFlush` keeps size, `ff` and the guard |
| RingBuffer.SecondPassEmpty | ringbuffer/src/main/java/com/github/kyriosdata/healthdb/concurrency/RingBuffer.java:197-206 | `realFlush` amounts to one pass: after a pass that completes, the next pass would find nothing, so the loop ends there |
| RingBuffer.PassTrace | ringbuffer/src/main/java/com/github/kyriosdata/healthdb/concurrency/RingBuffer.java:211-225 | a pass calls `consome` once per slot of the run, oldest first, with `ultimo` set on the last call only |
| RingBuffer.PassRing | ringbuffer/src/main/java/com/github/kyriosdata/healthdb/concurrency/RingBuffer.java:212-228 | the pass raises iff the last slot's consumer throws; it clears the run's flags, and only a completed pass advances `lf` by the run length |
| RingBuffer.PassSpec | ringbuffer/src/main/java/com/github/kyriosdata/healthdb/concurrency/RingBuffer.java:195-230 | the trace and the resulting ring of a pass with a non-empty run, together |
| RingBuffer.PassOnValid | ringbuffer/src/main/java/com/github/kyriosdata/healthdb/concurrency/RingBuffer.java:195-230 | on a valid ring, a completed pass keeps the ring valid and makes exactly the run's length more entries available |
| RingBuffer.Flush | ringbuffer/src/main/java/com/github/kyriosdata/healthdb/concurrency/RingBuffer.java:178-188 | `flush` while the guard is held does nothing; otherwise the guard is held afterwards iff the last consumer call threw |
| RingBuffer.FlushOnePass | ringbuffer/src/main/java/com/github/kyriosdata/healthdb/concurrency/RingBuffer.java:181-187 | an unguarded `flush` takes the guard, runs one pass and releases the guard only when the pass completed |
| RingBuffer.FlushSpec | ringbuffer/src/main/java/com/github/kyriosdata/healthdb/concurrency/RingBuffer.java:212-221 | `flush` consumes exactly the maximal produced run of outstanding counters, oldest first, flagging only the last |
| RingBuffer.FlushOutcome | ringbuffer/src/main/java/com/github/kyriosdata/healthdb/concurrency/RingBuffer.java:224-228 | `flush` raises iff the run's last consumer throws, and then keeps the guard and `lf`; otherwise the ring stays valid with the run's length freed; with nothing produced nothing changes |
| RingBuffer.PassClearsRun | ringbuffer/src/main/java/com/github/kyriosdata/healthdb/concurrency/RingBuffer.java:214 | after a completed pass every consumed slot reads unproduced |
| RingBuffer.PassKeepsRest | ringbuffer/src/main/java/com/github/kyriosdata/healthdb/concurrency/RingBuffer.java:212-221 | a completed pass leaves the flag of every slot outside the run unchanged |
| RingBuffer.FlushClears | ringbuffer/src/main/java/com/github/kyriosdata/healthdb/concurrency/RingBuffer.java:212-221 | after a completed `flush` the run's slots read unproduced and every later outstanding slot keeps its flag |
| RingBuffer.Aloca | ringbuffer/src/main/java/com/github/kyriosdata/healthdb/concurrency/RingBuffer.java:159-171 | a returned slot is the slot of counter `ff`, `ff` moves on by one, and the slot reads unproduced |
| RingBuffer.AlocaFree | ringbuffer/src/main/java/com/github/kyriosdata/healthdb/concurrency/RingBuffer.java:161-166 | with an entry available, `aloca` returns a slot no outstanding counter occupies, adds exactly `ff` to the outstanding counters and makes one entry fewer available |
| RingBuffer.AlocaFull | ringbuffer/src/main/java/com/github/kyriosdata/healthdb/concurrency/RingBuffer.java:167-169 | on a full ring `aloca` flushes: it raises iff the flush does, spins iff the flush frees nothing, and otherwise returns the slot of `ff` |
| RingBuffer.NothingProducedBlocks | ringbuffer/src/test/java/com/github/kyriosdata/healthdb/concurrency/RingBufferTest.java:121-135 | a full ring with nothing produced cannot hand out a slot |
| RingBuffer.StuckAfterRaise | ringbuffer/src/main/java/com/github/kyriosdata/healthdb/concurrency/RingBuffer.java:181-183 | while the guard is held, `flush` does nothing and `aloca` on a full ring cannot proceed |
| RingBuffer.AlocaSeqDirect | ringbuffer/src/test/java/com/github/kyriosdata/healthdb/concurrency/RingBufferTest.java:45-62 | `k` allocations that fit return the slots of `ff`, `ff + 1`, … in order, clear exactly those flags and change nothing else |
| RingBuffer.FreshAllocatesInOrder | ringbuffer/src/test/java/com/github/kyriosdata/healthdb/concurrency/RingBufferTest.java:103-119 | a new ring of size `n` hands out slots 0, 1, …, n-1 and is then full |
| RingBuffer.FreshFills | ringbuffer/src/test/java/com/github/kyriosdata/healthdb/concurrency/RingBufferTest.java:137-178 | filling a fresh ring gives distinct slots, all unproduced, and leaves it valid, full and unguarded |
| RingBuffer.AsWrittenReusesLiveSlot | ringbuffer/src/main/java/com/github/kyriosdata/healthdb/concurrency/RingBuffer.java:66-70 | as written, a ring smaller than `SIZE` hands slot 0 out a second time while its first holder is still outstanding |
| RingBuffer.CorrectedStopsAtSize | ringbuffer/src/main/java/com/github/kyriosdata/healthdb/concurrency/RingBuffer.java:159-171 | with `size` used throughout, `size` allocations give distinct slots and the next one waits for a flush |
| Shared.Create | src/main/java/com/github/kyriosdata/shared/Shared.java:47-63 | construction fails iff the size is negative (the array allocation throws); the pool starts with every entry free and nothing outstanding |
| Shared.Reserve | src/main/java/com/github/kyriosdata/shared/Shared.java:97-103 | with an entry free, `reserve` returns `firstFree % size`, a slot no outstanding counter holds; one fewer entry is free and nothing else changes |
| Shared.Used | src/main/java/com/github/kyriosdata/shared/Shared.java:121-123 | `used(v)` fails iff `v` is outside the array; otherwise it marks `v` used and leaves every other flag alone |
| Shared.RunAsWritten | src/main/java/com/github/kyriosdata/shared/Shared.java:153-165 | the as-written scan never counts more than the outstanding counters |
| Shared.AdvanceAsWritten | src/main/java/com/github/kyriosdata/shared/Shared.java:182-192 | freeing the run adds its length to `totalFree` and keeps the pool valid |
| Shared.DrainAsWritten | src/main/java/com/github/kyriosdata/shared/Shared.java:140-195 | the drain loop only frees, only clears flags, and leaves `working` set exactly when something is still outstanding |
| Shared.ConsumeAsWritten | src/main/java/com/github/kyriosdata/shared/Shared.java:133-196 | `consume` while `working` is set changes nothing; otherwise it ends with `working` set iff entries remain outstanding, and never lowers `totalFree` |
| Shared.Advance | src/main/java/com/github/kyriosdata/shared/Shared.java:182-192 | freeing a run of length `t` moves both `totalFree` and `primeiroParaTratar` on by `t` |
| Shared.Run | src/main/java/com/github/kyriosdata/shared/Shared.java:160-165 | the run counted by the corrected scan never exceeds the outstanding counters |
| Shared.DrainFixed | src/main/java/com/github/kyriosdata/shared/Shared.java:140-195 | the corrected drain never lowers `totalFree` and always releases `working` |
| Shared.ConsumeFixed | src/main/java/com/github/kyriosdata/shared/Shared.java:133-196 | the corrected `consume` is a no-op while `working` is set and otherwise always releases it |
| Shared.SecondRoundEmpty | src/main/java/com/github/kyriosdata/shared/Shared.java:140-192 | after freeing a run, a second round of the loop finds nothing |
| Shared.ConsumeFixedOneRound | src/main/java/com/github/kyriosdata/shared/Shared.java:140-192 | the corrected `consume` amounts to freeing one run |
| Shared.ConsumeFixedSpec | src/main/java/com/github/kyriosdata/shared/Shared.java:150-192 | the corrected `consume` frees exactly the maximal run of used outstanding slots, clears their flags, advances both counters by its length and releases `working` |
| Shared.RoundAgrees | src/main/java/com/github/kyriosdata/shared/Shared.java:153-165 | when the outstanding range does not wrap past the array's end, the as-written scan and the corrected one free the same run |
| Shared.NoWrapAfterRound | src/main/java/com/github/kyriosdata/shared/Shared.java:153-154 | freeing part of a range that does not wrap leaves one that does not wrap |
| Shared.DrainAsWrittenNoWrap | src/main/java/com/github/kyriosdata/shared/Shared.java:140-195 | without wrap-around, the as-written drain frees the same run as the corrected one |
| Shared.AsWrittenAgreesWithoutWrap | src/main/java/com/github/kyriosdata/shared/Shared.java:133-196 | without wrap-around, the as-written and corrected `consume` give the same pool, except possibly for `working` |
| Shared.AsWrittenSticks | src/main/java/com/github/kyriosdata/shared/Shared.java:168-170 | as written, when the oldest outstanding slot is not used, `consume` frees nothing and leaves `working` set for good; the corrected one releases it |
| Shared.AsWrittenMissesWrappedRun | src/main/java/com/github/kyriosdata/shared/Shared.java:153-165 | as written, when the outstanding range wraps past the array's end, `consume` frees nothing and leaves `working` set |
| Shared.WrappedRunScenario | src/main/java/com/github/kyriosdata/shared/Shared.java:153-170 | in a four-entry pool with two used slots across the end, the as-written `consume` frees neither while the corrected one frees both |
| Lru.Create | object/src/main/java/com/github/kyriosdata/hdb/object/LRU.java:40-55 | the list holds `max(capacity, 2)` nodes valued 0, 1, … from head to tail, all with the sentinel key, and the map is empty; a negative capacity throws |
| Lru.BringToFront | object/src/main/java/com/github/kyriosdata/hdb/object/LRU.java:94-111 | the node moves to the head, the other nodes keep their relative order behind it, and a node already at the head leaves the list unchanged |
| Lru.BringToFrontKeeps | object/src/main/java/com/github/kyriosdata/hdb/object/LRU.java:94-111 | moving a node to the head only relinks: the multiset of nodes is unchanged and no node is duplicated |
| Lru.BringToFrontValid | object/src/main/java/com/github/kyriosdata/hdb/object/LRU.java:94-111 | moving any node to the head keeps the list and map well formed |
| Lru.TailToFront | object/src/main/java/com/github/kyriosdata/hdb/object/LRU.java:94-111 | moving the tail to the head rotates the list by one |
| Lru.UseAsWritten | object/src/main/java/com/github/kyriosdata/hdb/object/LRU.java:78-92 | `use(k)` returns the head's value afterwards and binds `k` to it; a bound key keeps its node; an unbound key takes the tail, whose old key (whatever it is) loses its binding |
| Lru.Use | object/src/main/java/com/github/kyriosdata/hdb/object/LRU.java:78-92 | corrected `use(k)`: the same results, with the tail's old key unbound only when it really maps to the tail |
| Lru.UseKeeps | object/src/main/java/com/github/kyriosdata/hdb/object/LRU.java:82-87 | a miss unbinds exactly the key held by the evicted node, and every other binding survives unchanged |
| Lru.UseAgreesWhenConsistent | object/src/main/java/com/github/kyriosdata/hdb/object/LRU.java:82-87 | while node keys and the map agree, the as-written and corrected `use` coincide, and a non-sentinel key keeps them in agreement |
| Lru.UseSeq | object/src/main/java/com/github/kyriosdata/hdb/object/LRU.java:78-92 | a sequence of corrected `use` calls returns one value per key and keeps the structure well formed |
| Lru.UseSeqAsWritten | object/src/main/java/com/github/kyriosdata/hdb/object/LRU.java:78-92 | a sequence of `use` calls as written returns one value per key and keeps the structure well formed |
| Lru.UseSeqAgrees | object/src/main/java/com/github/kyriosdata/hdb/object/LRU.java:78-92 | while node keys and the map agree and no key is the sentinel, a whole run of `use` as written equals the corrected run, values and final list alike |
| Lru.MissStep | object/src/test/java/com/github/kyriosdata/hdb/object/LRUTest.java:23-39 | with the corrected `use`, a miss rotates the tail to the head and unbinds no other unbound key |
| Lru.MissHead | object/src/main/java/com/github/kyriosdata/hdb/object/LRU.java:82-91 | with the corrected `use`, a miss hands out the tail node and moves it to the head |
| Lru.MissesRun | object/src/main/java/com/github/kyriosdata/hdb/object/LRU.java:78-92 | with the corrected `use`, a run of distinct unbound keys receives the tail node, then the tail of the list rotated by one, and so on |
| Lru.MissFirst | object/src/main/java/com/github/kyriosdata/hdb/object/LRU.java:82-91 | with the corrected `use`, the first miss of a run hands out the tail, rotates the list, and leaves the other keys unbound |
| Lru.TailRunCycles | object/src/main/java/com/github/kyriosdata/hdb/object/LRU.java:82-91 | those nodes are the list read back from its tail, repeating with period `n` |
| Lru.MissesTakeTails | object/src/test/java/com/github/kyriosdata/hdb/object/LRUTest.java:23-39 | with the corrected `use`, a run of distinct unbound keys takes the nodes from the tail backwards, and once every node is taken each key takes the node of the key `n` places earlier |
| Lru.EvictsFirstWhenFull | object/src/test/java/com/github/kyriosdata/hdb/object/LRUTest.java:23-39 | with the corrected `use`, on a new list of `n` buffers, `n` distinct keys receive pairwise distinct buffers and the next distinct key receives the first key's buffer |
| Lru.EvictsFirstWhenFullAsWritten | object/src/test/java/com/github/kyriosdata/hdb/object/LRUTest.java:23-39 | with `use` as written, on a new list of `n` buffers, `n` distinct non-sentinel keys receive pairwise distinct buffers and the next one the first key's buffer |
| Lru.FirstKeysDistinct | object/src/test/java/com/github/kyriosdata/hdb/object/LRUTest.java:10-21 | with the corrected `use`, up to `capacity` distinct keys on a new list receive pairwise distinct values |
| Lru.FirstKeysDistinctAsWritten | object/src/test/java/com/github/kyriosdata/hdb/object/LRUTest.java:10-21 | with `use` as written, up to `capacity` distinct non-sentinel keys on a new list receive pairwise distinct buffers |
| Lru.ReusedEvictedLast | object/src/test/java/com/github/kyriosdata/hdb/object/LRUTest.java:67-113 | with the corrected `use`, after a key is used, as many new keys as there are nodes take every other node first and its node last |
| Lru.HeadTakenLast | object/src/test/java/com/github/kyriosdata/hdb/object/LRUTest.java:67-113 | with the corrected `use`, as many new keys as there are nodes take the head node last and only then |
| Lru.FrontComesLast | object/src/test/java/com/github/kyriosdata/hdb/object/LRUTest.java:67-113 | taking the nodes from the tail, the head node comes last |
| Lru.SentinelKeyLost | object/src/main/java/com/github/kyriosdata/hdb/object/LRU.java:84 | as written, `use(MIN_VALUE)`, `use(1)`, `use(MIN_VALUE)` hands `MIN_VALUE` a second buffer; corrected, it gets its first buffer back |
| BufferManager.Start | object/src/main/java/com/github/kyriosdata/hdb/object/BufferManager.java:82-105 | `start(n)` fails iff `n` is negative; the pool then holds exactly buffers 0 … n-1, all unlocked |
| BufferManager.Lock | object/src/main/java/com/github/kyriosdata/hdb/object/BufferManager.java:165-199 | a locked block returns its buffer with one more reference; an unlocked one takes the first pooled buffer with one reference; other blocks and the buffer count are unchanged |
| BufferManager.Unlock | object/src/main/java/com/github/kyriosdata/hdb/object/BufferManager.java:217-233 | unlocking an unlocked block is a no-op; otherwise one reference goes, and the last one returns the buffer to the pool |
| BufferManager.LockKeepsPool | object/src/main/java/com/github/kyriosdata/hdb/object/BufferManager.java:165-199 | `lock` neither creates nor loses a buffer: locked and pooled buffers together stay the same set |
| BufferManager.UnlockKeepsPool | object/src/main/java/com/github/kyriosdata/hdb/object/BufferManager.java:217-233 | `unlock` neither creates nor loses a buffer |
| BufferManager.UnlockUndoesLock | object/src/main/java/com/github/kyriosdata/hdb/object/BufferManager.java:217-233 | `unlock` undoes `lock`: exactly for a locked block, and up to moving the buffer from the pool's front to its back for an unlocked one |
| BufferManager.RecountUndone | object/src/main/java/com/github/kyriosdata/hdb/object/BufferManager.java:171-175 | lock then unlock of a locked block restores the state |
| BufferManager.TakeUndone | object/src/main/java/com/github/kyriosdata/hdb/object/BufferManager.java:186-198 | lock then unlock of an unlocked block returns its buffer to the back of the pool |
| BufferManager.LockRepeat | object/src/main/java/com/github/kyriosdata/hdb/object/BufferManager.java:171-175 | `k` locks of one block pin one buffer and count `k` more references |
| BufferManager.BalancedUnlocksRestore | object/src/main/java/com/github/kyriosdata/hdb/object/BufferManager.java:225-232 | `k` unlocks after `k` locks restore the state, the buffer going to the back of the pool if it came from it |
| BufferManager.LockThenUnlocks | object/src/main/java/com/github/kyriosdata/hdb/object/BufferManager.java:225-228 | for a locked block, a lock followed by `k` unlocks equals `k - 1` unlocks |
| BufferManager.SingleBufferScenario | object/src/test/java/com/github/kyriosdata/hdb/object/BufferManagerTest.java:51-66 | with one buffer, locking block 987 twice returns buffer 0 both times, and two unlocks restore the pool |
| Staging.Allocate | logging/src/main/java/com/github/kyriosdata/healthdb/log/Logging.java:94 | a buffer of any non-negative capacity starts empty; a negative capacity throws |
| Staging.CopyToBuffer | src/main/java/com/github/kyriosdata/shared/Log.java:135-145 | copies the longest prefix of `payload[offset..]` that fits and returns the count left over, which is 0 iff it all fit; when not, the buffer ends full; an offset outside the payload throws |
| Staging.Flush | src/main/java/com/github/kyriosdata/shared/Log.java:112-119 | `flush` hands the buffer's content to the file as one chunk, empties the buffer, loses no byte, and counts the call when it is `Log`'s |
| Staging.TransferToBuffer | src/main/java/com/github/kyriosdata/shared/Log.java:92-105 | the bytes received are the old ones followed by `bytes`, none lost or duplicated; every flush inside the loop hands over a full buffer; a requested flush empties the buffer; each `Log` flush is counted |
| Staging.TransferEach | log-hdb/src/main/java/com/github/kyriosdata/healthdb/log/Logging.java:90-106 | transferring parts one after the other delivers their concatenation, and flushes nothing when it all fits |
| Staging.TransferParts | log-hdb/src/main/java/com/github/kyriosdata/healthdb/log/Logging.java:134-147 | parts transferred with the flush request on the last one deliver their concatenation; only full buffers are flushed before the requested final flush |
| LogRecords.Level4 | src/main/java/com/github/kyriosdata/shared/Log.java:19-20 | the `Log` level table holds the ASCII names INFO, WARN, FAIL |
| LogRecords.Level6 | logging/src/main/java/com/github/kyriosdata/healthdb/log/Logging.java:85-88 | the `Logging` level table holds " INFO ", " WARN ", " FAIL " |
| LogRecords.LevelTablesAgree | src/main/java/com/github/kyriosdata/shared/Log.java:147-160 | both tables name the same level at each index, `info`, `warn` and `fail` use their own names, and the names differ |
| LogRecords.SharedHead | src/main/java/com/github/kyriosdata/shared/Log.java:62-65 | the `Log` head is the 30-byte template with the level name at bytes 25..28 and every other byte kept |
| LogRecords.LoggingRecord | logging/src/main/java/com/github/kyriosdata/healthdb/log/Logging.java:147-160 | a `Logging` record is the timestamp, the 6-byte level name, the payload and a newline, in that order |
| LogRecords.ConsomeLog | src/main/java/com/github/kyriosdata/shared/Log.java:59-76 | `Log.consome` appends head, payload and newline, counts every flush, keeps the chunks already written, hands over only full buffers before a final flush that happens iff `ultimo`, and flushes nothing when the record fits |
| LogRecords.ConsomeLogging | logging/src/main/java/com/github/kyriosdata/healthdb/log/Logging.java:145-165 | `consome` appends exactly one record, flushes only full buffers, and flushes at the end iff `ultimo` |
| LogRecords.ConsomeLogHdb | log-hdb/src/main/java/com/github/kyriosdata/healthdb/log/Logging.java:90-106 | the same for log-hdb, whose final flush rides on the newline's transfer |
| LogRecords.RecordParts | logging/src/main/java/com/github/kyriosdata/healthdb/log/Logging.java:147-160 | the four parts the `Logging` classes transfer make up one record |
| LogRecords.ReusedBufferScenario | logging/src/test/java/com/github/kyriosdata/healthdb/log/LoggingTest.java:93-106 | "saúde" and "vida" fill a new 10-byte buffer without a flush; with a flush on the second they go to the file as one chunk |
| LogRecords.FillExactly | log-hdb/src/test/java/com/github/kyriosdata/healthdb/log/LoggingTest.java:87-100 | two transfers that fill an empty buffer exactly land side by side; with a flush on the second the whole array is one chunk |
| TimeFormat.ToIntKeeps | src/main/java/com/github/kyriosdata/shared/InstanteFormatter.java:73 | the `(int)` cast keeps any value an `int` can hold |
| TimeFormat.DigitsRecompose | src/main/java/com/github/kyriosdata/shared/DateFormat.java:116-123 | the nine digits recompose the milliseconds; each is a decimal digit (hours tens below 10 iff under 100 hours), and within a day the hour is below 24 |
| TimeFormat.Place | src/main/java/com/github/kyriosdata/shared/DateFormat.java:126-148 | the nine digits go to positions 11, 12, 14, 15, 17, 18, 20, 21, 22 and no other byte changes |
| TimeFormat.WriteSoma | src/main/java/com/github/kyriosdata/shared/DateFormat.java:115-149 | writing fails iff the buffer is shorter than 23 bytes, and only the nine time positions change |
| TimeFormat.WriteTable | src/main/java/com/github/kyriosdata/shared/InstanteFormatter.java:87-121 | the `digitos` lookup succeeds iff the buffer is long enough and each digit indexes the table, i.e. the time is under 100 hours |
| TimeFormat.DigitsInRange | src/main/java/com/github/kyriosdata/shared/InstanteFormatter.java:87-121 | every digit is 0..9 iff `0 <= ms < 360 000 000` |
| TimeFormat.TableAgreesWithSoma | src/main/java/com/github/kyriosdata/shared/InstanteFormatter.java:123-157 | when the table lookup succeeds, `writeTimeToBytes` and `writeTimeToBytesSoma` write identical bytes |
| TimeFormat.TableIsSoma | src/main/java/com/github/kyriosdata/shared/InstanteFormatter.java:83 | looking a digit up in `digitos` is adding '0' |
| TimeFormat.DigitTable | src/main/java/com/github/kyriosdata/shared/InstanteFormatter.java:83 | `digitos[d]` is the ASCII code of digit `d` |
| TimeFormat.TimeRoundTrip | src/main/java/com/github/kyriosdata/shared/DateFormat.java:115-149 | the bytes written for a time of day read back as `HH:mm:ss.SSS` with `HH < 24`, `mm, ss < 60`, and recompose the same milliseconds |
| TimeFormat.SomaSpells | src/main/java/com/github/kyriosdata/shared/DateFormat.java:126-148 | every written time byte is an ASCII digit and reads back as the digit written |
| TimeFormat.TimeRoundTripBack | src/main/java/com/github/kyriosdata/shared/DateFormat.java:115-149 | any buffer that spells a time of day is rewritten unchanged by writing the time it spells |
| TimeFormat.SomaRewrites | src/main/java/com/github/kyriosdata/shared/DateFormat.java:126-148 | writing the digits a buffer already spells leaves it unchanged |
| TimeFormat.DigitsOf | src/main/java/com/github/kyriosdata/shared/DateFormat.java:116-123 | digits forming a valid time of day are the digits of the milliseconds they denote |
| TimeFormat.TemplatesLayout | src/main/java/com/github/kyriosdata/shared/InstanteFormatter.java:81 | the 24-byte template is the head of the 30-byte one, which ends in spaces at 24 and 29; writing a time keeps every separator (- - T : : . Z) and the tail |
| TimeFormat.NewDay | src/main/java/com/github/kyriosdata/shared/DateFormat.java:33-34 | a new formatter's window is empty, so the first call refreshes it |
| TimeFormat.MillisSinceMidnight | src/main/java/com/github/kyriosdata/shared/DateFormat.java:65-74 | the window is refreshed (date bytes rewritten) iff the instant falls outside it; afterwards it contains the instant and the result is the distance from its midnight, below one day |
| TimeFormat.ToBytes | src/main/java/com/github/kyriosdata/shared/DateFormat.java:54-57 | `toBytes` returns the cached template itself, now holding the time since midnight, with the date bytes refreshed only on a new day |
| TimeFormat.FormatIntoTemplate | src/main/java/com/github/kyriosdata/shared/InstanteFormatter.java:72-75 | formatting into the formatter's own template writes the time since midnight through `digitos` and keeps bytes 23..29 |
| Config.Lead | config/src/main/java/com/github/kyriosdata/healthdb/config/Configuracao.java:119 | the leading blanks end at the first character above U+0020 |
| Config.Tail | config/src/main/java/com/github/kyriosdata/healthdb/config/Configuracao.java:119 | the trailing blanks start after the last character above U+0020 |
| Config.Trim | config/src/main/java/com/github/kyriosdata/healthdb/config/Configuracao.java:119 | `trim` is the middle slice with only blanks cut from either side, and starts and ends with a non-blank |
| Config.TrimKeeps | config/src/main/java/com/github/kyriosdata/healthdb/config/Configuracao.java:119 | a string without blanks at its ends is its own trim |
| Config.TrimIdempotent | config/src/main/java/com/github/kyriosdata/healthdb/config/Configuracao.java:119-124 | trimming twice is trimming once |
| Config.FirstEquals | config/src/main/java/com/github/kyriosdata/healthdb/config/Configuracao.java:114 | `indexOf('=')` is -1 iff there is no '=', and otherwise the position of the first one |
| Config.ParseLine | config/src/main/java/com/github/kyriosdata/healthdb/config/Configuracao.java:101-124 | a line yields a pair iff it is non-empty, not a comment, has '=' after index 0 and a non-blank key; the pair is the trimmed text before and after the first '=' |
| Config.ParseAll | config/src/main/java/com/github/kyriosdata/healthdb/config/Configuracao.java:113-127 | every line is parsed on its own |
| Config.LastBindingDefined | config/src/main/java/com/github/kyriosdata/healthdb/config/Configuracao.java:126 | a key is bound iff some line binds it |
| Config.LastBindingIsLast | config/src/main/java/com/github/kyriosdata/healthdb/config/Configuracao.java:126 | a key's value comes from a line binding it after which no line binds it again |
| Config.PutStep | config/src/main/java/com/github/kyriosdata/healthdb/config/Configuracao.java:126 | `put` of each parsed pair keeps the map equal to the last-binding map of the lines so far |
| Config.Parse | config/src/main/java/com/github/kyriosdata/healthdb/config/Configuracao.java:111-127 | the map holds exactly the keys some line binds, each with the value of its last binding line |
| Config.Load | config/src/main/java/com/github/kyriosdata/healthdb/config/Configuracao.java:85-128 | a missing file, a failed size or read, or more than 4096 bytes give the empty map; otherwise the map of the lines |
| Config.Valor | config/src/main/java/com/github/kyriosdata/healthdb/config/Configuracao.java:138-140 | `valor` answers for exactly the keys in the map, with their values |
| Config.Chaves | config/src/main/java/com/github/kyriosdata/healthdb/config/Configuracao.java:147-149 | `chaves` is exactly the set of keys `valor` answers for |
| Config.PairRoundTrip | config/src/test/java/com/github/kyriosdata/healthdb/config/ConfiguracaoTest.java:35-40 | a `key=value` line with a trimmed key free of '=' and a trimmed value (which may hold '=' or be empty) parses back to that pair |
| Config.LoadAsWritten | src/main/java/com/github/kyriosdata/config/Configuracao.java:52-99 | the older constructor leaves the map `null` iff the file is missing, its size or read fails, or it is over 4096 bytes; otherwise it is the map of the lines |
| Config.GetValorAsWritten | src/main/java/com/github/kyriosdata/config/Configuracao.java:101-103 | `getValor` throws iff the map is `null`, and otherwise answers as `valor` |
| Config.LoadCorrected | src/main/java/com/github/kyriosdata/config/Configuracao.java:30-36 | corrected, a file that cannot be used gives the empty map |
| Config.MissingFileThrows | src/main/java/com/github/kyriosdata/config/Configuracao.java:54-57 | as written, naming a missing file makes every later `getValor` throw |
| Config.CorrectedAgrees | src/main/java/com/github/kyriosdata/config/Configuracao.java:52-103 | corrected, the older class answers every key as the newer one does, for every file |

## Left out

- Concurrency: every compare-and-set succeeds and nothing interleaves. `working` is a plain flag, and `Shared`'s `totalFree` is a plain counter.
- Java's 32-bit overflow of the ever-growing counters `ff`, `lf`, `firstFree` and `primeiroParaTratar`: they are unbounded integers here.
- RingBuffer.Aloca: a full ring whose flush frees nothing spins forever in Java. Here it is `Blocked`, a single call ending without a slot.
- `consome` of `RingBuffer` is a hook for subclasses. It is the set `failing` of slots whose call throws. What the hook does with the slot is not modelled.
- Shared.Reserve: with no entry free, Java spins forever because the `consume` call is commented out. The model requires an entry to be free.
- Shared.ConsumeAsWritten: requires a power-of-two size, the case in which the mask `size - 1` is a modulo. Java accepts any non-negative size.
- `Shared.status` and the `println` in `consume` are debugging output.
- Lru.Create: the doubly linked list of `No` nodes is the sequence of node values from head to tail. `No` has no separate model.
- BufferManager.Lock: locking an unlocked block with no pooled buffer is documented only as "wait", so the model requires a buffer to be pooled.
- The free pool of `BufferManager` is a sequence taken from the front and appended to at the back, because the `lru.get`/`lru.add` it calls are absent from `LRU.java`.
- The file identifier passed to `lock` and `unlock` is never read by either, so it is not a parameter.
- Block loading and writing (`ArquivoService`) in `BufferManager.lock` are not modelled.
- The `fim` argument of the `Logging` classes' `transferToBuffer` is modelled only as `bytes.length - 1`, the value every caller passes.
- Staging.TransferToBuffer: requires a positive capacity unless there are no bytes. With capacity 0 and bytes to send, Java loops forever.
- The bytes of a message (`String.getBytes`, UTF-8) are given.
- The file the chunks go to (`FileManager`, `fm.acrescenta`) is the sequence of chunks handed to it.
- A partial write before an exception is not modelled.
- The clock libraries are an input: the date of an instant, which `SimpleDateFormat` renders in the JVM's default time zone because no zone is set on it, and the UTC midnights of the instant's UTC day (`Calendar`, `calcMidnightMillis`, `updateCachedDate`, `addDaysToMidnightMillis`). The two can name different days near midnight; the model takes the date as given.
- TimeFormat.FormatIntoTemplate: `formatToBytes` is modelled writing into the formatter's own template, the way `Log` calls it. Writing into a foreign buffer is `WriteTable` alone.
- Finding the configuration file (`getConfigFilePath`) and reading it are not modelled. The file system's answer is the input `File`. For the newer class (config/…/healthdb/config/Configuracao.java) a `null` file name is `Missing`, because its constructor catches the `NullPointerException` of `getConfigFilePath`.
- Lru.MissesTakeTails: stated for the corrected `use` from any well-formed list; `Lru.UseSeqAgrees` carries it to `use` as written only when node keys and map agree and no key is the sentinel.
- Lru.ReusedEvictedLast: stated for the corrected `use`, for the same reason; the as-written run agrees under the conditions of `Lru.UseSeqAgrees`.
- Lru.HeadTakenLast: stated for the corrected `use`, for the same reason.
- The older constructor (src/…/config/Configuracao.java line 54) calls `getConfigFilePath` outside any `try`, so `new Configuracao(null)` throws `NullPointerException` instead of leaving the map `null`; `Config.LoadAsWritten` has no input for a `null` name and does not model this.
- The newer class's read-only wrapper (`Collections.unmodifiableMap`) is not modelled, because maps are immutable values here.
- Bits.BitsToString: the contract gives every character of the rendering. The three concrete renderings checked in `BitsTest` (0, 1 and 2^31) are not restated as string literals.
- Each `RingBuffer` member uses the instance `size` wherever the Java code mixes `SIZE` (1024) and `size`. Only the initial `lf = SIZE - 1` is kept, in `RingBuffer.CreateAsWritten`; see Findings.
- The array `producao` is `new byte[SIZE]` (RingBuffer.java line 70) whatever the size; the model gives it `size` entries. A ring larger than `SIZE` is therefore not modelled as written: with `new RingBuffer(2048)`, the `aloca` after the first 1024 flushes, `totalDaProducao` reads `producao[1024]`, and the `ArrayIndexOutOfBoundsException` leaves `working` set.
- `realFlush` scans for produced slots up to `la = ff - 1 + SIZE` (RingBuffer.java line 199); the model stops at `ff - 1 + size`, the last counter handed out. Even with `lf` started at `size - 1` (see Findings), a ring smaller than `SIZE` whose every slot is handed out and produced, the state in which `aloca` flushes, would be scanned past its last counter: the mask brings the scan back onto the slots already counted, and `totalDaProducao` returns `SIZE`. The model does not show this.

## Findings

| source | as written | input that shows it | evidently intended | confidence | as-written member | corrected member |
|---|---|---|---|---|---|---|
| ringbuffer/src/main/java/com/github/kyriosdata/healthdb/concurrency/RingBuffer.java:66-70 | `lf` starts at `SIZE - 1` (1023) while slots are masked with `size - 1` | `new RingBuffer(32)`, then 33 `aloca()` calls with nothing produced: the 33rd returns slot 0 while counter 0 still holds it | `lf` starts at `size - 1`, so the ring holds `size` outstanding slots | not executed | RingBuffer.AsWrittenReusesLiveSlot | RingBuffer.CorrectedStopsAtSize |
| src/main/java/com/github/kyriosdata/shared/Shared.java:168-170 | when the first outstanding slot is not used, `consume` returns with `working` still 1 | a pool with one reservation not yet marked used, then `consume()`: every later `consume` returns at once | `working` is reset on every exit | not executed | Shared.AsWrittenSticks | Shared.ConsumeFixedSpec |
| src/main/java/com/github/kyriosdata/shared/Shared.java:153-165 | the scan runs from `first` to `last` by index, so a range that wraps past the array's end (`last < first`) is never scanned | a pool of 4 with counters 3 and 4 (slots 3 and 0) reserved and used: `consume()` frees nothing and leaves `working` set | the scan follows the counters around the end of the array | not executed | Shared.AsWrittenMissesWrappedRun | Shared.WrappedRunScenario |
| object/src/main/java/com/github/kyriosdata/hdb/object/LRU.java:84 | on a miss, the tail node's key is removed from the map even when it is still the sentinel `Integer.MIN_VALUE` | on a new list of 3 buffers, `use(MIN_VALUE)`, `use(1)`, `use(MIN_VALUE)`: the third call evicts another buffer and returns 0 instead of 2 | only a key actually bound to the tail node is unbound | not executed | Lru.SentinelKeyLost | Lru.UseKeeps |
| src/main/java/com/github/kyriosdata/config/Configuracao.java:54-57 | on a missing, unreadable or oversized file the constructor returns before creating the map | `new Configuracao("missing")`, then `getValor("x")` throws `NullPointerException` | no properties: an empty map, as the newer class does | not executed | Config.MissingFileThrows | Config.CorrectedAgrees |
