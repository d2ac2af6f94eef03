# A verified model of cache-sim

cache-sim replays a trace of memory accesses against one private cache per
core. Each cache is set-associative and uses LRU replacement. The caches are
kept coherent by an MSI-style snooping protocol. The simulator counts hits,
misses, cycles, write-backs and invalidations, under a write-through ('T') or
write-back ('B') policy.

This project models the simulator's core in Dafny and proves properties of
the model:

- `powers_of_two.dfy` (module `PowersOfTwo`): the `x & (x - 1)` test for a
  power of two, on 32-bit two's-complement integers, and its meaning.
- `geometry.dfy` (module `Geometry`): a validated configuration, the shape of
  every cache derived from it, and how a byte address splits into a tag and
  a set index.
- `cache_model.dfy` (module `CacheModel`): the state of all caches as values,
  and every operation as a function. This covers the per-set searches, entry
  selection, the LRU update, the snoops, the read and write handlers, one
  trace record, and replaying a whole trace.
- `cache_sim.dfy` (module `CacheSim`): the simulator in its own imperative
  form. The class `MulticoreCache` holds the entries of all cores in an
  `array3` indexed by core, set and slot. The in-use counts are an `array2`
  and the statistics an `array`. Every method is a loop or an in-place update
  of these arrays. It is proved to leave the state that the matching
  `CacheModel` function computes.
- `properties.dfy` (module `CacheProperties`): field-by-field effects of the
  read and write handlers, and the snoop rules. Also the per-record
  instruction count and a statistics invariant kept by every completed record
  and every completed replay.
- `scenarios.dfy` (module `CacheScenarios`): concrete consequences of the
  code's choices. These are proved as lemmas about the model.

The model follows the code. Some of the code's behaviour departs from a
textbook MSI cache:

- The set index is `(byteAddress / blockSize) % numSets`, where `blockSize`
  counts words, not bytes. The tag is the bits above index and byte offset.
  So two different blocks can decode to the same set and tag
  (`Geometry.DistinctBlocksAlias`).
- Every entry starts with tag 0, and tag matching ignores the valid bit. So
  the first access with tag 0 is a hit on a cold cache
  (`CacheScenarios.ColdTagZeroReadHits`).
- A hit never increments the set's in-use count, so after cold hits the
  count lags behind the valid entries. In a direct-mapped cache the count
  then says the set is not full while no entry is unused, so the next miss
  in that set fails the assertion in `getUnusedEntry`
  (`CacheScenarios.SecondReadAborts`). With more ways, the first miss that
  finds every slot valid while the count says otherwise fails it. The model
  makes this failure an `Aborted` outcome that stops the replay.
- A write on an Invalid entry evicts only Modified copies elsewhere, and a
  write on a Shared entry only Shared copies. So a Shared copy survives
  another core's write, and its own later write leaves that core's Modified
  copy in place. Two caches then hold the same slot Modified
  (`CacheScenarios.TwoModifiedCopies`).
- The write hit handler sets the dirty bit before the write-policy step.
  Under write-back, every write hit on a valid entry therefore counts a
  write-back (`CacheProperties.WrittenCountsDeltas`).
- When slot 0 is the LRU victim, `getLeastRecentlyUsedEntry` never assigns
  its result, and the caller's variable is uninitialised. The model uses
  slot 0, the only value consistent with the search.
- The LRU counters are never initialised by `initCache`. The model starts
  them at 0.
- `handleCacheEntry` returns no value for 'R' and 'W' records. The model
  returns the handler's outcome.
- The number of cores is the global `NUM_CORES` (2) in the source. Here it
  is the constructor's `numCores` parameter.

## Model

| member | source | states |
|---|---|---|
| PowersOfTwo.IsPowerOfTwoCorrect | cache-sim.c:169-172 | the bit test accepts x exactly when x is 2^k for some k, with x >= 1; zero and negative values are rejected |
| PowersOfTwo.AcceptedExponent | cache-sim.c:169-172 | every accepted value is 2^k with k <= 30 |
| PowersOfTwo.PowerOfTwoAccepted | cache-sim.c:169-172 | every 2^k with k <= 30 is accepted |
| PowersOfTwo.IsPowerOfTwo | cache-sim.c:169-172 | the source's test `x != 0 && (x & (x - 1)) == 0` on the 32-bit two's-complement patterns; `IsPowerOfTwoCorrect` gives its meaning |
| Geometry.InitGeometryDivisions | cache-sim.c:239-243 | the closed-form geometry's entries, sets and entries per set are the source's chain of integer divisions of capacity, block size and associativity |
| Geometry.InitGeometry | cache-sim.c:239-247 | the shape fields that initCache computes, in closed form over the size exponents; `InitGeometryDivisions` and `InitGeometryWidths` prove it equal to the source's divisions and logarithms |
| Geometry.BlockSize | cache-sim.c:236 | the block size in words, 2^blockBits |
| Geometry.NumDataWords | cache-sim.c:237 | the capacity in words, 2^wordBits |
| Geometry.SetAssociativity | cache-sim.c:241 | the associativity, 2^wayBits |
| Geometry.InitGeometryWidths | cache-sim.c:244-247 | bytes per block are four per word; index and offset widths are the logarithms of set count and block bytes; the tag takes the remaining address bits |
| Geometry.InitGeometrySizes | cache-sim.c:239-243 | the entries exactly cover the capacity, the sets exactly hold the entries, each set has as many entries as the associativity, and there is at least one set |
| Geometry.InitGeometryAddressSplit | cache-sim.c:244-247 | 2^indexLength is the set count, 2^offsetLength the block's bytes, and the tag gets 1 to 32 bits, so that tag, index and offset add up to 32 |
| Geometry.TagOf | cache-sim.c:635 | the tag has at most tagLength bits |
| Geometry.ShiftRight | cache-sim.c:635 | the unsigned shift right is the quotient by 2^k: it is below 2^(32-k), and r * 2^k <= x < (r + 1) * 2^k |
| Geometry.SetIndexOf | cache-sim.c:637-638 | the set index is below the set count |
| Geometry.DistinctBlocksAlias | cache-sim.c:635-638 | with at least four sets, address 0 and address blockSize * numSets lie in different blocks yet have the same tag and set index |
| CacheModel.Inc32 | cache-sim.c:449 | unsigned increment is addition modulo 2^32 |
| CacheModel.Dec32 | cache-sim.c:474 | unsigned decrement is subtraction modulo 2^32 |
| CacheModel.InitGeometryIsGood | cache-sim.c:239-247 | every validated configuration gives at least one set, one way, a nonzero block size and a 1 to 32 bit tag |
| CacheModel.InitialDomain | cache-sim.c:248-302 | there is one cache per core, each shaped by the geometry, with balanced (all-zero) counters |
| CacheModel.FirstWithTag | cache-sim.c:366-378 | the result carries the tag and no earlier slot does |
| CacheModel.FirstUnused | cache-sim.c:381-393 | the result is not valid and every earlier slot is |
| CacheModel.LruVictim | cache-sim.c:321-334 | the victim's LRU counter is the greatest among the slots searched, and every earlier slot's is strictly smaller (the first maximum wins) |
| CacheModel.Select | cache-sim.c:439-452 | a hit exactly when some entry has the tag; an LRU eviction exactly when there is no match and the in-use count equals the set size; a failure exactly when there is neither, no entry is unused and the count is not full; the chosen slot lies in the set and is the first slot with the tag for a hit, the first-maximum LRU victim for an eviction, and the first unused slot for a fill |
| CacheModel.SnoopUpToNext | cache-sim.c:461-478 | the snoop loop over one more core snoops that core (unless it is the issuer) and leaves the rest as before |
| CacheModel.AbortStops | cache-sim.c:391 | once a prefix of the trace aborts, the replay of the whole trace ends in that same abort |
| CacheModel.AbortedPrefix | cache-sim.c:391 | a record after an abort changes nothing |
| CacheModel.ReadHandled | cache-sim.c:427-501 | a read that finds a slot is the read handler's phases after selection |
| CacheModel.WriteHandled | cache-sim.c:503-616 | a write that finds a slot is the write handler's phases after selection |
| CacheModel.Replay | cache-sim.c:670-688 | replay keeps the number and shape of the caches, and an abort is reported at an index of the trace |
| CacheModel.InitialEntry | cache-sim.c:284-288 | slot j as initCache leaves it: Invalid, tag 0, not valid, not dirty, entry id j (LRU counter 0, see Left out) |
| CacheModel.InitialSet | cache-sim.c:277-289 | a set of initial entries with an in-use count of 0 |
| CacheModel.Evicted | cache-sim.c:473-475 | a snooped entry: state Invalid and valid, dirty, tag and LRU counter 0; the entry id is kept |
| CacheModel.BumpLRUs | cache-sim.c:336-344 | updateLRUs on a row: the used slot restarts at 0 and every other slot ages by one with wrap-around, the row's length kept; `InstalledEffect` states the effect on a set |
| CacheModel.Bump | cache-sim.c:339-342 | one slot's step of updateLRUs |
| CacheModel.WithLRUsUpdated | cache-sim.c:336-344 | the domain after updateLRUs on one set; `InstalledEffect` states the effect |
| CacheModel.ReadHitCounts | cache-sim.c:397-401 | handleReadHit: one more hit and read hit |
| CacheModel.ReadMissCounts | cache-sim.c:403-411 | handleReadMiss: the miss penalty in cycles, one more miss, read miss, write to cache and write to cache due to a read miss |
| CacheModel.WriteCounts | cache-sim.c:508-510 | what every write counts first: the write, a write to cache and a write to cache due to a write operation |
| CacheModel.WriteHitCounts | cache-sim.c:413-418 | the counters of handleWriteHit: one more hit and write hit |
| CacheModel.WriteMissCounts | cache-sim.c:420-425 | handleWriteMiss: the miss penalty in cycles, one more miss and write miss |
| CacheModel.SnoopVictimCounts | cache-sim.c:471-472 | a snooped victim counts one write to memory and one invalidated block |
| CacheModel.Target | cache-sim.c:469 | the state a snoop looks for: Modified for the read and Invalid-write snoops, Shared for the Shared-write snoop |
| CacheModel.Snoop | cache-sim.c:469-477 | one sibling's reaction to a snoop; `SnoopEffect` states it field by field |
| CacheModel.SnoopUpTo | cache-sim.c:461-478 | the snoop loop after cores 0 to n-1: the issuer is never changed, and the cache count and shape are kept; `SnoopAll` states the full loop |
| CacheModel.ReadPicked | cache-sim.c:439-452 | the read's selection phase: a filled unused slot counts as in use, then the hit or miss handler; `ReadPickedEffect` states it |
| CacheModel.ReadCoherence | cache-sim.c:457-493 | the read's switch on the chosen entry's state: the issuer's sets are unchanged, with the cache count and shape kept; `ReadAfterSelectEffect` states the sibling snoop for an Invalid entry |
| CacheModel.Filled | cache-sim.c:497-500 | the final stores of a handler: new tag, state and valid bit, and for a write (611-615) the dirty bit |
| CacheModel.Installed | cache-sim.c:497-500 | updateLRUs and the final stores, keeping cache count and shape; `InstalledEffect` states it |
| CacheModel.ReadAfterSelect | cache-sim.c:453-501 | the read handler once its slot is chosen, keeping cache count and shape; `ReadAfterSelectEffect` states it |
| CacheModel.Read | cache-sim.c:427-501 | handleRead: it never rejects and keeps cache count and shape; `ReadEffect` states its whole effect |
| CacheModel.HitWritten | cache-sim.c:413-418 | handleWriteHit: the hit counts and the dirty bit on the entry; `WritePickedEffect` states it |
| CacheModel.WritePicked | cache-sim.c:515-528 | the write's selection phase, keeping cache count and shape; `WritePickedEffect` states it |
| CacheModel.WriteCoherence | cache-sim.c:530-592 | the write's switch on the chosen entry's state, leaving the issuer's sets unchanged; `WriteCoherenceEffect` states it |
| CacheModel.PolicyCounts | cache-sim.c:596-607 | write-through counts a write to memory and a write-through write-back; write-back counts a write-back of a valid dirty entry; `WrittenCountsDeltas` states the sum |
| CacheModel.PolicyApplied | cache-sim.c:596-607 | the policy step on the issuer's counters, keeping cache count and shape |
| CacheModel.WriteAfterSelect | cache-sim.c:529-616 | the write handler once its slot is chosen, keeping cache count and shape; `WriteAfterSelectEffect` states it |
| CacheModel.Write | cache-sim.c:503-616 | handleWrite: it never rejects and keeps cache count and shape; `WriteEffect` states its whole effect |
| CacheModel.Step | cache-sim.c:622-651 | handleCacheEntry keeps the cache count and shape; `RejectedMode`, `StepRunsHandler` and `StepCountsInstruction` state what it does |
| CacheProperties.SnoopEffect | cache-sim.c:461-478 | a sibling whose entry is in the target state loses it (evicted, Invalid), counts one write to memory and one invalidated block, and, for a Modified victim, drops its in-use count by one with wrap-around; otherwise the sibling is unchanged, and no other slot changes |
| CacheProperties.SnoopAll | cache-sim.c:461-478 | the snoop loop skips the issuing cache and snoops every other cache once |
| CacheProperties.ReadPickedEffect | cache-sim.c:439-452 | selection for a read only raises the in-use count of a filled unused slot; all else stays |
| CacheProperties.WritePickedEffect | cache-sim.c:515-528 | selection for a write also runs the hit handler (dirty bit) on a hit |
| CacheProperties.WriteCoherenceEffect | cache-sim.c:530-592 | a write's snoops: Invalid evicts Modified copies, Shared evicts Shared copies and counts a write-back due to access need, Modified snoops no one |
| CacheProperties.InstalledEffect | cache-sim.c:497-500 | the final step writes tag, state, valid and dirty into the slot and updates the LRU counters of the set |
| CacheProperties.WrittenCountsDeltas | cache-sim.c:413-425 | a completed write adds its write hit or write miss, the hit or miss and the miss penalty; one write-back due to access need for a Shared entry (590); one write-through write-back per write under write-through (599); writes to memory grow by the Shared write-back plus one write-through, or one write-back of a valid entry that is dirty or was just hit; read and write totals and the instruction count stay |
| CacheProperties.ReadAfterSelectEffect | cache-sim.c:453-501 | the read handler once its slot is chosen, field by field |
| CacheProperties.ReadEffect | cache-sim.c:427-501 | a read aborts exactly when selection fails, counting only the read; otherwise it is a hit exactly when a tag matches, its counters move, the chosen slot becomes valid, Shared and most recent, the other slots age, a filled slot counts as in use, and for an Invalid entry every sibling's Modified copy is evicted |
| CacheProperties.WriteAfterSelectEffect | cache-sim.c:529-616 | the write handler once its slot is chosen, field by field |
| CacheProperties.WriteEffect | cache-sim.c:503-616 | a write aborts exactly when selection fails, counting only the write; otherwise it is a hit exactly when a tag matches, it counts as WrittenCounts says, the slot becomes valid, dirty, Modified and most recent, the other slots age, a filled slot counts as in use, and siblings are snooped by the entry's state |
| CacheProperties.SiblingCounts | cache-sim.c:461-478 | a snooped sibling's counters either stay or record one write to memory and one invalidated block |
| CacheProperties.RejectedMode | cache-sim.c:628-632 | a record is rejected exactly when its mode is neither 'R' nor 'W'; then only the instruction is counted |
| CacheProperties.ReadKeepsInstructions | cache-sim.c:427-501 | a read counts no instruction on any core |
| CacheProperties.WriteKeepsInstructions | cache-sim.c:503-616 | a write counts no instruction on any core |
| CacheProperties.StepRunsHandler | cache-sim.c:634-648 | an 'R' or 'W' record runs the read or write handler on its core, with its tag and set index, after counting the instruction |
| CacheProperties.StepCountsInstruction | cache-sim.c:628 | every record counts one instruction on its own core and none elsewhere |
| CacheProperties.CountInstructionKeepsBalanced | cache-sim.c:628 | counting an instruction keeps the counters balanced and leaves room for one access |
| CacheProperties.SnoopKeepsBalanced | cache-sim.c:461-478 | a snoop eviction keeps a sibling's counters balanced |
| CacheProperties.ReadKeepsBalanced | cache-sim.c:397-411 | the read counters keep the balance: hits plus misses equal accesses, cycles are misses times the penalty, every read miss writes the cache |
| CacheProperties.WriteKeepsBalanced | cache-sim.c:413-425 | the write counters keep the balance, including writes to memory as the sum of their four causes and the policy's own counter |
| CacheProperties.SiblingsKeepBalanced | cache-sim.c:461-478 | snoops keep every sibling's counters balanced |
| CacheProperties.ReadKeepsAllBalanced | cache-sim.c:427-501 | a completed read keeps every cache's counters balanced |
| CacheProperties.WriteKeepsAllBalanced | cache-sim.c:503-616 | a completed write keeps every cache's counters balanced |
| CacheProperties.StepKeepsBalanced | cache-sim.c:622-651 | every record that does not abort keeps every cache's counters balanced |
| CacheProperties.ReplayKeepsBalanced | cache-sim.c:670-688 | a replay that completes keeps every cache's counters balanced |
| CacheProperties.RecordsOf | cache-sim.c:670-688 | a core issues at most as many records as the trace holds |
| CacheProperties.ReplayCountsInstructions | cache-sim.c:670-688 | each core's instruction count grows by the number of its records that the replay reached, up to and including an aborting one |
| CacheSim.MulticoreCache.constructor | cache-sim.c:294-302 | the arrays hold the initial domain for numCores caches of the configured geometry |
| CacheSim.MulticoreCache.InitialDomainHolds | cache-sim.c:274-290 | arrays of initial entries, zero in-use counts and zero counters are the initial domain |
| CacheSim.MulticoreCache.InitCache | cache-sim.c:233-292 | one core's sets hold entries with slot numbers, tag 0, Invalid, not valid or dirty, in-use counts 0 and counters 0; the other cores are unchanged |
| CacheSim.MulticoreCache.MatchingEntryExists | cache-sim.c:354-364 | the result is true exactly when some entry of the set has the tag |
| CacheSim.MulticoreCache.MatchingEntry | cache-sim.c:366-378 | the result is the first slot with the tag |
| CacheSim.MulticoreCache.GetUnusedEntry | cache-sim.c:381-393 | found exactly when some entry is not valid, and then the first such slot |
| CacheSim.MulticoreCache.GetLeastRecentlyUsedEntry | cache-sim.c:321-334 | the slot with the greatest LRU counter, the first on a tie |
| CacheSim.MulticoreCache.ChooseEntry | cache-sim.c:439-452 | the selection of the set's entry for the tag, as `Select` states |
| CacheSim.MulticoreCache.UpdateLRUs | cache-sim.c:336-344 | the used slot's counter becomes 0 and every other slot's counter ages by one |
| CacheSim.MulticoreCache.SnoopSibling | cache-sim.c:469-477 | one sibling is snooped and nothing else changes |
| CacheSim.MulticoreCache.InvalidateSiblings | cache-sim.c:461-478 | every cache but the issuer is snooped for the slot |
| CacheSim.MulticoreCache.HandleReadHit | cache-sim.c:397-401 | a read hit and a hit are counted |
| CacheSim.MulticoreCache.HandleReadMiss | cache-sim.c:403-411 | a read miss, a miss, its cycles and the cache write it causes are counted |
| CacheSim.MulticoreCache.HandleWriteHit | cache-sim.c:413-418 | a write hit and a hit are counted and the entry becomes dirty |
| CacheSim.MulticoreCache.HandleWriteMiss | cache-sim.c:420-425 | a write miss, a miss and its cycles are counted |
| CacheSim.MulticoreCache.PickForRead | cache-sim.c:439-452 | the read's selection phase |
| CacheSim.MulticoreCache.PickForWrite | cache-sim.c:515-528 | the write's selection phase |
| CacheSim.MulticoreCache.WriteCoherenceStep | cache-sim.c:530-592 | the write's coherence switch |
| CacheSim.MulticoreCache.WritePolicyStep | cache-sim.c:596-607 | the write-policy accounting |
| CacheSim.MulticoreCache.Install | cache-sim.c:497-500 | the final update of a chosen slot |
| CacheSim.MulticoreCache.HandleRead | cache-sim.c:427-501 | the outcome and new state are those of `CacheModel.Read`, whose effect `ReadEffect` states |
| CacheSim.MulticoreCache.ReadSelected | cache-sim.c:453-501 | the read handler once its slot is chosen |
| CacheSim.MulticoreCache.HandleWrite | cache-sim.c:503-616 | the outcome and new state are those of `CacheModel.Write`, whose effect `WriteEffect` states |
| CacheSim.MulticoreCache.WriteSelected | cache-sim.c:529-616 | the write handler once its slot is chosen |
| CacheSim.MulticoreCache.HandleCacheEntry | cache-sim.c:622-651 | the outcome and new state are those of `CacheModel.Step` for the record |
| CacheSim.MulticoreCache.SimulateTrace | cache-sim.c:670-688 | the loop ends as `CacheModel.Replay` of the trace does: after the whole trace, or at the first aborting record with the state at that point |
| CacheScenarios.ColdTagZeroReadHits | cache-sim.c:354-364 | on a cold cache, a read of an address with tag 0 is handled as a read hit |
| CacheScenarios.TinyGeometry | cache-sim.c:239-247 | a direct-mapped cache of one one-word block has one set and addresses 0 and 4 in it with tags 0 and 1 |
| CacheScenarios.FirstReadHitsCold | cache-sim.c:439-452 | that cold hit leaves the entry valid with tag 0 while the in-use count stays 0 |
| CacheScenarios.MissOnMiscountedSetAborts | cache-sim.c:381-393 | a miss on a direct-mapped set whose only entry is valid but whose in-use count is 0 aborts |
| CacheScenarios.SecondReadAborts | cache-sim.c:443-452 | so a tag-0 read followed by a read of another tag in the same set aborts the run |
| CacheScenarios.SiblingSlot | cache-sim.c:461-478 | the other cache's copy is evicted exactly when the snoop rule applies to it |
| CacheScenarios.TagZeroRead | cache-sim.c:427-501 | a read of tag 0 in two caches whose slot 0 carries tag 0: the reader's copy becomes Shared and the other's Modified copy is evicted if the reader's was Invalid |
| CacheScenarios.TagZeroWrite | cache-sim.c:503-616 | the same for a write, which makes the copy Modified |
| CacheScenarios.FreshCopies | cache-sim.c:281-289 | initially every core's slot 0 is Invalid, not valid, with tag 0 |
| CacheScenarios.InvalidReadShares | cache-sim.c:457-478 | a read of an Invalid copy makes it Shared and valid and leaves an Invalid sibling as it was |
| CacheScenarios.InvalidWriteKeepsShared | cache-sim.c:531-558 | a write on an Invalid copy leaves a sibling's Shared copy alone |
| CacheScenarios.SharedWriteKeepsModified | cache-sim.c:563-591 | a write on a Shared copy leaves a sibling's Modified copy alone |
| CacheScenarios.TwoModifiedCopies | cache-sim.c:531-591 | from two Invalid copies, a read by core 1, a write by core 0 and a write by core 1 leave both copies Modified and valid |

## Left out

- Printing of the configuration and statistics (`printCacheInit`, `printCacheStats`, the debug output): output only.
- Geometry.ValidConfig excludes three configurations that the command-line checks let through, because the source's behaviour is undefined for them. First, a block size times associativity above the capacity (for example `-b 2048` with the default 1024 words) gives zero sets, and `initCache` divides by zero. Second, a way of 2^32 or more bytes (for example `-n 1073741824` with one way) gives a tag of 0 bits, and `handleCacheEntry` shifts a 32-bit value by 32. Third, PowersOfTwo.IsPowerOfTwo excludes the least `int`, where `x - 1` overflows.
- Command-line parsing (`processProgArgs`) and `main`: the model starts from a validated `Config`, whose sizes are kept as exponents; `AcceptedExponent` and `PowerOfTwoAccepted` relate these to the sizes the power-of-two test accepts.
- Opening and reading the trace file: the trace is a sequence of records given to `SimulateTrace`, and the `feof`/`fscanf` loop becomes a loop over it.
- `calculateFinalValues` and the floating-point statistics (the ratios and the average access time): floating point.
- The widths that feed only the report (entry offset, byte offset, overhead bits) are not computed. The index and offset widths are exact integer logarithms, where the source uses floating-point `log2` on powers of two.
- Memory allocation and freeing, and the unused `MemOp` record.
- `getSet` and `getEntry` are plain array indexing.
- Uninitialised memory starts at 0: the LRU counters, the counters `numWrites` and `numWritesToCacheDueToReadMiss` (which `initCache` does not zero), and the victim slot when slot 0 is the LRU victim. `Balanced` relies on these counters starting at 0.
- The statistics counters are unbounded naturals: they do not wrap at 2^32 as the source's `unsigned int` counters would. They feed only the report. Tags, in-use counts and LRU counters, which steer control flow, do wrap.
- CacheSim.MulticoreCache.HandleCacheEntry: requires the core to be in range, where the source indexes the caches without a check.
- The failed assertion in `getUnusedEntry` is an `Aborted` outcome that ends the replay, in place of the process abort.
- CacheScenarios.TwoModifiedCopies: stated on the two handlers' effects for one set; the trace-level replay of the same accesses is not stated.
- The trace generator thtrace.c is not part of this model.
