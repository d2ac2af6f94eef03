/** The simulator's multicore cache, updated in place as the source does it.
    All caches share one geometry, so the domain is kept as an arena: entry
    (core, set, slot) of `entries`, in-use count (core, set) of
    `numEntriesInUse` and the counters of core k in `stats`. A set's setID
    and a cache's cacheID are their indices, as initialisation makes them.
    The ghost `model` is the value of the whole domain, and every operation
    is proved to change it as the matching function of CacheModel says. */
module CacheSim {
  import opened PowersOfTwo
  import opened Geometry
  import opened CacheModel

  class MulticoreCache {
    const numCores: nat
    const cfg: Config
    const geom: Geometry
    const entries: array3<Entry>
    const numEntriesInUse: array2<u32>
    const stats: array<Counters>
    ghost var model: Domain

    /** The configuration passed the command-line checks and the arrays have
        the shape that initialisation gives them. */
    ghost predicate Shaped() {
      ValidConfig(cfg) && GoodGeometry(geom) && numCores >= 1 &&
      entries.Length0 == numCores && entries.Length1 == geom.numSets &&
      entries.Length2 == geom.numEntriesPerSet &&
      numEntriesInUse.Length0 == numCores && numEntriesInUse.Length1 == geom.numSets &&
      stats.Length == numCores
    }

    /** The arrays hold exactly the domain value d. */
    ghost predicate Models(d: Domain)
      reads entries, numEntriesInUse, stats
    {
      Shaped() && |d.caches| == numCores && WellShaped(geom, d) &&
      (forall c, s, j :: 0 <= c < numCores && 0 <= s < geom.numSets && 0 <= j < geom.numEntriesPerSet ==>
         entries[c, s, j] == d.caches[c].sets[s].entries[j]) &&
      (forall c, s :: 0 <= c < numCores && 0 <= s < geom.numSets ==>
         numEntriesInUse[c, s] == d.caches[c].sets[s].numEntriesInUse) &&
      (forall c :: 0 <= c < numCores ==> stats[c] == d.caches[c].stats)
    }

    ghost predicate Valid()
      reads this, entries, numEntriesInUse, stats
    {
      Models(model)
    }

    /** The entries of set s of core c, as a sequence. */
    ghost function Row(c: nat, s: nat): (r: seq<Entry>)
      reads entries
      requires c < entries.Length0 && s < entries.Length1
      ensures |r| == entries.Length2
      ensures forall j :: 0 <= j < |r| ==> r[j] == entries[c, s, j]
    {
      seq(entries.Length2, j requires 0 <= j < entries.Length2 reads entries => entries[c, s, j])
    }

    lemma RowOfModel(d: Domain, c: nat, s: nat)
      requires Models(d) && c < numCores && s < geom.numSets
      ensures Row(c, s) == d.caches[c].sets[s].entries
    {
    }

    /** initMulticoreCache: every core's cache initialised in turn. */
    constructor (numCores: nat, cfg: Config)
      requires numCores >= 1 && ValidConfig(cfg)
      ensures Valid() && model == InitialDomain(cfg, numCores)
      ensures this.numCores == numCores && this.cfg == cfg && geom == InitGeometry(cfg)
      ensures fresh(entries) && fresh(numEntriesInUse) && fresh(stats)
    {
      var g := InitGeometry(cfg);
      this.numCores := numCores;
      this.cfg := cfg;
      geom := g;
      entries := new Entry[numCores, g.numSets, g.numEntriesPerSet];
      numEntriesInUse := new u32[numCores, g.numSets];
      stats := new Counters[numCores];
      model := InitialDomain(cfg, numCores);
      new;
      InitGeometryIsGood(cfg);
      var i := 0;
      while i != numCores
        modifies entries, numEntriesInUse, stats
        invariant 0 <= i <= numCores && Shaped()
        invariant forall c, s, j :: 0 <= c < i && 0 <= s < geom.numSets && 0 <= j < geom.numEntriesPerSet ==>
          entries[c, s, j] == InitialEntry(j)
        invariant forall c, s :: 0 <= c < i && 0 <= s < geom.numSets ==> numEntriesInUse[c, s] == 0
        invariant forall c :: 0 <= c < i ==> stats[c] == NoCounts
      {
        InitCache(i);
        i := i + 1;
      }
      InitialDomainHolds();
    }

    /** The arrays that the initialisation loops leave model InitialDomain. */
    lemma InitialDomainHolds()
      requires Shaped() && geom == InitGeometry(cfg)
      requires forall c, s, j :: 0 <= c < numCores && 0 <= s < geom.numSets && 0 <= j < geom.numEntriesPerSet ==>
        entries[c, s, j] == InitialEntry(j)
      requires forall c, s :: 0 <= c < numCores && 0 <= s < geom.numSets ==> numEntriesInUse[c, s] == 0
      requires forall c :: 0 <= c < numCores ==> stats[c] == NoCounts
      ensures Models(InitialDomain(cfg, numCores))
    {
      var d := InitialDomain(cfg, numCores);
      forall c, s, j | 0 <= c < numCores && 0 <= s < geom.numSets && 0 <= j < geom.numEntriesPerSet
        ensures entries[c, s, j] == d.caches[c].sets[s].entries[j]
      {
      }
    }

    /** initCache for core `core`: zeroed counters, and every set empty with
        every entry Invalid, zeroed and numbered by its slot. */
    method InitCache(core: nat)
      requires Shaped() && core < numCores
      modifies entries, numEntriesInUse, stats
      ensures forall c, s, j :: 0 <= c < numCores && 0 <= s < geom.numSets && 0 <= j < geom.numEntriesPerSet ==>
        entries[c, s, j] == if c == core then InitialEntry(j) else old(entries[c, s, j])
      ensures forall c, s :: 0 <= c < numCores && 0 <= s < geom.numSets ==>
        numEntriesInUse[c, s] == if c == core then 0 else old(numEntriesInUse[c, s])
      ensures forall c :: 0 <= c < numCores ==> stats[c] == if c == core then NoCounts else old(stats[c])
    {
      stats[core] := NoCounts;
      var s := 0;
      while s != entries.Length1
        modifies entries, numEntriesInUse
        invariant 0 <= s <= entries.Length1
        invariant forall c, t, j :: 0 <= c < numCores && 0 <= t < geom.numSets && 0 <= j < geom.numEntriesPerSet ==>
          entries[c, t, j] == if c == core && t < s then InitialEntry(j) else old(entries[c, t, j])
        invariant forall c, t :: 0 <= c < numCores && 0 <= t < geom.numSets ==>
          numEntriesInUse[c, t] == if c == core && t < s then 0 else old(numEntriesInUse[c, t])
      {
        numEntriesInUse[core, s] := 0;
        var j := 0;
        while j != entries.Length2
          modifies entries
          invariant 0 <= j <= entries.Length2
          invariant forall c, t, k :: 0 <= c < numCores && 0 <= t < geom.numSets && 0 <= k < geom.numEntriesPerSet ==>
            entries[c, t, k] == if c == core && (t < s || (t == s && k < j)) then InitialEntry(k) else old(entries[c, t, k])
        {
          entries[core, s, j] := InitialEntry(j);
          j := j + 1;
        }
        s := s + 1;
      }
    }

    /* ---------------- single-field stores ---------------- */

    /** Stores the counters of cache `core`. */
    method SetStats(core: nat, st: Counters)
      requires Valid() && core < numCores
      modifies this`model, stats
      ensures Valid() && model == WithStats(old(model), core, st)
    {
      stats[core] := st;
      model := WithStats(model, core, st);
    }

    /** Stores the in-use count of set s of cache `core`. */
    method SetInUse(core: nat, s: nat, n: u32)
      requires Valid() && core < numCores && s < geom.numSets
      modifies this`model, numEntriesInUse
      ensures Valid() && model == WithInUse(old(model), core, s, n)
    {
      numEntriesInUse[core, s] := n;
      model := WithInUse(model, core, s, n);
    }

    /** Stores entry j of set s of cache `core`. */
    method SetEntry(core: nat, s: nat, j: nat, e: Entry)
      requires Valid() && core < numCores && s < geom.numSets && j < geom.numEntriesPerSet
      modifies this`model, entries
      ensures Valid() && model == WithEntry(old(model), core, s, j, e)
    {
      entries[core, s, j] := e;
      model := WithEntry(model, core, s, j, e);
    }

    /* ---------------- set searches ---------------- */

    /** matchingEntryExists: is there a slot with this tag, valid or not? */
    method MatchingEntryExists(core: nat, s: nat, tag: u32) returns (found: bool)
      requires Shaped() && core < numCores && s < geom.numSets
      ensures found == HasTag(Row(core, s), tag)
    {
      var i := 0;
      while i != entries.Length2
        invariant 0 <= i <= entries.Length2
        invariant forall k :: 0 <= k < i ==> entries[core, s, k].tag != tag
      {
        if entries[core, s, i].tag == tag {
          return true;
        }
        i := i + 1;
      }
      return false;
    }

    /** matchingEntry: the first slot with this tag; the source asserts that
        there is one. */
    method MatchingEntry(core: nat, s: nat, tag: u32) returns (entryID: nat)
      requires Shaped() && core < numCores && s < geom.numSets
      requires HasTag(Row(core, s), tag)
      ensures entryID == FirstWithTag(Row(core, s), tag, 0)
    {
      ghost var first := FirstWithTag(Row(core, s), tag, 0);
      entryID := 0;
      while entries[core, s, entryID].tag != tag
        invariant entryID <= first
        decreases first - entryID
      {
        entryID := entryID + 1;
      }
    }

    /** getUnusedEntry: the first slot whose valid bit is clear. The source
        asserts that one exists; `found` is false where that assertion would
        fail. */
    method GetUnusedEntry(core: nat, s: nat) returns (found: bool, entryID: nat)
      requires Shaped() && core < numCores && s < geom.numSets
      ensures found == HasUnused(Row(core, s))
      ensures found ==> entryID == FirstUnused(Row(core, s), 0)
    {
      entryID := 0;
      while entryID != entries.Length2
        invariant 0 <= entryID <= entries.Length2
        invariant forall k :: 0 <= k < entryID ==> entries[core, s, k].valid
      {
        if !entries[core, s, entryID].valid {
          return true, entryID;
        }
        entryID := entryID + 1;
      }
      return false, 0;
    }

    /** getLeastRecentlyUsedEntry on a full set: the slot with the greatest
        LRU counter, the first one on a tie. */
    method GetLeastRecentlyUsedEntry(core: nat, s: nat) returns (entryID: nat)
      requires Shaped() && core < numCores && s < geom.numSets
      requires numEntriesInUse[core, s] == entries.Length2
      ensures entryID == LruVictim(Row(core, s), entries.Length2)
    {
      entryID := 0;
      var i := 0;
      while i != numEntriesInUse[core, s]
        invariant 0 <= i <= entries.Length2
        invariant if i == 0 then entryID == 0 else entryID == LruVictim(Row(core, s), i)
      {
        if entries[core, s, entryID].lruCounter < entries[core, s, i].lruCounter {
          entryID := i;
        }
        i := i + 1;
      }
    }

    /** The entry selection that handleRead and handleWrite share: the first
        slot with the tag (a hit), otherwise the LRU victim of a full set,
        otherwise the first unused slot, if getUnusedEntry finds one. */
    method ChooseEntry(core: nat, s: nat, tag: u32) returns (sel: Selection)
      requires Shaped() && core < numCores && s < geom.numSets
      ensures sel == Select(SetState(Row(core, s), numEntriesInUse[core, s]), tag)
    {
      var found := MatchingEntryExists(core, s, tag);
      if found {
        var entryID := MatchingEntry(core, s, tag);
        return Hit(entryID);
      } else if numEntriesInUse[core, s] == entries.Length2 {
        var entryID := GetLeastRecentlyUsedEntry(core, s);
        return EvictLru(entryID);
      } else {
        var unused, entryID := GetUnusedEntry(core, s);
        return if unused then FillUnused(entryID) else NoUnusedEntry;
      }
    }

    /** updateLRUs: the used slot's counter restarts at 0 and every other
        slot of the set, valid or not, ages by one. Nothing else changes. */
    method UpdateLRUs(core: nat, s: nat, used: nat)
      requires Valid() && core < numCores && s < geom.numSets && used < geom.numEntriesPerSet
      modifies this`model, entries
      ensures Valid() && model == WithLRUsUpdated(old(model), core, s, used)
    {
      ghost var d := model;
      var i := 0;
      while i != entries.Length2
        modifies entries
        invariant 0 <= i <= entries.Length2
        invariant forall c, t, k :: 0 <= c < numCores && 0 <= t < geom.numSets && 0 <= k < geom.numEntriesPerSet ==>
          entries[c, t, k] ==
            if c == core && t == s && k < i && k != used then Bump(d.caches[c].sets[t].entries[k], k, used)
            else d.caches[c].sets[t].entries[k]
      {
        if i != used {
          entries[core, s, i] := entries[core, s, i].(lruCounter := Inc32(entries[core, s, i].lruCounter));
        }
        i := i + 1;
      }
      entries[core, s, used] := entries[core, s, used].(lruCounter := 0);
      model := WithLRUsUpdated(d, core, s, used);
    }

    /* ---------------- coherence ---------------- */

    /** The snoop loop of the handlers: the entry at (s, j) of every other
        core is invalidated when it is in the rule's target state; the sibling
        counts a write to memory and an invalidated block, and an evicted
        Modified entry also gives its slot back to the in-use count. */
    method InvalidateSiblings(core: nat, s: nat, j: nat, rule: SnoopRule)
      requires Valid() && core < numCores && s < geom.numSets && j < geom.numEntriesPerSet
      modifies this`model, entries, numEntriesInUse, stats
      ensures Valid() && model == SnoopUpTo(geom, old(model), core, s, j, rule, numCores)
    {
      ghost var d := model;
      var i := 0;
      while i != numCores
        invariant 0 <= i <= numCores
        invariant Valid() && model == SnoopUpTo(geom, d, core, s, j, rule, i)
      {
        SnoopUpToNext(geom, d, core, s, j, rule, i);
        if i != core {
          SnoopSibling(i, s, j, rule);
        }
        i := i + 1;
      }
    }

    /** The body of the snoop loop for sibling `other`: its entry (s, j), if
        in the rule's target state, is evicted; the sibling counts a write to
        memory and an invalidated block, and an evicted Modified entry also
        gives its slot back to the in-use count. */
    method SnoopSibling(other: nat, s: nat, j: nat, rule: SnoopRule)
      requires Valid() && other < numCores && s < geom.numSets && j < geom.numEntriesPerSet
      modifies this`model, entries, numEntriesInUse, stats
      ensures Valid() && model == Domain(old(model).caches[other := Snoop(old(model).caches[other], s, j, rule)])
    {
      ghost var d := model;
      if entries[other, s, j].state == Target(rule) {
        stats[other] := SnoopVictimCounts(stats[other]);
        entries[other, s, j] := Evicted(entries[other, s, j]);
        if rule == EvictModified {
          numEntriesInUse[other, s] := Dec32(numEntriesInUse[other, s]);
        }
      }
      model := Domain(d.caches[other := Snoop(d.caches[other], s, j, rule)]);
    }

    /* ---------------- hit and miss handlers ---------------- */

    method HandleReadHit(core: nat)
      requires Valid() && core < numCores
      modifies this`model, stats
      ensures Valid() && model == WithStats(old(model), core, ReadHitCounts(old(model).caches[core].stats))
    {
      SetStats(core, ReadHitCounts(stats[core]));
    }

    method HandleReadMiss(core: nat)
      requires Valid() && core < numCores
      modifies this`model, stats
      ensures Valid() &&
        model == WithStats(old(model), core, ReadMissCounts(old(model).caches[core].stats, cfg.numCyclesPerMiss))
    {
      SetStats(core, ReadMissCounts(stats[core], cfg.numCyclesPerMiss));
    }

    /** handleWriteHit also marks the entry dirty. */
    method HandleWriteHit(core: nat, s: nat, j: nat)
      requires Valid() && core < numCores && s < geom.numSets && j < geom.numEntriesPerSet
      modifies this`model, stats, entries
      ensures Valid() && model == HitWritten(old(model), core, s, j)
    {
      SetStats(core, WriteHitCounts(stats[core]));
      SetEntry(core, s, j, entries[core, s, j].(dirty := true));
    }

    method HandleWriteMiss(core: nat)
      requires Valid() && core < numCores
      modifies this`model, stats
      ensures Valid() &&
        model == WithStats(old(model), core, WriteMissCounts(old(model).caches[core].stats, cfg.numCyclesPerMiss))
    {
      SetStats(core, WriteMissCounts(stats[core], cfg.numCyclesPerMiss));
    }

    /* ---------------- read and write ---------------- */

    /** The hit-or-miss part of handleRead for a selected slot. */
    method PickForRead(core: nat, s: nat, sel: Selection)
      requires Valid() && core < numCores && s < geom.numSets && !sel.NoUnusedEntry?
      modifies this`model, numEntriesInUse, stats
      ensures Valid() && model == ReadPicked(cfg, geom, old(model), core, s, sel)
    {
      if sel.Hit? {
        HandleReadHit(core);
      } else if sel.EvictLru? {
        HandleReadMiss(core);
      } else {
        SetInUse(core, s, Inc32(numEntriesInUse[core, s]));
        HandleReadMiss(core);
      }
    }

    /** The hit-or-miss part of handleWrite for a selected slot. */
    method PickForWrite(core: nat, s: nat, sel: Selection)
      requires Valid() && core < numCores && s < geom.numSets && !sel.NoUnusedEntry?
      requires sel.slot < geom.numEntriesPerSet
      modifies this`model, entries, numEntriesInUse, stats
      ensures Valid() && model == WritePicked(cfg, geom, old(model), core, s, sel)
    {
      if sel.Hit? {
        HandleWriteHit(core, s, sel.slot);
      } else {
        HandleWriteMiss(core);
        if sel.FillUnused? {
          SetInUse(core, s, Inc32(numEntriesInUse[core, s]));
        }
      }
    }

    /** The coherence switch of handleWrite, on the state of the chosen entry
        (s, j): Invalid evicts Modified copies in the other caches, Shared
        evicts Shared copies and counts a write to memory due to access need,
        Modified needs nothing. */
    method WriteCoherenceStep(core: nat, s: nat, j: nat)
      requires Valid() && core < numCores && s < geom.numSets && j < geom.numEntriesPerSet
      modifies this`model, entries, numEntriesInUse, stats
      ensures Valid() &&
        model == WriteCoherence(geom, old(model), core, s, j, old(model).caches[core].sets[s].entries[j].state)
    {
      match entries[core, s, j].state {
        case Invalid =>
          InvalidateSiblings(core, s, j, EvictModified);
        case Modified =>
        case Shared =>
          InvalidateSiblings(core, s, j, EvictShared);
          SetStats(core, stats[core].(numWriteBacksDueToAccessNeed := stats[core].numWriteBacksDueToAccessNeed + 1,
                                      numWritesToMem := stats[core].numWritesToMem + 1));
      }
    }

    /** The write-policy step of handleWrite: write-through writes the value
        to memory; write-back writes the old block back when the chosen entry
        is valid and dirty. */
    method WritePolicyStep(core: nat, s: nat, j: nat)
      requires Valid() && core < numCores && s < geom.numSets && j < geom.numEntriesPerSet
      modifies this`model, stats
      ensures Valid() && model == PolicyApplied(cfg, geom, old(model), core, s, j)
    {
      var e := entries[core, s, j];
      if cfg.writePolicy == WriteThrough {
        SetStats(core, stats[core].(numWritesToMem := stats[core].numWritesToMem + 1,
                                    numWritesBacksDueToWriteThruPolicy := stats[core].numWritesBacksDueToWriteThruPolicy + 1));
      } else if e.valid && e.dirty {
        SetStats(core, stats[core].(numWriteBacksDueToReadMiss := stats[core].numWriteBacksDueToReadMiss + 1,
                                    numWritesToMem := stats[core].numWritesToMem + 1));
      } else {
        SetStats(core, stats[core]);
      }
    }

    /** The last lines of both handlers: updateLRUs, then the new tag, state
        and valid bit, and for a write the dirty bit. */
    method Install(core: nat, s: nat, j: nat, tag: u32, state: MsiState)
      requires Valid() && core < numCores && s < geom.numSets && j < geom.numEntriesPerSet
      modifies this`model, entries
      ensures Valid() && model == Installed(geom, old(model), core, s, j, tag, state)
    {
      UpdateLRUs(core, s, j);
      SetEntry(core, s, j, Filled(entries[core, s, j], tag, state));
    }

    /** handleRead on set s of core `core`; Aborted where getUnusedEntry's
        assertion fails. */
    method HandleRead(core: nat, s: nat, tag: u32) returns (outcome: Outcome)
      requires Valid() && core < numCores && s < geom.numSets
      modifies this`model, entries, numEntriesInUse, stats
      ensures Valid() && StepResult(outcome, model) == Read(cfg, geom, old(model), core, s, tag)
    {
      SetStats(core, stats[core].(numReads := stats[core].numReads + 1));
      RowOfModel(model, core, s);
      var sel := ChooseEntry(core, s, tag);
      if sel.NoUnusedEntry? {
        return Aborted;
      }
      ghost var d1 := model;
      ReadSelected(core, s, tag, sel);
      ReadHandled(cfg, geom, old(model), core, s, tag, d1, sel);
      return Handled;
    }

    /** handleRead once the entry is selected: the hit or miss handler, the
        coherence check on an Invalid entry, and the install. */
    method ReadSelected(core: nat, s: nat, tag: u32, sel: Selection)
      requires Valid() && core < numCores && s < geom.numSets
      requires !sel.NoUnusedEntry? && sel.slot < geom.numEntriesPerSet
      modifies this`model, entries, numEntriesInUse, stats
      ensures Valid() && model == ReadAfterSelect(cfg, geom, old(model), core, s, sel, tag)
    {
      PickForRead(core, s, sel);
      if entries[core, s, sel.slot].state == Invalid {
        InvalidateSiblings(core, s, sel.slot, EvictModified);
      }
      Install(core, s, sel.slot, tag, Shared);
    }

    /** handleWrite on set s of core `core`; Aborted where getUnusedEntry's
        assertion fails. */
    method HandleWrite(core: nat, s: nat, tag: u32) returns (outcome: Outcome)
      requires Valid() && core < numCores && s < geom.numSets
      modifies this`model, entries, numEntriesInUse, stats
      ensures Valid() && StepResult(outcome, model) == Write(cfg, geom, old(model), core, s, tag)
    {
      SetStats(core, WriteCounts(stats[core]));
      RowOfModel(model, core, s);
      var sel := ChooseEntry(core, s, tag);
      if sel.NoUnusedEntry? {
        return Aborted;
      }
      ghost var d1 := model;
      WriteSelected(core, s, tag, sel);
      WriteHandled(cfg, geom, old(model), core, s, tag, d1, sel);
      return Handled;
    }

    /** handleWrite once the entry is selected: the hit or miss handler, the
        coherence switch, the write-policy step and the install. */
    method WriteSelected(core: nat, s: nat, tag: u32, sel: Selection)
      requires Valid() && core < numCores && s < geom.numSets
      requires !sel.NoUnusedEntry? && sel.slot < geom.numEntriesPerSet
      modifies this`model, entries, numEntriesInUse, stats
      ensures Valid() && model == WriteAfterSelect(cfg, geom, old(model), core, s, sel, tag)
    {
      PickForWrite(core, s, sel);
      WriteCoherenceStep(core, s, sel.slot);
      WritePolicyStep(core, s, sel.slot);
      Install(core, s, sel.slot, tag, Modified);
    }

    /* ---------------- trace records and replay ---------------- */

    /** handleCacheEntry: count the instruction, reject a mode other than
        'R' and 'W', split the address into tag and set index, run the read or
        write handler. */
    method HandleCacheEntry(coreID: nat, byteAddress: u32, mode: char) returns (outcome: Outcome)
      requires Valid() && geom == InitGeometry(cfg) && coreID < numCores
      modifies this`model, entries, numEntriesInUse, stats
      ensures Valid() && StepResult(outcome, model) == Step(cfg, old(model), TraceRecord(coreID, byteAddress, mode))
    {
      SetStats(coreID, stats[coreID].(numInstructions := stats[coreID].numInstructions + 1));
      if mode != READ_OP && mode != WRITE_OP {
        return Rejected;
      }
      var tag := TagOf(geom, byteAddress);
      var index := SetIndexOf(geom, byteAddress);
      if mode == READ_OP {
        outcome := HandleRead(coreID, index, tag);
      } else {
        outcome := HandleWrite(coreID, index, tag);
      }
    }

    /** simulateCacheFromTraceFile, on the records the file holds: each one
        handled in turn, until one fails getUnusedEntry's assertion. */
    method SimulateTrace(trace: seq<TraceRecord>) returns (aborted: bool, at: nat)
      requires Valid() && geom == InitGeometry(cfg) && CoresInRange(trace, numCores)
      modifies this`model, entries, numEntriesInUse, stats
      ensures Valid()
      ensures Replay(cfg, old(model), trace) == if aborted then AbortedAt(at, model) else Completed(model)
    {
      ghost var d0 := model;
      var i := 0;
      while i != |trace|
        invariant 0 <= i <= |trace| && Valid()
        invariant Replay(cfg, d0, trace[..i]) == Completed(model)
      {
        assert trace[..i + 1][..i] == trace[..i];
        var outcome := HandleCacheEntry(trace[i].coreID, trace[i].byteAddress, trace[i].mode);
        if outcome == Aborted {
          assert Replay(cfg, d0, trace[..i + 1]) == AbortedAt(i, model);
          AbortStops(cfg, d0, trace, i + 1);
          return true, i;
        }
        i := i + 1;
      }
      assert trace[..i] == trace;
      return false, 0;
    }
  }
}
