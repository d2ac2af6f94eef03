/** What the read, write and trace-record operations of CacheModel do, stated
    field by field: which counters move, what the chosen entry and the rest
    of its set become, and how the other caches react. On top of these, the
    statistics invariant kept by every completed operation and by every
    completed replay. */
module CacheProperties {
  import opened PowersOfTwo
  import opened Geometry
  import opened CacheModel

  /* ---------------- one sibling's snoop ---------------- */

  /** A snoop of slot (s, j) leaves a sibling alone unless that entry is in
      the rule's target state; then the entry is evicted, the sibling counts
      a write to memory and an invalidated block, and for a Modified victim
      the set's in-use count goes down by one. Nothing else changes. */
  lemma SnoopEffect(cache: CacheState, s: nat, j: nat, rule: SnoopRule)
    requires s < |cache.sets| && j < |cache.sets[s].entries|
    ensures var r := Snoop(cache, s, j, rule); var before := cache.sets[s];
      var e := before.entries[j];
      |r.sets| == |cache.sets| &&
      (forall t :: 0 <= t < |cache.sets| && t != s ==> r.sets[t] == cache.sets[t]) &&
      |r.sets[s].entries| == |before.entries| &&
      (forall k :: 0 <= k < |before.entries| && k != j ==> r.sets[s].entries[k] == before.entries[k]) &&
      if e.state == Target(rule) then
        r.sets[s].entries[j] == Entry(0, false, false, 0, Invalid, e.entryID) &&
        r.stats == SnoopVictimCounts(cache.stats) &&
        r.sets[s].numEntriesInUse ==
          (if rule == EvictModified then (before.numEntriesInUse - 1) % TWO_TO_32 else before.numEntriesInUse)
      else r == cache
  {
  }

  /** The whole snoop loop: the issuing cache is skipped and each other
      cache has reacted once. */
  lemma SnoopAll(g: Geometry, d: Domain, c: nat, s: nat, j: nat, rule: SnoopRule)
    requires WellShaped(g, d) && c < |d.caches| && s < g.numSets && j < g.numEntriesPerSet
    ensures var r := SnoopUpTo(g, d, c, s, j, rule, |d.caches|);
      r.caches[c] == d.caches[c] &&
      forall k :: 0 <= k < |d.caches| && k != c ==> r.caches[k] == Snoop(d.caches[k], s, j, rule)
  {
  }

  /* ---------------- the phases of the handlers ---------------- */

  /** Everything in domain r equals domain d except cache c. */
  predicate OthersSame(d: Domain, r: Domain, c: nat) {
    |r.caches| == |d.caches| && forall k :: 0 <= k < |d.caches| && k != c ==> r.caches[k] == d.caches[k]
  }

  /** Every set of cache `after` but set s equals the one of `before`. */
  predicate OtherSetsSame(before: CacheState, after: CacheState, s: nat) {
    |after.sets| == |before.sets| && forall t :: 0 <= t < |before.sets| && t != s ==> after.sets[t] == before.sets[t]
  }

  lemma ReadPickedEffect(cfg: Config, g: Geometry, d: Domain, c: nat, s: nat, sel: Selection)
    requires Fits(cfg, g, d, c, s) && !sel.NoUnusedEntry?
    ensures var r := ReadPicked(cfg, g, d, c, s, sel); var before := d.caches[c]; var after := r.caches[c];
      OthersSame(d, r, c) && OtherSetsSame(before, after, s) &&
      after.sets[s].entries == before.sets[s].entries &&
      after.sets[s].numEntriesInUse ==
        (if sel.FillUnused? then Inc32(before.sets[s].numEntriesInUse) else before.sets[s].numEntriesInUse) &&
      after.stats == if sel.Hit? then ReadHitCounts(before.stats) else ReadMissCounts(before.stats, cfg.numCyclesPerMiss)
  {
  }

  lemma WritePickedEffect(cfg: Config, g: Geometry, d: Domain, c: nat, s: nat, sel: Selection)
    requires Fits(cfg, g, d, c, s) && !sel.NoUnusedEntry? && sel.slot < g.numEntriesPerSet
    ensures var r := WritePicked(cfg, g, d, c, s, sel); var before := d.caches[c]; var after := r.caches[c];
      var j := sel.slot;
      OthersSame(d, r, c) && OtherSetsSame(before, after, s) &&
      |after.sets[s].entries| == |before.sets[s].entries| &&
      (forall k :: 0 <= k < |before.sets[s].entries| && k != j ==> after.sets[s].entries[k] == before.sets[s].entries[k]) &&
      after.sets[s].entries[j] == before.sets[s].entries[j].(dirty := before.sets[s].entries[j].dirty || sel.Hit?) &&
      after.sets[s].numEntriesInUse ==
        (if sel.FillUnused? then Inc32(before.sets[s].numEntriesInUse) else before.sets[s].numEntriesInUse) &&
      after.stats == if sel.Hit? then WriteHitCounts(before.stats) else WriteMissCounts(before.stats, cfg.numCyclesPerMiss)
  {
  }

  /** The coherence switch of the write handler touches the writer only in
      its counters: a Shared entry costs one write to memory due to access
      need. */
  lemma WriteCoherenceEffect(g: Geometry, d: Domain, c: nat, s: nat, j: nat, state: MsiState)
    requires WellShaped(g, d) && c < |d.caches| && s < g.numSets && j < g.numEntriesPerSet
    ensures var r := WriteCoherence(g, d, c, s, j, state); var st := d.caches[c].stats;
      |r.caches| == |d.caches| && r.caches[c].sets == d.caches[c].sets &&
      r.caches[c].stats ==
        (if state == Shared then st.(numWriteBacksDueToAccessNeed := st.numWriteBacksDueToAccessNeed + 1,
                                     numWritesToMem := st.numWritesToMem + 1)
         else st) &&
      forall k :: 0 <= k < |d.caches| && k != c ==>
        r.caches[k] == match state
          case Invalid => Snoop(d.caches[k], s, j, EvictModified)
          case Shared => Snoop(d.caches[k], s, j, EvictShared)
          case Modified => d.caches[k]
  {
    SnoopAll(g, d, c, s, j, EvictModified);
    SnoopAll(g, d, c, s, j, EvictShared);
  }

  /** The install step: the chosen slot restarts its LRU counter and takes
      the tag and state, valid; every other slot of the set ages by one;
      counters, in-use count and the rest of the domain stay. */
  lemma InstalledEffect(g: Geometry, d: Domain, c: nat, s: nat, j: nat, tag: u32, state: MsiState)
    requires WellShaped(g, d) && c < |d.caches| && s < g.numSets && j < g.numEntriesPerSet
    ensures var r := Installed(g, d, c, s, j, tag, state); var before := d.caches[c]; var after := r.caches[c];
      var row := before.sets[s].entries;
      OthersSame(d, r, c) && OtherSetsSame(before, after, s) && after.stats == before.stats &&
      after.sets[s].numEntriesInUse == before.sets[s].numEntriesInUse &&
      |after.sets[s].entries| == |row| &&
      (forall k :: 0 <= k < |row| && k != j ==> after.sets[s].entries[k] == row[k].(lruCounter := Inc32(row[k].lruCounter))) &&
      after.sets[s].entries[j] ==
        row[j].(tag := tag, valid := true, state := state, lruCounter := 0, dirty := row[j].dirty || state == Modified)
  {
  }

  /* ---------------- read and write ---------------- */

  /** Set s as an access to slot j leaves it: the slot takes the tag, the
      state and the dirty bit, becomes valid and restarts its LRU counter;
      every other slot ages by one; a filled unused slot counts as in use. */
  predicate SetAfterAccess(before: SetState, after: SetState, j: nat, tag: u32, state: MsiState,
                           dirty: bool, filled: bool)
    requires j < |before.entries|
  {
    var row := before.entries;
    after.numEntriesInUse == (if filled then Inc32(before.numEntriesInUse) else before.numEntriesInUse) &&
    |after.entries| == |row| &&
    (forall k :: 0 <= k < |row| && k != j ==> after.entries[k] == row[k].(lruCounter := Inc32(row[k].lruCounter))) &&
    after.entries[j] == row[j].(tag := tag, valid := true, state := state, dirty := dirty, lruCounter := 0)
  }

  /** How the other caches react to the snoops of an access that found its
      chosen slot j of set s in the given state: for `read`, an Invalid
      entry evicts Modified copies; for a write, an Invalid entry evicts
      Modified copies and a Shared entry Shared copies. */
  predicate SiblingsAfter(d: Domain, r: Domain, c: nat, s: nat, j: nat, state: MsiState, read: bool)
    requires forall k :: 0 <= k < |d.caches| ==> s < |d.caches[k].sets| && j < |d.caches[k].sets[s].entries|
  {
    |r.caches| == |d.caches| &&
    forall k :: 0 <= k < |d.caches| && k != c ==>
      r.caches[k] ==
        if state == Invalid then Snoop(d.caches[k], s, j, EvictModified)
        else if state == Shared && !read then Snoop(d.caches[k], s, j, EvictShared)
        else d.caches[k]
  }

  /** The counters a write that completes leaves on the writer, from those
      it had once the write was counted: its hit or miss, one write-back due
      to access need for a Shared entry, then the write-policy step on the
      entry as the hit handler leaves it. */
  function WrittenCounts(cfg: Config, st: Counters, hit: bool, e: Entry): (r: Counters)
    requires ValidConfig(cfg)
  {
    var st2 := if hit then WriteHitCounts(st) else WriteMissCounts(st, cfg.numCyclesPerMiss);
    var st3 := if e.state == Shared then
                 st2.(numWriteBacksDueToAccessNeed := st2.numWriteBacksDueToAccessNeed + 1,
                      numWritesToMem := st2.numWritesToMem + 1)
               else st2;
    PolicyCounts(cfg.writePolicy, e.(dirty := e.dirty || hit), st3)
  }

  /** What WrittenCounts amounts to: a write hit or a write miss with its
      penalty; one write-back due to access need for a Shared entry; one
      write-through per write under write-through; and as many writes to
      memory as the access-need write-back, the write-through and, under
      write-back, the write-back of a valid entry that is dirty or was just
      hit. The hit handler marks the entry dirty before the policy step looks
      at it, so under write-back every write hit on a valid entry writes
      back. */
  lemma WrittenCountsDeltas(cfg: Config, st: Counters, hit: bool, e: Entry)
    requires ValidConfig(cfg)
    ensures var r := WrittenCounts(cfg, st, hit, e);
      r.numHits == st.numHits + (if hit then 1 else 0) &&
      r.numMisses == st.numMisses + (if hit then 0 else 1) &&
      r.numWriteHits == st.numWriteHits + (if hit then 1 else 0) &&
      r.numWriteMisses == st.numWriteMisses + (if hit then 0 else 1) &&
      r.numWriteBacksDueToAccessNeed == st.numWriteBacksDueToAccessNeed + (if e.state == Shared then 1 else 0) &&
      r.numWritesBacksDueToWriteThruPolicy == st.numWritesBacksDueToWriteThruPolicy +
        (if cfg.writePolicy == WriteThrough then 1 else 0) &&
      r.numCycles == st.numCycles + (if hit then 0 else cfg.numCyclesPerMiss) &&
      r.numWritesToMem == st.numWritesToMem + (if e.state == Shared then 1 else 0) +
        (if cfg.writePolicy == WriteThrough || (e.valid && (e.dirty || hit)) then 1 else 0) &&
      r.numWriteBacksDueToReadMiss == st.numWriteBacksDueToReadMiss +
        (if cfg.writePolicy == WriteBack && e.valid && (e.dirty || hit) then 1 else 0) &&
      r.numReads == st.numReads && r.numWrites == st.numWrites && r.numInstructions == st.numInstructions
  {
  }

  /** The read handler once slot `sel` is chosen. */
  lemma ReadAfterSelectEffect(cfg: Config, g: Geometry, d: Domain, c: nat, s: nat, sel: Selection, tag: u32)
    requires Fits(cfg, g, d, c, s) && !sel.NoUnusedEntry? && sel.slot < g.numEntriesPerSet
    ensures var r := ReadAfterSelect(cfg, g, d, c, s, sel, tag); var before := d.caches[c];
      var after := r.caches[c]; var e := before.sets[s].entries[sel.slot];
      after.stats == (if sel.Hit? then ReadHitCounts(before.stats) else ReadMissCounts(before.stats, cfg.numCyclesPerMiss)) &&
      OtherSetsSame(before, after, s) &&
      SetAfterAccess(before.sets[s], after.sets[s], sel.slot, tag, Shared, e.dirty, sel.FillUnused?) &&
      SiblingsAfter(d, r, c, s, sel.slot, e.state, true)
  {
    var j := sel.slot;
    var d2 := ReadPicked(cfg, g, d, c, s, sel);
    ReadPickedEffect(cfg, g, d, c, s, sel);
    var d3 := ReadCoherence(g, d2, c, s, j);
    if d2.caches[c].sets[s].entries[j].state == Invalid {
      SnoopAll(g, d2, c, s, j, EvictModified);
    }
    InstalledEffect(g, d3, c, s, j, tag, Shared);
  }

  /** handleRead, field by field. It aborts exactly when no entry has the
      tag, the in-use count says the set is not full and no entry is unused;
      then only the read was counted. Otherwise the read is a hit exactly
      when some entry of the set carries the tag; the hit or miss counters
      move; the chosen slot takes the tag, Shared and valid, with LRU counter
      0; the other slots of the set age by one; an unused slot that was
      filled counts as in use; and if the chosen entry was Invalid every
      other cache reacts to a snoop for Modified copies of that slot. */
  lemma ReadEffect(cfg: Config, g: Geometry, d: Domain, c: nat, s: nat, tag: u32)
    requires Fits(cfg, g, d, c, s)
    ensures var r := Read(cfg, g, d, c, s, tag); var sel := Select(d.caches[c].sets[s], tag);
      var before := d.caches[c]; var st := before.stats.(numReads := before.stats.numReads + 1);
      (r.outcome == Aborted <==> sel.NoUnusedEntry?) &&
      (r.outcome == Aborted ==> OthersSame(d, r.after, c) && r.after.caches[c] == before.(stats := st))
    ensures var r := Read(cfg, g, d, c, s, tag); var sel := Select(d.caches[c].sets[s], tag);
      var before := d.caches[c]; var after := r.after.caches[c];
      var st := before.stats.(numReads := before.stats.numReads + 1);
      r.outcome == Handled ==>
        var e := before.sets[s].entries[sel.slot];
        (sel.Hit? <==> HasTag(before.sets[s].entries, tag)) &&
        after.stats == (if sel.Hit? then ReadHitCounts(st) else ReadMissCounts(st, cfg.numCyclesPerMiss)) &&
        OtherSetsSame(before, after, s) &&
        SetAfterAccess(before.sets[s], after.sets[s], sel.slot, tag, Shared, e.dirty, sel.FillUnused?) &&
        SiblingsAfter(d, r.after, c, s, sel.slot, e.state, true)
  {
    var before := d.caches[c];
    var d1 := WithStats(d, c, before.stats.(numReads := before.stats.numReads + 1));
    assert d1.caches[c].sets == before.sets;
    var sel := Select(d1.caches[c].sets[s], tag);
    if !sel.NoUnusedEntry? {
      ReadHandled(cfg, g, d, c, s, tag, d1, sel);
      ReadAfterSelectEffect(cfg, g, d1, c, s, sel, tag);
    }
  }

  /** The write handler once slot `sel` is chosen. */
  lemma WriteAfterSelectEffect(cfg: Config, g: Geometry, d: Domain, c: nat, s: nat, sel: Selection, tag: u32)
    requires Fits(cfg, g, d, c, s) && !sel.NoUnusedEntry? && sel.slot < g.numEntriesPerSet
    ensures var r := WriteAfterSelect(cfg, g, d, c, s, sel, tag); var before := d.caches[c];
      var after := r.caches[c]; var e := before.sets[s].entries[sel.slot];
      after.stats == WrittenCounts(cfg, before.stats, sel.Hit?, e) &&
      OtherSetsSame(before, after, s) &&
      SetAfterAccess(before.sets[s], after.sets[s], sel.slot, tag, Modified, true, sel.FillUnused?) &&
      SiblingsAfter(d, r, c, s, sel.slot, e.state, false)
  {
    var j := sel.slot;
    var d2 := WritePicked(cfg, g, d, c, s, sel);
    WritePickedEffect(cfg, g, d, c, s, sel);
    var state := d2.caches[c].sets[s].entries[j].state;
    var d3 := WriteCoherence(g, d2, c, s, j, state);
    WriteCoherenceEffect(g, d2, c, s, j, state);
    var d4 := PolicyApplied(cfg, g, d3, c, s, j);
    InstalledEffect(g, d4, c, s, j, tag, Modified);
  }

  /** handleWrite, field by field. It aborts exactly as a read does; then
      only the write was counted. Otherwise the write is a hit exactly when
      some entry carries the tag; the write, its hit or miss, a write to
      memory due to access need for a Shared entry and the write-policy
      step are counted, the latter on the entry as the hit handler leaves
      it (a hit marks it dirty first); the chosen slot takes the tag,
      Modified, valid and dirty, with LRU counter 0; the other slots age by
      one; a filled unused slot counts as in use; and the other caches react
      to a snoop for Modified copies (Invalid entry) or Shared copies (Shared
      entry) of that slot, or not at all (Modified entry). */
  lemma WriteEffect(cfg: Config, g: Geometry, d: Domain, c: nat, s: nat, tag: u32)
    requires Fits(cfg, g, d, c, s)
    ensures var r := Write(cfg, g, d, c, s, tag); var sel := Select(d.caches[c].sets[s], tag);
      var before := d.caches[c];
      (r.outcome == Aborted <==> sel.NoUnusedEntry?) &&
      (r.outcome == Aborted ==> OthersSame(d, r.after, c) && r.after.caches[c] == before.(stats := WriteCounts(before.stats)))
    ensures var r := Write(cfg, g, d, c, s, tag); var sel := Select(d.caches[c].sets[s], tag);
      var before := d.caches[c]; var after := r.after.caches[c];
      r.outcome == Handled ==>
        var e := before.sets[s].entries[sel.slot];
        (sel.Hit? <==> HasTag(before.sets[s].entries, tag)) &&
        after.stats == WrittenCounts(cfg, WriteCounts(before.stats), sel.Hit?, e) &&
        OtherSetsSame(before, after, s) &&
        SetAfterAccess(before.sets[s], after.sets[s], sel.slot, tag, Modified, true, sel.FillUnused?) &&
        SiblingsAfter(d, r.after, c, s, sel.slot, e.state, false)
  {
    var before := d.caches[c];
    var d1 := WithStats(d, c, WriteCounts(before.stats));
    assert d1.caches[c].sets == before.sets;
    var sel := Select(d1.caches[c].sets[s], tag);
    if !sel.NoUnusedEntry? {
      WriteHandled(cfg, g, d, c, s, tag, d1, sel);
      WriteAfterSelectEffect(cfg, g, d1, c, s, sel, tag);
    }
  }

  /* ---------------- trace records ---------------- */

  /** A snooped sibling's counters either stay or record one write to
      memory and one invalidated block. */
  lemma SiblingCounts(d: Domain, r: Domain, c: nat, s: nat, j: nat, state: MsiState, read: bool)
    requires forall k :: 0 <= k < |d.caches| ==> s < |d.caches[k].sets| && j < |d.caches[k].sets[s].entries|
    requires SiblingsAfter(d, r, c, s, j, state, read)
    ensures forall k :: 0 <= k < |d.caches| && k != c ==>
      r.caches[k].stats == d.caches[k].stats || r.caches[k].stats == SnoopVictimCounts(d.caches[k].stats)
  {
    forall k | 0 <= k < |d.caches| && k != c
      ensures r.caches[k].stats == d.caches[k].stats || r.caches[k].stats == SnoopVictimCounts(d.caches[k].stats)
    {
      SnoopEffect(d.caches[k], s, j, EvictModified);
      SnoopEffect(d.caches[k], s, j, EvictShared);
    }
  }

  /** A record with a mode other than 'R' or 'W' is rejected after counting
      the instruction, and nothing else changes; 'R' and 'W' records are
      never rejected. */
  lemma RejectedMode(cfg: Config, d: Domain, rec: TraceRecord)
    requires ValidConfig(cfg) && WellShaped(InitGeometry(cfg), d) && rec.coreID < |d.caches|
    ensures var r := Step(cfg, d, rec); var before := d.caches[rec.coreID];
      (r.outcome == Rejected <==> rec.mode != 'R' && rec.mode != 'W') &&
      (r.outcome == Rejected ==>
         OthersSame(d, r.after, rec.coreID) &&
         r.after.caches[rec.coreID] == before.(stats := before.stats.(numInstructions := before.stats.numInstructions + 1)))
  {
  }

  /** Reads count no instruction, on any core. */
  lemma ReadKeepsInstructions(cfg: Config, g: Geometry, d: Domain, c: nat, s: nat, tag: u32)
    requires Fits(cfg, g, d, c, s)
    ensures var r := Read(cfg, g, d, c, s, tag);
      forall k :: 0 <= k < |d.caches| ==> r.after.caches[k].stats.numInstructions == d.caches[k].stats.numInstructions
  {
    var sel := Select(d.caches[c].sets[s], tag);
    ReadEffect(cfg, g, d, c, s, tag);
    if !sel.NoUnusedEntry? {
      SiblingCounts(d, Read(cfg, g, d, c, s, tag).after, c, s, sel.slot, d.caches[c].sets[s].entries[sel.slot].state, true);
    }
  }

  /** Writes count no instruction, on any core. */
  lemma WriteKeepsInstructions(cfg: Config, g: Geometry, d: Domain, c: nat, s: nat, tag: u32)
    requires Fits(cfg, g, d, c, s)
    ensures var r := Write(cfg, g, d, c, s, tag);
      forall k :: 0 <= k < |d.caches| ==> r.after.caches[k].stats.numInstructions == d.caches[k].stats.numInstructions
  {
    var sel := Select(d.caches[c].sets[s], tag);
    WriteEffect(cfg, g, d, c, s, tag);
    if !sel.NoUnusedEntry? {
      SiblingCounts(d, Write(cfg, g, d, c, s, tag).after, c, s, sel.slot, d.caches[c].sets[s].entries[sel.slot].state, false);
    }
  }

  /** The handler a well-formed record runs, on the domain with the
      instruction counted. */
  lemma StepRunsHandler(cfg: Config, d: Domain, rec: TraceRecord)
    requires ValidConfig(cfg) && WellShaped(InitGeometry(cfg), d) && rec.coreID < |d.caches|
    requires rec.mode == 'R' || rec.mode == 'W'
    ensures var g := InitGeometry(cfg); var c := rec.coreID; var st := d.caches[c].stats;
      var d1 := WithStats(d, c, st.(numInstructions := st.numInstructions + 1));
      var tag := TagOf(g, rec.byteAddress); var s := SetIndexOf(g, rec.byteAddress);
      Fits(cfg, g, d1, c, s) &&
      Step(cfg, d, rec) == if rec.mode == 'R' then Read(cfg, g, d1, c, s, tag) else Write(cfg, g, d1, c, s, tag)
  {
    InitGeometryIsGood(cfg);
  }

  /** Every record, whatever its outcome, counts one instruction on its own
      core and none on any other. */
  lemma StepCountsInstruction(cfg: Config, d: Domain, rec: TraceRecord)
    requires ValidConfig(cfg) && WellShaped(InitGeometry(cfg), d) && rec.coreID < |d.caches|
    ensures var r := Step(cfg, d, rec);
      forall k :: 0 <= k < |d.caches| ==>
        r.after.caches[k].stats.numInstructions ==
          d.caches[k].stats.numInstructions + (if k == rec.coreID then 1 else 0)
  {
    var g := InitGeometry(cfg);
    var c := rec.coreID;
    var st := d.caches[c].stats;
    var d1 := WithStats(d, c, st.(numInstructions := st.numInstructions + 1));
    if rec.mode == READ_OP || rec.mode == WRITE_OP {
      StepRunsHandler(cfg, d, rec);
      if rec.mode == READ_OP {
        ReadKeepsInstructions(cfg, g, d1, c, SetIndexOf(g, rec.byteAddress), TagOf(g, rec.byteAddress));
      } else {
        WriteKeepsInstructions(cfg, g, d1, c, SetIndexOf(g, rec.byteAddress), TagOf(g, rec.byteAddress));
      }
    }
  }

  /* ---------------- the statistics invariant ---------------- */

  lemma CountInstructionKeepsBalanced(cfg: Config, st: Counters)
    requires Balanced(cfg, st)
    ensures var st1 := st.(numInstructions := st.numInstructions + 1);
      Balanced(cfg, st1) && st1.numReads + st1.numWrites < st1.numInstructions
  {
  }

  lemma SnoopKeepsBalanced(cfg: Config, st: Counters)
    requires Balanced(cfg, st)
    ensures Balanced(cfg, SnoopVictimCounts(st))
  {
  }

  /** A completed read, counted on a core whose instruction was counted
      first, keeps the core's counters balanced. */
  lemma ReadKeepsBalanced(cfg: Config, st: Counters, hit: bool)
    requires ValidConfig(cfg) && Balanced(cfg, st) && st.numReads + st.numWrites < st.numInstructions
    ensures var st1 := st.(numReads := st.numReads + 1);
      Balanced(cfg, if hit then ReadHitCounts(st1) else ReadMissCounts(st1, cfg.numCyclesPerMiss))
  {
    MissPenalty(st.numMisses, cfg.numCyclesPerMiss);
  }

  /** The same for a completed write, whatever its chosen entry. */
  lemma WriteKeepsBalanced(cfg: Config, st: Counters, hit: bool, e: Entry)
    requires ValidConfig(cfg) && Balanced(cfg, st) && st.numReads + st.numWrites < st.numInstructions
    ensures Balanced(cfg, WrittenCounts(cfg, WriteCounts(st), hit, e))
  {
    MissPenalty(st.numMisses, cfg.numCyclesPerMiss);
    WrittenCountsDeltas(cfg, WriteCounts(st), hit, e);
  }

  lemma MissPenalty(m: nat, p: int)
    ensures (m + 1) * p == m * p + p
  {
  }

  /** The snooped siblings keep balanced counters. */
  lemma SiblingsKeepBalanced(cfg: Config, d: Domain, r: Domain, c: nat, s: nat, j: nat, state: MsiState, read: bool)
    requires forall k :: 0 <= k < |d.caches| ==> s < |d.caches[k].sets| && j < |d.caches[k].sets[s].entries|
    requires AllBalanced(cfg, d) && SiblingsAfter(d, r, c, s, j, state, read)
    ensures forall k :: 0 <= k < |d.caches| && k != c ==> Balanced(cfg, r.caches[k].stats)
  {
    SiblingCounts(d, r, c, s, j, state, read);
    forall k | 0 <= k < |d.caches| && k != c
      ensures Balanced(cfg, r.caches[k].stats)
    {
      SnoopKeepsBalanced(cfg, d.caches[k].stats);
    }
  }

  /** A read that completes, on a domain whose counters are balanced and
      whose core c has counted the instruction, leaves every cache's counters
      balanced. */
  lemma ReadKeepsAllBalanced(cfg: Config, g: Geometry, d: Domain, c: nat, s: nat, tag: u32)
    requires Fits(cfg, g, d, c, s) && AllBalanced(cfg, d)
    requires d.caches[c].stats.numReads + d.caches[c].stats.numWrites < d.caches[c].stats.numInstructions
    ensures var r := Read(cfg, g, d, c, s, tag); r.outcome == Handled ==> AllBalanced(cfg, r.after)
  {
    var sel := Select(d.caches[c].sets[s], tag);
    var r := Read(cfg, g, d, c, s, tag);
    ReadEffect(cfg, g, d, c, s, tag);
    if !sel.NoUnusedEntry? {
      ReadKeepsBalanced(cfg, d.caches[c].stats, sel.Hit?);
      SiblingsKeepBalanced(cfg, d, r.after, c, s, sel.slot, d.caches[c].sets[s].entries[sel.slot].state, true);
    }
  }

  /** The same for a write. */
  lemma WriteKeepsAllBalanced(cfg: Config, g: Geometry, d: Domain, c: nat, s: nat, tag: u32)
    requires Fits(cfg, g, d, c, s) && AllBalanced(cfg, d)
    requires d.caches[c].stats.numReads + d.caches[c].stats.numWrites < d.caches[c].stats.numInstructions
    ensures var r := Write(cfg, g, d, c, s, tag); r.outcome == Handled ==> AllBalanced(cfg, r.after)
  {
    var sel := Select(d.caches[c].sets[s], tag);
    var r := Write(cfg, g, d, c, s, tag);
    WriteEffect(cfg, g, d, c, s, tag);
    if !sel.NoUnusedEntry? {
      var e := d.caches[c].sets[s].entries[sel.slot];
      WriteKeepsBalanced(cfg, d.caches[c].stats, sel.Hit?, e);
      SiblingsKeepBalanced(cfg, d, r.after, c, s, sel.slot, e.state, false);
    }
  }

  /** Every record that does not abort keeps every cache's counters
      balanced. */
  lemma StepKeepsBalanced(cfg: Config, d: Domain, rec: TraceRecord)
    requires ValidConfig(cfg) && WellShaped(InitGeometry(cfg), d) && rec.coreID < |d.caches|
    requires AllBalanced(cfg, d)
    ensures var r := Step(cfg, d, rec); r.outcome != Aborted ==> AllBalanced(cfg, r.after)
  {
    var g := InitGeometry(cfg);
    var c := rec.coreID;
    var st := d.caches[c].stats;
    CountInstructionKeepsBalanced(cfg, st);
    var d1 := WithStats(d, c, st.(numInstructions := st.numInstructions + 1));
    assert AllBalanced(cfg, d1);
    if rec.mode == READ_OP || rec.mode == WRITE_OP {
      StepRunsHandler(cfg, d, rec);
      var s, tag := SetIndexOf(g, rec.byteAddress), TagOf(g, rec.byteAddress);
      if rec.mode == READ_OP {
        ReadKeepsAllBalanced(cfg, g, d1, c, s, tag);
        assert Step(cfg, d, rec) == Read(cfg, g, d1, c, s, tag);
      } else {
        WriteKeepsAllBalanced(cfg, g, d1, c, s, tag);
        assert Step(cfg, d, rec) == Write(cfg, g, d1, c, s, tag);
      }
    } else {
      assert Step(cfg, d, rec) == StepResult(Rejected, d1);
    }
  }

  /* ---------------- replay ---------------- */

  /** A replay that completes leaves every cache's counters balanced; so
      does one from the initial domain. */
  lemma {:induction false} ReplayKeepsBalanced(cfg: Config, d: Domain, trace: seq<TraceRecord>)
    requires ValidConfig(cfg) && WellShaped(InitGeometry(cfg), d) && CoresInRange(trace, |d.caches|)
    requires AllBalanced(cfg, d)
    ensures var r := Replay(cfg, d, trace); r.Completed? ==> AllBalanced(cfg, r.d)
    decreases |trace|
  {
    if trace != [] {
      var init := trace[..|trace| - 1];
      assert CoresInRange(init, |d.caches|);
      ReplayKeepsBalanced(cfg, d, init);
      var prefix := Replay(cfg, d, init);
      if prefix.Completed? {
        StepKeepsBalanced(cfg, prefix.d, trace[|trace| - 1]);
      }
    }
  }

  /** The number of records of a trace issued by core k. */
  function RecordsOf(trace: seq<TraceRecord>, k: nat): (n: nat)
    ensures n <= |trace|
  {
    if trace == [] then 0
    else RecordsOf(trace[..|trace| - 1], k) + (if trace[|trace| - 1].coreID == k then 1 else 0)
  }

  /** Every core counts one instruction per record it issued that the
      replay reached: all of them, or those up to and including the one that
      aborted. */
  lemma {:induction false} ReplayCountsInstructions(cfg: Config, d: Domain, trace: seq<TraceRecord>, k: nat)
    requires ValidConfig(cfg) && WellShaped(InitGeometry(cfg), d) && CoresInRange(trace, |d.caches|)
    requires k < |d.caches|
    ensures var r := Replay(cfg, d, trace);
      r.d.caches[k].stats.numInstructions == d.caches[k].stats.numInstructions +
        RecordsOf(if r.Completed? then trace else trace[..r.index + 1], k)
    decreases |trace|
  {
    if trace != [] {
      var init := trace[..|trace| - 1];
      assert CoresInRange(init, |d.caches|);
      ReplayCountsInstructions(cfg, d, init, k);
      var prefix := Replay(cfg, d, init);
      if prefix.AbortedAt? {
        assert init[..prefix.index + 1] == trace[..prefix.index + 1];
      } else {
        StepCountsInstruction(cfg, prefix.d, trace[|trace| - 1]);
        assert trace[..|trace| - 1 + 1] == trace;
      }
    }
  }
}
