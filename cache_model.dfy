/** Value-level model of a multicore cache domain: every core's cache as a
    sequence of sets of entries plus its statistics counters, and the
    simulator's read, write, trace-record and replay operations as functions
    of that value. The class in module CacheSim performs the same operations
    in place and is proved to follow these functions step by step. */
module CacheModel {
  import opened PowersOfTwo
  import opened Geometry

  const MAX_U32: int := 0xFFFF_FFFF
  const READ_OP: char := 'R'
  const WRITE_OP: char := 'W'

  /** `x++` on an `unsigned int`. */
  function Inc32(x: u32): (r: u32)
    ensures r == (x + 1) % TWO_TO_32
  {
    if x == MAX_U32 then 0 else x + 1
  }

  /** `x--` on an `unsigned int`: 0 wraps to the largest value. */
  function Dec32(x: u32): (r: u32)
    ensures r == (x - 1) % TWO_TO_32
  {
    if x == 0 then MAX_U32 else x - 1
  }

  datatype MsiState = Invalid | Shared | Modified

  /** One cache line's bookkeeping (the simulator keeps no data). The
      source's 0/1 `unsigned int` flags are booleans. */
  datatype Entry = Entry(
    tag: u32,
    valid: bool,
    dirty: bool,
    lruCounter: u32,
    state: MsiState,
    entryID: nat)

  /** An entry as cache initialisation leaves it in slot j. */
  function InitialEntry(j: nat): (e: Entry) {
    Entry(0, false, false, 0, Invalid, j)
  }

  /** A sibling's entry once a snoop has invalidated it: state Invalid and
      tag, valid, dirty and LRU counter zeroed; the slot number stays. */
  function Evicted(e: Entry): (r: Entry) {
    Entry(0, false, false, 0, Invalid, e.entryID)
  }

  /** The per-cache statistics, named as in the source. They only feed the
      final report, so they are unbounded naturals. */
  datatype Counters = Counters(
    numInstructions: nat,
    numReads: nat,
    numWrites: nat,
    numReadHits: nat,
    numWriteHits: nat,
    numWriteMisses: nat,
    numReadMisses: nat,
    numHits: nat,
    numMisses: nat,
    numCycles: nat,
    numWritesToCache: nat,
    numWritesToMem: nat,
    numBlocksInvalidated: nat,
    numWriteBacksDueToAccessNeed: nat,
    numWriteBacksDueToReadMiss: nat,
    numWritesToCacheDueToWriteOp: nat,
    numWritesBacksDueToWriteThruPolicy: nat,
    numWritesToCacheDueToReadMiss: nat)

  const NoCounts: Counters := Counters(0, 0, 0, 0, 0, 0, 0, 0, 0, 0, 0, 0, 0, 0, 0, 0, 0, 0)

  datatype SetState = SetState(entries: seq<Entry>, numEntriesInUse: u32)
  datatype CacheState = CacheState(sets: seq<SetState>, stats: Counters)

  /** The caches of all cores; cache k belongs to core k. */
  datatype Domain = Domain(caches: seq<CacheState>)

  /** What the operations need of a geometry: at least one set and one way,
      a nonzero block size and a tag of 1 to 32 bits. InitGeometryIsGood
      shows that every validated configuration gives one. */
  predicate GoodGeometry(g: Geometry) {
    g.numSets >= 1 && g.numEntriesPerSet >= 1 && g.blockSize >= 1 && 1 <= g.tagLength <= ADDRESS_LENGTH
  }

  lemma InitGeometryIsGood(cfg: Config)
    requires ValidConfig(cfg)
    ensures GoodGeometry(InitGeometry(cfg))
  {
  }

  /** Every cache has the geometry's sets and every set its ways, so that
      (set, slot) names the same position in every cache. */
  predicate WellShaped(g: Geometry, d: Domain) {
    forall c :: 0 <= c < |d.caches| ==> ShapedCache(g, d.caches[c])
  }

  predicate ShapedCache(g: Geometry, cache: CacheState) {
    |cache.sets| == g.numSets &&
    forall s :: 0 <= s < |cache.sets| ==> |cache.sets[s].entries| == g.numEntriesPerSet
  }

  /** The state a domain of numCores caches starts in. */
  function InitialDomain(cfg: Config, numCores: nat): (d: Domain)
    requires ValidConfig(cfg)
    ensures |d.caches| == numCores && WellShaped(InitGeometry(cfg), d)
    ensures forall c :: 0 <= c < numCores ==> Balanced(cfg, d.caches[c].stats)
  {
    var g := InitGeometry(cfg);
    Domain(seq(numCores, c => CacheState(seq(g.numSets, s => InitialSet(g.numEntriesPerSet)), NoCounts)))
  }

  function InitialSet(ways: nat): (r: SetState) {
    SetState(seq(ways, j requires 0 <= j => InitialEntry(j)), 0)
  }

  /* ---------------- per-set searches ---------------- */

  predicate HasTag(row: seq<Entry>, tag: u32) {
    exists j :: 0 <= j < |row| && row[j].tag == tag
  }

  /** The first slot at or after `from` whose tag is `tag`, whatever its
      valid bit. */
  function FirstWithTag(row: seq<Entry>, tag: u32, from: nat): (j: nat)
    requires from <= |row|
    requires exists k :: from <= k < |row| && row[k].tag == tag
    ensures from <= j < |row| && row[j].tag == tag
    ensures forall k :: from <= k < j ==> row[k].tag != tag
    decreases |row| - from
  {
    if row[from].tag == tag then from else FirstWithTag(row, tag, from + 1)
  }

  predicate HasUnused(row: seq<Entry>) {
    exists j :: 0 <= j < |row| && !row[j].valid
  }

  /** The first slot at or after `from` whose valid bit is clear. */
  function FirstUnused(row: seq<Entry>, from: nat): (j: nat)
    requires from <= |row|
    requires exists k :: from <= k < |row| && !row[k].valid
    ensures from <= j < |row| && !row[j].valid
    ensures forall k :: from <= k < j ==> row[k].valid
    decreases |row| - from
  {
    if !row[from].valid then from else FirstUnused(row, from + 1)
  }

  /** The replacement victim among the first `upto` slots: a slot with the
      greatest LRU counter, the lowest such slot on a tie. */
  function LruVictim(row: seq<Entry>, upto: nat): (j: nat)
    requires 1 <= upto <= |row|
    ensures j < upto
    ensures forall k :: 0 <= k < upto ==> row[k].lruCounter <= row[j].lruCounter
    ensures forall k :: 0 <= k < j ==> row[k].lruCounter < row[j].lruCounter
  {
    if upto == 1 then 0
    else
      var j := LruVictim(row, upto - 1);
      if row[j].lruCounter < row[upto - 1].lruCounter then upto - 1 else j
  }

  /** The recency update of one slot: the slot just used restarts at 0, any
      other slot ages by one (with 32-bit wrap-around). */
  function Bump(e: Entry, k: nat, used: nat): (r: Entry) {
    if k == used then e.(lruCounter := 0) else e.(lruCounter := Inc32(e.lruCounter))
  }

  function BumpLRUs(row: seq<Entry>, used: nat): (r: seq<Entry>)
    ensures |r| == |row|
  {
    seq(|row|, k requires 0 <= k < |row| => Bump(row[k], k, used))
  }

  /** How an access picks its entry: a tag match (a hit), otherwise the LRU
      victim of a full set, otherwise the first unused slot. The last case can
      fail, since the in-use count is not the number of valid entries. */
  datatype Selection = Hit(slot: nat) | EvictLru(slot: nat) | FillUnused(slot: nat) | NoUnusedEntry

  function Select(entrySet: SetState, tag: u32): (sel: Selection)
    requires |entrySet.entries| >= 1
    ensures sel.Hit? <==> HasTag(entrySet.entries, tag)
    ensures sel.EvictLru? <==> !HasTag(entrySet.entries, tag) && entrySet.numEntriesInUse == |entrySet.entries|
    ensures sel.NoUnusedEntry? <==>
      !HasTag(entrySet.entries, tag) && entrySet.numEntriesInUse != |entrySet.entries| && !HasUnused(entrySet.entries)
    ensures !sel.NoUnusedEntry? ==> sel.slot < |entrySet.entries|
    ensures sel.Hit? ==> sel.slot == FirstWithTag(entrySet.entries, tag, 0)
    ensures sel.EvictLru? ==> sel.slot == LruVictim(entrySet.entries, |entrySet.entries|)
    ensures sel.FillUnused? ==> sel.slot == FirstUnused(entrySet.entries, 0)
  {
    if HasTag(entrySet.entries, tag) then Hit(FirstWithTag(entrySet.entries, tag, 0))
    else if entrySet.numEntriesInUse == |entrySet.entries| then EvictLru(LruVictim(entrySet.entries, |entrySet.entries|))
    else if HasUnused(entrySet.entries) then FillUnused(FirstUnused(entrySet.entries, 0))
    else NoUnusedEntry
  }

  /* ---------------- counter updates of the hit and miss handlers ---------------- */

  function ReadHitCounts(st: Counters): (r: Counters) {
    st.(numHits := st.numHits + 1, numReadHits := st.numReadHits + 1)
  }

  function ReadMissCounts(st: Counters, penalty: nat): (r: Counters) {
    st.(numCycles := st.numCycles + penalty, numMisses := st.numMisses + 1,
        numWritesToCache := st.numWritesToCache + 1,
        numWritesToCacheDueToReadMiss := st.numWritesToCacheDueToReadMiss + 1,
        numReadMisses := st.numReadMisses + 1)
  }

  /** What every write counts before its entry is chosen: the write, and a
      write to the cache due to a write operation. */
  function WriteCounts(st: Counters): (r: Counters) {
    st.(numWrites := st.numWrites + 1, numWritesToCache := st.numWritesToCache + 1,
        numWritesToCacheDueToWriteOp := st.numWritesToCacheDueToWriteOp + 1)
  }

  function WriteHitCounts(st: Counters): (r: Counters) {
    st.(numHits := st.numHits + 1, numWriteHits := st.numWriteHits + 1)
  }

  function WriteMissCounts(st: Counters, penalty: nat): (r: Counters) {
    st.(numCycles := st.numCycles + penalty, numMisses := st.numMisses + 1,
        numWriteMisses := st.numWriteMisses + 1)
  }

  /** What a sibling whose entry a snoop invalidates records. */
  function SnoopVictimCounts(st: Counters): (r: Counters) {
    st.(numWritesToMem := st.numWritesToMem + 1, numBlocksInvalidated := st.numBlocksInvalidated + 1)
  }

  /* ---------------- whole-domain updates ---------------- */

  function WithStats(d: Domain, c: nat, st: Counters): (r: Domain)
    requires c < |d.caches|
    ensures |r.caches| == |d.caches| && r.caches[c].stats == st
    ensures forall k :: 0 <= k < |d.caches| ==> r.caches[k].sets == d.caches[k].sets
    ensures forall k :: 0 <= k < |d.caches| && k != c ==> r.caches[k] == d.caches[k]
  {
    Domain(d.caches[c := d.caches[c].(stats := st)])
  }

  function WithSet(d: Domain, c: nat, s: nat, entrySet: SetState): (r: Domain)
    requires c < |d.caches| && s < |d.caches[c].sets|
    requires |entrySet.entries| == |d.caches[c].sets[s].entries|
    ensures |r.caches| == |d.caches| && |r.caches[c].sets| == |d.caches[c].sets| && r.caches[c].sets[s] == entrySet
    ensures forall k :: 0 <= k < |d.caches| ==> r.caches[k].stats == d.caches[k].stats
    ensures forall k :: 0 <= k < |d.caches| && k != c ==> r.caches[k] == d.caches[k]
    ensures forall t :: 0 <= t < |d.caches[c].sets| && t != s ==> r.caches[c].sets[t] == d.caches[c].sets[t]
  {
    Domain(d.caches[c := d.caches[c].(sets := d.caches[c].sets[s := entrySet])])
  }

  function WithInUse(d: Domain, c: nat, s: nat, n: u32): (r: Domain)
    requires c < |d.caches| && s < |d.caches[c].sets|
  {
    WithSet(d, c, s, d.caches[c].sets[s].(numEntriesInUse := n))
  }

  function WithEntry(d: Domain, c: nat, s: nat, j: nat, e: Entry): (r: Domain)
    requires c < |d.caches| && s < |d.caches[c].sets| && j < |d.caches[c].sets[s].entries|
  {
    var entrySet := d.caches[c].sets[s];
    WithSet(d, c, s, entrySet.(entries := entrySet.entries[j := e]))
  }

  /** The domain after updateLRUs on slot j of set s of core c. */
  function WithLRUsUpdated(d: Domain, c: nat, s: nat, j: nat): (r: Domain)
    requires c < |d.caches| && s < |d.caches[c].sets|
  {
    var entrySet := d.caches[c].sets[s];
    WithSet(d, c, s, entrySet.(entries := BumpLRUs(entrySet.entries, j)))
  }

  /** The sibling state a bus snoop looks for, and whether invalidating it
      also gives the slot back to the set's in-use count. */
  datatype SnoopRule = EvictModified | EvictShared

  function Target(rule: SnoopRule): (state: MsiState) {
    if rule == EvictModified then Modified else Shared
  }

  /** One sibling's reaction to a snoop of slot (s, j). */
  function Snoop(cache: CacheState, s: nat, j: nat, rule: SnoopRule): (r: CacheState)
    requires s < |cache.sets| && j < |cache.sets[s].entries|
  {
    var entrySet := cache.sets[s];
    var e := entrySet.entries[j];
    if e.state != Target(rule) then cache
    else
      var inUse := if rule == EvictModified then Dec32(entrySet.numEntriesInUse) else entrySet.numEntriesInUse;
      CacheState(cache.sets[s := SetState(entrySet.entries[j := Evicted(e)], inUse)],
                 SnoopVictimCounts(cache.stats))
  }

  /** The snoop loop after it has visited cores 0 .. n-1; core c, the
      issuing core, is skipped. */
  function SnoopUpTo(g: Geometry, d: Domain, c: nat, s: nat, j: nat, rule: SnoopRule, n: nat): (r: Domain)
    requires WellShaped(g, d) && s < g.numSets && j < g.numEntriesPerSet
    ensures |r.caches| == |d.caches| && WellShaped(g, r)
    ensures c < |d.caches| ==> r.caches[c] == d.caches[c]
  {
    Domain(seq(|d.caches|, k requires 0 <= k < |d.caches| =>
      if k == c || k >= n then d.caches[k] else Snoop(d.caches[k], s, j, rule)))
  }

  /** One more iteration of the snoop loop: core n is snooped unless it is
      the issuing core. */
  lemma SnoopUpToNext(g: Geometry, d: Domain, c: nat, s: nat, j: nat, rule: SnoopRule, n: nat)
    requires WellShaped(g, d) && s < g.numSets && j < g.numEntriesPerSet && n < |d.caches|
    ensures SnoopUpTo(g, d, c, s, j, rule, n + 1) ==
      if n == c then SnoopUpTo(g, d, c, s, j, rule, n)
      else Domain(SnoopUpTo(g, d, c, s, j, rule, n).caches[n := Snoop(SnoopUpTo(g, d, c, s, j, rule, n).caches[n], s, j, rule)])
  {
  }

  /** An entry as an access leaves it: the new tag, valid, in the given
      state; a write, which leaves it Modified, also marks it dirty. */
  function Filled(e: Entry, tag: u32, state: MsiState): (r: Entry) {
    e.(tag := tag, state := state, valid := true, dirty := e.dirty || state == Modified)
  }

  datatype Outcome = Rejected | Handled | Aborted

  /** The value of an operation: how it ended and the state it left. On
      Aborted the state is the one at the failed assertion, which stops the
      program. */
  datatype StepResult = StepResult(outcome: Outcome, after: Domain)

  /** An access by core c to set s of a well-shaped domain. */
  predicate Fits(cfg: Config, g: Geometry, d: Domain, c: nat, s: nat) {
    ValidConfig(cfg) && GoodGeometry(g) && WellShaped(g, d) && c < |d.caches| && s < g.numSets
  }

  /** The source's read handler, for core c, set s and the decoded tag: count
      the read, pick the entry, run the coherence check, install the tag. */
  function Read(cfg: Config, g: Geometry, d: Domain, c: nat, s: nat, tag: u32): (r: StepResult)
    requires Fits(cfg, g, d, c, s)
    ensures |r.after.caches| == |d.caches| && WellShaped(g, r.after)
    ensures r.outcome != Rejected
  {
    var d1 := WithStats(d, c, d.caches[c].stats.(numReads := d.caches[c].stats.numReads + 1));
    var sel := Select(d1.caches[c].sets[s], tag);
    if sel.NoUnusedEntry? then StepResult(Aborted, d1)
    else
      StepResult(Handled, ReadAfterSelect(cfg, g, d1, c, s, sel, tag))
  }

  /** The read handler once slot `sel` is chosen: the hit or miss handler,
      the coherence check, the install. */
  function ReadAfterSelect(cfg: Config, g: Geometry, d: Domain, c: nat, s: nat, sel: Selection, tag: u32): (r: Domain)
    requires Fits(cfg, g, d, c, s) && !sel.NoUnusedEntry? && sel.slot < g.numEntriesPerSet
    ensures |r.caches| == |d.caches| && WellShaped(g, r)
  {
    Installed(g, ReadCoherence(g, ReadPicked(cfg, g, d, c, s, sel), c, s, sel.slot), c, s, sel.slot, tag, Shared)
  }

  lemma ReadHandled(cfg: Config, g: Geometry, d: Domain, c: nat, s: nat, tag: u32, d1: Domain, sel: Selection)
    requires Fits(cfg, g, d, c, s)
    requires d1 == WithStats(d, c, d.caches[c].stats.(numReads := d.caches[c].stats.numReads + 1))
    requires sel == Select(d1.caches[c].sets[s], tag) && !sel.NoUnusedEntry?
    ensures sel.slot < g.numEntriesPerSet
    ensures Read(cfg, g, d, c, s, tag) == StepResult(Handled, ReadAfterSelect(cfg, g, d1, c, s, sel, tag))
  {
  }

  /** The hit-or-miss part of the read handler for the selected slot: a
      fill of an unused slot first counts it in use, then the hit or miss
      handler updates the counters. */
  function ReadPicked(cfg: Config, g: Geometry, d: Domain, c: nat, s: nat, sel: Selection): (r: Domain)
    requires Fits(cfg, g, d, c, s) && !sel.NoUnusedEntry?
    ensures |r.caches| == |d.caches| && WellShaped(g, r)
  {
    var d1 := if sel.FillUnused? then WithInUse(d, c, s, Inc32(d.caches[c].sets[s].numEntriesInUse)) else d;
    WithStats(d1, c, if sel.Hit? then ReadHitCounts(d1.caches[c].stats)
                     else ReadMissCounts(d1.caches[c].stats, cfg.numCyclesPerMiss))
  }

  /** The coherence step of the read handler: reading an Invalid entry
      evicts Modified copies of slot (s, j) in the other caches. */
  function ReadCoherence(g: Geometry, d: Domain, c: nat, s: nat, j: nat): (r: Domain)
    requires WellShaped(g, d) && c < |d.caches| && s < g.numSets && j < g.numEntriesPerSet
    ensures |r.caches| == |d.caches| && WellShaped(g, r)
    ensures r.caches[c].sets == d.caches[c].sets
  {
    if d.caches[c].sets[s].entries[j].state == Invalid then SnoopUpTo(g, d, c, s, j, EvictModified, |d.caches|) else d
  }

  /** The last step of both handlers: updateLRUs on slot j, then the new tag,
      state and valid bit (and, for a write, the dirty bit). */
  function Installed(g: Geometry, d: Domain, c: nat, s: nat, j: nat, tag: u32, state: MsiState): (r: Domain)
    requires WellShaped(g, d) && c < |d.caches| && s < g.numSets && j < g.numEntriesPerSet
    ensures |r.caches| == |d.caches| && WellShaped(g, r)
  {
    var d1 := WithLRUsUpdated(d, c, s, j);
    WithEntry(d1, c, s, j, Filled(d1.caches[c].sets[s].entries[j], tag, state))
  }

  /** The write-policy step of the write handler, on the chosen entry as it
      stands after the hit handler. */
  function PolicyCounts(policy: WritePolicy, e: Entry, st: Counters): (r: Counters) {
    if policy == WriteThrough then
      st.(numWritesToMem := st.numWritesToMem + 1,
          numWritesBacksDueToWriteThruPolicy := st.numWritesBacksDueToWriteThruPolicy + 1)
    else if e.valid && e.dirty then
      st.(numWriteBacksDueToReadMiss := st.numWriteBacksDueToReadMiss + 1,
          numWritesToMem := st.numWritesToMem + 1)
    else st
  }

  /** The coherence step of the write handler, by the state of the chosen
      entry: an Invalid entry evicts Modified copies, a Shared entry evicts
      Shared copies and counts a write to memory on the writer, a Modified
      entry needs nothing. */
  function WriteCoherence(g: Geometry, d: Domain, c: nat, s: nat, j: nat, state: MsiState): (r: Domain)
    requires WellShaped(g, d) && c < |d.caches| && s < g.numSets && j < g.numEntriesPerSet
    ensures |r.caches| == |d.caches| && WellShaped(g, r)
    ensures r.caches[c].sets == d.caches[c].sets
  {
    match state
    case Invalid => SnoopUpTo(g, d, c, s, j, EvictModified, |d.caches|)
    case Shared =>
      var sn := SnoopUpTo(g, d, c, s, j, EvictShared, |d.caches|);
      var st := sn.caches[c].stats;
      WithStats(sn, c, st.(numWriteBacksDueToAccessNeed := st.numWriteBacksDueToAccessNeed + 1,
                           numWritesToMem := st.numWritesToMem + 1))
    case Modified => d
  }

  /** The source's write handler, for core c, set s and the decoded tag:
      count the write, pick the entry, run the coherence switch and the
      write-policy step, install the tag. */
  function Write(cfg: Config, g: Geometry, d: Domain, c: nat, s: nat, tag: u32): (r: StepResult)
    requires Fits(cfg, g, d, c, s)
    ensures |r.after.caches| == |d.caches| && WellShaped(g, r.after)
    ensures r.outcome != Rejected
  {
    var d1 := WithStats(d, c, WriteCounts(d.caches[c].stats));
    var sel := Select(d1.caches[c].sets[s], tag);
    if sel.NoUnusedEntry? then StepResult(Aborted, d1)
    else
      StepResult(Handled, WriteAfterSelect(cfg, g, d1, c, s, sel, tag))
  }

  /** The write handler once slot `sel` is chosen: the hit or miss handler,
      the coherence switch on the entry's state, the write-policy step, the
      install. */
  function WriteAfterSelect(cfg: Config, g: Geometry, d: Domain, c: nat, s: nat, sel: Selection, tag: u32): (r: Domain)
    requires Fits(cfg, g, d, c, s) && !sel.NoUnusedEntry? && sel.slot < g.numEntriesPerSet
    ensures |r.caches| == |d.caches| && WellShaped(g, r)
  {
    var j := sel.slot;
    var d2 := WritePicked(cfg, g, d, c, s, sel);
    var d3 := WriteCoherence(g, d2, c, s, j, d2.caches[c].sets[s].entries[j].state);
    Installed(g, PolicyApplied(cfg, g, d3, c, s, j), c, s, j, tag, Modified)
  }

  lemma WriteHandled(cfg: Config, g: Geometry, d: Domain, c: nat, s: nat, tag: u32, d1: Domain, sel: Selection)
    requires Fits(cfg, g, d, c, s)
    requires d1 == WithStats(d, c, WriteCounts(d.caches[c].stats))
    requires sel == Select(d1.caches[c].sets[s], tag) && !sel.NoUnusedEntry?
    ensures sel.slot < g.numEntriesPerSet
    ensures Write(cfg, g, d, c, s, tag) == StepResult(Handled, WriteAfterSelect(cfg, g, d1, c, s, sel, tag))
  {
  }

  /** The hit-or-miss part of the write handler for the selected slot: the
      hit or miss handler, then, for a fill of an unused slot, the in-use
      count. */
  function WritePicked(cfg: Config, g: Geometry, d: Domain, c: nat, s: nat, sel: Selection): (r: Domain)
    requires Fits(cfg, g, d, c, s) && !sel.NoUnusedEntry? && sel.slot < g.numEntriesPerSet
    ensures |r.caches| == |d.caches| && WellShaped(g, r)
  {
    var d1 := if sel.Hit? then HitWritten(d, c, s, sel.slot)
              else WithStats(d, c, WriteMissCounts(d.caches[c].stats, cfg.numCyclesPerMiss));
    if sel.FillUnused? then WithInUse(d1, c, s, Inc32(d1.caches[c].sets[s].numEntriesInUse)) else d1
  }

  /** The write-policy step, on slot j as the coherence step leaves it. */
  function PolicyApplied(cfg: Config, g: Geometry, d: Domain, c: nat, s: nat, j: nat): (r: Domain)
    requires WellShaped(g, d) && c < |d.caches| && s < g.numSets && j < g.numEntriesPerSet
    ensures |r.caches| == |d.caches| && WellShaped(g, r)
  {
    WithStats(d, c, PolicyCounts(cfg.writePolicy, d.caches[c].sets[s].entries[j], d.caches[c].stats))
  }

  /** handleWriteHit: a hit is counted and the entry marked dirty. */
  function HitWritten(d: Domain, c: nat, s: nat, j: nat): (r: Domain)
    requires c < |d.caches| && s < |d.caches[c].sets| && j < |d.caches[c].sets[s].entries|
  {
    var d1 := WithStats(d, c, WriteHitCounts(d.caches[c].stats));
    WithEntry(d1, c, s, j, d1.caches[c].sets[s].entries[j].(dirty := true))
  }

  /** One line of a trace: the issuing core, the byte address and the mode. */
  datatype TraceRecord = TraceRecord(coreID: nat, byteAddress: u32, mode: char)

  /** The source's handling of one trace record: count the instruction,
      reject a mode other than 'R' or 'W', otherwise decode the address and
      run the read or write handler. */
  function Step(cfg: Config, d: Domain, rec: TraceRecord): (r: StepResult)
    requires ValidConfig(cfg) && WellShaped(InitGeometry(cfg), d) && rec.coreID < |d.caches|
    ensures |r.after.caches| == |d.caches| && WellShaped(InitGeometry(cfg), r.after)
  {
    var g := InitGeometry(cfg);
    var c := rec.coreID;
    var st := d.caches[c].stats;
    var d1 := WithStats(d, c, st.(numInstructions := st.numInstructions + 1));
    if rec.mode != READ_OP && rec.mode != WRITE_OP then StepResult(Rejected, d1)
    else
      var tag := TagOf(g, rec.byteAddress);
      var s := SetIndexOf(g, rec.byteAddress);
      if rec.mode == READ_OP then Read(cfg, g, d1, c, s, tag) else Write(cfg, g, d1, c, s, tag)
  }

  predicate CoresInRange(trace: seq<TraceRecord>, numCores: nat) {
    forall i :: 0 <= i < |trace| ==> trace[i].coreID < numCores
  }

  /** Replaying a trace ends with every record handled, or at the first
      record whose handling aborted, with the state at that point. */
  datatype ReplayResult = Completed(d: Domain) | AbortedAt(index: nat, d: Domain)

  /** The replay loop: records are handled in order, left to right. */
  function Replay(cfg: Config, d: Domain, trace: seq<TraceRecord>): (r: ReplayResult)
    requires ValidConfig(cfg) && WellShaped(InitGeometry(cfg), d) && CoresInRange(trace, |d.caches|)
    ensures |r.d.caches| == |d.caches| && WellShaped(InitGeometry(cfg), r.d)
    ensures r.AbortedAt? ==> r.index < |trace|
    decreases |trace|
  {
    if trace == [] then Completed(d)
    else
      var prefix := Replay(cfg, d, trace[..|trace| - 1]);
      if prefix.AbortedAt? then prefix
      else
        var last := Step(cfg, prefix.d, trace[|trace| - 1]);
        if last.outcome == Aborted then AbortedAt(|trace| - 1, last.after) else Completed(last.after)
  }

  /** Once the replay of a prefix has aborted, the replay of the whole
      trace ends the same way. */
  lemma {:induction false} AbortStops(cfg: Config, d: Domain, trace: seq<TraceRecord>, n: nat)
    requires ValidConfig(cfg) && WellShaped(InitGeometry(cfg), d) && CoresInRange(trace, |d.caches|)
    requires n <= |trace| && Replay(cfg, d, trace[..n]).AbortedAt?
    ensures Replay(cfg, d, trace) == Replay(cfg, d, trace[..n])
    decreases |trace| - n
  {
    if n < |trace| {
      var p := trace[..n + 1];
      assert p[..|p| - 1] == trace[..n];
      AbortedPrefix(cfg, d, p);
      AbortStops(cfg, d, trace, n + 1);
    } else {
      assert trace[..n] == trace;
    }
  }

  /** One record more after an abort changes nothing. */
  lemma AbortedPrefix(cfg: Config, d: Domain, trace: seq<TraceRecord>)
    requires ValidConfig(cfg) && WellShaped(InitGeometry(cfg), d) && CoresInRange(trace, |d.caches|)
    requires |trace| >= 1 && Replay(cfg, d, trace[..|trace| - 1]).AbortedAt?
    ensures Replay(cfg, d, trace) == Replay(cfg, d, trace[..|trace| - 1])
  {
  }

  /* ---------------- statistics invariant ---------------- */

  /** How the counters of one cache relate to each other after any sequence
      of completed operations. */
  predicate Balanced(cfg: Config, st: Counters) {
    st.numHits == st.numReadHits + st.numWriteHits &&
    st.numMisses == st.numReadMisses + st.numWriteMisses &&
    st.numReads == st.numReadHits + st.numReadMisses &&
    st.numWrites == st.numWriteHits + st.numWriteMisses &&
    st.numReads + st.numWrites <= st.numInstructions &&
    st.numCycles == st.numMisses * cfg.numCyclesPerMiss &&
    st.numWritesToCache == st.numReadMisses + st.numWrites &&
    st.numWritesToCacheDueToReadMiss == st.numReadMisses &&
    st.numWritesToCacheDueToWriteOp == st.numWrites &&
    st.numWritesToMem == st.numBlocksInvalidated + st.numWriteBacksDueToAccessNeed +
                         st.numWriteBacksDueToReadMiss + st.numWritesBacksDueToWriteThruPolicy &&
    (cfg.writePolicy == WriteThrough ==>
       st.numWritesBacksDueToWriteThruPolicy == st.numWrites && st.numWriteBacksDueToReadMiss == 0) &&
    (cfg.writePolicy == WriteBack ==> st.numWritesBacksDueToWriteThruPolicy == 0)
  }

  predicate AllBalanced(cfg: Config, d: Domain) {
    forall c :: 0 <= c < |d.caches| ==> Balanced(cfg, d.caches[c].stats)
  }
}
