/** Concrete runs of the model that show three consequences of the source's
    choices: a cold access whose tag is 0 hits, because tags start at 0 and
    matching ignores the valid bit; that same hit leaves the in-use count
    behind, so that a later miss in a direct-mapped cache finds no unused
    entry and fails the source's assertion; and the coherence rules let two
    caches hold the same slot Modified. */
module CacheScenarios {
  import opened PowersOfTwo
  import opened Geometry
  import opened CacheModel
  import opened CacheProperties

  /** Every slot of every set starts with tag 0, so the first access with a
      tag of 0 (such as address 0) is a read hit, though no entry is valid. */
  lemma ColdTagZeroReadHits(cfg: Config, numCores: nat, c: nat, byteAddress: u32)
    requires ValidConfig(cfg) && c < numCores
    requires TagOf(InitGeometry(cfg), byteAddress) == 0
    ensures var d := InitialDomain(cfg, numCores); var r := Step(cfg, d, TraceRecord(c, byteAddress, 'R'));
      r.outcome == Handled &&
      r.after.caches[c].stats.numReadHits == 1 && r.after.caches[c].stats.numReadMisses == 0
  {
    var g := InitGeometry(cfg);
    InitGeometryIsGood(cfg);
    var d := InitialDomain(cfg, numCores);
    var rec := TraceRecord(c, byteAddress, 'R');
    StepRunsHandler(cfg, d, rec);
    var st := d.caches[c].stats;
    var d1 := WithStats(d, c, st.(numInstructions := st.numInstructions + 1));
    var s := SetIndexOf(g, byteAddress);
    assert d1.caches[c].sets[s].entries[0].tag == 0;
    assert HasTag(d1.caches[c].sets[s].entries, 0);
    ReadEffect(cfg, g, d1, c, s, 0);
  }

  /** A direct-mapped cache of one one-word block, written through. */
  const Tiny: Config := Config(0, 0, 0, 100, WriteThrough)

  /** Its geometry: one set of one entry, a 30-bit tag; address 0 has tag 0
      and address 4 tag 1, both in set 0. So Tiny, 0 and 4 meet the
      requirements of SecondReadAborts. */
  lemma TinyGeometry()
    ensures ValidConfig(Tiny) && Tiny.wayBits == 0
    ensures var g := InitGeometry(Tiny);
      g.numSets == 1 && g.numEntriesPerSet == 1 && g.tagLength == 30 &&
      TagOf(g, 0) == 0 && SetIndexOf(g, 0) == 0 && TagOf(g, 4) == 1 && SetIndexOf(g, 4) == 0
  {
    var g := InitGeometry(Tiny);
    assert Pow2(2) == 4;
    assert ShiftRight(4, 2) == 1;
  }

  /** The first read of an address with tag 0 on a direct-mapped cache: a
      hit that leaves the core's entry in that set valid with tag 0 while
      the in-use count stays 0. */
  lemma FirstReadHitsCold(cfg: Config, numCores: nat, c: nat, a: u32)
    requires ValidConfig(cfg) && cfg.wayBits == 0 && c < numCores
    requires TagOf(InitGeometry(cfg), a) == 0
    ensures var g := InitGeometry(cfg); var s := SetIndexOf(g, a);
      var r := Step(cfg, InitialDomain(cfg, numCores), TraceRecord(c, a, 'R'));
      var entrySet := r.after.caches[c].sets[s];
      r.outcome == Handled && |entrySet.entries| == 1 && entrySet.entries[0].tag == 0 && entrySet.entries[0].valid &&
      entrySet.numEntriesInUse == 0
  {
    var g := InitGeometry(cfg);
    InitGeometryIsGood(cfg);
    var d := InitialDomain(cfg, numCores);
    var rec := TraceRecord(c, a, 'R');
    StepRunsHandler(cfg, d, rec);
    var d1 := WithStats(d, c, d.caches[c].stats.(numInstructions := 1));
    var s := SetIndexOf(g, a);
    assert d1.caches[c].sets[s].entries[0].tag == 0;
    assert HasTag(d1.caches[c].sets[s].entries, 0);
    ReadEffect(cfg, g, d1, c, s, 0);
  }

  /** A read with a nonzero tag on a direct-mapped set whose only entry is
      valid with tag 0 while its in-use count is 0 aborts. */
  lemma MissOnMiscountedSetAborts(cfg: Config, d: Domain, c: nat, a: u32)
    requires ValidConfig(cfg) && cfg.wayBits == 0 && WellShaped(InitGeometry(cfg), d) && c < |d.caches|
    requires var g := InitGeometry(cfg); var entrySet := d.caches[c].sets[SetIndexOf(g, a)];
      TagOf(g, a) != 0 && entrySet.entries[0].tag == 0 && entrySet.entries[0].valid && entrySet.numEntriesInUse == 0
    ensures Step(cfg, d, TraceRecord(c, a, 'R')).outcome == Aborted
  {
    var g := InitGeometry(cfg);
    InitGeometryIsGood(cfg);
    var rec := TraceRecord(c, a, 'R');
    StepRunsHandler(cfg, d, rec);
    var st := d.caches[c].stats;
    var d1 := WithStats(d, c, st.(numInstructions := st.numInstructions + 1));
    var s := SetIndexOf(g, a);
    var tag := TagOf(g, a);
    assert !HasTag(d1.caches[c].sets[s].entries, tag) && !HasUnused(d1.caches[c].sets[s].entries);
    ReadEffect(cfg, g, d1, c, s, tag);
  }

  /** Reading an address with tag 0 and then one with another tag in the
      same set of a direct-mapped cache: the first read hits the cold entry
      and makes it valid without counting it in use, so the second read
      misses, finds the set not full and no unused entry, and fails
      getUnusedEntry's assertion. */
  lemma SecondReadAborts(cfg: Config, numCores: nat, c: nat, a0: u32, a1: u32)
    requires ValidConfig(cfg) && cfg.wayBits == 0 && c < numCores
    requires var g := InitGeometry(cfg);
      TagOf(g, a0) == 0 && TagOf(g, a1) != 0 && SetIndexOf(g, a0) == SetIndexOf(g, a1)
    ensures var r := Replay(cfg, InitialDomain(cfg, numCores), [TraceRecord(c, a0, 'R'), TraceRecord(c, a1, 'R')]);
      r.AbortedAt? && r.index == 1
  {
    var d := InitialDomain(cfg, numCores);
    var rec0, rec1 := TraceRecord(c, a0, 'R'), TraceRecord(c, a1, 'R');
    var trace := [rec0, rec1];
    assert trace[..1] == [rec0] && [rec0][..0] == [];
    FirstReadHitsCold(cfg, numCores, c, a0);
    var r0 := Step(cfg, d, rec0);
    assert Replay(cfg, d, [rec0]) == Completed(r0.after);
    MissOnMiscountedSetAborts(cfg, r0.after, c, a1);
  }

  /** The other core's slot j after the snoops of an access that found its
      own slot j in the given state. */
  lemma SiblingSlot(d: Domain, r: Domain, c: nat, o: nat, s: nat, j: nat, state: MsiState, read: bool)
    requires forall k :: 0 <= k < |d.caches| ==> s < |d.caches[k].sets| && j < |d.caches[k].sets[s].entries|
    requires SiblingsAfter(d, r, c, s, j, state, read) && o < |d.caches| && o != c
    ensures var f := d.caches[o].sets[s].entries[j];
      r.caches[o].sets[s].entries[j] ==
        if (state == Invalid && f.state == Modified) || (!read && state == Shared && f.state == Shared)
        then Evicted(f) else f
  {
    SnoopEffect(d.caches[o], s, j, EvictModified);
    SnoopEffect(d.caches[o], s, j, EvictShared);
  }

  /** Slot 0 of a set after core c accessed it with tag 0: `e` and `f` are
      core c's and the other core's copies before, `mine` and `theirs`
      after. Core c's copy is valid with tag 0 and in `state`; the other
      copy is evicted exactly when the snoop rules target it. */
  predicate AccessedSlot(e: Entry, f: Entry, mine: Entry, theirs: Entry, state: MsiState, read: bool) {
    mine.tag == 0 && mine.valid && mine.state == state &&
    theirs ==
      if (e.state == Invalid && f.state == Modified) || (!read && e.state == Shared && f.state == Shared)
      then Evicted(f) else f
  }

  /** A read with tag 0 by core c of a two-core domain whose slot 0 of set s
      holds tag 0 hits that slot and makes it Shared. */
  lemma TagZeroRead(cfg: Config, g: Geometry, d: Domain, c: nat, s: nat)
    requires Fits(cfg, g, d, c, s) && |d.caches| == 2 && d.caches[c].sets[s].entries[0].tag == 0
    ensures var r := Read(cfg, g, d, c, s, 0);
      r.outcome == Handled &&
      AccessedSlot(d.caches[c].sets[s].entries[0], d.caches[1 - c].sets[s].entries[0],
                   r.after.caches[c].sets[s].entries[0], r.after.caches[1 - c].sets[s].entries[0], Shared, true)
  {
    var row := d.caches[c].sets[s].entries;
    assert HasTag(row, 0) && FirstWithTag(row, 0, 0) == 0;
    ReadEffect(cfg, g, d, c, s, 0);
    SiblingSlot(d, Read(cfg, g, d, c, s, 0).after, c, 1 - c, s, 0, row[0].state, true);
  }

  /** A write with tag 0 by core c of a two-core domain whose slot 0 of set
      s holds tag 0 hits that slot and makes it Modified. */
  lemma TagZeroWrite(cfg: Config, g: Geometry, d: Domain, c: nat, s: nat)
    requires Fits(cfg, g, d, c, s) && |d.caches| == 2 && d.caches[c].sets[s].entries[0].tag == 0
    ensures var r := Write(cfg, g, d, c, s, 0);
      r.outcome == Handled &&
      AccessedSlot(d.caches[c].sets[s].entries[0], d.caches[1 - c].sets[s].entries[0],
                   r.after.caches[c].sets[s].entries[0], r.after.caches[1 - c].sets[s].entries[0], Modified, false)
  {
    var row := d.caches[c].sets[s].entries;
    assert HasTag(row, 0) && FirstWithTag(row, 0, 0) == 0;
    WriteEffect(cfg, g, d, c, s, 0);
    SiblingSlot(d, Write(cfg, g, d, c, s, 0).after, c, 1 - c, s, 0, row[0].state, false);
  }

  /** Copy k of slot 0 of set s has tag 0, the state and the valid bit. */
  predicate CopyIs(d: Domain, k: nat, s: nat, state: MsiState, valid: bool) {
    k < |d.caches| && s < |d.caches[k].sets| && |d.caches[k].sets[s].entries| > 0 &&
    var e := d.caches[k].sets[s].entries[0];
    e.tag == 0 && e.state == state && e.valid == valid
  }

  /** In a fresh domain every copy of slot 0 is invalid, Invalid and tag 0. */
  lemma FreshCopies(cfg: Config, numCores: nat, s: nat)
    requires ValidConfig(cfg) && s < InitGeometry(cfg).numSets
    ensures forall k :: 0 <= k < numCores ==> CopyIs(InitialDomain(cfg, numCores), k, s, Invalid, false)
  {
    InitGeometryIsGood(cfg);
  }

  /** Core 1 reads slot 0 of set s, both copies being invalid: its copy
      becomes valid and Shared, core 0's stays invalid and Invalid. */
  lemma InvalidReadShares(cfg: Config, g: Geometry, d: Domain, s: nat)
    requires Fits(cfg, g, d, 1, s) && |d.caches| == 2
    requires CopyIs(d, 0, s, Invalid, false) && CopyIs(d, 1, s, Invalid, false)
    ensures var r := Read(cfg, g, d, 1, s, 0);
      r.outcome == Handled && CopyIs(r.after, 0, s, Invalid, false) && CopyIs(r.after, 1, s, Shared, true)
  {
    TagZeroRead(cfg, g, d, 1, s);
  }

  /** Core 0 then writes its Invalid copy. A write to an Invalid entry
      evicts only Modified copies, so core 1's Shared copy survives. */
  lemma InvalidWriteKeepsShared(cfg: Config, g: Geometry, d: Domain, s: nat)
    requires Fits(cfg, g, d, 0, s) && |d.caches| == 2
    requires CopyIs(d, 0, s, Invalid, false) && CopyIs(d, 1, s, Shared, true)
    ensures var r := Write(cfg, g, d, 0, s, 0);
      r.outcome == Handled && CopyIs(r.after, 0, s, Modified, true) && CopyIs(r.after, 1, s, Shared, true)
  {
    TagZeroWrite(cfg, g, d, 0, s);
  }

  /** Core 1 then writes its Shared copy. A write to a Shared entry evicts
      only Shared copies, so core 0's Modified copy survives. */
  lemma SharedWriteKeepsModified(cfg: Config, g: Geometry, d: Domain, s: nat)
    requires Fits(cfg, g, d, 1, s) && |d.caches| == 2
    requires CopyIs(d, 0, s, Modified, true) && CopyIs(d, 1, s, Shared, true)
    ensures var r := Write(cfg, g, d, 1, s, 0);
      r.outcome == Handled && CopyIs(r.after, 0, s, Modified, true) && CopyIs(r.after, 1, s, Modified, true)
  {
    TagZeroWrite(cfg, g, d, 1, s);
  }

  /** The source's coherence rules do not keep a single writer: starting
      from two invalid copies of slot 0 with tag 0 (as in a fresh domain,
      FreshCopies), core 1 reads tag 0, core 0 writes it and core 1 writes
      it, and both caches end with the slot valid, tag 0 and Modified. */
  lemma TwoModifiedCopies(cfg: Config, g: Geometry, d: Domain, s: nat)
    requires Fits(cfg, g, d, 0, s) && |d.caches| == 2
    requires CopyIs(d, 0, s, Invalid, false) && CopyIs(d, 1, s, Invalid, false)
    ensures var r1 := Read(cfg, g, d, 1, s, 0);
      r1.outcome == Handled &&
      var r2 := Write(cfg, g, r1.after, 0, s, 0);
      r2.outcome == Handled &&
      var r3 := Write(cfg, g, r2.after, 1, s, 0);
      r3.outcome == Handled && CopyIs(r3.after, 0, s, Modified, true) && CopyIs(r3.after, 1, s, Modified, true)
  {
    InvalidReadShares(cfg, g, d, s);
    var d1 := Read(cfg, g, d, 1, s, 0).after;
    InvalidWriteKeepsShared(cfg, g, d1, s);
    var d2 := Write(cfg, g, d1, 0, s, 0).after;
    SharedWriteKeepsModified(cfg, g, d2, s);
  }
}
