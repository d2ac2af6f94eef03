/** Cache geometry: the validated configuration, the shape that every cache
    of a multicore domain derives from it, and the split of a 32-bit byte
    address into a tag and a set index. */
module Geometry {
  import opened PowersOfTwo

  type u32 = x: int | 0 <= x < 0x1_0000_0000

  const ADDRESS_LENGTH: nat := 32
  const NUM_BYTES_PER_WORD: nat := 4

  /** 'T' (write-through) or 'B' (write-back). */
  datatype WritePolicy = WriteThrough | WriteBack

  /** A configuration that passed the command-line checks. Each size passed
      the power-of-two test, so it is kept as its exponent (AcceptedExponent
      shows that every accepted `int` is 2^k with k <= 30, and
      PowerOfTwoAccepted the converse). */
  datatype Config = Config(
    blockBits: nat,          // block size is 2^blockBits words
    wordBits: nat,           // capacity is 2^wordBits words
    wayBits: nat,            // associativity is 2^wayBits
    numCyclesPerMiss: int,
    writePolicy: WritePolicy)

  function BlockSize(cfg: Config): (n: nat) { Pow2(cfg.blockBits) }
  function NumDataWords(cfg: Config): (n: nat) { Pow2(cfg.wordBits) }
  function SetAssociativity(cfg: Config): (n: nat) { Pow2(cfg.wayBits) }

  /** The sizes fit an `int` and the miss penalty is positive, as the
      command-line layer checks; in addition, what geometry setup needs: at
      least one set (the source divides by the set count) and one way's
      bytes below 2^32, so that the tag is at least one bit wide. */
  predicate ValidConfig(cfg: Config) {
    cfg.wordBits <= 30 &&
    0 < cfg.numCyclesPerMiss <= INT_MAX &&
    cfg.blockBits + cfg.wayBits <= cfg.wordBits &&
    cfg.wordBits - cfg.wayBits + 2 < ADDRESS_LENGTH
  }

  /** The shape fields of one cache that the simulation reads. */
  datatype Geometry = Geometry(
    blockSize: nat,          // words per block
    numDataWords: nat,
    numEntries: nat,
    setAssociativity: nat,
    numSets: nat,
    numEntriesPerSet: nat,
    numBytesPerBlock: nat,
    indexLength: nat,
    offsetLength: nat,
    tagLength: int)

  /** The shape of every cache for a capacity of 2^n words, blocks of 2^b
      words and 2^a ways, in closed form. InitGeometryDivisions shows that it
      is what the source's chain of divisions and logarithms computes. */
  function InitGeometry(cfg: Config): (g: Geometry)
    requires ValidConfig(cfg)
  {
    var n, b, a := cfg.wordBits, cfg.blockBits, cfg.wayBits;
    Geometry(Pow2(b), Pow2(n), Pow2(n - b), Pow2(a), Pow2(n - b - a), Pow2(a), Pow2(b + 2),
             n - b - a, b + 2, ADDRESS_LENGTH - (n - a + 2))
  }

  /** The source's cache initialisation, counts: the entry count is the
      capacity divided by the block size, the set count the entry count
      divided by the associativity, and the entries per set the entry count
      divided by the set count. */
  lemma InitGeometryDivisions(cfg: Config)
    requires ValidConfig(cfg)
    ensures var g := InitGeometry(cfg);
      g.blockSize == BlockSize(cfg) && g.numDataWords == NumDataWords(cfg) &&
      g.setAssociativity == SetAssociativity(cfg) &&
      g.numEntries == g.numDataWords / g.blockSize &&
      g.numSets == g.numEntries / g.setAssociativity &&
      g.numEntriesPerSet == g.numEntries / g.numSets
  {
    var n, b, a := cfg.wordBits, cfg.blockBits, cfg.wayBits;
    Pow2Div(n, b, n - b);
    Pow2Div(n - b, a, n - b - a);
    Pow2Div(n - b, n - b - a, a);
  }

  /** The source's cache initialisation, widths: the block is four bytes
      per word, the index and offset widths are the logarithms of the set
      count and of the block size in bytes (exact for these powers of two,
      where the source uses the floating-point log2), and the tag takes the
      remaining address bits. */
  lemma InitGeometryWidths(cfg: Config)
    requires ValidConfig(cfg)
    ensures var g := InitGeometry(cfg);
      g.numBytesPerBlock == g.blockSize * NUM_BYTES_PER_WORD &&
      g.indexLength == Log2(g.numSets) && g.offsetLength == Log2(g.numBytesPerBlock) &&
      g.tagLength == ADDRESS_LENGTH - g.indexLength - g.offsetLength
  {
    var n, b, a := cfg.wordBits, cfg.blockBits, cfg.wayBits;
    assert Pow2(b + 2) == Pow2(b) * 4 by { Pow2Add(b, 2, b + 2); assert Pow2(2) == 4; }
    Log2OfPow2(n - b - a);
    Log2OfPow2(b + 2);
  }

  /** What the source's divisions amount to: the entries exactly cover the
      capacity, the sets exactly hold the entries, and each set has as many
      entries as the associativity. */
  lemma InitGeometrySizes(cfg: Config)
    requires ValidConfig(cfg)
    ensures var g := InitGeometry(cfg);
      g.numEntries * g.blockSize == g.numDataWords &&
      g.numSets * g.numEntriesPerSet == g.numEntries &&
      g.numEntriesPerSet == g.setAssociativity && g.numSets >= 1
  {
    var n, b, a := cfg.wordBits, cfg.blockBits, cfg.wayBits;
    Pow2Add(n - b - a, a, n - b);
    Pow2Add(n - b, b, n);
  }

  /** The index and offset widths are the logarithms of the set count and of
      the block size in bytes, and the tag gets the remaining, at least one,
      of the 32 address bits. */
  lemma InitGeometryAddressSplit(cfg: Config)
    requires ValidConfig(cfg)
    ensures var g := InitGeometry(cfg);
      g.numBytesPerBlock == g.blockSize * NUM_BYTES_PER_WORD &&
      Pow2(g.indexLength) == g.numSets && Pow2(g.offsetLength) == g.numBytesPerBlock &&
      1 <= g.tagLength <= ADDRESS_LENGTH &&
      g.tagLength + g.indexLength + g.offsetLength == ADDRESS_LENGTH
  {
    InitGeometryDivisions(cfg);
    InitGeometryWidths(cfg);
  }

  /** `x >> k` on an `unsigned int`, for a shift below the width. */
  function ShiftRight(x: u32, k: nat): (r: u32)
    requires k < 32
    ensures r < Pow2(32 - k)
    ensures r * Pow2(k) <= x < (r + 1) * Pow2(k)
  {
    Pow2Split32(k);
    DivLess(x, Pow2(k), Pow2(32 - k));
    DivBounds(x, Pow2(k));
    x / Pow2(k)
  }

  /** `byteAddress >> (ADDRESS_LENGTH - tagLength)`: the tagLength most
      significant bits of the address. A tag length of 0 would make the shift
      as wide as the type, which C leaves undefined; InitGeometryAddressSplit
      shows that it does not arise. */
  function TagOf(g: Geometry, byteAddress: u32): (tag: u32)
    requires 1 <= g.tagLength <= ADDRESS_LENGTH
    ensures tag < Pow2(g.tagLength)
  {
    ShiftRight(byteAddress, ADDRESS_LENGTH - g.tagLength)
  }

  /** `(byteAddress / blockSize) % numSets`. The block size here is in words,
      as in the source. */
  function SetIndexOf(g: Geometry, byteAddress: u32): (index: nat)
    requires g.blockSize >= 1 && g.numSets >= 1
    ensures index < g.numSets
  {
    (byteAddress / g.blockSize) % g.numSets
  }

  /** Because the set index divides the BYTE address by the block size in
      WORDS, while the tag keeps only the bits above index and byte offset,
      two different blocks can decode to the same set and tag: address 0 and
      address blockSize * numSets, whenever there are at least four sets. */
  lemma DistinctBlocksAlias(cfg: Config)
    requires ValidConfig(cfg)
    requires cfg.blockBits + cfg.wayBits + 2 <= cfg.wordBits
    ensures var g := InitGeometry(cfg);
      var other := Pow2(cfg.wordBits - cfg.wayBits);
      other == g.blockSize * g.numSets && g.numSets >= 4 && other < TWO_TO_32 &&
      TagOf(g, 0) == TagOf(g, other) && SetIndexOf(g, 0) == SetIndexOf(g, other) &&
      0 / g.numBytesPerBlock != other / g.numBytesPerBlock
  {
    var n, b, a := cfg.wordBits, cfg.blockBits, cfg.wayBits;
    ShiftedBlockAliases(b, n - b - a, n - a);
  }

  /** The arithmetic of DistinctBlocksAlias, for blocks of 2^b words and
      2^s sets, with t = b + s: the address 2^t lies below the tag bits
      (which start at bit t + 2), is a multiple of the block size with
      quotient 2^s, and lies in block 2^(s-2) >= 1. */
  lemma ShiftedBlockAliases(b: nat, s: nat, t: nat)
    requires 2 <= s && t == b + s && t + 2 < 32
    ensures Pow2(t) == Pow2(b) * Pow2(s)
    ensures Pow2(s) >= 4
    ensures Pow2(t) < TWO_TO_32
    ensures Pow2(t) / Pow2(t + 2) == 0 && 0 / Pow2(t + 2) == 0
    ensures (Pow2(t) / Pow2(b)) % Pow2(s) == 0 && (0 / Pow2(b)) % Pow2(s) == 0
    ensures Pow2(t) / Pow2(b + 2) == Pow2(s - 2) && Pow2(s - 2) >= 1
  {
    Pow2Add(b, s, t);
    AtLeastFour(s);
    Pow2Monotone(t + 1, 32);
    Pow2Of32();
    BelowNextButOne(t);
    Pow2Div(t, b, s);
    DivExact(Pow2(s), Pow2(s), 1);
    DivExact(0, Pow2(b), 0);
    DivExact(0, Pow2(s), 0);
    Pow2Div(t, b + 2, s - 2);
  }

  lemma AtLeastFour(s: nat)
    requires s >= 2
    ensures Pow2(s) >= 4
  {
    assert Pow2(2) == 4;
    Pow2Monotone(2, s);
  }

  lemma BelowNextButOne(t: nat)
    ensures Pow2(t) / Pow2(t + 2) == 0 && 0 / Pow2(t + 2) == 0
  {
    assert Pow2(t + 2) == 4 * Pow2(t);
    DivUnique(Pow2(t), Pow2(t + 2), 0, Pow2(t));
  }
}
