/**
 * The subinventory and exact spill of the sampled select index, and the
 * inventory flags, as the third scan of the constructors lays them out:
 * block by block, a short block keeps the 16-bit offset of every
 * 2^log2PerSub16-th mark from its first mark; a long block keeps either,
 * in its first subinventory word, where its marks start in `exact_spill`
 * (which then holds every one of its positions), or the 64-bit offsets of
 * every 2^log2PerSub64-th mark.  The subinventory is modelled as 16-bit
 * units: word w of `subinventory` is units 4w .. 4w + 3, little-endian.
 */
module Subinventories {
  import opened Bits
  import opened Streams
  import opened Broadword
  import opened Inventories
  import EliasFano

  // ---------------------------------------------------------------------
  // Units and words
  // ---------------------------------------------------------------------

  /** First unit of block b's part of the subinventory, word `b << log2Longwords`. */
  function Region(g: Geometry, b: nat): nat
  {
    Scale(b, g.log2Longwords + 2)
  }

  /** Units per block: four 16-bit units in each of its 2^log2Longwords words. */
  function RegionSize(g: Geometry): nat
  {
    4 * Pow2(g.log2Longwords)
  }

  lemma RegionNext(g: Geometry, b: nat)
    ensures Region(g, 0) == 0 && Region(g, b + 1) == Region(g, b) + RegionSize(g)
  {
    Pow2Plus2(g.log2Longwords);
    ScaleIs(0, g.log2Longwords + 2);
    ScaleNext(b, g.log2Longwords + 2);
  }

  /** Unit t of a 64-bit word, least significant first. */
  function Unit(v: nat, t: nat): (r: nat)
    ensures r < 0x1_0000
  {
    Pow2Values();
    LowBits(ShiftRight(v, 16 * t), 16)
  }

  /** The four units of a word. */
  function WordUnits(v: nat): (r: seq<nat>)
    ensures |r| == 4
  {
    [Unit(v, 0), Unit(v, 1), Unit(v, 2), Unit(v, 3)]
  }

  /** The word held by units at .. at + 3: `p64[0]` read back as a `uint64_t`. */
  function Word64(u: seq<nat>, at: nat): nat
    requires at + 4 <= |u|
  {
    u[at] + 0x1_0000 * (u[at + 1] + 0x1_0000 * (u[at + 2] + 0x1_0000 * u[at + 3]))
  }

  /** A word written as four units reads back as itself. */
  lemma WordUnitsJoin(v: nat)
    requires v < WordMod
    ensures Word64(WordUnits(v), 0) == v
  {
    Pow2Values();
    var v1 := ShiftRight(v, 16);
    var v2 := ShiftRight(v, 32);
    var v3 := ShiftRight(v, 48);
    SplitAt(v, 16);
    ShiftRightTwice(v, 16, 16);
    SplitAt(v1, 16);
    ShiftRightTwice(v, 32, 16);
    SplitAt(v2, 16);
    Pow2Add(48, 16);
    ShiftRightBound(v, 48, 16);
    LowBitsSmall(v3, 16);
  }

  function Zeros(k: nat): (r: seq<nat>)
    ensures |r| == k
  {
    seq(k, _ => 0)
  }

  /** s followed by zeros up to length n. */
  function PadTo(s: seq<nat>, n: nat): (r: seq<nat>)
    requires |s| <= n
    ensures |r| == n && r[..|s|] == s
  {
    s + Zeros(n - |s|)
  }

  lemma ZerosSplit(a: nat, b: nat)
    ensures Zeros(a + b) == Zeros(a) + Zeros(b)
  {
  }

  /** Writing w over the first |w| of the zeros after a + c extends c by w. */
  lemma Splice(s: seq<nat>, a: seq<nat>, c: seq<nat>, k: nat, w: seq<nat>)
    requires s == a + c + Zeros(k) && |w| <= k
    ensures s[..|a| + |c|] + w + s[|a| + |c| + |w|..] == a + (c + w) + Zeros(k - |w|)
  {
    assert s[..|a| + |c|] == a + c;
    assert s[|a| + |c| + |w|..] == Zeros(k - |w|);
  }

  /** Writing one element of a sequence is splicing a one-element sequence in. */
  lemma UpdateIsSplice<T>(s: seq<T>, at: nat, v: T)
    requires at < |s|
    ensures s[at := v] == s[..at] + [v] + s[at + 1..]
  {
  }

  // ---------------------------------------------------------------------
  // Block contents
  // ---------------------------------------------------------------------

  /** Mark j of block b lies at or after the block's inventory entry and before the next. */
  lemma InBlock(pos: seq<nat>, n: nat, l: nat, b: nat, j: nat)
    requires Increasing(pos) && Below(pos, n)
    requires b < NumBlocks(|pos|, l) && j < BlockOnes(|pos|, l, b)
    ensures Scale(b, l) + j < |pos|
    ensures Sample(pos, n, l, b) <= pos[Scale(b, l) + j] < Sample(pos, n, l, b + 1)
  {
    BlockExists(|pos|, l, b);
    BlockExists(|pos|, l, b + 1);
    ScaleNext(b, l);
  }

  /** What a sample of mark j of block b stores: its distance from the block's first mark. */
  ghost function Offset(pos: seq<nat>, n: nat, l: nat, b: nat, j: nat): (r: nat)
    requires Increasing(pos) && Below(pos, n)
    requires b < NumBlocks(|pos|, l) && j < BlockOnes(|pos|, l, b)
    ensures Sample(pos, n, l, b) + r < Sample(pos, n, l, b + 1)
  {
    InBlock(pos, n, l, b, j);
    pos[Scale(b, l) + j] - Sample(pos, n, l, b)
  }

  /** Sample k of a block's every 2^s-th mark, among its first j. */
  ghost function SubSample(pos: seq<nat>, n: nat, l: nat, b: nat, j: nat, s: nat, k: nat): nat
    requires Increasing(pos) && Below(pos, n)
    requires b < NumBlocks(|pos|, l) && j <= BlockOnes(|pos|, l, b)
    requires k < NumBlocks(j, s)
  {
    BlockExists(j, s, k);
    Offset(pos, n, l, b, Scale(k, s))
  }

  /**
   * The units block b has written after j of its marks: a short block's
   * 16-bit offsets, a spilling long block's start in `exact_spill`, or a
   * long block's 64-bit offsets.
   */
  ghost function Current(pos: seq<nat>, n: nat, g: Geometry, b: nat, j: nat): (r: seq<nat>)
    requires Increasing(pos) && Below(pos, n)
    requires b < NumBlocks(|pos|, g.log2PerInventory)
    requires j <= BlockOnes(|pos|, g.log2PerInventory, b)
    ensures |r| == if !IsLong(pos, n, g.log2PerInventory, b) then NumBlocks(j, g.log2PerSub16)
                   else if g.spills then (if j == 0 then 0 else 4)
                   else 4 * NumBlocks(j, g.log2PerSub64)
  {
    var l := g.log2PerInventory;
    var k16 := g.log2PerSub16;
    var k64 := g.log2PerSub64;
    if !IsLong(pos, n, l, b) then
      seq(NumBlocks(j, k16), k requires 0 <= k < NumBlocks(j, k16) => SubSample(pos, n, l, b, j, k16, k))
    else if g.spills then
      if j == 0 then [] else WordUnits(SpilledBefore(pos, n, g, b))
    else
      seq(4 * NumBlocks(j, k64), t requires 0 <= t < 4 * NumBlocks(j, k64) =>
        Unit(SubSample(pos, n, l, b, j, k64, t / 4), t % 4))
  }

  /** 2^l marks fill 2^(l - k) blocks of 2^k. */
  lemma BlocksOfPow2(l: nat, k: nat)
    requires k <= l
    ensures NumBlocks(Pow2(l), k) == Pow2(l - k)
  {
    ScaleIs(Pow2(l - k), k);
    Pow2Add(l - k, k);
    BlocksAt(Pow2(l), k, Pow2(l - k), 0);
  }

  lemma Pow2Plus2(k: nat)
    ensures Pow2(k + 2) == 4 * Pow2(k)
  {
    assert Pow2(k + 2) == 2 * Pow2(k + 1);
  }

  /** The units a sizing pass reserves for a block are ShiftRight's rounding up of its marks. */
  lemma UnitsAre(c: nat, g: Geometry, b: nat)
    requires b < NumBlocks(c, g.log2PerInventory)
    ensures Units(c, g, b) == Max(4, NumBlocks(BlockOnes(c, g.log2PerInventory, b), g.log2PerSub16))
  {
  }

  /** A block's units fit its region and, when they are sized, the units the sizing pass reserved. */
  lemma CurrentFits(pos: seq<nat>, n: nat, g: Geometry, b: nat, j: nat)
    requires Increasing(pos) && Below(pos, n)
    requires Ok(g) && b < NumBlocks(|pos|, g.log2PerInventory)
    requires j <= BlockOnes(|pos|, g.log2PerInventory, b)
    ensures |Current(pos, n, g, b, j)| <= RegionSize(g)
    ensures g.spills ==> |Current(pos, n, g, b, j)| <= Units(|pos|, g, b)
  {
    if !IsLong(pos, n, g.log2PerInventory, b) {
      ShortFits(pos, n, g, b, j);
    } else {
      LongFits(pos, n, g, b, j);
    }
  }

  /** A short block's 16-bit samples fit its region, and its units. */
  lemma ShortFits(pos: seq<nat>, n: nat, g: Geometry, b: nat, j: nat)
    requires Increasing(pos) && Below(pos, n)
    requires Ok(g) && b < NumBlocks(|pos|, g.log2PerInventory)
    requires j <= BlockOnes(|pos|, g.log2PerInventory, b) && !IsLong(pos, n, g.log2PerInventory, b)
    ensures |Current(pos, n, g, b, j)| <= RegionSize(g)
    ensures g.spills ==> |Current(pos, n, g, b, j)| <= Units(|pos|, g, b)
  {
    var l := g.log2PerInventory;
    var ones := BlockOnes(|pos|, l, b);
    SubSamplesShared(g);
    UnitsAre(|pos|, g, b);
    Pow2Plus2(g.log2Longwords);
    BlocksMono(j, ones, g.log2PerSub16);
    BlocksMono(ones, Pow2(l), g.log2PerSub16);
    BlocksOfPow2(l, g.log2PerSub16);
  }

  /** A long block's 64-bit samples, or its nothing when it spills, fit its region. */
  lemma LongFits(pos: seq<nat>, n: nat, g: Geometry, b: nat, j: nat)
    requires Increasing(pos) && Below(pos, n)
    requires Ok(g) && b < NumBlocks(|pos|, g.log2PerInventory)
    requires j <= BlockOnes(|pos|, g.log2PerInventory, b) && IsLong(pos, n, g.log2PerInventory, b)
    ensures |Current(pos, n, g, b, j)| <= RegionSize(g)
    ensures g.spills ==> |Current(pos, n, g, b, j)| <= Units(|pos|, g, b)
  {
    var l := g.log2PerInventory;
    SubSamplesShared(g);
    UnitsAre(|pos|, g, b);
    Pow2Plus2(g.log2Longwords);
    if !g.spills {
      BlocksMono(j, Pow2(l), g.log2PerSub64);
      BlocksOfPow2(l, g.log2PerSub64);
    }
  }

  /** Block b's region once all its marks are written: its units, then zeros. */
  ghost function Padded(pos: seq<nat>, n: nat, g: Geometry, b: nat): (r: seq<nat>)
    requires Increasing(pos) && Below(pos, n)
    requires Ok(g) && b < NumBlocks(|pos|, g.log2PerInventory)
    ensures |r| == RegionSize(g)
  {
    CurrentFits(pos, n, g, b, BlockOnes(|pos|, g.log2PerInventory, b));
    PadTo(Current(pos, n, g, b, BlockOnes(|pos|, g.log2PerInventory, b)), RegionSize(g))
  }

  /** The positions block b has spilled after j of its marks. */
  ghost function BlockSpill(pos: seq<nat>, n: nat, g: Geometry, b: nat, j: nat): (r: seq<nat>)
    requires b < NumBlocks(|pos|, g.log2PerInventory)
    requires j <= BlockOnes(|pos|, g.log2PerInventory, b)
    ensures |r| == if g.spills && IsLong(pos, n, g.log2PerInventory, b) then j else 0
  {
    var l := g.log2PerInventory;
    if g.spills && IsLong(pos, n, l, b) then
      seq<nat>(j, i requires 0 <= i < j => pos[Scale(b, l) + i])
    else []
  }

  // ---------------------------------------------------------------------
  // Flags
  // ---------------------------------------------------------------------

  /** 2^63, bit 63 of a word. */
  const Top: int := 0x8000_0000_0000_0000

  lemma TopIs()
    ensures Pow2(63) == Top && 2 * Top == WordMod
  {
    WordPow();
  }

  /** An `int64_t` read as a `uint64_t`. */
  function Unsigned(v: int): nat
    requires -Top <= v < Top
  {
    if v < 0 then v + WordMod else v
  }

  /** A `uint64_t` read as an `int64_t`. */
  function Signed(u: nat): int
    requires u < WordMod
  {
    if u < Top then u else u - WordMod
  }

  /** The entry of a long block: bit 63 set (`|= 1ULL << 63`), or `-x - 1`. */
  function Flag(g: Geometry, x: nat): int
  {
    if g.spills then x - Top else -(x as int) - 1
  }

  /** `inventory[ i ] |= 1ULL << 63` sets the flag of a position below 2^63. */
  lemma SetTop(x: nat)
    requires x < Top
    ensures Or(Pow2(63), Unsigned(x)) < WordMod && Signed(Or(Pow2(63), Unsigned(x))) == x - Top
  {
    TopIs();
    EliasFano.OrShifted(1, 63, x);
  }

  /** `inventory_rank & ~(1ULL << 63)` recovers the position from an entry, flagged or not. */
  lemma ClearTop(x: nat, flagged: bool)
    requires x < Top
    ensures And(Unsigned(if flagged then x - Top else x), Pow2(63) - 1) == x
  {
    TopIs();
    EliasFano.AndLowMask(Unsigned(if flagged then x - Top else x), 63);
    SplitAt(x + Top, 63);
    LowBitsSmall(x, 63);
    if flagged {
      Compose1(x);
    }
  }

  lemma Compose1(x: nat)
    requires x < Top
    ensures LowBits(x + Top, 63) == x
  {
    TopIs();
    ShiftRightIsDiv(x + Top, 63);
  }

  /** Inventory entry b once block b has been filled: flagged when the block is long. */
  ghost function Entry(pos: seq<nat>, n: nat, g: Geometry, b: nat): int
    requires b <= NumBlocks(|pos|, g.log2PerInventory)
  {
    var l := g.log2PerInventory;
    if b < NumBlocks(|pos|, l) && IsLong(pos, n, l, b) then Flag(g, Sample(pos, n, l, b)) else Sample(pos, n, l, b)
  }

  /** The inventory once the first `started` blocks have been reached by the third scan. */
  ghost function Flagged(pos: seq<nat>, n: nat, g: Geometry, started: nat): (r: seq<int>)
    requires started <= NumBlocks(|pos|, g.log2PerInventory)
    ensures |r| == NumBlocks(|pos|, g.log2PerInventory) + 1
  {
    var nb := NumBlocks(|pos|, g.log2PerInventory);
    seq(nb + 1, i requires 0 <= i <= nb => if i < started then Entry(pos, n, g, i) else Sample(pos, n, g.log2PerInventory, i))
  }

  lemma FlaggedNext(pos: seq<nat>, n: nat, g: Geometry, b: nat)
    requires b < NumBlocks(|pos|, g.log2PerInventory)
    ensures Flagged(pos, n, g, b + 1) == Flagged(pos, n, g, b)[b := Entry(pos, n, g, b)]
  {
  }
}
