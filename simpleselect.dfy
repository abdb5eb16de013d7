/**
 * `simple_select`: Vigna's select over the ones of a word array.  The
 * position of every 2^L-th one is sampled in an inventory; each block of
 * 2^L ones between two samples keeps 16-bit offsets of some of its ones
 * in the subinventory, or, when it spans 2^16 positions or more, the
 * exact positions of all of them in `exact_spill`; a query starts from
 * the nearest sample and scans the remaining ones word by word.
 */
module SimpleSelect {
  import opened Bits
  import opened Streams
  import opened Broadword
  import opened EliasFanoBits
  import opened Inventories
  import opened Subinventories
  import opened SubinventoryFill
  import opened WordScan
  import EliasFano

  /** `MAX_LOG2_LONGWORDS_PER_SUBINVENTORY` */
  const MaxLog2Longwords: nat := 3
  /** Streams below 2^50 positions: `c * MAX_ONES_PER_INVENTORY + num_bits - 1` stays below 2^64. */
  const MaxBits: nat := 0x4_0000_0000_0000

  /** The set bits of a stream are its marks. */
  lemma SetMarks(s: seq<bool>)
    ensures MarksOf(SetBits, s) == s
  {
  }

  /**
   * `( c * MAX_ONES_PER_INVENTORY + num_bits - 1 ) / num_bits`, with
   * `MAX_ONES_PER_INVENTORY` 8192: ones per entry for 8192 entries per
   * stream, rounded up.
   */
  function Ratio(c: nat, n: nat): nat
    requires n > 0
  {
    (c * 8192 + n - 1) / n
  }

  /** With at least one one, and no more ones than bits, the ratio lies in 1 .. 8192. */
  lemma RatioBounds(c: nat, n: nat)
    requires 0 < c <= n
    ensures 1 <= Ratio(c, n) <= 8192 && IsWord(Ratio(c, n))
  {
    var a := c * 8192 + n - 1;
    DivAtLeast(a, n, 1);
    DivAtLeast(a, n, 8193);
  }

  /**
   * `log2_ones_per_inventory = msb( ratio )`: about 8192 ones per
   * inventory entry on average, rounded down to a power of two.
   */
  function Log2PerInventory(c: nat, n: nat): (l: nat)
    requires 0 < c <= n < MaxBits
    ensures Pow2(l) <= Ratio(c, n) < Pow2(l + 1)
  {
    RatioBounds(c, n);
    Msb(Ratio(c, n)) as nat
  }

  /** The positions of the ones among the first n bits, in order. */
  ghost function OnePositions(bits: seq<nat>, n: nat): seq<nat>
    requires n <= 64 * |bits|
  {
    Positions(MarksOf(SetBits, Prefix(bits, n)))
  }

  /**
   * What the constructor accepts: a word array holding num_bits bits, with
   * the unused bits of its last word clear (the ones are counted by whole
   * words), at least one one (`msb` of the ratio is -1 otherwise and the
   * shift by it undefined), and a length whose ratio does not wrap.
   */
  ghost predicate Admissible(bits: seq<nat>, numBits: nat)
  {
    Words(bits) && 0 < numBits < MaxBits && (numBits + 63) / 64 <= |bits|
    && (forall p | numBits <= p < 64 * ((numBits + 63) / 64) :: !Bit(bits[p / 64], p % 64))
    && 0 < Ones(WordStream(bits)[..numBits])
  }

  /**
   * The built structure: c ones, the derived geometry, and either the bare
   * inventory (one one per entry) or the inventory, subinventory and exact
   * spill the three scans leave.
   */
  ghost predicate Built(bits: seq<nat>, n: nat, c: nat, g: Geometry,
                        inv: seq<int>, units: seq<nat>, spill: seq<nat>)
  {
    Words(bits) && 0 < n < MaxBits && n <= 64 * |bits|
    && c == Ones(MarksOf(SetBits, Prefix(bits, n))) && 0 < c <= n
    && g == Derived(Log2PerInventory(c, n), MaxLog2Longwords)
    && Indexed(OnePositions(bits, n), n, g, inv, units, spill)
  }

  /**
   * What the passes leave over the one positions: the bare inventory when
   * every one is sampled, else the inventory, subinventory and exact spill
   * of the third scan.
   */
  ghost predicate Indexed(pos: seq<nat>, n: nat, g: Geometry, inv: seq<int>, units: seq<nat>, spill: seq<nat>)
  {
    (g.log2PerInventory == 0 ==> inv == Flagged(pos, n, g, 0) && units == [] && spill == [])
    && (g.log2PerInventory >= 1 ==> Filled(pos, n, g, inv, units, spill))
  }

  /** The finished first scan is the inventory before any entry is flagged. */
  lemma BuiltIsFlagged(inv: seq<int>, pos: seq<nat>, n: nat, g: Geometry)
    requires InventoryBuilt(inv, pos, n, g.log2PerInventory)
    ensures inv == Flagged(pos, n, g, 0)
  {
  }

  /** The subinventory's units: `( diff16 + 3 ) / 4` words of four. */
  lemma CapacityIs(c: nat, g: Geometry, diff16: nat)
    requires g.spills && diff16 == UnitsBefore(c, g, NumBlocks(c, g.log2PerInventory))
    ensures Capacity(c, g) == 4 * ((diff16 + 3) / 4)
  {
  }

  /** `new uint64_t[ k ]`: C++ leaves the array uninitialised; it is modelled zeroed. */
  method Zeroed(k: nat) returns (a: array<nat>)
    ensures fresh(a) && a[..] == Zeros(k)
  {
    a := new nat[k](_ => 0);
  }

  /** `c` and `log2_ones_per_inventory`: the first lines of the constructor. */
  method Measure(bits: seq<nat>, numBits: nat) returns (c: nat, l: nat)
    requires Admissible(bits, numBits)
    ensures numBits <= 64 * |bits| && c == Ones(MarksOf(SetBits, Prefix(bits, numBits))) && 0 < c <= numBits
    ensures l == Log2PerInventory(c, numBits)
  {
    var numWords := (numBits + 63) / 64;
    c := EliasFano.CountOnes(bits, numWords);
    EliasFano.OnesOfPadded(bits, numWords, numBits);
    SetMarks(Prefix(bits, numBits));
    var ratio := Ratio(c, numBits);
    RatioBounds(c, numBits);
    l := Msb(ratio) as nat;
  }

  /**
   * The constructor's passes: the inventory; then, with more than one one
   * per entry, the sizing pass, the zeroed `subinventory` of
   * `( diff16 + 3 ) / 4` words (four units each) and `exact_spill` of
   * `spilled` entries, and the filling pass.
   */
  method Build(bits: seq<nat>, numBits: nat)
    returns (c: nat, g: Geometry, inv: seq<int>, units: seq<nat>, spill: seq<nat>)
    requires Admissible(bits, numBits)
    ensures Built(bits, numBits, c, g, inv, units, spill)
  {
    var l;
    c, l := Measure(bits, numBits);
    g, inv, units, spill := Passes(bits, numBits, c, l);
  }

  /**
   * The inventory pass; then, with more than one one per entry, the passes
   * that build the subinventory and the exact spill.
   */
  method Passes(bits: seq<nat>, numBits: nat, c: nat, l: nat)
    returns (g: Geometry, inv: seq<int>, units: seq<nat>, spill: seq<nat>)
    requires numBits <= 64 * |bits| && numBits < MaxBits
    requires c == Ones(MarksOf(SetBits, Prefix(bits, numBits))) && 0 < c
    ensures g == Derived(l, MaxLog2Longwords)
    ensures Indexed(OnePositions(bits, numBits), numBits, g, inv, units, spill)
  {
    var onesPerInventory := Pow2(l);
    var inventorySize := (c + onesPerInventory - 1) / onesPerInventory;
    BlocksIs(c, l);
    var inventory := InventoryPass(bits, numBits, SetBits, l, inventorySize);
    g := Derived(l, MaxLog2Longwords);
    if l >= 1 {
      Pow2Le(1, l);
    }
    if onesPerInventory > 1 {
      DerivedOk(l, MaxLog2Longwords);
      units, spill := FillParts(bits, numBits, SetBits, c, g, inventory);
      inv := inventory[..];
    } else {
      BuiltIsFlagged(inventory[..], OnePositions(bits, numBits), numBits, g);
      inv, units, spill := inventory[..], [], [];
    }
  }

  /**
   * With more than one mark per entry: the sizing pass, the
   * `subinventory` (modelled zeroed, see `Zeroed`) of `( diff16 + 3 ) / 4` words (four units each) and
   * `exact_spill` of `spilled` entries, and the filling pass.
   */
  method FillParts(bits: seq<nat>, numBits: nat, kind: Kind, c: nat, g: Geometry, inventory: array<int>)
    returns (units: seq<nat>, spill: seq<nat>)
    requires numBits <= 64 * |bits| && numBits < MaxBits && Ok(g) && g.spills
    requires c == Ones(MarksOf(kind, Prefix(bits, numBits))) && 0 < c
    requires InventoryBuilt(inventory[..], Positions(MarksOf(kind, Prefix(bits, numBits))), numBits, g.log2PerInventory)
    modifies inventory
    ensures Filled(Positions(MarksOf(kind, Prefix(bits, numBits))), numBits, g, inventory[..], units, spill)
  {
    BuiltIsFlagged(inventory[..], Positions(MarksOf(kind, Prefix(bits, numBits))), numBits, g);
    var diff16, spilled := SizingPass(bits, numBits, kind, g, inventory, c);
    CapacityIs(c, g, diff16);
    var subinventory := Zeroed(4 * ((diff16 + 3) / 4));
    var exactSpill := Zeroed(spilled);
    FillPass(bits, numBits, kind, g, c, inventory, subinventory, exactSpill);
    units, spill := subinventory[..], exactSpill[..];
  }

  // ---------------------------------------------------------------------
  // The paths of a query
  // ---------------------------------------------------------------------

  /**
   * `rank >> L` and `rank & ( 2^L - 1 )`: the block of one `rank` and its
   * place in the block.
   */
  lemma Located(c: nat, l: nat, rank: nat)
    requires rank < c
    ensures ShiftRight(rank, l) < NumBlocks(c, l)
    ensures And(rank, Pow2(l) - 1) < BlockOnes(c, l, ShiftRight(rank, l))
    ensures Scale(ShiftRight(rank, l), l) + And(rank, Pow2(l) - 1) == rank
    ensures And(rank, Pow2(l) - 1) != 0 ==> l >= 1
  {
    BlockOfBelow(c, l, rank);
    Decompose(rank, l);
    EliasFano.AndLowMask(rank, l);
  }

  /** A sampled one: the entry with bit 63 cleared, flagged or not, is its position. */
  lemma SampledHit(pos: seq<nat>, n: nat, g: Geometry, started: nat, b: nat)
    requires Increasing(pos) && Below(pos, n) && n < Top && g.spills
    requires b < NumBlocks(|pos|, g.log2PerInventory) && started <= NumBlocks(|pos|, g.log2PerInventory)
    ensures Scale(b, g.log2PerInventory) < |pos|
    ensures -Top <= Flagged(pos, n, g, started)[b] < Top
    ensures And(Unsigned(Flagged(pos, n, g, started)[b]), Pow2(63) - 1) == pos[Scale(b, g.log2PerInventory)]
  {
    var l := g.log2PerInventory;
    BlockExists(|pos|, l, b);
    var x := Sample(pos, n, l, b);
    var flagged := b < started && IsLong(pos, n, l, b);
    assert x == pos[Scale(b, l)] < Top;
    assert Flagged(pos, n, g, started)[b] == if flagged then x - Top else x;
    ClearTop(x, flagged);
  }

  /** A flagged entry is negative; an unflagged one is the block's first position. */
  lemma EntrySign(pos: seq<nat>, n: nat, g: Geometry, b: nat)
    requires Increasing(pos) && Below(pos, n) && n < Top && g.spills
    requires b < NumBlocks(|pos|, g.log2PerInventory)
    ensures (Entry(pos, n, g, b) >= 0) == !IsLong(pos, n, g.log2PerInventory, b)
    ensures Entry(pos, n, g, b) >= 0 ==> Entry(pos, n, g, b) == Sample(pos, n, g.log2PerInventory, b)
  {
    BlockExists(|pos|, g.log2PerInventory, b);
  }

  /**
   * A short block: 16-bit sample `subrank >> L16` holds the offset of one
   * `subrank - residual` from the block's first one.
   */
  lemma ShortHit(pos: seq<nat>, n: nat, g: Geometry, units: seq<nat>, b: nat, subrank: nat)
    requires Increasing(pos) && Below(pos, n)
    requires b < NumBlocks(|pos|, g.log2PerInventory) && subrank < BlockOnes(|pos|, g.log2PerInventory, b)
    requires ShiftRight(subrank, g.log2PerSub16) < NumBlocks(BlockOnes(|pos|, g.log2PerInventory, b), g.log2PerSub16)
    requires Region(g, b) + ShiftRight(subrank, g.log2PerSub16) < |units|
    requires units[Region(g, b) + ShiftRight(subrank, g.log2PerSub16)]
             == SubSample(pos, n, g.log2PerInventory, b, BlockOnes(|pos|, g.log2PerInventory, b),
                          g.log2PerSub16, ShiftRight(subrank, g.log2PerSub16))
    ensures And(subrank, Pow2(g.log2PerSub16) - 1) <= subrank
    ensures Scale(b, g.log2PerInventory) + subrank < |pos|
    ensures Sample(pos, n, g.log2PerInventory, b) + units[Region(g, b) + ShiftRight(subrank, g.log2PerSub16)]
            == pos[Scale(b, g.log2PerInventory) + subrank - And(subrank, Pow2(g.log2PerSub16) - 1)]
  {
    var l := g.log2PerInventory;
    var k16 := g.log2PerSub16;
    var ones := BlockOnes(|pos|, l, b);
    var k := ShiftRight(subrank, k16);
    SubrankSplit(subrank, k16);
    SampleAt(pos, n, l, b, ones, k16, k);
    InBlock(pos, n, l, b, subrank);
  }

  /** `subrank >> L16` and `subrank & ( 2^L16 - 1 )` split subrank. */
  lemma SubrankSplit(subrank: nat, k: nat)
    ensures Scale(ShiftRight(subrank, k), k) + And(subrank, Pow2(k) - 1) == subrank
  {
    Decompose(subrank, k);
    EliasFano.AndLowMask(subrank, k);
  }

  /** A 16-bit sample added to its block's first position is the position of the sampled one. */
  lemma SampleAt(pos: seq<nat>, n: nat, l: nat, b: nat, j: nat, s: nat, k: nat)
    requires Increasing(pos) && Below(pos, n)
    requires b < NumBlocks(|pos|, l) && j <= BlockOnes(|pos|, l, b) && k < NumBlocks(j, s)
    ensures Scale(b, l) + Scale(k, s) < |pos|
    ensures Sample(pos, n, l, b) + SubSample(pos, n, l, b, j, s, k) == pos[Scale(b, l) + Scale(k, s)]
  {
    BlockExists(j, s, k);
    InBlock(pos, n, l, b, Scale(k, s));
  }

  /** Unit k of a short block's region is its k-th 16-bit sample. */
  lemma ShortUnit(pos: seq<nat>, n: nat, g: Geometry, inv: seq<int>, units: seq<nat>, spill: seq<nat>, b: nat, k: nat)
    requires Filled(pos, n, g, inv, units, spill)
    requires b < NumBlocks(|pos|, g.log2PerInventory) && !IsLong(pos, n, g.log2PerInventory, b)
    requires k < NumBlocks(BlockOnes(|pos|, g.log2PerInventory, b), g.log2PerSub16)
    ensures Region(g, b) + k < |units|
    ensures units[Region(g, b) + k]
            == SubSample(pos, n, g.log2PerInventory, b, BlockOnes(|pos|, g.log2PerInventory, b), g.log2PerSub16, k)
  {
    assert UnitsAt(pos, n, g, units, b);
    var c := Current(pos, n, g, b, BlockOnes(|pos|, g.log2PerInventory, b));
    SliceAt(units, Region(g, b), c, k);
  }

  /** An element of a slice that holds p is the element of p. */
  lemma SliceAt(s: seq<nat>, lo: nat, p: seq<nat>, i: nat)
    requires lo + |p| <= |s| && s[lo..lo + |p|] == p && i < |p|
    ensures s[lo + i] == p[i]
  {
    assert s[lo..lo + |p|][i] == s[lo + i];
  }

  /** Positions a block spans are bounded by the ones before it. */
  lemma {:induction false} SpilledBeforeBound(pos: seq<nat>, n: nat, g: Geometry, b: nat)
    requires b <= NumBlocks(|pos|, g.log2PerInventory)
    ensures SpilledBefore(pos, n, g, b) <= Scale(b, g.log2PerInventory)
  {
    ScaleIs(0, g.log2PerInventory);
    if b > 0 {
      SpilledBeforeBound(pos, n, g, b - 1);
      ScaleNext(b - 1, g.log2PerInventory);
    }
  }

  /**
   * A long block's positions lie in `exact_spill` from the count spilled by
   * the blocks before it: one `subrank` of the block is `subrank` slots on.
   */
  lemma SpillSlot(pos: seq<nat>, n: nat, g: Geometry, inv: seq<int>, units: seq<nat>, spill: seq<nat>, b: nat, subrank: nat)
    requires Filled(pos, n, g, inv, units, spill) && g.spills
    requires b < NumBlocks(|pos|, g.log2PerInventory) && subrank < BlockOnes(|pos|, g.log2PerInventory, b)
    requires IsLong(pos, n, g.log2PerInventory, b)
    ensures SpilledBefore(pos, n, g, b) + subrank < |spill|
    ensures Scale(b, g.log2PerInventory) + subrank < |pos|
    ensures spill[SpilledBefore(pos, n, g, b) + subrank] == pos[Scale(b, g.log2PerInventory) + subrank]
  {
    var ones := BlockOnes(|pos|, g.log2PerInventory, b);
    var spilt := BlockSpill(pos, n, g, b, ones);
    assert SpillStart(pos, n, g, b) == SpilledBefore(pos, n, g, b) && |spilt| == ones;
    SliceAt(spill, SpilledBefore(pos, n, g, b), spilt, subrank);
    SpillAt(pos, n, g, b, ones, subrank);
  }

  /** Slot i of a long block's spilled positions is the position of its one i. */
  lemma SpillAt(pos: seq<nat>, n: nat, g: Geometry, b: nat, j: nat, i: nat)
    requires Increasing(pos) && Below(pos, n) && g.spills
    requires b < NumBlocks(|pos|, g.log2PerInventory) && IsLong(pos, n, g.log2PerInventory, b)
    requires i < j <= BlockOnes(|pos|, g.log2PerInventory, b)
    ensures Scale(b, g.log2PerInventory) + i < |pos|
    ensures |BlockSpill(pos, n, g, b, j)| == j && BlockSpill(pos, n, g, b, j)[i] == pos[Scale(b, g.log2PerInventory) + i]
  {
    InBlock(pos, n, g.log2PerInventory, b, i);
  }

  /** A spilling block's units are the four of the word `p64[ 0 ] = spilled`. */
  lemma StartWord(pos: seq<nat>, n: nat, g: Geometry, inv: seq<int>, units: seq<nat>, spill: seq<nat>, b: nat)
    requires Filled(pos, n, g, inv, units, spill) && |pos| <= n < Top && g.spills
    requires b < NumBlocks(|pos|, g.log2PerInventory) && IsLong(pos, n, g.log2PerInventory, b)
    ensures Region(g, b) + 4 <= |units| && Word64(units, Region(g, b)) == SpilledBefore(pos, n, g, b)
  {
    var before := SpilledBefore(pos, n, g, b);
    SpilledBeforeBound(pos, n, g, b);
    BlockExists(|pos|, g.log2PerInventory, b);
    TopIs();
    assert UnitsAt(pos, n, g, units, b);
    var c := Current(pos, n, g, b, BlockOnes(|pos|, g.log2PerInventory, b));
    assert c == WordUnits(before);
    assert units[Region(g, b)..Region(g, b) + 4] == c;
    assert Word64(units, Region(g, b)) == Word64(c, 0);
    WordUnitsJoin(before);
  }

  /** The one positions of a built index are increasing, below n and c many. */
  lemma BuiltPositions(bits: seq<nat>, n: nat, c: nat, g: Geometry, inv: seq<int>, units: seq<nat>, spill: seq<nat>)
    requires Built(bits, n, c, g, inv, units, spill)
    ensures Increasing(OnePositions(bits, n)) && Below(OnePositions(bits, n), n)
    ensures |OnePositions(bits, n)| == c && c <= n < Top && g.spills
  {
    PositionsIncreasing(MarksOf(SetBits, Prefix(bits, n)));
  }

  /** What a query reads: the positions' order and the structure over them. */
  ghost predicate Queryable(pos: seq<nat>, n: nat, g: Geometry, inv: seq<int>, units: seq<nat>, spill: seq<nat>)
  {
    Increasing(pos) && Below(pos, n) && |pos| <= n < Top && g.spills && Indexed(pos, n, g, inv, units, spill)
  }

  /** Every block has an inventory entry, and one sentinel follows them. */
  lemma InventorySize(pos: seq<nat>, n: nat, g: Geometry, inv: seq<int>, units: seq<nat>, spill: seq<nat>)
    requires Queryable(pos, n, g, inv, units, spill)
    ensures |inv| == NumBlocks(|pos|, g.log2PerInventory) + 1
  {
    if g.log2PerInventory >= 1 {
      assert Filled(pos, n, g, inv, units, spill);
    }
  }

  /** Path one: `rank` is a multiple of 2^L, and its inventory entry holds it. */
  lemma SampledOf(pos: seq<nat>, n: nat, g: Geometry, inv: seq<int>, units: seq<nat>, spill: seq<nat>, rank: nat)
    requires Queryable(pos, n, g, inv, units, spill) && rank < |pos|
    requires And(rank, Pow2(g.log2PerInventory) - 1) == 0
    ensures ShiftRight(rank, g.log2PerInventory) < |inv|
    ensures -Top <= inv[ShiftRight(rank, g.log2PerInventory)] < Top
    ensures And(Unsigned(inv[ShiftRight(rank, g.log2PerInventory)]), Pow2(63) - 1) == pos[rank]
  {
    var l := g.log2PerInventory;
    var b := ShiftRight(rank, l);
    SampledBlock(|pos|, l, rank);
    var started := InventoryFlagged(pos, n, g, inv, units, spill);
    SampledHit(pos, n, g, started, b);
  }

  /** A multiple of 2^l below c is the first rank of its block. */
  lemma SampledBlock(c: nat, l: nat, rank: nat)
    requires rank < c && And(rank, Pow2(l) - 1) == 0
    ensures ShiftRight(rank, l) < NumBlocks(c, l) && Scale(ShiftRight(rank, l), l) == rank
  {
    Located(c, l, rank);
  }

  /** The inventory a query reads is the flagged first scan, flagged up to some block. */
  lemma InventoryFlagged(pos: seq<nat>, n: nat, g: Geometry, inv: seq<int>, units: seq<nat>, spill: seq<nat>)
    returns (started: nat)
    requires Queryable(pos, n, g, inv, units, spill)
    ensures started <= NumBlocks(|pos|, g.log2PerInventory) && inv == Flagged(pos, n, g, started)
  {
    if g.log2PerInventory == 0 {
      started := 0;
    } else {
      assert Filled(pos, n, g, inv, units, spill);
      started := NumBlocks(|pos|, g.log2PerInventory);
    }
  }

  /** Past the sentinel-free first path, entry b is block b's entry. */
  lemma EntryAt(pos: seq<nat>, n: nat, g: Geometry, inv: seq<int>, units: seq<nat>, spill: seq<nat>, b: nat)
    requires Filled(pos, n, g, inv, units, spill) && b < NumBlocks(|pos|, g.log2PerInventory)
    ensures inv[b] == Entry(pos, n, g, b)
  {
  }

  /**
   * Path two: a short block's entry plus its 16-bit sample is the position
   * of one `rank - residual`, residual being `subrank & ( 2^L16 - 1 )`.
   */
  lemma ShortOf(pos: seq<nat>, n: nat, g: Geometry, inv: seq<int>, units: seq<nat>, spill: seq<nat>, rank: nat)
    requires Queryable(pos, n, g, inv, units, spill) && rank < |pos|
    requires And(rank, Pow2(g.log2PerInventory) - 1) != 0
    requires ShiftRight(rank, g.log2PerInventory) < |inv| && inv[ShiftRight(rank, g.log2PerInventory)] >= 0
    ensures Region(g, ShiftRight(rank, g.log2PerInventory))
            + ShiftRight(And(rank, Pow2(g.log2PerInventory) - 1), g.log2PerSub16) < |units|
    ensures And(And(rank, Pow2(g.log2PerInventory) - 1), Pow2(g.log2PerSub16) - 1) <= rank
    ensures inv[ShiftRight(rank, g.log2PerInventory)]
            + units[Region(g, ShiftRight(rank, g.log2PerInventory))
                    + ShiftRight(And(rank, Pow2(g.log2PerInventory) - 1), g.log2PerSub16)]
            == pos[rank - And(And(rank, Pow2(g.log2PerInventory) - 1), Pow2(g.log2PerSub16) - 1)]
  {
    var l := g.log2PerInventory;
    var b := ShiftRight(rank, l);
    var subrank := And(rank, Pow2(l) - 1);
    var k := ShiftRight(subrank, g.log2PerSub16);
    Located(|pos|, l, rank);
    assert Filled(pos, n, g, inv, units, spill);
    EntryAt(pos, n, g, inv, units, spill, b);
    EntrySign(pos, n, g, b);
    BlockOfBelow(BlockOnes(|pos|, l, b), g.log2PerSub16, subrank);
    ShortUnit(pos, n, g, inv, units, spill, b, k);
    ShortHit(pos, n, g, units, b, subrank);
  }

  /** Path three: a long block's positions are read from `exact_spill`. */
  lemma LongOf(pos: seq<nat>, n: nat, g: Geometry, inv: seq<int>, units: seq<nat>, spill: seq<nat>, rank: nat)
    requires Queryable(pos, n, g, inv, units, spill) && rank < |pos|
    requires And(rank, Pow2(g.log2PerInventory) - 1) != 0
    requires ShiftRight(rank, g.log2PerInventory) < |inv| && inv[ShiftRight(rank, g.log2PerInventory)] < 0
    ensures Region(g, ShiftRight(rank, g.log2PerInventory)) + 4 <= |units|
    ensures Word64(units, Region(g, ShiftRight(rank, g.log2PerInventory))) + And(rank, Pow2(g.log2PerInventory) - 1) < |spill|
    ensures spill[Word64(units, Region(g, ShiftRight(rank, g.log2PerInventory))) + And(rank, Pow2(g.log2PerInventory) - 1)]
            == pos[rank]
  {
    var l := g.log2PerInventory;
    var b := ShiftRight(rank, l);
    var subrank := And(rank, Pow2(l) - 1);
    Located(|pos|, l, rank);
    assert Filled(pos, n, g, inv, units, spill);
    EntryAt(pos, n, g, inv, units, spill, b);
    EntrySign(pos, n, g, b);
    StartWord(pos, n, g, inv, units, spill, b);
    SpillSlot(pos, n, g, inv, units, spill, b, subrank);
  }

  /**
   * The lookups of `select( rank )`: the inventory when rank is sampled,
   * the exact spill in a long block, else a 16-bit sample: the position
   * `start` of one `rank - residual`, with `residual` ones left to scan.
   */
  method Lookup(ghost pos: seq<nat>, n: nat, g: Geometry, inv: seq<int>, units: seq<nat>, spill: seq<nat>, rank: nat)
    returns (start: nat, residual: nat)
    requires Queryable(pos, n, g, inv, units, spill) && rank < |pos|
    ensures residual <= rank && start == pos[rank - residual]
  {
    var l := g.log2PerInventory;
    var inventoryIndex := ShiftRight(rank, l);
    if And(rank, Pow2(l) - 1) == 0 {
      start := SampledLookup(pos, n, g, inv, units, spill, rank);
      return start, 0;
    }
    Located(|pos|, l, rank);
    InventorySize(pos, n, g, inv, units, spill);
    if inv[inventoryIndex] >= 0 {
      start, residual := ShortLookup(pos, n, g, inv, units, spill, rank);
    } else {
      start := LongLookup(pos, n, g, inv, units, spill, rank);
      residual := 0;
    }
  }

  /** A sampled one: its inventory entry with bit 63 cleared. */
  method SampledLookup(ghost pos: seq<nat>, n: nat, g: Geometry, inv: seq<int>, units: seq<nat>, spill: seq<nat>, rank: nat)
    returns (r: nat)
    requires Queryable(pos, n, g, inv, units, spill) && rank < |pos|
    requires And(rank, Pow2(g.log2PerInventory) - 1) == 0
    ensures r == pos[rank]
  {
    SampledOf(pos, n, g, inv, units, spill, rank);
    r := And(Unsigned(inv[ShiftRight(rank, g.log2PerInventory)]), Pow2(63) - 1);
  }

  /** A short block: its entry plus its 16-bit sample `subrank >> L16`. */
  method ShortLookup(ghost pos: seq<nat>, n: nat, g: Geometry, inv: seq<int>, units: seq<nat>, spill: seq<nat>, rank: nat)
    returns (start: nat, residual: nat)
    requires Queryable(pos, n, g, inv, units, spill) && rank < |pos|
    requires And(rank, Pow2(g.log2PerInventory) - 1) != 0
    requires ShiftRight(rank, g.log2PerInventory) < |inv| && inv[ShiftRight(rank, g.log2PerInventory)] >= 0
    ensures residual <= rank && start == pos[rank - residual]
  {
    var inventoryIndex := ShiftRight(rank, g.log2PerInventory);
    var subrank := And(rank, Pow2(g.log2PerInventory) - 1);
    ShortOf(pos, n, g, inv, units, spill, rank);
    start := inv[inventoryIndex] + units[Region(g, inventoryIndex) + ShiftRight(subrank, g.log2PerSub16)];
    residual := And(subrank, Pow2(g.log2PerSub16) - 1);
  }

  /** A long block: slot `subrank` of its run in `exact_spill`. */
  method LongLookup(ghost pos: seq<nat>, n: nat, g: Geometry, inv: seq<int>, units: seq<nat>, spill: seq<nat>, rank: nat)
    returns (r: nat)
    requires Queryable(pos, n, g, inv, units, spill) && rank < |pos|
    requires And(rank, Pow2(g.log2PerInventory) - 1) != 0
    requires ShiftRight(rank, g.log2PerInventory) < |inv| && inv[ShiftRight(rank, g.log2PerInventory)] < 0
    ensures r == pos[rank]
  {
    LongOf(pos, n, g, inv, units, spill, rank);
    r := spill[Word64(units, Region(g, ShiftRight(rank, g.log2PerInventory))) + And(rank, Pow2(g.log2PerInventory) - 1)];
  }

  /** `select( rank )`: a lookup, then, from a 16-bit sample, the scan. */
  method Query(bits: seq<nat>, n: nat, g: Geometry, inv: seq<int>, units: seq<nat>, spill: seq<nat>,
               ghost pos: seq<nat>, rank: nat) returns (r: nat)
    requires Words(bits) && n <= 64 * |bits| && pos == OnePositions(bits, n)
    requires Queryable(pos, n, g, inv, units, spill) && rank < |pos|
    ensures r == pos[rank]
  {
    var start, residual := Lookup(pos, n, g, inv, units, spill, rank);
    if residual == 0 {
      return start;
    }
    ScanFromSample(bits, n, SetBits, rank, residual, start);
    r := ScanWords(bits, SetBits, start, residual, rank);
  }

  /** `simple_select` */
  class SimpleSelect {
    /** The indexed words (`bits`, borrowed from the caller). */
    const bits: seq<nat>
    const numBits: nat
    const numOnes: nat
    /** `log2_ones_per_inventory` and the sample rates derived from it. */
    const g: Geometry
    /** `inventory`: inventory_size + 1 entries, long blocks flagged by bit 63. */
    const inventory: seq<int>
    /** `subinventory`, as 16-bit units, four to a word. */
    const subinventory: seq<nat>
    /** `exact_spill` */
    const exactSpill: seq<nat>
    /** The indexed stream: the first num_bits bits of `bits`. */
    ghost const Source: seq<bool>
    /** The positions of its ones in order. */
    ghost const Pos: seq<nat>

    ghost predicate Valid()
    {
      Built(bits, numBits, numOnes, g, inventory, subinventory, exactSpill)
      && Source == WordStream(bits)[..numBits] && Pos == Positions(Source) && |Pos| == numOnes
      && Pos == OnePositions(bits, numBits)
    }

    /** `simple_select( bits, num_bits )` */
    constructor (bits: seq<nat>, numBits: nat)
      requires Admissible(bits, numBits)
      ensures Valid() && this.bits == bits && this.numBits == numBits
      ensures numOnes == Ones(Source) && |Pos| == numOnes
      ensures Source == WordStream(bits)[..numBits]
      ensures g.log2PerInventory == 0 ==> subinventory == [] && exactSpill == []
    {
      var c, geometry, inv, units, spill := Build(bits, numBits);
      this.bits := bits;
      this.numBits := numBits;
      numOnes := c;
      g := geometry;
      inventory := inv;
      subinventory := units;
      exactSpill := spill;
      Source := WordStream(bits)[..numBits];
      Pos := Positions(WordStream(bits)[..numBits]);
      SetMarks(Prefix(bits, numBits));
    }

    /**
     * `select( rank )`: the position of the rank-th one (from 0), from the
     * inventory when rank is sampled, from the exact spill in a long block,
     * else from a 16-bit sample and a scan of the ones after it.
     */
    method Select(rank: nat) returns (r: nat)
      requires Valid() && rank < numOnes
      ensures r == Pos[rank] && r == Streams.Select(Source, rank)
    {
      BuiltPositions(bits, numBits, numOnes, g, inventory, subinventory, exactSpill);
      r := Query(bits, numBits, g, inventory, subinventory, exactSpill, Pos, rank);
    }
  }

  /**
   * The constructor's second debug check: for every position i with fewer
   * than num_ones ones before it, the one of that rank lies at or after i.
   */
  lemma {:induction false} SelectOfRank(s: seq<bool>, i: nat)
    requires i <= |s| && Rank(s, i) < Ones(s)
    ensures Select(s, Rank(s, i)) >= i
  {
    var p := Select(s, Rank(s, i));
    if p < i {
      RankStep(s, p);
      RankMono(s, p + 1, i);
    }
  }
}
