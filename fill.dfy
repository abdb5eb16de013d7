/**
 * The third scan of the `simple_select` family's constructors: for every
 * mark, in order, it opens the mark's block when the mark is the block's
 * first (reading the block's span off the inventory, flagging the entry
 * of a long block), then writes the mark's 16-bit sample, its 64-bit
 * sample or its exact position.  The scan is proved to leave the
 * subinventory, the exact spill and the inventory equal to the layout
 * functions of `Subinventories`.
 */
module SubinventoryFill {
  import opened Bits
  import opened Streams
  import opened Inventories
  import opened Subinventories

  // ---------------------------------------------------------------------
  // Layout arithmetic
  // ---------------------------------------------------------------------

  /** Every block but the last holds 2^l marks. */
  lemma FullBlock(c: nat, l: nat, b: nat)
    requires b + 1 < NumBlocks(c, l)
    ensures BlockOnes(c, l, b) == Pow2(l)
  {
    BlockExists(c, l, b + 1);
    ScaleNext(b, l);
  }

  /** The sizing pass reserves for the blocks before the last exactly their regions. */
  lemma {:induction false} UnitsAreRegions(c: nat, g: Geometry, b: nat)
    requires Ok(g) && b < NumBlocks(c, g.log2PerInventory)
    ensures UnitsBefore(c, g, b) == Region(g, b)
  {
    RegionNext(g, 0);
    if b > 0 {
      var a := b - 1;
      UnitsAreRegions(c, g, a);
      FullBlock(c, g.log2PerInventory, a);
      UnitsAre(c, g, a);
      SubSamplesShared(g);
      BlocksOfPow2(g.log2PerInventory, g.log2PerSub16);
      RegionNext(g, a);
    }
  }

  lemma {:induction false} UnitsBeforeMono(c: nat, g: Geometry, a: nat, b: nat)
    requires a <= b <= NumBlocks(c, g.log2PerInventory)
    ensures UnitsBefore(c, g, a) <= UnitsBefore(c, g, b)
  {
    if a < b {
      UnitsBeforeMono(c, g, a, b - 1);
    }
  }

  lemma {:induction false} SpilledBeforeMono(pos: seq<nat>, n: nat, g: Geometry, a: nat, b: nat)
    requires a <= b <= NumBlocks(|pos|, g.log2PerInventory)
    ensures SpilledBefore(pos, n, g, a) <= SpilledBefore(pos, n, g, b)
  {
    if a < b {
      SpilledBeforeMono(pos, n, g, a, b - 1);
    }
  }

  /** Units of the subinventory: `( diff16 + 3 ) / 4` words, or `inventory_size` regions. */
  function Capacity(c: nat, g: Geometry): nat
  {
    if g.spills then 4 * ((UnitsBefore(c, g, NumBlocks(c, g.log2PerInventory)) + 3) / 4)
    else Region(g, NumBlocks(c, g.log2PerInventory))
  }

  /** Entries of `exact_spill`: the sizing pass's `spilled`. */
  ghost function SpillSize(pos: seq<nat>, n: nat, g: Geometry): nat
  {
    if g.spills then SpilledBefore(pos, n, g, NumBlocks(|pos|, g.log2PerInventory)) else 0
  }

  /** The units a block has written, at any point, lie inside the subinventory. */
  lemma CapacityCovers(pos: seq<nat>, n: nat, g: Geometry, b: nat, j: nat)
    requires Increasing(pos) && Below(pos, n)
    requires Ok(g) && b < NumBlocks(|pos|, g.log2PerInventory)
    requires j <= BlockOnes(|pos|, g.log2PerInventory, b)
    ensures Region(g, b) + |Current(pos, n, g, b, j)| <= Capacity(|pos|, g)
  {
    var c := |pos|;
    var nb := NumBlocks(c, g.log2PerInventory);
    CurrentFits(pos, n, g, b, j);
    RegionNext(g, b);
    if g.spills {
      UnitsAreRegions(c, g, b);
      UnitsBeforeMono(c, g, b + 1, nb);
    } else {
      ScaleMono(b + 1, nb, g.log2Longwords + 2);
    }
  }

  /** The positions a block has spilled, at any point, lie inside the exact spill. */
  lemma SpillCovers(pos: seq<nat>, n: nat, g: Geometry, b: nat, j: nat)
    requires b < NumBlocks(|pos|, g.log2PerInventory)
    requires j <= BlockOnes(|pos|, g.log2PerInventory, b)
    ensures SpillStart(pos, n, g, b) + |BlockSpill(pos, n, g, b, j)| <= SpillSize(pos, n, g)
  {
    SpilledBeforeMono(pos, n, g, b + 1, NumBlocks(|pos|, g.log2PerInventory));
  }

  lemma ScaleAdd(x: nat, a: nat, k: nat)
    ensures Scale(x, a + k) == Scale(Scale(x, a), k)
  {
    ScaleIs(x, a + k);
    ScaleIs(x, a);
    ScaleIs(Scale(x, a), k);
    Pow2Add(a, k);
  }

  /** Adding whole blocks of 2^k leaves the low k bits alone. */
  lemma {:induction false} LowBitsAfter(q: nat, k: nat, j: nat)
    ensures LowBits(Scale(q, k) + j, k) == LowBits(j, k)
  {
    if k > 0 {
      var x := Scale(q, k) + j;
      assert x / 2 == Scale(q, k - 1) + j / 2 && x % 2 == j % 2;
      LowBitsAfter(q, k - 1, j / 2);
    }
  }

  /** Mark d == (b << l) + j opens the next block exactly when it is past block b's last. */
  lemma Advance(c: nat, l: nat, b: nat, j: nat, d: nat)
    requires b < NumBlocks(c, l) && 1 <= j <= BlockOnes(c, l, b)
    requires d == Scale(b, l) + j && d < c
    ensures NumBlocks(d, l) == b + 1
    ensures (NumBlocks(d + 1, l) == NumBlocks(d, l) + 1) == (j == BlockOnes(c, l, b))
    ensures j == BlockOnes(c, l, b) ==> b + 1 < NumBlocks(c, l)
  {
    ScaleNext(b, l);
    if j < Pow2(l) {
      BlocksAt(d, l, b, j);
    } else {
      BlocksAt(d, l, b + 1, 0);
      BlockExists(c, l, b + 1);
    }
  }

  /** Before any mark, the scan is at block 0. */
  lemma Opening(l: nat)
    ensures NumBlocks(0, l) == 0 && NumBlocks(1, l) == 1 && Scale(0, l) == 0
  {
    ScaleIs(0, l);
    BlocksAt(0, l, 0, 0);
  }

  // ---------------------------------------------------------------------
  // What one mark adds
  // ---------------------------------------------------------------------

  /** A block has written nothing before its first mark. */
  lemma CurrentEmpty(pos: seq<nat>, n: nat, g: Geometry, b: nat)
    requires Increasing(pos) && Below(pos, n)
    requires b < NumBlocks(|pos|, g.log2PerInventory)
    ensures Current(pos, n, g, b, 0) == []
  {
    NoBlocks(g.log2PerSub16);
    NoBlocks(g.log2PerSub64);
  }

  /** A short block's mark j adds its offset when it is sampled, and nothing otherwise. */
  lemma ShortNext(pos: seq<nat>, n: nat, g: Geometry, b: nat, j: nat, sample: bool)
    requires Increasing(pos) && Below(pos, n)
    requires b < NumBlocks(|pos|, g.log2PerInventory) && !IsLong(pos, n, g.log2PerInventory, b)
    requires j < BlockOnes(|pos|, g.log2PerInventory, b)
    requires sample == (NumBlocks(j + 1, g.log2PerSub16) == NumBlocks(j, g.log2PerSub16) + 1)
    requires sample ==> Scale(NumBlocks(j, g.log2PerSub16), g.log2PerSub16) == j
    requires !sample ==> NumBlocks(j + 1, g.log2PerSub16) == NumBlocks(j, g.log2PerSub16)
    ensures Current(pos, n, g, b, j + 1)
            == Current(pos, n, g, b, j) + (if sample then [Offset(pos, n, g.log2PerInventory, b, j)] else [])
  {
  }

  /** A long block's mark j adds its 64-bit offset when it is sampled, and nothing otherwise. */
  lemma OffsetNext(pos: seq<nat>, n: nat, g: Geometry, b: nat, j: nat, sample: bool)
    requires Increasing(pos) && Below(pos, n)
    requires b < NumBlocks(|pos|, g.log2PerInventory) && IsLong(pos, n, g.log2PerInventory, b) && !g.spills
    requires j < BlockOnes(|pos|, g.log2PerInventory, b)
    requires sample == (NumBlocks(j + 1, g.log2PerSub64) == NumBlocks(j, g.log2PerSub64) + 1)
    requires sample ==> Scale(NumBlocks(j, g.log2PerSub64), g.log2PerSub64) == j
    requires !sample ==> NumBlocks(j + 1, g.log2PerSub64) == NumBlocks(j, g.log2PerSub64)
    ensures Current(pos, n, g, b, j + 1)
            == Current(pos, n, g, b, j) + (if sample then WordUnits(Offset(pos, n, g.log2PerInventory, b, j)) else [])
  {
    var k := g.log2PerSub64;
    var q := NumBlocks(j, k);
    var before := Current(pos, n, g, b, j);
    var after := Current(pos, n, g, b, j + 1);
    if sample {
      assert |after| == |before| + 4;
      forall t | 0 <= t < |after|
        ensures after[t] == (before + WordUnits(Offset(pos, n, g.log2PerInventory, b, j)))[t]
      {
        if t < 4 * q {
          assert after[t] == before[t];
        } else {
          assert t / 4 == q && t % 4 == t - 4 * q;
        }
      }
    }
  }

  /** A spilling long block writes its start in `exact_spill` to its region at its first mark only. */
  lemma SpillNext(pos: seq<nat>, n: nat, g: Geometry, b: nat, j: nat)
    requires Increasing(pos) && Below(pos, n)
    requires b < NumBlocks(|pos|, g.log2PerInventory) && IsLong(pos, n, g.log2PerInventory, b) && g.spills
    requires j < BlockOnes(|pos|, g.log2PerInventory, b)
    ensures Current(pos, n, g, b, j + 1)
            == Current(pos, n, g, b, j) + (if j == 0 then WordUnits(SpilledBefore(pos, n, g, b)) else [])
  {
  }

  /** A spilling long block's mark j goes to the exact spill. */
  lemma SpilledNext(pos: seq<nat>, n: nat, g: Geometry, b: nat, j: nat)
    requires Increasing(pos) && Below(pos, n)
    requires b < NumBlocks(|pos|, g.log2PerInventory) && IsLong(pos, n, g.log2PerInventory, b) && g.spills
    requires j < BlockOnes(|pos|, g.log2PerInventory, b)
    ensures Scale(b, g.log2PerInventory) + j < |pos|
    ensures BlockSpill(pos, n, g, b, j + 1)
            == BlockSpill(pos, n, g, b, j) + [pos[Scale(b, g.log2PerInventory) + j]]
  {
    InBlock(pos, n, g.log2PerInventory, b, j);
  }

  /** Only spilling long blocks spill. */
  lemma NoSpillNext(pos: seq<nat>, n: nat, g: Geometry, b: nat, j: nat)
    requires b < NumBlocks(|pos|, g.log2PerInventory)
    requires !(IsLong(pos, n, g.log2PerInventory, b) && g.spills)
    requires j < BlockOnes(|pos|, g.log2PerInventory, b)
    ensures BlockSpill(pos, n, g, b, j + 1) == BlockSpill(pos, n, g, b, j) == []
  {
  }

  // ---------------------------------------------------------------------
  // The arrays during the scan
  // ---------------------------------------------------------------------

  /** From `at` on, u holds c, then zeros to its end. */
  ghost predicate Holds(u: seq<nat>, at: nat, c: seq<nat>)
  {
    at + |c| <= |u| && u[at..] == c + Zeros(|u| - at - |c|)
  }

  /** Writing w right after c, at k, extends c by w and leaves everything before `at` alone. */
  lemma Extend(u: seq<nat>, at: nat, c: seq<nat>, w: seq<nat>, c': seq<nat>, k: nat, u': seq<nat>)
    requires Holds(u, at, c) && k == at + |c| && k + |w| <= |u|
    requires c' == c + w && u' == u[..k] + w + u[k + |w|..]
    ensures Holds(u', at, c') && u'[..at] == u[..at]
  {
    var z := |u| - k;
    ZerosSplit(|w|, z - |w|);
    assert u[at..][..|c|] == c;
    assert u[at..][|c|..] == Zeros(z);
    assert u[k + |w|..] == u[at..][|c| + |w|..];
    assert u'[at..] == u[at..k] + w + u[k + |w|..];
  }

  /** Closing c with k of the zeros after it, as p, leaves p in u[at..at'] and nothing after. */
  lemma Close(u: seq<nat>, at: nat, c: seq<nat>, k: nat, p: seq<nat>, at': nat)
    requires Holds(u, at, c) && at + |c| + k <= |u|
    requires p == c + Zeros(k) && at' == at + |p|
    ensures Holds(u, at', []) && u[at..at'] == p
  {
    var r := |u| - at - |c| - k;
    ZerosSplit(k, r);
    assert u[at..] == p + Zeros(r);
    assert u[at'..] == u[at..][|p|..];
    assert u[at..at'] == u[at..][..|p|];
  }

  /** Each block before b takes a region of its own, past the regions before it. */
  lemma RegionMono(g: Geometry, a: nat, b: nat)
    requires a < b
    ensures Region(g, a) + RegionSize(g) <= Region(g, b)
  {
    RegionNext(g, a);
    ScaleMono(a + 1, b, g.log2Longwords + 2);
  }

  /** Blocks 0 .. b - 1 each fill their region with their units, padded with zeros. */
  ghost predicate Laid(pos: seq<nat>, n: nat, g: Geometry, u: seq<nat>, b: nat)
    requires Increasing(pos) && Below(pos, n) && Ok(g) && b <= NumBlocks(|pos|, g.log2PerInventory)
  {
    forall a | 0 <= a < b ::
      Region(g, a) + RegionSize(g) <= |u| && u[Region(g, a)..Region(g, a) + RegionSize(g)] == Padded(pos, n, g, a)
  }

  /** A slice inside a prefix two sequences share is the same in both. */
  lemma SliceKeep(u: seq<nat>, u': seq<nat>, lo: nat, hi: nat, m: nat, p: seq<nat>)
    requires lo <= hi <= m <= |u| == |u'| && u'[..m] == u[..m] && u[lo..hi] == p
    ensures u'[lo..hi] == p
  {
    assert u'[lo..hi] == u'[..m][lo..hi];
    assert u[lo..hi] == u[..m][lo..hi];
  }

  /** Writing only at or after block b's region keeps the blocks before b laid out. */
  lemma LaidKeep(pos: seq<nat>, n: nat, g: Geometry, u: seq<nat>, u': seq<nat>, b: nat)
    requires Increasing(pos) && Below(pos, n) && Ok(g) && b <= NumBlocks(|pos|, g.log2PerInventory)
    requires Laid(pos, n, g, u, b) && Region(g, b) <= |u| == |u'| && u'[..Region(g, b)] == u[..Region(g, b)]
    ensures Laid(pos, n, g, u', b)
  {
    forall a | 0 <= a < b
      ensures Region(g, a) + RegionSize(g) <= |u'| && u'[Region(g, a)..Region(g, a) + RegionSize(g)] == Padded(pos, n, g, a)
    {
      RegionMono(g, a, b);
      SliceKeep(u, u', Region(g, a), Region(g, a) + RegionSize(g), Region(g, b), Padded(pos, n, g, a));
    }
  }

  /** Block b's region filled with its padded units lays out one more block. */
  lemma LaidNext(pos: seq<nat>, n: nat, g: Geometry, u: seq<nat>, b: nat)
    requires Increasing(pos) && Below(pos, n) && Ok(g) && b < NumBlocks(|pos|, g.log2PerInventory)
    requires Laid(pos, n, g, u, b) && Region(g, b) + RegionSize(g) <= |u|
    requires u[Region(g, b)..Region(g, b) + RegionSize(g)] == Padded(pos, n, g, b)
    ensures Laid(pos, n, g, u, b + 1)
  {
  }

  /** Where `exact_spill` holds block b's positions: the positions the blocks before it spilled. */
  function SpillStart(pos: seq<nat>, n: nat, g: Geometry, b: nat): nat
    requires b <= NumBlocks(|pos|, g.log2PerInventory)
  {
    if g.spills then SpilledBefore(pos, n, g, b) else 0
  }

  /** Block b's positions run from its spill start to the next block's. */
  lemma SpillStartNext(pos: seq<nat>, n: nat, g: Geometry, b: nat)
    requires b < NumBlocks(|pos|, g.log2PerInventory)
    ensures SpillStart(pos, n, g, 0) == 0
    ensures SpillStart(pos, n, g, b + 1)
            == SpillStart(pos, n, g, b) + |BlockSpill(pos, n, g, b, BlockOnes(|pos|, g.log2PerInventory, b))|
  {
  }

  /** Blocks 0 .. b - 1 each hold their spilled positions, one block after the other. */
  ghost predicate SpillLaid(pos: seq<nat>, n: nat, g: Geometry, s: seq<nat>, b: nat)
    requires b <= NumBlocks(|pos|, g.log2PerInventory)
  {
    forall a {:trigger SpillStart(pos, n, g, a)} | 0 <= a < b ::
      SpillStart(pos, n, g, a) + |BlockSpill(pos, n, g, a, BlockOnes(|pos|, g.log2PerInventory, a))| <= |s|
      && s[SpillStart(pos, n, g, a)..SpillStart(pos, n, g, a) + |BlockSpill(pos, n, g, a, BlockOnes(|pos|, g.log2PerInventory, a))|]
         == BlockSpill(pos, n, g, a, BlockOnes(|pos|, g.log2PerInventory, a))
  }

  /** Writing only at or after block b's spill start keeps the blocks before b's positions. */
  lemma SpillLaidKeep(pos: seq<nat>, n: nat, g: Geometry, s: seq<nat>, s': seq<nat>, b: nat)
    requires b <= NumBlocks(|pos|, g.log2PerInventory)
    requires SpillLaid(pos, n, g, s, b) && SpillStart(pos, n, g, b) <= |s| == |s'|
    requires s'[..SpillStart(pos, n, g, b)] == s[..SpillStart(pos, n, g, b)]
    ensures SpillLaid(pos, n, g, s', b)
  {
    forall a | 0 <= a < b
      ensures SpillStart(pos, n, g, a) + |BlockSpill(pos, n, g, a, BlockOnes(|pos|, g.log2PerInventory, a))| <= |s'|
              && s'[SpillStart(pos, n, g, a)..SpillStart(pos, n, g, a) + |BlockSpill(pos, n, g, a, BlockOnes(|pos|, g.log2PerInventory, a))|]
                 == BlockSpill(pos, n, g, a, BlockOnes(|pos|, g.log2PerInventory, a))
    {
      SpillStartNext(pos, n, g, a);
      SpilledBeforeMono(pos, n, g, a + 1, b);
      SliceKeep(s, s', SpillStart(pos, n, g, a), SpillStart(pos, n, g, a + 1), SpillStart(pos, n, g, b),
                BlockSpill(pos, n, g, a, BlockOnes(|pos|, g.log2PerInventory, a)));
    }
  }

  /** Block b's positions in place after those of the blocks before it lay out one more block. */
  lemma SpillLaidNext(pos: seq<nat>, n: nat, g: Geometry, s: seq<nat>, b: nat)
    requires b < NumBlocks(|pos|, g.log2PerInventory)
    requires SpillLaid(pos, n, g, s, b)
    requires SpillStart(pos, n, g, b) + |BlockSpill(pos, n, g, b, BlockOnes(|pos|, g.log2PerInventory, b))| <= |s|
    requires s[SpillStart(pos, n, g, b)..SpillStart(pos, n, g, b) + |BlockSpill(pos, n, g, b, BlockOnes(|pos|, g.log2PerInventory, b))|]
             == BlockSpill(pos, n, g, b, BlockOnes(|pos|, g.log2PerInventory, b))
    ensures SpillLaid(pos, n, g, s, b + 1)
  {
  }

  /**
   * The subinventory after j marks of block b: the blocks before b laid
   * out in their regions, then block b's units so far, then zeros.
   */
  ghost predicate UnitsFilled(pos: seq<nat>, n: nat, g: Geometry, units: seq<nat>, b: nat, j: nat)
  {
    Increasing(pos) && Below(pos, n) && Ok(g)
    && b < NumBlocks(|pos|, g.log2PerInventory) && j <= BlockOnes(|pos|, g.log2PerInventory, b)
    && |units| == Capacity(|pos|, g)
    && Laid(pos, n, g, units, b) && Holds(units, Region(g, b), Current(pos, n, g, b, j))
  }

  /** The exact spill after j marks of block b: the positions spilled so far, then zeros. */
  ghost predicate SpillFilled(pos: seq<nat>, n: nat, g: Geometry, spill: seq<nat>, b: nat, j: nat)
  {
    b < NumBlocks(|pos|, g.log2PerInventory) && j <= BlockOnes(|pos|, g.log2PerInventory, b)
    && |spill| == SpillSize(pos, n, g)
    && SpillLaid(pos, n, g, spill, b) && Holds(spill, SpillStart(pos, n, g, b), BlockSpill(pos, n, g, b, j))
  }

  /** A block's region is its units followed by zeros. */
  lemma PaddedIs(pos: seq<nat>, n: nat, g: Geometry, b: nat)
    requires Increasing(pos) && Below(pos, n)
    requires Ok(g) && b < NumBlocks(|pos|, g.log2PerInventory)
    ensures |Current(pos, n, g, b, BlockOnes(|pos|, g.log2PerInventory, b))| <= RegionSize(g)
    ensures Padded(pos, n, g, b)
            == Current(pos, n, g, b, BlockOnes(|pos|, g.log2PerInventory, b))
               + Zeros(RegionSize(g) - |Current(pos, n, g, b, BlockOnes(|pos|, g.log2PerInventory, b))|)
  {
    CurrentFits(pos, n, g, b, BlockOnes(|pos|, g.log2PerInventory, b));
  }

  /** Block b's units, padded, fill its region once its last mark is written. */
  lemma UnitsTurn(pos: seq<nat>, n: nat, g: Geometry, units: seq<nat>, b: nat)
    requires b + 1 < NumBlocks(|pos|, g.log2PerInventory)
    requires UnitsFilled(pos, n, g, units, b, BlockOnes(|pos|, g.log2PerInventory, b))
    ensures UnitsFilled(pos, n, g, units, b + 1, 0)
  {
    var c := Current(pos, n, g, b, BlockOnes(|pos|, g.log2PerInventory, b));
    PaddedIs(pos, n, g, b);
    CapacityCovers(pos, n, g, b + 1, 0);
    RegionNext(g, b);
    Close(units, Region(g, b), c, RegionSize(g) - |c|, Padded(pos, n, g, b), Region(g, b + 1));
    LaidNext(pos, n, g, units, b);
    CurrentEmpty(pos, n, g, b + 1);
  }

  /** Block b's spilled positions stay in place once its last mark is written. */
  lemma SpillTurn(pos: seq<nat>, n: nat, g: Geometry, spill: seq<nat>, b: nat)
    requires b + 1 < NumBlocks(|pos|, g.log2PerInventory)
    requires SpillFilled(pos, n, g, spill, b, BlockOnes(|pos|, g.log2PerInventory, b))
    ensures SpillFilled(pos, n, g, spill, b + 1, 0)
  {
    var c := BlockSpill(pos, n, g, b, BlockOnes(|pos|, g.log2PerInventory, b));
    assert c == c + Zeros(0);
    SpillStartNext(pos, n, g, b);
    Close(spill, SpillStart(pos, n, g, b), c, 0, c, SpillStart(pos, n, g, b + 1));
    SpillLaidNext(pos, n, g, spill, b);
    assert BlockSpill(pos, n, g, b + 1, 0) == [];
  }

  /** Block b's entry needs no flag when the block is short. */
  lemma FlaggedShort(pos: seq<nat>, n: nat, g: Geometry, b: nat)
    requires b < NumBlocks(|pos|, g.log2PerInventory) && !IsLong(pos, n, g.log2PerInventory, b)
    ensures Flagged(pos, n, g, b + 1) == Flagged(pos, n, g, b)
  {
    FlaggedNext(pos, n, g, b);
  }

  /** The scan ends in the last block, after its last mark. */
  lemma LastMark(c: nat, l: nat, b: nat, j: nat)
    requires b < NumBlocks(c, l) && 1 <= j <= BlockOnes(c, l, b) && Scale(b, l) + j == c
    ensures b + 1 == NumBlocks(c, l) && j == BlockOnes(c, l, b)
  {
    if b + 1 < NumBlocks(c, l) {
      FullBlock(c, l, b);
      BlockExists(c, l, b + 1);
      ScaleNext(b, l);
    }
  }

  /** Mark d == (b << l) + j is a sample of every 2^k-th mark of its block exactly when its low k bits are zero. */
  lemma SubSampled(d: nat, k: nat, b: nat, l: nat, j: nat)
    requires k <= l && d == Scale(b, l) + j
    ensures (LowBits(d, k) == 0) == (NumBlocks(j + 1, k) == NumBlocks(j, k) + 1)
    ensures LowBits(d, k) == 0 ==> Scale(NumBlocks(j, k), k) == j
    ensures LowBits(d, k) != 0 ==> NumBlocks(j + 1, k) == NumBlocks(j, k)
  {
    ScaleAdd(b, l - k, k);
    LowBitsAfter(Scale(b, l - k), k, j);
    if LowBits(j, k) == 0 {
      AtBlockStart(j + 1, k, j);
    } else {
      SizedInside(j + 1, k, j);
    }
  }

  /** The distance of block b's mark j from the block's first mark, which is below the span. */
  lemma OffsetIs(pos: seq<nat>, n: nat, l: nat, b: nat, j: nat, d: nat, p: nat)
    requires Increasing(pos) && Below(pos, n)
    requires b < NumBlocks(|pos|, l) && j < BlockOnes(|pos|, l, b)
    requires d == Scale(b, l) + j && d < |pos| && pos[d] == p
    ensures Sample(pos, n, l, b) <= p
    ensures p - Sample(pos, n, l, b) == Offset(pos, n, l, b, j) < Sample(pos, n, l, b + 1) - Sample(pos, n, l, b)
  {
    InBlock(pos, n, l, b, j);
  }

  // ---------------------------------------------------------------------
  // The third scan
  // ---------------------------------------------------------------------

  /** `p16[ at ] = v`: a 16-bit store keeps the low 16 bits of v. */
  method Store16(units: array<nat>, at: nat, v: nat)
    requires at < units.Length
    modifies units
    ensures units[..] == old(units[..])[..at] + [v % 0x1_0000] + old(units[..])[at + 1..]
    ensures v < 0x1_0000 ==> units[..] == old(units[..])[..at] + [v] + old(units[..])[at + 1..]
  {
    ghost var u := units[..];
    units[at] := v % 0x1_0000;
    UpdateIsSplice(u, at, v % 0x1_0000);
  }

  /** `exact_spill[ at ] = v`. */
  method Put(a: array<nat>, at: nat, v: nat)
    requires at < a.Length
    modifies a
    ensures a[..] == old(a[..])[..at] + [v] + old(a[..])[at + 1..]
  {
    ghost var s := a[..];
    a[at] := v;
    UpdateIsSplice(s, at, v);
  }

  /** `p64[ k ] = v`: a 64-bit store writes the four units of v, least significant first. */
  method Store64(units: array<nat>, at: nat, v: nat)
    requires at + 4 <= units.Length
    modifies units
    ensures units[..] == old(units[..])[..at] + WordUnits(v) + old(units[..])[at + 4..]
  {
    ghost var u := units[..];
    units[at] := Unit(v, 0);
    units[at + 1] := Unit(v, 1);
    units[at + 2] := Unit(v, 2);
    units[at + 3] := Unit(v, 3);
    assert units[..] == u[..at] + WordUnits(v) + u[at + 4..];
  }

  /**
   * `( d & ones_per_sub_mask ) == 0` for mark d == (b << l) + j: whether the
   * mark is one of its block's every 2^k-th.
   */
  method SubStart(d: nat, k: nat, ghost b: nat, ghost l: nat, ghost j: nat) returns (sample: bool)
    requires k <= l && d == Scale(b, l) + j
    ensures sample == (NumBlocks(j + 1, k) == NumBlocks(j, k) + 1)
    ensures sample ==> Scale(NumBlocks(j, k), k) == j
    ensures !sample ==> NumBlocks(j + 1, k) == NumBlocks(j, k)
  {
    SubSampled(d, k, b, l, j);
    sample := LowBits(d, k) == 0;
  }

  /**
   * The scan's locals: `inventory_index`, `start` and `span` of the current
   * block, the unit where `p16` and `p64` point, `offset` and `spilled`.
   */
  datatype Cursor = Cursor(index: nat, start: nat, span: int, base: nat, offset: nat, spilled: nat)

  /** The cursor after j marks of block b. */
  ghost predicate At(pos: seq<nat>, n: nat, g: Geometry, cur: Cursor, b: nat, j: nat)
  {
    var l := g.log2PerInventory;
    b < NumBlocks(|pos|, l) && j <= BlockOnes(|pos|, l, b)
    && cur.index == b && cur.start == Sample(pos, n, l, b)
    && cur.span == Sample(pos, n, l, b + 1) - Sample(pos, n, l, b)
    && cur.base == Region(g, b)
    && cur.offset == (if !IsLong(pos, n, l, b) then NumBlocks(j, g.log2PerSub16)
                      else if g.spills then 0 else NumBlocks(j, g.log2PerSub64))
    && cur.spilled == SpillStart(pos, n, g, b) + |BlockSpill(pos, n, g, b, j)|
  }

  /** A sampled mark of a short block has room for its unit, and its offset fits in 16 bits. */
  lemma ShortRoom(pos: seq<nat>, n: nat, g: Geometry, u: seq<nat>, b: nat, j: nat, d: nat, p: nat)
    requires UnitsFilled(pos, n, g, u, b, j)
    requires !IsLong(pos, n, g.log2PerInventory, b) && j < BlockOnes(|pos|, g.log2PerInventory, b)
    requires d == Scale(b, g.log2PerInventory) + j && d < |pos| && pos[d] == p
    requires NumBlocks(j + 1, g.log2PerSub16) == NumBlocks(j, g.log2PerSub16) + 1
    ensures Region(g, b) + NumBlocks(j, g.log2PerSub16) < |u|
    ensures Sample(pos, n, g.log2PerInventory, b) <= p
    ensures p - Sample(pos, n, g.log2PerInventory, b) == Offset(pos, n, g.log2PerInventory, b, j) < 0x1_0000
  {
    OffsetIs(pos, n, g.log2PerInventory, b, j, d, p);
    CapacityCovers(pos, n, g, b, j + 1);
  }

  /** Storing a sampled short offset, or nothing, takes the units from mark j to mark j + 1. */
  lemma ShortStored(pos: seq<nat>, n: nat, g: Geometry, u: seq<nat>, b: nat, j: nat, sample: bool,
                    at: nat, v: nat, u': seq<nat>)
    requires UnitsFilled(pos, n, g, u, b, j)
    requires !IsLong(pos, n, g.log2PerInventory, b) && j < BlockOnes(|pos|, g.log2PerInventory, b)
    requires sample == (NumBlocks(j + 1, g.log2PerSub16) == NumBlocks(j, g.log2PerSub16) + 1)
    requires sample ==> Scale(NumBlocks(j, g.log2PerSub16), g.log2PerSub16) == j
    requires !sample ==> NumBlocks(j + 1, g.log2PerSub16) == NumBlocks(j, g.log2PerSub16)
    requires sample ==> at == Region(g, b) + NumBlocks(j, g.log2PerSub16) && at < |u|
                        && v == Offset(pos, n, g.log2PerInventory, b, j) && u' == u[..at] + [v] + u[at + 1..]
    requires !sample ==> u' == u
    ensures UnitsFilled(pos, n, g, u', b, j + 1)
  {
    SubSamplesShared(g);
    ShortNext(pos, n, g, b, j, sample);
    if sample {
      CapacityCovers(pos, n, g, b, j + 1);
      Extend(u, Region(g, b), Current(pos, n, g, b, j), [v], Current(pos, n, g, b, j + 1), at, u');
      LaidKeep(pos, n, g, u, u', b);
    }
  }

  /** A mark of a short block: store its 16-bit offset when it is sampled. */
  method ShortMark(units: array<nat>, ghost pos: seq<nat>, ghost n: nat, g: Geometry, p: nat, d: nat,
                   cur: Cursor, ghost b: nat, ghost j: nat) returns (cur': Cursor)
    requires UnitsFilled(pos, n, g, units[..], b, j) && At(pos, n, g, cur, b, j)
    requires !IsLong(pos, n, g.log2PerInventory, b) && j < BlockOnes(|pos|, g.log2PerInventory, b)
    requires d == Scale(b, g.log2PerInventory) + j && d < |pos| && pos[d] == p
    modifies units
    ensures UnitsFilled(pos, n, g, units[..], b, j + 1) && At(pos, n, g, cur', b, j + 1)
  {
    SubSamplesShared(g);
    var sample := SubStart(d, g.log2PerSub16, b, g.log2PerInventory, j);
    OffsetIs(pos, n, g.log2PerInventory, b, j, d, p);
    ghost var u := units[..];
    var at, v := cur.base + cur.offset, p - cur.start;
    cur' := cur;
    if sample {
      ShortRoom(pos, n, g, u, b, j, d, p);
      Store16(units, at, v);
      cur' := cur.(offset := cur.offset + 1);
    }
    ShortStored(pos, n, g, u, b, j, sample, at, v, units[..]);
  }

  /** A sampled mark of a long block without spilling has room for its word. */
  lemma OffsetRoom(pos: seq<nat>, n: nat, g: Geometry, u: seq<nat>, b: nat, j: nat, d: nat, p: nat)
    requires UnitsFilled(pos, n, g, u, b, j)
    requires IsLong(pos, n, g.log2PerInventory, b) && !g.spills && j < BlockOnes(|pos|, g.log2PerInventory, b)
    requires d == Scale(b, g.log2PerInventory) + j && d < |pos| && pos[d] == p
    requires NumBlocks(j + 1, g.log2PerSub64) == NumBlocks(j, g.log2PerSub64) + 1
    ensures Region(g, b) + 4 * NumBlocks(j, g.log2PerSub64) + 4 <= |u|
    ensures Sample(pos, n, g.log2PerInventory, b) <= p
    ensures p - Sample(pos, n, g.log2PerInventory, b) == Offset(pos, n, g.log2PerInventory, b, j)
  {
    OffsetIs(pos, n, g.log2PerInventory, b, j, d, p);
    CapacityCovers(pos, n, g, b, j + 1);
  }

  /** Storing a sampled 64-bit offset, or nothing, takes the units from mark j to mark j + 1. */
  lemma OffsetStored(pos: seq<nat>, n: nat, g: Geometry, u: seq<nat>, b: nat, j: nat, sample: bool,
                     at: nat, v: nat, u': seq<nat>)
    requires UnitsFilled(pos, n, g, u, b, j)
    requires IsLong(pos, n, g.log2PerInventory, b) && !g.spills && j < BlockOnes(|pos|, g.log2PerInventory, b)
    requires sample == (NumBlocks(j + 1, g.log2PerSub64) == NumBlocks(j, g.log2PerSub64) + 1)
    requires sample ==> Scale(NumBlocks(j, g.log2PerSub64), g.log2PerSub64) == j
    requires !sample ==> NumBlocks(j + 1, g.log2PerSub64) == NumBlocks(j, g.log2PerSub64)
    requires sample ==> at == Region(g, b) + 4 * NumBlocks(j, g.log2PerSub64) && at + 4 <= |u|
                        && v == Offset(pos, n, g.log2PerInventory, b, j) && u' == u[..at] + WordUnits(v) + u[at + 4..]
    requires !sample ==> u' == u
    ensures UnitsFilled(pos, n, g, u', b, j + 1)
  {
    SubSamplesShared(g);
    OffsetNext(pos, n, g, b, j, sample);
    if sample {
      CapacityCovers(pos, n, g, b, j + 1);
      Extend(u, Region(g, b), Current(pos, n, g, b, j), WordUnits(v), Current(pos, n, g, b, j + 1), at, u');
      LaidKeep(pos, n, g, u, u', b);
    }
  }

  /** A mark of a long block when offsets are kept in the block: store a 64-bit offset when it is sampled. */
  method OffsetMark(units: array<nat>, ghost pos: seq<nat>, ghost n: nat, g: Geometry, p: nat, d: nat,
                    cur: Cursor, ghost b: nat, ghost j: nat) returns (cur': Cursor)
    requires UnitsFilled(pos, n, g, units[..], b, j) && At(pos, n, g, cur, b, j)
    requires IsLong(pos, n, g.log2PerInventory, b) && !g.spills && j < BlockOnes(|pos|, g.log2PerInventory, b)
    requires d == Scale(b, g.log2PerInventory) + j && d < |pos| && pos[d] == p
    modifies units
    ensures UnitsFilled(pos, n, g, units[..], b, j + 1) && At(pos, n, g, cur', b, j + 1)
  {
    SubSamplesShared(g);
    var sample := SubStart(d, g.log2PerSub64, b, g.log2PerInventory, j);
    OffsetIs(pos, n, g.log2PerInventory, b, j, d, p);
    ghost var u := units[..];
    var at, v := cur.base + 4 * cur.offset, p - cur.start;
    cur' := cur;
    if sample {
      OffsetRoom(pos, n, g, u, b, j, d, p);
      Store64(units, at, v);
      cur' := cur.(offset := cur.offset + 1);
    }
    OffsetStored(pos, n, g, u, b, j, sample, at, v, units[..]);
  }

  /**
   * Flag a long block's inventory entry: `inventory[ i ] |= 1ULL << 63`
   * when blocks spill, `inventory[ i ] = -inventory[ i ] - 1` otherwise.
   */
  method FlagEntry(inv: array<int>, ghost pos: seq<nat>, ghost n: nat, g: Geometry, index: nat, ghost b: nat)
    requires Increasing(pos) && Below(pos, n) && n < Top
    requires b < NumBlocks(|pos|, g.log2PerInventory) && IsLong(pos, n, g.log2PerInventory, b) && index == b
    requires inv[..] == Flagged(pos, n, g, b)
    modifies inv
    ensures inv[..] == Flagged(pos, n, g, b + 1)
  {
    ghost var x := Sample(pos, n, g.log2PerInventory, b);
    BlockExists(|pos|, g.log2PerInventory, b);
    assert inv[index] == x;
    assert x < n;
    if g.spills {
      SetTop(x);
      inv[index] := Signed(Or(Pow2(63), Unsigned(inv[index])));
    } else {
      inv[index] := -inv[index] - 1;
    }
    FlaggedNext(pos, n, g, b);
  }

  /** Writing the first spill slot at a spilling block's first mark, and nothing later, keeps the units in step. */
  lemma SpillUnitsStored(pos: seq<nat>, n: nat, g: Geometry, u: seq<nat>, b: nat, j: nat, first: bool,
                         at: nat, v: nat, u': seq<nat>)
    requires UnitsFilled(pos, n, g, u, b, j)
    requires IsLong(pos, n, g.log2PerInventory, b) && g.spills && j < BlockOnes(|pos|, g.log2PerInventory, b)
    requires first == (j == 0)
    requires first ==> at == Region(g, b) && at + 4 <= |u| && v == SpilledBefore(pos, n, g, b)
                        && u' == u[..at] + WordUnits(v) + u[at + 4..]
    requires !first ==> u' == u
    ensures UnitsFilled(pos, n, g, u', b, j + 1)
  {
    SpillNext(pos, n, g, b, j);
    if first {
      CapacityCovers(pos, n, g, b, j + 1);
      Extend(u, Region(g, b), Current(pos, n, g, b, j), WordUnits(v), Current(pos, n, g, b, j + 1), at, u');
      LaidKeep(pos, n, g, u, u', b);
    }
  }

  /** Writing a long block's mark to the next spill slot keeps the spill area in step. */
  lemma SpillStored(pos: seq<nat>, n: nat, g: Geometry, s: seq<nat>, b: nat, j: nat, at: nat, p: nat, s': seq<nat>)
    requires Increasing(pos) && Below(pos, n) && SpillFilled(pos, n, g, s, b, j)
    requires IsLong(pos, n, g.log2PerInventory, b) && g.spills && j < BlockOnes(|pos|, g.log2PerInventory, b)
    requires Scale(b, g.log2PerInventory) + j < |pos| && p == pos[Scale(b, g.log2PerInventory) + j]
    requires at == SpillStart(pos, n, g, b) + |BlockSpill(pos, n, g, b, j)| && at < |s|
    requires s' == s[..at] + [p] + s[at + 1..]
    ensures SpillFilled(pos, n, g, s', b, j + 1)
  {
    SpilledNext(pos, n, g, b, j);
    SpillCovers(pos, n, g, b, j + 1);
    Extend(s, SpillStart(pos, n, g, b), BlockSpill(pos, n, g, b, j), [p], BlockSpill(pos, n, g, b, j + 1), at, s');
    SpillLaidKeep(pos, n, g, s, s', b);
  }

  /**
   * At a spilling block's first mark, flag its entry and store where its
   * spill starts (`p64[ 0 ] = spilled`); later marks leave both alone.
   */
  method SpillOpen(units: array<nat>, inv: array<int>, ghost pos: seq<nat>, ghost n: nat, g: Geometry,
                   first: bool, cur: Cursor, ghost b: nat, ghost j: nat)
    requires n < Top && UnitsFilled(pos, n, g, units[..], b, j) && At(pos, n, g, cur, b, j) && first == (j == 0)
    requires inv[..] == Flagged(pos, n, g, if first then b else b + 1)
    requires IsLong(pos, n, g.log2PerInventory, b) && g.spills && j < BlockOnes(|pos|, g.log2PerInventory, b)
    modifies units, inv
    ensures UnitsFilled(pos, n, g, units[..], b, j + 1) && inv[..] == Flagged(pos, n, g, b + 1)
  {
    ghost var u := units[..];
    CapacityCovers(pos, n, g, b, j + 1);
    if first {
      FlagEntry(inv, pos, n, g, cur.index, b);
      Store64(units, cur.base, cur.spilled);
    }
    SpillUnitsStored(pos, n, g, u, b, j, first, cur.base, cur.spilled, units[..]);
  }

  /** `exact_spill[ spilled++ ] = p`: a long block's mark goes to the next spill slot. */
  method SpillCopy(spill: array<nat>, ghost pos: seq<nat>, ghost n: nat, g: Geometry, p: nat, d: nat,
                   cur: Cursor, ghost b: nat, ghost j: nat) returns (cur': Cursor)
    requires Increasing(pos) && Below(pos, n) && SpillFilled(pos, n, g, spill[..], b, j) && At(pos, n, g, cur, b, j)
    requires IsLong(pos, n, g.log2PerInventory, b) && g.spills && j < BlockOnes(|pos|, g.log2PerInventory, b)
    requires d == Scale(b, g.log2PerInventory) + j && d < |pos| && pos[d] == p
    modifies spill
    ensures SpillFilled(pos, n, g, spill[..], b, j + 1) && At(pos, n, g, cur', b, j + 1)
  {
    ghost var s := spill[..];
    var at := cur.spilled;
    SpillCovers(pos, n, g, b, j + 1);
    SpilledNext(pos, n, g, b, j);
    Put(spill, at, p);
    SpillStored(pos, n, g, s, b, j, at, p, spill[..]);
    cur' := cur.(spilled := at + 1);
  }

  /** A mark of a long block when blocks spill. */
  method SpillMark(units: array<nat>, spill: array<nat>, inv: array<int>, ghost pos: seq<nat>, ghost n: nat,
                   g: Geometry, p: nat, d: nat, first: bool, cur: Cursor, ghost b: nat, ghost j: nat)
    returns (cur': Cursor)
    requires units != spill && n < Top
    requires UnitsFilled(pos, n, g, units[..], b, j) && SpillFilled(pos, n, g, spill[..], b, j)
    requires At(pos, n, g, cur, b, j) && first == (j == 0)
    requires inv[..] == Flagged(pos, n, g, if first then b else b + 1)
    requires IsLong(pos, n, g.log2PerInventory, b) && g.spills && j < BlockOnes(|pos|, g.log2PerInventory, b)
    requires d == Scale(b, g.log2PerInventory) + j && d < |pos| && pos[d] == p
    modifies units, spill, inv
    ensures UnitsFilled(pos, n, g, units[..], b, j + 1) && SpillFilled(pos, n, g, spill[..], b, j + 1)
    ensures At(pos, n, g, cur', b, j + 1) && inv[..] == Flagged(pos, n, g, b + 1)
  {
    SpillOpen(units, inv, pos, n, g, first, cur, b, j);
    cur' := SpillCopy(spill, pos, n, g, p, d, cur, b, j);
  }

  // ---------------------------------------------------------------------
  // One mark of the third scan
  // ---------------------------------------------------------------------

  /**
   * The third scan's state after d marks, the last of them mark j of block
   * b: nothing written yet, or the layout of the blocks before b, block b's
   * first j marks, the spills so far and the entries of blocks 0 .. b flagged.
   */
  ghost predicate Scanning(pos: seq<nat>, n: nat, g: Geometry, inv: seq<int>, units: seq<nat>, spill: seq<nat>,
                           cur: Cursor, d: nat, b: nat, j: nat)
  {
    Increasing(pos) && Below(pos, n) && Ok(g) && n < Top
    && |units| == Capacity(|pos|, g) && |spill| == SpillSize(pos, n, g)
    && if d == 0 then
         b == 0 && j == 0 && cur.spilled == 0 && inv == Flagged(pos, n, g, 0)
         && units == Zeros(|units|) && spill == Zeros(|spill|)
       else
         Stored(pos, n, g, inv, units, spill, cur, d, b, j)
  }

  /** Mark d - 1 was mark j - 1 of block b, and everything it asks for is stored. */
  ghost predicate Stored(pos: seq<nat>, n: nat, g: Geometry, inv: seq<int>, units: seq<nat>, spill: seq<nat>,
                         cur: Cursor, d: nat, b: nat, j: nat)
  {
    var l := g.log2PerInventory;
    Increasing(pos) && Below(pos, n) && Ok(g) && n < Top
    && b < NumBlocks(|pos|, l) && 1 <= j <= BlockOnes(|pos|, l, b) && d == Scale(b, l) + j
    && At(pos, n, g, cur, b, j) && inv == Flagged(pos, n, g, b + 1)
    && UnitsFilled(pos, n, g, units, b, j) && SpillFilled(pos, n, g, spill, b, j)
  }

  /** Mark d is mark j of block b, with the block opened and its entry flagged unless a spill's first mark does it. */
  ghost predicate Ready(pos: seq<nat>, n: nat, g: Geometry, inv: seq<int>, units: seq<nat>, spill: seq<nat>,
                        cur: Cursor, d: nat, b: nat, j: nat, first: bool)
  {
    var l := g.log2PerInventory;
    Increasing(pos) && Below(pos, n) && Ok(g) && n < Top
    && b < NumBlocks(|pos|, l) && j < BlockOnes(|pos|, l, b) && d == Scale(b, l) + j && first == (j == 0)
    && At(pos, n, g, cur, b, j)
    && UnitsFilled(pos, n, g, units, b, j) && SpillFilled(pos, n, g, spill, b, j)
    && inv == Flagged(pos, n, g, if first && IsLong(pos, n, l, b) && g.spills then b else b + 1)
  }

  /** Before the first mark, the empty layout of block 0 holds. */
  lemma Started(pos: seq<nat>, n: nat, g: Geometry, units: seq<nat>, spill: seq<nat>)
    requires Increasing(pos) && Below(pos, n) && Ok(g) && 0 < NumBlocks(|pos|, g.log2PerInventory)
    requires |units| == Capacity(|pos|, g) && units == Zeros(|units|)
    requires |spill| == SpillSize(pos, n, g) && spill == Zeros(|spill|)
    ensures UnitsFilled(pos, n, g, units, 0, 0) && SpillFilled(pos, n, g, spill, 0, 0)
  {
    CurrentEmpty(pos, n, g, 0);
    RegionNext(g, 0);
    assert units[0..] == units && spill[0..] == spill;
    assert BlockSpill(pos, n, g, 0, 0) == [];
  }

  /** A mark that does not open a block is the next mark of the current block. */
  lemma Continues(pos: seq<nat>, n: nat, g: Geometry, inv: seq<int>, units: seq<nat>, spill: seq<nat>,
                  cur: Cursor, d: nat, b: nat, j: nat)
    requires Scanning(pos, n, g, inv, units, spill, cur, d, b, j) && d < |pos|
    requires NumBlocks(d + 1, g.log2PerInventory) == NumBlocks(d, g.log2PerInventory)
    ensures d > 0 && Ready(pos, n, g, inv, units, spill, cur, d, b, j, false)
  {
    Opening(g.log2PerInventory);
    if d > 0 {
      Advance(|pos|, g.log2PerInventory, b, j, d);
    }
  }

  /** Past a block's last mark, the next block starts with nothing written. */
  lemma TurnNext(pos: seq<nat>, n: nat, g: Geometry, units: seq<nat>, spill: seq<nat>, cur: Cursor, b: nat)
    requires b + 1 < NumBlocks(|pos|, g.log2PerInventory)
    requires UnitsFilled(pos, n, g, units, b, BlockOnes(|pos|, g.log2PerInventory, b))
    requires SpillFilled(pos, n, g, spill, b, BlockOnes(|pos|, g.log2PerInventory, b))
    requires At(pos, n, g, cur, b, BlockOnes(|pos|, g.log2PerInventory, b))
    ensures UnitsFilled(pos, n, g, units, b + 1, 0) && SpillFilled(pos, n, g, spill, b + 1, 0)
    ensures cur.spilled == SpillStart(pos, n, g, b + 1)
  {
    UnitsTurn(pos, n, g, units, b);
    SpillTurn(pos, n, g, spill, b);
    SpillStartNext(pos, n, g, b);
  }

  /** Block b opened at its first mark: nothing of it written, its entry not yet flagged. */
  ghost predicate Fresh(pos: seq<nat>, n: nat, g: Geometry, inv: seq<int>, units: seq<nat>, spill: seq<nat>,
                        b: nat, spilled: nat)
  {
    Increasing(pos) && Below(pos, n) && Ok(g) && n < Top && b < NumBlocks(|pos|, g.log2PerInventory)
    && UnitsFilled(pos, n, g, units, b, 0) && SpillFilled(pos, n, g, spill, b, 0)
    && inv == Flagged(pos, n, g, b) && spilled == SpillStart(pos, n, g, b)
  }

  /** The first mark opens block 0, with nothing written. */
  lemma TurnFirst(pos: seq<nat>, n: nat, g: Geometry, inv: seq<int>, units: seq<nat>, spill: seq<nat>,
                  cur: Cursor, b: nat, j: nat, index: nat)
    requires Scanning(pos, n, g, inv, units, spill, cur, 0, b, j) && 0 < |pos|
    requires index == NumBlocks(0, g.log2PerInventory)
    ensures index == 0 && Fresh(pos, n, g, inv, units, spill, index, cur.spilled)
  {
    Opening(g.log2PerInventory);
    BlocksMono(1, |pos|, g.log2PerInventory);
    Started(pos, n, g, units, spill);
  }

  /** A later mark that opens a block opens block b + 1 and closes block b. */
  lemma TurnAfter(pos: seq<nat>, n: nat, g: Geometry, inv: seq<int>, units: seq<nat>, spill: seq<nat>,
                  cur: Cursor, d: nat, b: nat, j: nat, index: nat)
    requires Scanning(pos, n, g, inv, units, spill, cur, d, b, j) && 0 < d < |pos|
    requires NumBlocks(d + 1, g.log2PerInventory) == NumBlocks(d, g.log2PerInventory) + 1
    requires index == NumBlocks(d, g.log2PerInventory)
    ensures index == b + 1 && Fresh(pos, n, g, inv, units, spill, index, cur.spilled)
  {
    Advance(|pos|, g.log2PerInventory, b, j, d);
    TurnNext(pos, n, g, units, spill, cur, b);
  }

  /** Flag block b's entry when the block is long and keeps offsets, `inventory[ i ] = -inventory[ i ] - 1`. */
  method FlagOffsets(inv: array<int>, ghost pos: seq<nat>, ghost n: nat, g: Geometry, index: nat, span: int, ghost b: nat)
    requires Increasing(pos) && Below(pos, n) && n < Top
    requires b < NumBlocks(|pos|, g.log2PerInventory) && index == b
    requires span == Sample(pos, n, g.log2PerInventory, b + 1) - Sample(pos, n, g.log2PerInventory, b)
    requires inv[..] == Flagged(pos, n, g, b)
    modifies inv
    ensures inv[..] == Flagged(pos, n, g, if IsLong(pos, n, g.log2PerInventory, b) && g.spills then b else b + 1)
  {
    if span >= 0x1_0000 {
      if !g.spills {
        FlagEntry(inv, pos, n, g, index, b);
      }
    } else {
      FlaggedShort(pos, n, g, b);
    }
  }

  /** Open block b at its first mark: read its start and span off the inventory and point at its region. */
  method OpenBlock(inv: array<int>, ghost units: seq<nat>, ghost spill: seq<nat>, ghost pos: seq<nat>, ghost n: nat,
                   g: Geometry, d: nat, index: nat, spilled: nat, ghost b: nat)
    returns (cur: Cursor)
    requires Fresh(pos, n, g, inv[..], units, spill, b, spilled) && index == b && d == Scale(b, g.log2PerInventory)
    modifies inv
    ensures Ready(pos, n, g, inv[..], units, spill, cur, d, b, 0, true)
  {
    var start := inv[index];
    var span := inv[index + 1] - start;
    assert start == Sample(pos, n, g.log2PerInventory, b);
    assert inv[index + 1] == Sample(pos, n, g.log2PerInventory, b + 1);
    NoBlocks(g.log2PerSub16);
    NoBlocks(g.log2PerSub64);
    cur := Cursor(index, start, span, Region(g, index), 0, spilled);
    FlagOffsets(inv, pos, n, g, index, span, b);
  }

  /**
   * `if ( ( d & ones_per_inventory_mask ) == 0 )`: mark d either opens a
   * block or continues the current one.
   */
  method Locate(inv: array<int>, ghost units: seq<nat>, ghost spill: seq<nat>, ghost pos: seq<nat>, ghost n: nat,
                g: Geometry, c: nat, d: nat, cur: Cursor, ghost b: nat, ghost j: nat)
    returns (first: bool, cur': Cursor, ghost b': nat, ghost j': nat)
    requires Scanning(pos, n, g, inv[..], units, spill, cur, d, b, j) && c == |pos| && d < c
    modifies inv
    ensures Ready(pos, n, g, inv[..], units, spill, cur', d, b', j', first)
    ensures d > 0 && !first ==> b' == b && j' == j
    ensures d > 0 && first ==> b' == b + 1 && j' == 0
  {
    var index: nat;
    first, index := BlockStart(c, g.log2PerInventory, d);
    if first {
      if d == 0 {
        TurnFirst(pos, n, g, inv[..], units, spill, cur, b, j, index);
      } else {
        TurnAfter(pos, n, g, inv[..], units, spill, cur, d, b, j, index);
      }
      b', j' := index, 0;
      cur' := OpenBlock(inv, units, spill, pos, n, g, d, index, cur.spilled, index);
    } else {
      Continues(pos, n, g, inv[..], units, spill, cur, d, b, j);
      cur', b', j' := cur, b, j;
    }
  }

  lemma StoredScanning(pos: seq<nat>, n: nat, g: Geometry, inv: seq<int>, units: seq<nat>, spill: seq<nat>,
                       cur: Cursor, d: nat, b: nat, j: nat)
    requires d > 0 && Stored(pos, n, g, inv, units, spill, cur, d, b, j)
    ensures Scanning(pos, n, g, inv, units, spill, cur, d, b, j)
  {
  }

  /** A mark of a short block, from the opened block to the stored mark. */
  method ShortStep(units: array<nat>, ghost inv: seq<int>, ghost spill: seq<nat>, ghost pos: seq<nat>, ghost n: nat,
                   g: Geometry, p: nat, d: nat, first: bool, cur: Cursor, ghost b: nat, ghost j: nat)
    returns (cur': Cursor)
    requires Ready(pos, n, g, inv, units[..], spill, cur, d, b, j, first) && pos[d] == p
    requires cur.span < 0x1_0000
    modifies units
    ensures Stored(pos, n, g, inv, units[..], spill, cur', d + 1, b, j + 1)
  {
    cur' := ShortMark(units, pos, n, g, p, d, cur, b, j);
  }

  /** A mark of a long block that spills, from the opened block to the stored mark. */
  method SpillStep(units: array<nat>, spill: array<nat>, inv: array<int>, ghost pos: seq<nat>, ghost n: nat,
                   g: Geometry, p: nat, d: nat, first: bool, cur: Cursor, ghost b: nat, ghost j: nat)
    returns (cur': Cursor)
    requires units != spill
    requires Ready(pos, n, g, inv[..], units[..], spill[..], cur, d, b, j, first) && pos[d] == p
    requires cur.span >= 0x1_0000 && g.spills
    modifies units, spill, inv
    ensures Stored(pos, n, g, inv[..], units[..], spill[..], cur', d + 1, b, j + 1)
  {
    assert IsLong(pos, n, g.log2PerInventory, b);
    ghost var started := if first then b else b + 1;
    assert started == if first && IsLong(pos, n, g.log2PerInventory, b) && g.spills then b else b + 1;
    cur' := SpillMark(units, spill, inv, pos, n, g, p, d, first, cur, b, j);
  }

  /** A mark of a long block that keeps offsets, from the opened block to the stored mark. */
  method OffsetStep(units: array<nat>, ghost inv: seq<int>, ghost spill: seq<nat>, ghost pos: seq<nat>, ghost n: nat,
                    g: Geometry, p: nat, d: nat, first: bool, cur: Cursor, ghost b: nat, ghost j: nat)
    returns (cur': Cursor)
    requires Ready(pos, n, g, inv, units[..], spill, cur, d, b, j, first) && pos[d] == p
    requires cur.span >= 0x1_0000 && !g.spills
    modifies units
    ensures Stored(pos, n, g, inv, units[..], spill, cur', d + 1, b, j + 1)
  {
    cur' := OffsetMark(units, pos, n, g, p, d, cur, b, j);
  }

  /** Store what block b keeps of its mark j, by the kind of the block. */
  method MarkStep(units: array<nat>, spill: array<nat>, inv: array<int>, ghost pos: seq<nat>, ghost n: nat,
                  g: Geometry, p: nat, d: nat, first: bool, cur: Cursor, ghost b: nat, ghost j: nat)
    returns (cur': Cursor)
    requires units != spill
    requires Ready(pos, n, g, inv[..], units[..], spill[..], cur, d, b, j, first) && pos[d] == p
    modifies units, spill, inv
    ensures Stored(pos, n, g, inv[..], units[..], spill[..], cur', d + 1, b, j + 1)
  {
    if cur.span < 0x1_0000 {
      ghost var iv, sv := inv[..], spill[..];
      cur' := ShortStep(units, iv, sv, pos, n, g, p, d, first, cur, b, j);
      assert inv[..] == iv && spill[..] == sv;
    } else if g.spills {
      cur' := SpillStep(units, spill, inv, pos, n, g, p, d, first, cur, b, j);
    } else {
      ghost var iv, sv := inv[..], spill[..];
      cur' := OffsetStep(units, iv, sv, pos, n, g, p, d, first, cur, b, j);
      assert inv[..] == iv && spill[..] == sv;
    }
  }

  /** One mark of the third scan: open or continue its block, then store what the block keeps of it. */
  method FillMark(units: array<nat>, spill: array<nat>, inv: array<int>, ghost pos: seq<nat>, ghost n: nat,
                  g: Geometry, c: nat, p: nat, d: nat, cur: Cursor, ghost b: nat, ghost j: nat)
    returns (cur': Cursor, ghost b': nat, ghost j': nat)
    requires units != spill && c == |pos| && d < c && pos[d] == p
    requires Scanning(pos, n, g, inv[..], units[..], spill[..], cur, d, b, j)
    modifies units, spill, inv
    ensures Scanning(pos, n, g, inv[..], units[..], spill[..], cur', d + 1, b', j')
  {
    var first, cur1;
    first, cur1, b', j' := Locate(inv, units[..], spill[..], pos, n, g, c, d, cur, b, j);
    cur' := MarkStep(units, spill, inv, pos, n, g, p, d, first, cur1, b', j');
    j' := j' + 1;
    StoredScanning(pos, n, g, inv[..], units[..], spill[..], cur', d + 1, b', j');
  }

  // ---------------------------------------------------------------------
  // The whole scan
  // ---------------------------------------------------------------------

  /** Block b's units lie at the start of its region. */
  ghost predicate UnitsAt(pos: seq<nat>, n: nat, g: Geometry, units: seq<nat>, b: nat)
    requires Increasing(pos) && Below(pos, n) && b < NumBlocks(|pos|, g.log2PerInventory)
  {
    var c := Current(pos, n, g, b, BlockOnes(|pos|, g.log2PerInventory, b));
    Region(g, b) + |c| <= |units| && units[Region(g, b)..Region(g, b) + |c|] == c
  }

  /**
   * What the third scan leaves: every inventory entry flagged as its block
   * demands, every block's units at the start of its region and every
   * spilling block's positions at its spill start.
   */
  ghost predicate Filled(pos: seq<nat>, n: nat, g: Geometry, inv: seq<int>, units: seq<nat>, spill: seq<nat>)
  {
    Increasing(pos) && Below(pos, n) && Ok(g)
    && inv == Flagged(pos, n, g, NumBlocks(|pos|, g.log2PerInventory))
    && |units| == Capacity(|pos|, g) && |spill| == SpillSize(pos, n, g)
    && (forall b | 0 <= b < NumBlocks(|pos|, g.log2PerInventory) :: UnitsAt(pos, n, g, units, b))
    && SpillLaid(pos, n, g, spill, NumBlocks(|pos|, g.log2PerInventory))
  }

  /** A block laid out in its region has its units at the region's start. */
  lemma UnitsAtLaid(pos: seq<nat>, n: nat, g: Geometry, units: seq<nat>, a: nat, b: nat)
    requires Increasing(pos) && Below(pos, n) && Ok(g) && a < b <= NumBlocks(|pos|, g.log2PerInventory)
    requires Laid(pos, n, g, units, b)
    ensures UnitsAt(pos, n, g, units, a)
  {
    var c := Current(pos, n, g, a, BlockOnes(|pos|, g.log2PerInventory, a));
    PaddedIs(pos, n, g, a);
    assert units[Region(g, a)..Region(g, a) + |c|] == units[Region(g, a)..Region(g, a) + RegionSize(g)][..|c|];
  }

  /** The block being written has its units so far at its region's start. */
  lemma UnitsAtHolds(pos: seq<nat>, n: nat, g: Geometry, units: seq<nat>, b: nat)
    requires Increasing(pos) && Below(pos, n) && b < NumBlocks(|pos|, g.log2PerInventory)
    requires Holds(units, Region(g, b), Current(pos, n, g, b, BlockOnes(|pos|, g.log2PerInventory, b)))
    ensures UnitsAt(pos, n, g, units, b)
  {
    var c := Current(pos, n, g, b, BlockOnes(|pos|, g.log2PerInventory, b));
    assert units[Region(g, b)..Region(g, b) + |c|] == units[Region(g, b)..][..|c|];
  }

  /** After the last mark every block is in place. */
  lemma FilledAtEnd(pos: seq<nat>, n: nat, g: Geometry, inv: seq<int>, units: seq<nat>, spill: seq<nat>,
                    cur: Cursor, b: nat, j: nat)
    requires Stored(pos, n, g, inv, units, spill, cur, |pos|, b, j)
    ensures Filled(pos, n, g, inv, units, spill)
  {
    var l := g.log2PerInventory;
    LastMark(|pos|, l, b, j);
    forall a | 0 <= a < NumBlocks(|pos|, l)
      ensures UnitsAt(pos, n, g, units, a)
    {
      if a < b {
        UnitsAtLaid(pos, n, g, units, a, b);
      } else {
        UnitsAtHolds(pos, n, g, units, b);
      }
    }
    var c := BlockSpill(pos, n, g, b, j);
    assert spill[SpillStart(pos, n, g, b)..SpillStart(pos, n, g, b) + |c|]
           == spill[SpillStart(pos, n, g, b)..][..|c|];
    SpillLaidNext(pos, n, g, spill, b);
  }

  /** The third scan after the first p positions of the stream, d of them marks. */
  ghost predicate FillingAt(bits: seq<nat>, n: nat, kind: Kind, g: Geometry, c: nat,
                            inv: seq<int>, units: seq<nat>, spill: seq<nat>,
                            p: nat, d: nat, firstone: bool, cur: Cursor, b: nat, j: nat)
  {
    n <= 64 * |bits| && p <= n && c == Ones(MarksOf(kind, Prefix(bits, n)))
    && d == Rank(MarksOf(kind, Prefix(bits, n)), p)
    && (kind == DoubleOnes ==> firstone == Paired(Prefix(bits, n), p))
    && Scanning(Positions(MarksOf(kind, Prefix(bits, n))), n, g, inv, units, spill, cur, d, b, j)
  }

  /** One position of the third scan: a mark is opened into its block and stored. */
  method FillStep(bits: seq<nat>, n: nat, kind: Kind, g: Geometry, c: nat,
                  inv: array<int>, units: array<nat>, spill: array<nat>,
                  p: nat, d: nat, firstone: bool, cur: Cursor, ghost b: nat, ghost j: nat)
    returns (d': nat, firstone': bool, cur': Cursor, ghost b': nat, ghost j': nat)
    requires units != spill && p < n
    requires FillingAt(bits, n, kind, g, c, inv[..], units[..], spill[..], p, d, firstone, cur, b, j)
    modifies inv, units, spill
    ensures FillingAt(bits, n, kind, g, c, inv[..], units[..], spill[..], p + 1, d', firstone', cur', b', j')
  {
    ghost var pos := Positions(MarksOf(kind, Prefix(bits, n)));
    ScanStep(bits, n, kind, p, d, firstone);
    var step := NextMark(kind, Bit(bits[p / 64], p % 64), firstone);
    firstone' := step.1;
    d', cur', b', j' := d, cur, b, j;
    if step.0 {
      cur', b', j' := FillMark(units, spill, inv, pos, n, g, c, p, d, cur, b, j);
      d' := d + 1;
    }
  }

  /** Before the scan: the inventory unflagged, the subinventory and the spill zeroed. */
  lemma FillStart(bits: seq<nat>, n: nat, kind: Kind, g: Geometry, c: nat,
                  inv: seq<int>, units: seq<nat>, spill: seq<nat>)
    requires n <= 64 * |bits| && n < Top && Ok(g)
    requires c == Ones(MarksOf(kind, Prefix(bits, n)))
    requires inv == Flagged(Positions(MarksOf(kind, Prefix(bits, n))), n, g, 0)
    requires units == Zeros(Capacity(c, g))
    requires spill == Zeros(SpillSize(Positions(MarksOf(kind, Prefix(bits, n))), n, g))
    ensures FillingAt(bits, n, kind, g, c, inv, units, spill, 0, 0, false, Cursor(0, 0, 0, 0, 0, 0), 0, 0)
  {
    PositionsIncreasing(MarksOf(kind, Prefix(bits, n)));
  }

  /** After the last position every block is in place. */
  lemma FillEnd(bits: seq<nat>, n: nat, kind: Kind, g: Geometry, c: nat,
                inv: seq<int>, units: seq<nat>, spill: seq<nat>,
                d: nat, firstone: bool, cur: Cursor, b: nat, j: nat)
    requires 0 < c && FillingAt(bits, n, kind, g, c, inv, units, spill, n, d, firstone, cur, b, j)
    ensures Filled(Positions(MarksOf(kind, Prefix(bits, n))), n, g, inv, units, spill)
  {
    RankAll(MarksOf(kind, Prefix(bits, n)));
    FilledAtEnd(Positions(MarksOf(kind, Prefix(bits, n))), n, g, inv, units, spill, cur, b, j);
  }

  /**
   * The third scan: every mark of the first n bits, in order, opens or
   * continues its block and stores what the block keeps of it, starting
   * from the complete inventory and zeroed subinventory and spill.
   */
  method FillPass(bits: seq<nat>, n: nat, kind: Kind, g: Geometry, c: nat,
                  inv: array<int>, units: array<nat>, spill: array<nat>)
    requires n <= 64 * |bits| && n < Top && Ok(g) && units != spill
    requires c == Ones(MarksOf(kind, Prefix(bits, n))) && 0 < c
    requires inv[..] == Flagged(Positions(MarksOf(kind, Prefix(bits, n))), n, g, 0)
    requires units[..] == Zeros(Capacity(c, g))
    requires spill[..] == Zeros(SpillSize(Positions(MarksOf(kind, Prefix(bits, n))), n, g))
    modifies inv, units, spill
    ensures Filled(Positions(MarksOf(kind, Prefix(bits, n))), n, g, inv[..], units[..], spill[..])
  {
    FillStart(bits, n, kind, g, c, inv[..], units[..], spill[..]);
    var p, d, firstone := 0, 0, false;
    var cur := Cursor(0, 0, 0, 0, 0, 0);
    ghost var b, j := 0, 0;
    while p < n
      invariant FillingAt(bits, n, kind, g, c, inv[..], units[..], spill[..], p, d, firstone, cur, b, j)
    {
      d, firstone, cur, b, j := FillStep(bits, n, kind, g, c, inv, units, spill, p, d, firstone, cur, b, j);
      p := p + 1;
    }
    FillEnd(bits, n, kind, g, c, inv[..], units[..], spill[..], d, firstone, cur, b, j);
  }
}
