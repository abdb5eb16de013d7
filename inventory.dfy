/**
 * The sampled select index shared by `simple_select`, `simple_select11` and
 * `simple_select_zero_half`.  Each of them scans a bit vector for "marks"
 * (set bits, clear bits, or the second bit of each non-overlapping pair of
 * set bits), records every 2^L-th mark in an inventory, and for each
 * inventory block either 16-bit offsets of every 2^L16-th mark (a short
 * block, spanning fewer than 2^16 positions) or exact information about the
 * marks of a long block.  The subinventory is a `uint64_t` array read both
 * as words and, through a `uint16_t *`, as little-endian 16-bit units; it is
 * modelled as its 16-bit units, word w being units 4w .. 4w + 3.
 */
module Inventories {
  import opened Bits
  import opened Streams
  import opened Broadword
  import EliasFano

  function Min(a: int, b: int): int { if a < b then a else b }
  function Max(a: int, b: int): int { if a < b then b else a }

  // ---------------------------------------------------------------------
  // Marks
  // ---------------------------------------------------------------------

  /** Which positions an index selects. */
  datatype Kind = SetBits | ClearBits | DoubleOnes

  /**
   * The `firstone` flag before position p: a set bit opens a pair when none
   * is open and closes it otherwise; a clear bit forgets an open pair.
   */
  function Paired(s: seq<bool>, p: nat): bool
    requires p <= |s|
  {
    if p == 0 then false else s[p - 1] && !Paired(s, p - 1)
  }

  /** The mark stream: position p is a mark of the index of this kind. */
  function MarksOf(kind: Kind, s: seq<bool>): (r: seq<bool>)
    ensures |r| == |s|
  {
    seq(|s|, p requires 0 <= p < |s| =>
      match kind
      case SetBits => s[p]
      case ClearBits => !s[p]
      case DoubleOnes => s[p] && Paired(s, p))
  }

  /** One step of a scan: whether the bit is a mark, and the new `firstone`. */
  function NextMark(kind: Kind, bit: bool, firstone: bool): (bool, bool)
  {
    match kind
    case SetBits => (bit, firstone)
    case ClearBits => (!bit, firstone)
    case DoubleOnes =>
      if !bit then (false, false)
      else if firstone then (true, false)
      else (false, true)
  }

  /** The scan step agrees with the mark stream and keeps `firstone` in step. */
  lemma NextMarkIs(kind: Kind, s: seq<bool>, p: nat)
    requires p < |s|
    ensures NextMark(kind, s[p], Paired(s, p)).0 == MarksOf(kind, s)[p]
    ensures kind == DoubleOnes ==> NextMark(kind, s[p], Paired(s, p)).1 == Paired(s, p + 1)
  {
  }

  /** Right after a double-one no pair is open. */
  lemma PairClosed(s: seq<bool>, p: nat)
    requires p < |s| && MarksOf(DoubleOnes, s)[p]
    ensures !Paired(s, p + 1)
  {
  }

  /** The `firstone` flag before p depends only on the bits before p. */
  lemma {:induction false} PairedPrefix(s: seq<bool>, n: nat, p: nat)
    requires p <= n <= |s|
    ensures Paired(s[..n], p) == Paired(s, p)
  {
    if p > 0 {
      PairedPrefix(s, n, p - 1);
    }
  }

  /** The stream of the first n bits of a word array. */
  function Prefix(bits: seq<nat>, n: nat): (s: seq<bool>)
    requires n <= 64 * |bits|
    ensures |s| == n
  {
    WordStream(bits)[..n]
  }

  /**
   * One position of a scan: `NextMark` on the position's bit says whether
   * it is a mark and keeps `firstone` in step, and a mark found after d
   * others is mark d.
   */
  lemma ScanStep(bits: seq<nat>, n: nat, kind: Kind, p: nat, d: nat, firstone: bool)
    requires n <= 64 * |bits| && p < n
    requires d == Rank(MarksOf(kind, Prefix(bits, n)), p)
    requires kind == DoubleOnes ==> firstone == Paired(Prefix(bits, n), p)
    ensures NextMark(kind, Bit(bits[p / 64], p % 64), firstone).0
            ==> d < Ones(MarksOf(kind, Prefix(bits, n))) && Positions(MarksOf(kind, Prefix(bits, n)))[d] == p
    ensures Rank(MarksOf(kind, Prefix(bits, n)), p + 1)
            == if NextMark(kind, Bit(bits[p / 64], p % 64), firstone).0 then d + 1 else d
    ensures kind == DoubleOnes ==> NextMark(kind, Bit(bits[p / 64], p % 64), firstone).1 == Paired(Prefix(bits, n), p + 1)
  {
    var s := Prefix(bits, n);
    var m := MarksOf(kind, s);
    NextMarkIs(kind, s, p);
    assert s[p] == Bit(bits[p / 64], p % 64);
    RankStep(m, p);
    if m[p] {
      SelectUnique(m, d, p);
    }
  }

  /** Where a scan stands after its first p bits: d marks seen, and the pairing flag. */
  ghost predicate Scanned(bits: seq<nat>, n: nat, kind: Kind, p: nat, d: nat, firstone: bool)
    requires n <= 64 * |bits| && p <= n
  {
    d == Rank(MarksOf(kind, Prefix(bits, n)), p) && (kind == DoubleOnes ==> firstone == Paired(Prefix(bits, n), p))
  }

  /** One bit more of a scan: the mark at p, when there is one, is mark d. */
  lemma ScanMark(bits: seq<nat>, n: nat, kind: Kind, p: nat, d: nat, firstone: bool)
    requires n <= 64 * |bits| && p < n && Scanned(bits, n, kind, p, d, firstone)
    requires NextMark(kind, Bit(bits[p / 64], p % 64), firstone).0
    ensures d < Ones(MarksOf(kind, Prefix(bits, n))) && Positions(MarksOf(kind, Prefix(bits, n)))[d] == p
  {
    ScanStep(bits, n, kind, p, d, firstone);
  }

  /** After one bit more, the scan has counted the mark at p, if any, and updated its pairing flag. */
  lemma ScanAdvance(bits: seq<nat>, n: nat, kind: Kind, p: nat, d: nat, firstone: bool, d': nat, firstone': bool)
    requires n <= 64 * |bits| && p < n && Scanned(bits, n, kind, p, d, firstone)
    requires d' == if NextMark(kind, Bit(bits[p / 64], p % 64), firstone).0 then d + 1 else d
    requires firstone' == NextMark(kind, Bit(bits[p / 64], p % 64), firstone).1
    ensures Scanned(bits, n, kind, p + 1, d', firstone')
  {
    ScanStep(bits, n, kind, p, d, firstone);
  }

  // ---------------------------------------------------------------------
  // Geometry
  // ---------------------------------------------------------------------

  /**
   * The sampling parameters: 2^log2PerInventory marks per inventory entry,
   * 2^log2Longwords subinventory words per entry, a 64-bit sample every
   * 2^log2PerSub64 marks and a 16-bit sample every 2^log2PerSub16 marks.
   * A long block either spills every position to `exact_spill` (spills) or
   * keeps 64-bit offsets in its subinventory words.
   */
  datatype Geometry = Geometry(log2PerInventory: nat, log2Longwords: nat,
                               log2PerSub64: nat, log2PerSub16: nat, spills: bool)

  /**
   * The geometry `simple_select` and `simple_select11` derive from
   * log2 ones per inventory: min(cap, max(0, L - 2)) longwords, and the
   * 64-bit and 16-bit sample rates that share a block between them.
   */
  function Derived(l: nat, cap: nat): (g: Geometry)
    ensures g.log2PerInventory == l && g.spills
  {
    var lws := Min(cap, Max(0, l - 2));
    var l64 := Max(0, l - lws);
    Geometry(l, lws, l64, Max(0, l64 - 2), true)
  }

  /**
   * A geometry the subinventory layout works for: at least two marks per
   * 64-bit sample, and a full block's 16-bit samples (at least four) fill its
   * subinventory words exactly.
   */
  predicate Ok(g: Geometry)
  {
    1 <= g.log2PerSub64 && g.log2Longwords + g.log2PerSub64 == g.log2PerInventory
    && g.log2PerSub16 == Max(0, g.log2PerSub64 - 2)
    && Max(4, Pow2(g.log2PerInventory - g.log2PerSub16)) == Pow2(g.log2Longwords + 2)
  }

  /** Every derived geometry with at least two ones per inventory entry works. */
  lemma DerivedOk(l: nat, cap: nat)
    requires l >= 1
    ensures Ok(Derived(l, cap))
  {
    var g := Derived(l, cap);
    assert Pow2(2) == 4;
    if l <= 2 {
      assert g.log2PerSub16 == 0 && g.log2Longwords == 0;
      if l == 1 { assert Pow2(1) == 2; }
    } else if l - 2 <= cap {
      assert g.log2PerSub16 == 0 && g.log2Longwords + 2 == l;
      Pow2Le(2, l);
    } else {
      assert g.log2PerInventory - g.log2PerSub16 == g.log2Longwords + 2;
      Pow2Le(2, g.log2Longwords + 2);
    }
  }

  /** No geometry that works stores long-block positions directly (`ones_per_sub64 == 1`). */
  lemma SubSamplesShared(g: Geometry)
    requires Ok(g)
    ensures Pow2(g.log2PerSub64) > 1 && g.log2PerSub16 <= g.log2PerSub64 <= g.log2PerInventory
  {
    Pow2Le(1, g.log2PerSub64);
  }

  // ---------------------------------------------------------------------
  // Block arithmetic
  // ---------------------------------------------------------------------

  /** `x << k` on unbounded numbers, doubling k times. */
  function Scale(x: nat, k: nat): nat
  {
    if k == 0 then x else 2 * Scale(x, k - 1)
  }

  lemma {:induction false} ScaleIs(x: nat, k: nat)
    ensures Scale(x, k) == x * Pow2(k)
  {
    if k > 0 {
      ScaleIs(x, k - 1);
    }
  }

  lemma {:induction false} ScaleMono(a: nat, b: nat, k: nat)
    requires a <= b
    ensures Scale(a, k) <= Scale(b, k)
  {
    if k > 0 {
      ScaleMono(a, b, k - 1);
    }
  }

  /** The next block starts 2^k further on. */
  lemma ScaleNext(x: nat, k: nat)
    ensures Scale(x + 1, k) == Scale(x, k) + Pow2(k)
  {
    ScaleIs(x, k);
    ScaleIs(x + 1, k);
  }

  lemma DivAtLeast(x: nat, d: nat, q: nat)
    requires d > 0
    ensures (x / d >= q) == (x >= q * d)
  {
    var k := x / d;
    assert x == k * d + x % d;
    if k >= q {
      MulLe(q, k, d);
    } else {
      MulLe(k + 1, q, d);
    }
  }

  /** A number is its block number shifted back plus its place in the block. */
  lemma Decompose(i: nat, k: nat)
    ensures i == Scale(ShiftRight(i, k), k) + LowBits(i, k)
  {
    SplitAt(i, k);
  }

  /** Block number and place of `(b << k) + j` for j < 2^k. */
  lemma Compose(b: nat, k: nat, j: nat)
    requires j < Pow2(k)
    ensures ShiftRight(Scale(b, k) + j, k) == b && LowBits(Scale(b, k) + j, k) == j
  {
    ShiftRightIsDiv(Scale(b, k) + j, k);
    ScaleIs(b, k);
    DivUnique(Scale(b, k) + j, Pow2(k), b, j);
  }

  /** `inventory_size`: the number of blocks of 2^l marks among c marks. */
  function NumBlocks(c: nat, l: nat): nat
  {
    ShiftRight(c + Pow2(l) - 1, l)
  }

  lemma BlocksIs(c: nat, l: nat)
    ensures NumBlocks(c, l) == (c + Pow2(l) - 1) / Pow2(l)
  {
    ShiftRightIsDiv(c + Pow2(l) - 1, l);
  }

  lemma NoBlocks(l: nat)
    ensures NumBlocks(0, l) == 0
  {
    ScaleIs(0, l);
    Compose(0, l, Pow2(l) - 1);
  }

  /** Block b exists exactly when its first mark exists. */
  lemma BlockExists(c: nat, l: nat, b: nat)
    ensures (b < NumBlocks(c, l)) == (Scale(b, l) < c)
  {
    var n := NumBlocks(c, l);
    Decompose(c + Pow2(l) - 1, l);
    if b < n {
      ScaleNext(b, l);
      ScaleMono(b + 1, n, l);
    } else {
      ScaleMono(n, b, l);
    }
  }

  /**
   * Counting marks one at a time, a new block starts at each multiple of
   * 2^l: for d at place r of block q, d marks fill q blocks or start block q,
   * and d + 1 marks reach block q.
   */
  lemma BlocksAt(d: nat, l: nat, q: nat, r: nat)
    requires r < Pow2(l) && d == Scale(q, l) + r
    ensures NumBlocks(d, l) == (if r == 0 then q else q + 1)
    ensures NumBlocks(d + 1, l) == q + 1
  {
    var P := Pow2(l);
    ScaleNext(q, l);
    if r == 0 {
      Compose(q, l, P - 1);
      assert d + P - 1 == Scale(q, l) + (P - 1);
      Compose(q + 1, l, 0);
      assert d + 1 + P - 1 == Scale(q + 1, l) + 0;
    } else {
      Compose(q + 1, l, r - 1);
      assert d + P - 1 == Scale(q + 1, l) + (r - 1);
      Compose(q + 1, l, r);
      assert d + 1 + P - 1 == Scale(q + 1, l) + r;
    }
  }

  /** At a block's first mark d: the block exists, starts at d, and is the next block counted. */
  lemma AtBlockStart(c: nat, l: nat, d: nat)
    requires d < c && LowBits(d, l) == 0
    ensures ShiftRight(d, l) < NumBlocks(c, l) && Scale(ShiftRight(d, l), l) == d
    ensures NumBlocks(d, l) == ShiftRight(d, l) && NumBlocks(d + 1, l) == ShiftRight(d, l) + 1
  {
    Decompose(d, l);
    BlocksAt(d, l, ShiftRight(d, l), 0);
    BlockOfBelow(c, l, d);
  }

  /** The block of a mark below c exists. */
  lemma BlockOfBelow(c: nat, l: nat, i: nat)
    requires i < c
    ensures ShiftRight(i, l) < NumBlocks(c, l) && Scale(ShiftRight(i, l), l) <= i
  {
    Decompose(i, l);
    BlockExists(c, l, ShiftRight(i, l));
  }

  // ---------------------------------------------------------------------
  // The inventory
  // ---------------------------------------------------------------------

  /**
   * Inventory entry b before flagging, given the positions `pos` of the
   * marks in order and the stream length n: the position of block b's
   * first mark, or n past the last block.
   */
  function Sample(pos: seq<nat>, n: nat, l: nat, b: nat): nat
    requires b <= NumBlocks(|pos|, l)
  {
    BlockExists(|pos|, l, b);
    if b < NumBlocks(|pos|, l) then pos[Scale(b, l)] else n
  }

  /** Entries for the blocks whose first mark lies below d have been written. */
  ghost predicate InventoryUpTo(inv: seq<int>, pos: seq<nat>, n: nat, l: nat, d: nat)
  {
    |inv| == NumBlocks(|pos|, l) + 1 &&
    forall b :: 0 <= b < NumBlocks(|pos|, l) && Scale(b, l) < d ==> inv[b] == Sample(pos, n, l, b)
  }

  /** The first phase's complete inventory, with the sentinel `inventory[inventory_size] == num_bits`. */
  ghost predicate InventoryBuilt(inv: seq<int>, pos: seq<nat>, n: nat, l: nat)
  {
    |inv| == NumBlocks(|pos|, l) + 1 &&
    forall b :: 0 <= b <= NumBlocks(|pos|, l) ==> inv[b] == Sample(pos, n, l, b)
  }

  /** First phase, one mark: record mark d, at p, when it starts a block. */
  method InventoryStep(inv: array<int>, ghost pos: seq<nat>, n: nat, l: nat, p: nat, d: nat)
    requires d < |pos| && pos[d] == p
    requires InventoryUpTo(inv[..], pos, n, l, d)
    modifies inv
    ensures InventoryUpTo(inv[..], pos, n, l, d + 1)
  {
    Decompose(d, l);
    if LowBits(d, l) == 0 {
      BlockOfBelow(|pos|, l, d);
      inv[ShiftRight(d, l)] := p;
    }
    forall b | 0 <= b < NumBlocks(|pos|, l) && Scale(b, l) < d + 1
      ensures inv[b] == Sample(pos, n, l, b)
    {
      if Scale(b, l) == d {
        Compose(b, l, 0);
      }
    }
  }

  /**
   * First phase: scan the first n bits, recording the position of every
   * 2^l-th mark, then the sentinel n.
   */
  method InventoryPass(bits: seq<nat>, n: nat, kind: Kind, l: nat, size: nat) returns (inv: array<int>)
    requires n <= 64 * |bits|
    requires size == NumBlocks(Ones(MarksOf(kind, Prefix(bits, n))), l)
    ensures fresh(inv)
    ensures InventoryBuilt(inv[..], Positions(MarksOf(kind, Prefix(bits, n))), n, l)
  {
    ghost var s := Prefix(bits, n);
    ghost var m := MarksOf(kind, s);
    ghost var pos := Positions(m);
    inv := new int[size + 1];
    var p := 0;
    var d := 0;
    var firstone := false;
    while p < n
      invariant p <= n && Scanned(bits, n, kind, p, d, firstone)
      invariant InventoryUpTo(inv[..], pos, n, l, d)
    {
      ghost var d0, firstone0 := d, firstone;
      var step := NextMark(kind, Bit(bits[p / 64], p % 64), firstone);
      firstone := step.1;
      if step.0 {
        ScanMark(bits, n, kind, p, d, firstone0);
        InventoryStep(inv, pos, n, l, p, d);
        d := d + 1;
      }
      ScanAdvance(bits, n, kind, p, d0, firstone0, d, firstone);
      p := p + 1;
    }
    RankAll(m);
    inv[size] := n;
    forall b | 0 <= b <= size
      ensures inv[b] == Sample(pos, n, l, b)
    {
      if b < size { BlockExists(|pos|, l, b); }
    }
  }

  /** The block counts only grow with the number of marks. */
  lemma BlocksMono(d: nat, c: nat, l: nat)
    requires d <= c
    ensures NumBlocks(d, l) <= NumBlocks(c, l)
  {
    var q := NumBlocks(d, l);
    BlocksIs(d, l);
    BlocksIs(c, l);
    DivAtLeast(d + Pow2(l) - 1, Pow2(l), q);
    DivAtLeast(c + Pow2(l) - 1, Pow2(l), q);
  }

  /** Inventory samples are strictly increasing, ending with n. */
  lemma SampleLess(pos: seq<nat>, n: nat, l: nat, b: nat)
    requires Increasing(pos) && Below(pos, n) && b < NumBlocks(|pos|, l)
    ensures Sample(pos, n, l, b) < Sample(pos, n, l, b + 1)
  {
    BlockExists(|pos|, l, b);
    BlockExists(|pos|, l, b + 1);
    ScaleNext(b, l);
  }

  // ---------------------------------------------------------------------
  // Blocks and the sizing pass
  // ---------------------------------------------------------------------

  /** `std::min( c - d, ones_per_inventory )` at the block's first mark: the marks of block b. */
  function BlockOnes(c: nat, l: nat, b: nat): (r: nat)
    requires b < NumBlocks(c, l)
    ensures 1 <= r <= Pow2(l) && Scale(b, l) + r <= c
  {
    BlockExists(c, l, b);
    Min(c - Scale(b, l), Pow2(l))
  }

  /** A block is long when its marks span at least 2^16 positions. */
  predicate IsLong(pos: seq<nat>, n: nat, l: nat, b: nat)
    requires b < NumBlocks(|pos|, l)
  {
    Sample(pos, n, l, b + 1) - Sample(pos, n, l, b) >= 0x1_0000
  }

  /** The 16-bit units the sizing pass reserves for a block: at least four, else one per 16-bit sample. */
  function Units(c: nat, g: Geometry, b: nat): nat
    requires b < NumBlocks(c, g.log2PerInventory)
  {
    var k := g.log2PerSub16;
    Max(4, ShiftRight(BlockOnes(c, g.log2PerInventory, b) + Pow2(k) - 1, k))
  }

  /** `diff16` once blocks 0 .. b - 1 have been sized. */
  function UnitsBefore(c: nat, g: Geometry, b: nat): nat
    requires b <= NumBlocks(c, g.log2PerInventory)
  {
    if b == 0 then 0 else UnitsBefore(c, g, b - 1) + Units(c, g, b - 1)
  }

  /** `spilled` once blocks 0 .. b - 1 have been sized: the marks of the long ones. */
  function SpilledBefore(pos: seq<nat>, n: nat, g: Geometry, b: nat): nat
    requires b <= NumBlocks(|pos|, g.log2PerInventory)
  {
    if b == 0 then 0
    else SpilledBefore(pos, n, g, b - 1)
         + (if IsLong(pos, n, g.log2PerInventory, b - 1) then BlockOnes(|pos|, g.log2PerInventory, b - 1) else 0)
  }

  /** Sizing block b adds its units to `diff16`. */
  lemma UnitsStep(c: nat, g: Geometry, b: nat, ones: nat)
    requires b < NumBlocks(c, g.log2PerInventory)
    requires ones == Min(c - Scale(b, g.log2PerInventory), Pow2(g.log2PerInventory))
    ensures UnitsBefore(c, g, b + 1)
            == UnitsBefore(c, g, b) + Max(4, ShiftRight(ones + Pow2(g.log2PerSub16) - 1, g.log2PerSub16))
  {
  }

  /** Sizing block b adds its marks to `spilled` when it is long. */
  lemma SpilledStep(pos: seq<nat>, n: nat, g: Geometry, b: nat, ones: nat, span: int)
    requires b < NumBlocks(|pos|, g.log2PerInventory)
    requires ones == Min(|pos| - Scale(b, g.log2PerInventory), Pow2(g.log2PerInventory))
    requires span == Sample(pos, n, g.log2PerInventory, b + 1) - Sample(pos, n, g.log2PerInventory, b)
    ensures SpilledBefore(pos, n, g, b + 1) == SpilledBefore(pos, n, g, b) + (if span >= 0x1_0000 then ones else 0)
  {
  }

  /** Away from a block's first mark, the block count does not change. */
  lemma SizedInside(c: nat, l: nat, d: nat)
    requires d < c && LowBits(d, l) != 0
    ensures NumBlocks(d + 1, l) == NumBlocks(d, l) <= NumBlocks(c, l)
  {
    Decompose(d, l);
    BlocksAt(d, l, ShiftRight(d, l), LowBits(d, l));
    BlocksMono(d + 1, c, l);
  }

  /**
   * `( d & ones_per_inventory_mask ) == 0` and `d >> log2_ones_per_inventory`:
   * whether mark d opens a block, and which.
   */
  method BlockStart(c: nat, l: nat, d: nat) returns (first: bool, index: nat)
    requires d < c
    ensures first == (NumBlocks(d + 1, l) == NumBlocks(d, l) + 1)
    ensures !first ==> NumBlocks(d + 1, l) == NumBlocks(d, l) <= NumBlocks(c, l)
    ensures first ==> index == NumBlocks(d, l) < NumBlocks(c, l) && Scale(index, l) == d
  {
    first := LowBits(d, l) == 0;
    index := ShiftRight(d, l);
    if first {
      AtBlockStart(c, l, d);
    } else {
      SizedInside(c, l, d);
    }
  }

  /** Sizing pass, one mark: at a block's first mark, add its units and, if long, its spill. */
  method SizeStep(inv: array<int>, ghost pos: seq<nat>, ghost n: nat, g: Geometry, c: nat, d: nat,
                  diff16: nat, spilled: nat)
    returns (diff16': nat, spilled': nat)
    requires Ok(g) && c == |pos| && d < c
    requires InventoryBuilt(inv[..], pos, n, g.log2PerInventory)
    requires NumBlocks(d, g.log2PerInventory) <= NumBlocks(c, g.log2PerInventory)
    requires diff16 == UnitsBefore(c, g, NumBlocks(d, g.log2PerInventory))
    requires spilled == SpilledBefore(pos, n, g, NumBlocks(d, g.log2PerInventory))
    ensures NumBlocks(d + 1, g.log2PerInventory) <= NumBlocks(c, g.log2PerInventory)
    ensures diff16' == UnitsBefore(c, g, NumBlocks(d + 1, g.log2PerInventory))
    ensures spilled' == SpilledBefore(pos, n, g, NumBlocks(d + 1, g.log2PerInventory))
  {
    var l := g.log2PerInventory;
    diff16', spilled' := diff16, spilled;
    var first, index := BlockStart(c, l, d);
    if first {
      var start := inv[index];
      var span := inv[index + 1] - start;
      assert start == Sample(pos, n, l, index) && inv[index + 1] == Sample(pos, n, l, index + 1);
      var ones := Min(c - d, Pow2(l));
      UnitsStep(c, g, index, ones);
      SpilledStep(pos, n, g, index, ones, span);
      diff16' := diff16 + Max(4, ShiftRight(ones + Pow2(g.log2PerSub16) - 1, g.log2PerSub16));
      if span >= 0x1_0000 {
        SubSamplesShared(g);
        if Pow2(g.log2PerSub64) > 1 {
          spilled' := spilled + ones;
        }
      }
    }
  }

  /**
   * Sizing pass: scan the first n bits again, summing the 16-bit units
   * (`diff16`) and spilled positions (`spilled`) block by block.
   */
  method SizingPass(bits: seq<nat>, n: nat, kind: Kind, g: Geometry, inv: array<int>, c: nat)
    returns (diff16: nat, spilled: nat)
    requires n <= 64 * |bits| && Ok(g)
    requires c == Ones(MarksOf(kind, Prefix(bits, n)))
    requires InventoryBuilt(inv[..], Positions(MarksOf(kind, Prefix(bits, n))), n, g.log2PerInventory)
    ensures diff16 == UnitsBefore(c, g, NumBlocks(c, g.log2PerInventory))
    ensures spilled == SpilledBefore(Positions(MarksOf(kind, Prefix(bits, n))), n, g, NumBlocks(c, g.log2PerInventory))
  {
    ghost var s := Prefix(bits, n);
    ghost var m := MarksOf(kind, s);
    ghost var pos := Positions(m);
    var p := 0;
    var d := 0;
    var firstone := false;
    diff16, spilled := 0, 0;
    BlocksMono(0, c, g.log2PerInventory);
    NoBlocks(g.log2PerInventory);
    while p < n
      invariant p <= n && d == Rank(m, p)
      invariant kind == DoubleOnes ==> firstone == Paired(s, p)
      invariant NumBlocks(d, g.log2PerInventory) <= NumBlocks(c, g.log2PerInventory)
      invariant diff16 == UnitsBefore(c, g, NumBlocks(d, g.log2PerInventory))
      invariant spilled == SpilledBefore(pos, n, g, NumBlocks(d, g.log2PerInventory))
    {
      ScanStep(bits, n, kind, p, d, firstone);
      var step := NextMark(kind, Bit(bits[p / 64], p % 64), firstone);
      firstone := step.1;
      if step.0 {
        diff16, spilled := SizeStep(inv, pos, n, g, c, d, diff16, spilled);
        d := d + 1;
      }
      p := p + 1;
    }
    RankAll(m);
  }
}
