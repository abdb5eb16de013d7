/**
 * `SArray.h`: the Okanohara–Sadakane sparse array.  A `DArray` answers
 * select queries over a `dynamic_bitset` from tables built per block of
 * 1024 ones; an `SArray` splits every one's position into high bits, kept
 * in unary in a bitset indexed by a `DArray`, and low bits, kept in a
 * `CompactStore`.
 */
module SArrays {
  import opened Bits
  import opened Streams
  import opened Broadword
  import opened CompactStores

  datatype Option<T> = None | Some(value: T)

  // ---------------------------------------------------------------------
  // SelectTable
  // ---------------------------------------------------------------------

  /** Slot `(i << 8) + x` of the select table. */
  function Slot(i: nat, x: nat): nat
  {
    256 * i + x
  }

  /** The entry for byte x and rank i: i when x has a one at its i-th position from the top, else -1. */
  function Entry(x: nat, i: nat): int
    requires i < 8
  {
    if FieldBits(x, 8)[i] then i else -1
  }

  /** `SelectTable`: 2048 entries, one per (position from the top, byte) pair. */
  class SelectTable {
    const table: array<int>

    /** `SelectTable()` */
    constructor ()
      ensures fresh(table) && table.Length == 2048
      ensures forall i, x | 0 <= i < 8 && 0 <= x < 256 :: table[Slot(i, x)] == Entry(x, i)
    {
      var t := new int[2048];
      var x := 0;
      while x < 256
        invariant 0 <= x <= 256
        invariant forall i, y | 0 <= i < 8 && 0 <= y < x :: t[Slot(i, y)] == Entry(y, i)
      {
        FillColumn(t, x);
        x := x + 1;
      }
      table := t;
    }
  }

  /** The two inner loops of `SelectTable()` for byte x: clear its eight entries, then enter its ones. */
  method FillColumn(t: array<int>, x: nat)
    requires t.Length == 2048 && x < 256
    modifies t
    ensures forall i | 0 <= i < 8 :: t[Slot(i, x)] == Entry(x, i)
    ensures forall i, y | 0 <= i < 8 && 0 <= y < 256 && y != x :: t[Slot(i, y)] == old(t[Slot(i, y)])
  {
    ClearColumn(t, x);
    MarkColumn(t, x);
  }

  /** `for (r = 0; r < 8; r++) select_tbl_array[(r << 8) + x] = -1` */
  method ClearColumn(t: array<int>, x: nat)
    requires t.Length == 2048 && x < 256
    modifies t
    ensures forall i | 0 <= i < 8 :: t[Slot(i, x)] == -1
    ensures forall i, y | 0 <= i < 8 && 0 <= y < 256 && y != x :: t[Slot(i, y)] == old(t[Slot(i, y)])
  {
    var r := 0;
    while r < 8
      invariant 0 <= r <= 8
      invariant forall i, y | 0 <= i < 8 && 0 <= y < 256 && y != x :: t[Slot(i, y)] == old(t[Slot(i, y)])
      invariant forall i | 0 <= i < r :: t[Slot(i, x)] == -1
    {
      t[Slot(r, x)] := -1;
      r := r + 1;
    }
  }

  /** `for (i = 0; i < 8; i++) if ((x >> (7 - i)) & 1) select_tbl_array[(i << 8) + x] = i` */
  method MarkColumn(t: array<int>, x: nat)
    requires t.Length == 2048 && x < 256
    requires forall i | 0 <= i < 8 :: t[Slot(i, x)] == -1
    modifies t
    ensures forall i | 0 <= i < 8 :: t[Slot(i, x)] == Entry(x, i)
    ensures forall i, y | 0 <= i < 8 && 0 <= y < 256 && y != x :: t[Slot(i, y)] == old(t[Slot(i, y)])
  {
    var i := 0;
    while i < 8
      invariant 0 <= i <= 8
      invariant forall j, y | 0 <= j < 8 && 0 <= y < 256 && y != x :: t[Slot(j, y)] == old(t[Slot(j, y)])
      invariant forall j | 0 <= j < i :: t[Slot(j, x)] == Entry(x, j)
      invariant forall j | i <= j < 8 :: t[Slot(j, x)] == -1
    {
      AndPow2(ShiftRight(x, 7 - i), 0);
      BitShiftRight(x, 7 - i, 0);
      if And(ShiftRight(x, 7 - i), Pow2(0)) != 0 {
        t[Slot(i, x)] := i;
      }
      i := i + 1;
    }
  }

  // ---------------------------------------------------------------------
  // DArray
  // ---------------------------------------------------------------------

  /** `ones_per_block` (L) and its log. */
  const OnesPerBlock: nat := 1024
  const LogOnesPerBlock: nat := 10
  /** `max_block_length` (LL): a block spanning at least this many positions is long. */
  const MaxBlockLength: nat := 0x1_0000
  /** `spacing` (LLL): a short block samples every 64th one. */
  const Spacing: nat := 64
  const LogSpacing: nat := 6
  /** `ones_per_block / spacing` */
  const SamplesPerBlock: nat := 16

  /** `total_blocks = (num_ones - 1) / ones_per_block + 1` */
  function NumBlocks(m: nat): (r: nat)
    requires m >= 1
    ensures forall b | 0 <= b < r :: OnesPerBlock * b < m
    ensures OnesPerBlock * r >= m
  {
    (m - 1) / OnesPerBlock + 1
  }

  /** Index of one j of block b. */
  function BlockOne(b: nat, j: nat): nat
  {
    OnesPerBlock * b + j
  }

  /** Index of the last one of block b among m ones. */
  function BlockLast(m: nat, b: nat): (r: nat)
    requires OnesPerBlock * b < m
    ensures OnesPerBlock * b <= r < m
  {
    if BlockOne(b, OnesPerBlock - 1) < m then BlockOne(b, OnesPerBlock - 1) else m - 1
  }

  /** Block b spans at least `max_block_length` positions (P lists the positions of the ones). */
  ghost predicate IsLong(P: seq<nat>, b: nat)
    requires OnesPerBlock * b < |P|
  {
    P[BlockLast(|P|, b)] - P[OnesPerBlock * b] >= MaxBlockLength
  }

  /** Number of long blocks before block b. */
  ghost function LongBefore(P: seq<nat>, b: nat): (r: nat)
    requires |P| >= 1 && b <= NumBlocks(|P|)
    ensures r <= b
  {
    if b == 0 then 0 else LongBefore(P, b - 1) + (if IsLong(P, b - 1) then 1 else 0)
  }

  /** Number of short blocks before block b. */
  ghost function ShortBefore(P: seq<nat>, b: nat): (r: nat)
    requires |P| >= 1 && b <= NumBlocks(|P|)
  {
    b - LongBefore(P, b)
  }

  /** Slot of one j of long block b in `s_long`. */
  ghost function LongSlot(P: seq<nat>, b: nat, j: nat): nat
    requires |P| >= 1 && b <= NumBlocks(|P|)
  {
    OnesPerBlock * LongBefore(P, b) + j
  }

  /** Slot of sample t of short block b in `s_short`. */
  ghost function ShortSlot(P: seq<nat>, b: nat, t: nat): nat
    requires |P| >= 1 && b <= NumBlocks(|P|)
  {
    SamplesPerBlock * ShortBefore(P, b) + t
  }

  /** The `pvec` entry of block b: -(first `s_long` slot + 1) for a long block, the first `s_short` slot otherwise. */
  ghost function PvecOf(P: seq<nat>, b: nat): int
    requires |P| >= 1 && b < NumBlocks(|P|)
  {
    if IsLong(P, b) then -(LongSlot(P, b, 0) + 1) else ShortSlot(P, b, 0)
  }

  /** `s_long` holds the position of every one of long block b. */
  ghost predicate LongEntries(P: seq<nat>, b: nat, sLong: seq<nat>)
    requires |P| >= 1 && b < NumBlocks(|P|)
  {
    forall j | 0 <= j < OnesPerBlock && BlockOne(b, j) < |P| ::
      LongSlot(P, b, j) < |sLong| && sLong[LongSlot(P, b, j)] == P[BlockOne(b, j)]
  }

  /** `s_short` holds the offset of every 64th one of short block b from its first one. */
  ghost predicate ShortEntries(P: seq<nat>, b: nat, sShort: seq<nat>)
    requires |P| >= 1 && b < NumBlocks(|P|)
  {
    forall t | 0 <= t < SamplesPerBlock && BlockOne(b, Spacing * t) < |P| ::
      ShortSlot(P, b, t) < |sShort| && P[BlockOne(b, 0)] + sShort[ShortSlot(P, b, t)] == P[BlockOne(b, Spacing * t)]
  }

  /** The samples of block b are in the table its kind selects. */
  ghost predicate Entries(P: seq<nat>, b: nat, sLong: seq<nat>, sShort: seq<nat>)
    requires |P| >= 1 && b < NumBlocks(|P|)
  {
    if IsLong(P, b) then LongEntries(P, b, sLong) else ShortEntries(P, b, sShort)
  }

  /** The per-block tables of the first `upto` blocks. */
  ghost predicate HeadersUpTo(P: seq<nat>, upto: nat, pvec: seq<int>, lpFirst: seq<nat>)
    requires |P| >= 1 && upto <= NumBlocks(|P|)
  {
    |pvec| == NumBlocks(|P|) + 1 && |lpFirst| == NumBlocks(|P|) + 1
    && forall b | 0 <= b < upto :: pvec[b] == PvecOf(P, b) && lpFirst[b] == P[BlockOne(b, 0)]
  }

  ghost predicate EntriesUpTo(P: seq<nat>, upto: nat, sLong: seq<nat>, sShort: seq<nat>)
    requires |P| >= 1 && upto <= NumBlocks(|P|)
  {
    forall b | 0 <= b < upto :: Entries(P, b, sLong, sShort)
  }

  /** Block b's headers and samples are in place. */
  ghost predicate BlockOk(P: seq<nat>, b: nat, pvec: seq<int>, lpFirst: seq<nat>, sLong: seq<nat>, sShort: seq<nat>)
    requires |P| >= 1 && b < NumBlocks(|P|) && b < |pvec| && b < |lpFirst|
  {
    pvec[b] == PvecOf(P, b) && lpFirst[b] == P[BlockOne(b, 0)] && Entries(P, b, sLong, sShort)
  }

  /** The first `upto` blocks are in place (stated block by block, so that it unfolds only on demand). */
  ghost predicate BlocksOk(P: seq<nat>, upto: nat, pvec: seq<int>, lpFirst: seq<nat>, sLong: seq<nat>, sShort: seq<nat>)
    requires |P| >= 1 && upto <= NumBlocks(|P|) && upto <= |pvec| && upto <= |lpFirst|
  {
    upto == 0 || (BlocksOk(P, upto - 1, pvec, lpFirst, sLong, sShort) && BlockOk(P, upto - 1, pvec, lpFirst, sLong, sShort))
  }

  lemma {:induction false} BlocksOkAt(P: seq<nat>, upto: nat, pvec: seq<int>, lpFirst: seq<nat>, sLong: seq<nat>, sShort: seq<nat>, b: nat)
    requires |P| >= 1 && upto <= NumBlocks(|P|) && upto <= |pvec| && upto <= |lpFirst|
    requires BlocksOk(P, upto, pvec, lpFirst, sLong, sShort) && b < upto
    ensures BlockOk(P, b, pvec, lpFirst, sLong, sShort)
  {
    if b < upto - 1 {
      BlocksOkAt(P, upto - 1, pvec, lpFirst, sLong, sShort, b);
    }
  }

  lemma {:induction false} BlocksOkFrom(P: seq<nat>, upto: nat, pvec: seq<int>, lpFirst: seq<nat>, sLong: seq<nat>, sShort: seq<nat>)
    requires |P| >= 1 && upto <= NumBlocks(|P|)
    requires HeadersUpTo(P, upto, pvec, lpFirst) && EntriesUpTo(P, upto, sLong, sShort)
    ensures BlocksOk(P, upto, pvec, lpFirst, sLong, sShort)
  {
    if upto > 0 {
      BlocksOkFrom(P, upto - 1, pvec, lpFirst, sLong, sShort);
      assert Entries(P, upto - 1, sLong, sShort);
    }
  }

  /** A long block before b takes its 1024 slots below those of block b. */
  lemma {:induction false} LongBeforeGrows(P: seq<nat>, b0: nat, b: nat)
    requires |P| >= 1 && b0 < b <= NumBlocks(|P|) && IsLong(P, b0)
    ensures LongBefore(P, b0) + 1 <= LongBefore(P, b)
  {
    if b0 + 1 < b {
      LongBeforeGrows(P, b0, b - 1);
    }
  }

  lemma {:induction false} ShortBeforeGrows(P: seq<nat>, b0: nat, b: nat)
    requires |P| >= 1 && b0 < b <= NumBlocks(|P|) && !IsLong(P, b0)
    ensures ShortBefore(P, b0) + 1 <= ShortBefore(P, b)
  {
    if b0 + 1 < b {
      ShortBeforeGrows(P, b0, b - 1);
    }
  }

  /** Rewriting `s_long` from the slots of block b on keeps the entries of the earlier blocks. */
  lemma LongTailWrite(P: seq<nat>, b: nat, sLong: seq<nat>, sLong': seq<nat>, sShort: seq<nat>)
    requires |P| >= 1 && b < NumBlocks(|P|)
    requires EntriesUpTo(P, b, sLong, sShort)
    requires |sLong'| == |sLong| && forall i | 0 <= i < LongSlot(P, b, 0) && i < |sLong| :: sLong'[i] == sLong[i]
    ensures EntriesUpTo(P, b, sLong', sShort)
  {
    forall b0 | 0 <= b0 < b
      ensures Entries(P, b0, sLong', sShort)
    {
      assert Entries(P, b0, sLong, sShort);
      if IsLong(P, b0) {
        LongBeforeGrows(P, b0, b);
        forall j | 0 <= j < OnesPerBlock && BlockOne(b0, j) < |P|
          ensures LongSlot(P, b0, j) < |sLong'| && sLong'[LongSlot(P, b0, j)] == P[BlockOne(b0, j)]
        {
        }
      }
    }
  }

  lemma ShortTailWrite(P: seq<nat>, b: nat, sLong: seq<nat>, sShort: seq<nat>, sShort': seq<nat>)
    requires |P| >= 1 && b < NumBlocks(|P|)
    requires EntriesUpTo(P, b, sLong, sShort)
    requires |sShort'| == |sShort| && forall i | 0 <= i < ShortSlot(P, b, 0) && i < |sShort| :: sShort'[i] == sShort[i]
    ensures EntriesUpTo(P, b, sLong, sShort')
  {
    forall b0 | 0 <= b0 < b
      ensures Entries(P, b0, sLong, sShort')
    {
      assert Entries(P, b0, sLong, sShort);
      if !IsLong(P, b0) {
        ShortBeforeGrows(P, b0, b);
        forall t | 0 <= t < SamplesPerBlock && BlockOne(b0, Spacing * t) < |P|
          ensures ShortSlot(P, b0, t) < |sShort'|
          ensures P[BlockOne(b0, 0)] + sShort'[ShortSlot(P, b0, t)] == P[BlockOne(b0, Spacing * t)]
        {
        }
      }
    }
  }

  /** Entering the headers of block b extends the headers written so far. */
  lemma HeadersStep(P: seq<nat>, b: nat, pvec: seq<int>, lpFirst: seq<nat>)
    requires |P| >= 1 && b < NumBlocks(|P|) && HeadersUpTo(P, b, pvec, lpFirst)
    ensures HeadersUpTo(P, b + 1, pvec[b := PvecOf(P, b)], lpFirst[b := P[BlockOne(b, 0)]])
  {
  }

  lemma EntriesStep(P: seq<nat>, b: nat, sLong: seq<nat>, sShort: seq<nat>)
    requires |P| >= 1 && b < NumBlocks(|P|)
    requires EntriesUpTo(P, b, sLong, sShort) && Entries(P, b, sLong, sShort)
    ensures EntriesUpTo(P, b + 1, sLong, sShort)
  {
  }

  /** The inner loop of a long block in the second pass: copy every one's position. */
  method FillLong(P: seq<nat>, b: nat, longCount: nat, sLong: seq<nat>) returns (sLong': seq<nat>)
    requires |P| >= 1 && b < NumBlocks(|P|) && IsLong(P, b) && longCount == LongBefore(P, b)
    requires LongSlot(P, b, OnesPerBlock) <= |sLong|
    ensures |sLong'| == |sLong| && LongEntries(P, b, sLong')
    ensures forall i | 0 <= i < LongSlot(P, b, 0) :: sLong'[i] == sLong[i]
  {
    var base := OnesPerBlock * b;
    var slot := OnesPerBlock * longCount;
    sLong' := sLong;
    var j := 0;
    while j < OnesPerBlock
      invariant 0 <= j <= OnesPerBlock
      invariant |sLong'| == |sLong|
      invariant forall i | 0 <= i < slot :: sLong'[i] == sLong[i]
      invariant forall j' | 0 <= j' < j && BlockOne(b, j') < |P| :: sLong'[LongSlot(P, b, j')] == P[BlockOne(b, j')]
    {
      if base + j >= |P| {
        break;
      }
      sLong' := sLong'[slot + j := P[base + j]];
      j := j + 1;
    }
  }

  /** The inner loop of a short block in the second pass: every 64th one's offset, cut to 16 bits. */
  method FillShort(P: seq<nat>, b: nat, shortCount: nat, sShort: seq<nat>) returns (sShort': seq<nat>)
    requires |P| >= 1 && b < NumBlocks(|P|) && !IsLong(P, b) && Increasing(P) && shortCount == ShortBefore(P, b)
    requires ShortSlot(P, b, SamplesPerBlock) <= |sShort|
    ensures |sShort'| == |sShort| && ShortEntries(P, b, sShort')
    ensures forall i | 0 <= i < ShortSlot(P, b, 0) :: sShort'[i] == sShort[i]
  {
    var base := OnesPerBlock * b;
    var first := P[base];
    var last := BlockLast(|P|, b);
    var slot := SamplesPerBlock * shortCount;
    sShort' := sShort;
    var t := 0;
    while t < SamplesPerBlock
      invariant 0 <= t <= SamplesPerBlock
      invariant |sShort'| == |sShort|
      invariant forall i | 0 <= i < slot :: sShort'[i] == sShort[i]
      invariant forall t' | 0 <= t' < t && BlockOne(b, Spacing * t') < |P| ::
        P[BlockOne(b, 0)] + sShort'[ShortSlot(P, b, t')] == P[BlockOne(b, Spacing * t')]
    {
      if base + Spacing * t >= |P| {
        break;
      }
      var q := base + Spacing * t;
      assert base <= q <= last;
      assert P[base] <= P[q] <= P[last];
      // stored as `uint16_t`: the offset of a short block is below 2^16
      sShort' := sShort'[slot + t := (P[q] - first) % 0x1_0000];
      t := t + 1;
    }
  }

  /**
   * One pass of the `r` loop of `DArray(bit_array)`: classify every block,
   * write its `pvec` and first-one entries, and in the second pass (`fill`)
   * copy its samples into `s_long` or `s_short`.
   */
  method BlockPass(P: seq<nat>, fill: bool, pvec0: seq<int>, lpFirst0: seq<nat>, sLong0: seq<nat>, sShort0: seq<nat>)
    returns (pvec: seq<int>, lpFirst: seq<nat>, sLong: seq<nat>, sShort: seq<nat>, longCount: nat, shortCount: nat)
    requires |P| >= 1 && Increasing(P)
    requires |pvec0| == NumBlocks(|P|) + 1 && |lpFirst0| == NumBlocks(|P|) + 1
    requires fill ==> LongSlot(P, NumBlocks(|P|), 0) < |sLong0| && ShortSlot(P, NumBlocks(|P|), 0) < |sShort0|
    ensures longCount == LongBefore(P, NumBlocks(|P|)) && shortCount == ShortBefore(P, NumBlocks(|P|))
    ensures HeadersUpTo(P, NumBlocks(|P|), pvec, lpFirst)
    ensures fill ==> EntriesUpTo(P, NumBlocks(|P|), sLong, sShort)
    ensures !fill ==> sLong == sLong0 && sShort == sShort0
  {
    var total := NumBlocks(|P|);
    pvec, lpFirst, sLong, sShort := pvec0, lpFirst0, sLong0, sShort0;
    longCount, shortCount := 0, 0;
    var b := 0;
    while b < total
      invariant 0 <= b <= total
      invariant longCount == LongBefore(P, b) && shortCount == ShortBefore(P, b)
      invariant HeadersUpTo(P, b, pvec, lpFirst)
      invariant |sLong| == |sLong0| && |sShort| == |sShort0|
      invariant fill ==> EntriesUpTo(P, b, sLong, sShort)
      invariant !fill ==> sLong == sLong0 && sShort == sShort0
    {
      pvec, lpFirst, sLong, sShort, longCount, shortCount :=
        PassBlock(P, fill, b, pvec, lpFirst, sLong, sShort, longCount, shortCount);
      b := b + 1;
    }
  }

  /** One iteration of the block loop of a pass: block b's headers, and its samples when filling. */
  method PassBlock(P: seq<nat>, fill: bool, b: nat, pvec0: seq<int>, lpFirst0: seq<nat>, sLong0: seq<nat>, sShort0: seq<nat>,
                   longCount0: nat, shortCount0: nat)
    returns (pvec: seq<int>, lpFirst: seq<nat>, sLong: seq<nat>, sShort: seq<nat>, longCount: nat, shortCount: nat)
    requires |P| >= 1 && Increasing(P) && b < NumBlocks(|P|)
    requires longCount0 == LongBefore(P, b) && shortCount0 == ShortBefore(P, b)
    requires HeadersUpTo(P, b, pvec0, lpFirst0)
    requires fill ==> LongSlot(P, NumBlocks(|P|), 0) < |sLong0| && ShortSlot(P, NumBlocks(|P|), 0) < |sShort0|
    requires fill ==> EntriesUpTo(P, b, sLong0, sShort0)
    ensures longCount == LongBefore(P, b + 1) && shortCount == ShortBefore(P, b + 1)
    ensures HeadersUpTo(P, b + 1, pvec, lpFirst)
    ensures |sLong| == |sLong0| && |sShort| == |sShort0|
    ensures fill ==> EntriesUpTo(P, b + 1, sLong, sShort)
    ensures !fill ==> sLong == sLong0 && sShort == sShort0
  {
    var total := NumBlocks(|P|);
    pvec, lpFirst, sLong, sShort, longCount, shortCount := pvec0, lpFirst0, sLong0, sShort0, longCount0, shortCount0;
    var begin := OnesPerBlock * b;
    var first := P[begin];
    var last := P[BlockLast(|P|, b)];
    HeadersStep(P, b, pvec, lpFirst);
    lpFirst := lpFirst[b := first];
    if last - first >= MaxBlockLength {
      if fill {
        LongBeforeGrows(P, b, total);
        var sLong' := FillLong(P, b, longCount, sLong);
        LongTailWrite(P, b, sLong, sLong', sShort);
        sLong := sLong';
        EntriesStep(P, b, sLong, sShort);
      }
      pvec := pvec[b := -(OnesPerBlock * longCount + 1)];
      longCount := longCount + 1;
    } else {
      if fill {
        ShortBeforeGrows(P, b, total);
        var sShort' := FillShort(P, b, shortCount, sShort);
        ShortTailWrite(P, b, sLong, sShort, sShort');
        sShort := sShort';
        EntriesStep(P, b, sLong, sShort);
      }
      pvec := pvec[b := SamplesPerBlock * shortCount];
      shortCount := shortCount + 1;
    }
  }

  /** No one lies between `from` and the first set position at or after it. */
  lemma {:induction false} FirstSetRank(bits: seq<bool>, from: nat)
    requires |bits| < Npos && from <= |bits|
    decreases |bits| - from
    ensures FirstSetFrom(bits, from) != Npos ==> Rank(bits, FirstSetFrom(bits, from)) == Rank(bits, from)
  {
    if from < |bits| && !bits[from] {
      FirstSetRank(bits, from + 1);
      RankStep(bits, from);
    }
  }

  /** A set position at or after `from` is found. */
  lemma FirstSetFound(bits: seq<bool>, from: nat, q: nat)
    requires |bits| < Npos && from <= q < |bits| && bits[q]
    ensures FirstSetFrom(bits, from) <= q < Npos
  {
  }

  /** `find_next` from the r-th one lands on the next one. */
  lemma FindNextSelect(bits: seq<bool>, r: nat)
    requires |bits| < Npos && r + 1 < Ones(bits)
    ensures FirstSetFrom(bits, Select(bits, r) + 1) == Select(bits, r + 1)
  {
    var p := Select(bits, r);
    var q := Select(bits, r + 1);
    SelectLess(bits, r, r + 1);
    NextOne(bits, p, q, r);
  }

  /** From a one with r ones before it, the next one is the one with r + 1 ones before it. */
  lemma NextOne(bits: seq<bool>, p: nat, q: nat, r: nat)
    requires |bits| < Npos && p < q < |bits| && bits[p] && bits[q]
    requires Rank(bits, p) == r && Rank(bits, q) == r + 1
    ensures FirstSetFrom(bits, p + 1) == q
  {
    FirstSetFound(bits, p + 1, q);
    var f := FirstSetFrom(bits, p + 1);
    FirstSetRank(bits, p + 1);
    RankStep(bits, p);
    if f < q {
      RankStep(bits, f);
      RankMono(bits, f + 1, q);
    }
  }

  /** The first j entries of P are the positions of the first j ones of bits. */
  ghost predicate ListsFirst(bits: seq<bool>, P: seq<nat>, j: nat)
    requires j <= |P| == Ones(bits)
  {
    j == 0 || (ListsFirst(bits, P, j - 1) && P[j - 1] == Select(bits, j - 1))
  }

  /** P lists the positions of all the ones of bits, in order. */
  ghost predicate ListsOnes(bits: seq<bool>, P: seq<nat>)
  {
    |P| == Ones(bits) && ListsFirst(bits, P, |P|)
  }

  lemma {:induction false} ListedSelect(bits: seq<bool>, P: seq<nat>, j: nat, k: nat)
    requires j <= |P| == Ones(bits) && ListsFirst(bits, P, j) && k < j
    ensures P[k] == Select(bits, k)
  {
    if k < j - 1 {
      ListedSelect(bits, P, j - 1, k);
    }
  }

  lemma {:induction false} ListedAll(bits: seq<bool>, P: seq<nat>, j: nat)
    requires j <= |P| == Ones(bits) && forall i | 0 <= i < j :: P[i] == Select(bits, i)
    ensures ListsFirst(bits, P, j)
  {
    if j > 0 {
      ListedAll(bits, P, j - 1);
    }
  }

  /** The positions of the ones of a stream, in order, are increasing. */
  lemma SelectIncreasing(bits: seq<bool>, P: seq<nat>)
    requires ListsOnes(bits, P)
    ensures Increasing(P)
  {
    forall i, j | 0 <= i < j < |P|
      ensures P[i] < P[j]
    {
      ListedSelect(bits, P, |P|, i);
      ListedSelect(bits, P, |P|, j);
      SelectLess(bits, i, j);
    }
  }

  /** One k lies at offset k % 1024 of block k / 1024, and the sample before it is one k - k % 64. */
  lemma BlockOfOne(k: nat, m: nat)
    requires k < m
    ensures k / OnesPerBlock < NumBlocks(m)
    ensures k == BlockOne(k / OnesPerBlock, k % OnesPerBlock)
    ensures (k % OnesPerBlock) / Spacing < SamplesPerBlock
    ensures BlockOne(k / OnesPerBlock, Spacing * ((k % OnesPerBlock) / Spacing)) + k % Spacing == k
  {
    var a := k / OnesPerBlock;
    var r := k % OnesPerBlock;
    var c := r / Spacing;
    var d := r % Spacing;
    DivUnique(k, Spacing, SamplesPerBlock * a + c, d);
  }

  /** `DArray`: select over a bitset through tables built per block of 1024 ones. */
  class DArray {
    /** The indexed bitset (`bit_array`), shared with the caller. */
    const bitArray: DynamicBitset
    const sLong: seq<nat>
    const sShort: seq<nat>
    const pvec: seq<int>
    /** `lp_first_one_in_block` */
    const lpFirst: seq<nat>
    /** The positions of the ones in order (`S_position_vec`, which the constructor discards). */
    ghost const Pos: seq<nat>

    ghost predicate Valid()
      reads bitArray
    {
      |bitArray.bits| < Npos && |Pos| >= 1 && Ones(bitArray.bits) == |Pos|
      && ListsOnes(bitArray.bits, Pos)
      && Increasing(Pos)
      && |pvec| == NumBlocks(|Pos|) + 1 && |lpFirst| == NumBlocks(|Pos|) + 1
      && BlocksOk(Pos, NumBlocks(|Pos|), pvec, lpFirst, sLong, sShort)
    }

    /** `DArray(bit_array_to_index)` */
    constructor (bitArray: DynamicBitset)
      requires 1 <= Ones(bitArray.bits) && |bitArray.bits| < Npos
      ensures this.bitArray == bitArray && Valid()
    {
      var bits := bitArray.bits;
      var n := |bits|;
      var numOnes := 0;
      var i := 0;
      while i < n
        invariant 0 <= i <= n && numOnes == Rank(bits, i)
      {
        RankStep(bits, i);
        if bits[i] {
          numOnes := numOnes + 1;
        }
        i := i + 1;
      }
      RankAll(bits);
      var positions := OnePositions(bits, numOnes);
      SelectIncreasing(bits, positions);
      var total := (|positions| - 1) / OnesPerBlock + 1;
      var pv: seq<int> := seq(total + 1, _ => 0);
      var lp: seq<nat> := seq(total + 1, _ => 0);
      var sl: seq<nat>, ss: seq<nat>, lc: nat, sc: nat;
      pv, lp, sl, ss, lc, sc := BlockPass(positions, false, pv, lp, [], []);
      sl := seq(OnesPerBlock * lc + 1, _ => 0);
      ss := seq(SamplesPerBlock * sc + 1, _ => 0);
      pv, lp, sl, ss, lc, sc := BlockPass(positions, true, pv, lp, sl, ss);
      BlocksOkFrom(positions, NumBlocks(|positions|), pv, lp, sl, ss);
      this.bitArray := bitArray;
      sLong := sl;
      sShort := ss;
      pvec := pv;
      lpFirst := lp;
      Pos := positions;
    }

    /** The branch of `select` for a long block: the position is stored outright. */
    method SelectLong(k: nat, b: nat, offset: nat, il: nat) returns (p: nat)
      requires Valid() && k < |Pos| && b == k / OnesPerBlock && offset == k % OnesPerBlock
      requires b < |pvec| && pvec[b] < 0 && il == -pvec[b] - 1
      ensures p == Streams.Select(bitArray.bits, k)
    {
      LongLookup(Pos, k, pvec, lpFirst, sLong, sShort, b, offset, il);
      p := sLong[il + offset];
      ListedSelect(bitArray.bits, Pos, |Pos|, k);
    }

    /**
     * The branch of `select` for a short block: start from the sampled one
     * at or before the target and step `index & (spacing - 1)` ones on.
     */
    method SelectShort(k: nat, b: nat, offset: nat, il: nat) returns (p: nat)
      requires Valid() && k < |Pos| && b == k / OnesPerBlock && offset == k % OnesPerBlock
      requires b < |pvec| && pvec[b] == il
      ensures p == Streams.Select(bitArray.bits, k)
    {
      ghost var sample := k - k % Spacing;
      ShortLookup(Pos, k, pvec, lpFirst, sLong, sShort, b, offset, il, sample);
      p := lpFirst[b];
      p := p + sShort[il + offset / Spacing];
      ListedSelect(bitArray.bits, Pos, |Pos|, sample);
      p := WalkOnes(bitArray, p, sample, k % Spacing, k);
    }

    /**
     * `select(index)`: the position of the index-th one counting from 1;
     * index 0 answers -1 as an unsigned word.
     */
    method Select(index: nat) returns (p: nat)
      requires Valid() && index <= Ones(bitArray.bits)
      ensures index == 0 ==> p == Npos
      ensures index >= 1 ==> p == Streams.Select(bitArray.bits, index - 1)
    {
      if index == 0 {
        return Npos;
      }
      var k := index - 1;
      // `index >> log_ones_per_block` and `index & (ones_per_block - 1)`
      var b := k / OnesPerBlock;
      var offset := k % OnesPerBlock;
      BlockOfOne(k, |Pos|);
      var il := pvec[b];
      if il < 0 {
        p := SelectLong(k, b, offset, -il - 1);
      } else {
        p := SelectShort(k, b, offset, il);
      }
    }
  }

  /** The second loop of `DArray(bit_array)`: the position of every one, in order (`S_position_vec`). */
  method OnePositions(bits: seq<bool>, numOnes: nat) returns (positions: seq<nat>)
    requires numOnes == Ones(bits)
    ensures |positions| == Ones(bits)
    ensures ListsOnes(bits, positions)
  {
    positions := seq(numOnes, _ => 0);
    var count := 0;
    var i := 0;
    while i < |bits|
      invariant 0 <= i <= |bits| && count == Rank(bits, i) && |positions| == Ones(bits)
      invariant count <= Ones(bits)
      invariant forall j | 0 <= j < count :: positions[j] == Select(bits, j)
    {
      RankStep(bits, i);
      if bits[i] {
        SelectUnique(bits, count, i);
        positions := positions[count := i];
        count := count + 1;
      }
      i := i + 1;
    }
    RankAll(bits);
    ListedAll(bits, positions, |positions|);
  }

  /** In a long block, `s_long` at the block's slot plus the offset holds one k's position. */
  lemma LongLookup(P: seq<nat>, k: nat, pvec: seq<int>, lpFirst: seq<nat>, sLong: seq<nat>, sShort: seq<nat>, b: nat, offset: nat, il: int)
    requires 1 <= |P| && k < |P| && |pvec| == NumBlocks(|P|) + 1 && |lpFirst| == NumBlocks(|P|) + 1
    requires BlocksOk(P, NumBlocks(|P|), pvec, lpFirst, sLong, sShort)
    requires b == k / OnesPerBlock && offset == k % OnesPerBlock && pvec[b] < 0 && il == -pvec[b] - 1
    ensures 0 <= il + offset < |sLong| && sLong[il + offset] == P[k]
  {
    BlockOfOne(k, |P|);
    BlocksOkAt(P, NumBlocks(|P|), pvec, lpFirst, sLong, sShort, b);
    assert LongEntries(P, b, sLong);
  }

  /** In a short block, the first one plus the `s_short` sample gives the position of one k - k % 64. */
  lemma ShortLookup(P: seq<nat>, k: nat, pvec: seq<int>, lpFirst: seq<nat>, sLong: seq<nat>, sShort: seq<nat>, b: nat, offset: nat, il: int, sample: nat)
    requires 1 <= |P| && k < |P| && |pvec| == NumBlocks(|P|) + 1 && |lpFirst| == NumBlocks(|P|) + 1
    requires BlocksOk(P, NumBlocks(|P|), pvec, lpFirst, sLong, sShort)
    requires b == k / OnesPerBlock && offset == k % OnesPerBlock && il == pvec[b] >= 0 && sample == k - k % Spacing
    ensures 0 <= il + offset / Spacing < |sShort| && b < |lpFirst|
    ensures lpFirst[b] + sShort[il + offset / Spacing] == P[sample]
  {
    BlockOfOne(k, |P|);
    BlocksOkAt(P, NumBlocks(|P|), pvec, lpFirst, sLong, sShort, b);
    assert ShortEntries(P, b, sShort);
  }

  /** The `find_next` loop of `select`: from the r-th one, step over `steps` more ones. */
  method WalkOnes(bitArray: DynamicBitset, p0: nat, ghost r: nat, steps: nat, ghost target: nat) returns (p: nat)
    requires |bitArray.bits| < Npos && target < Ones(bitArray.bits) && r + steps == target
    requires p0 == Select(bitArray.bits, r)
    ensures p == Select(bitArray.bits, target)
  {
    p := p0;
    var i := 0;
    while i < steps
      invariant 0 <= i <= steps && p == Select(bitArray.bits, r + i)
    {
      FindNextSelect(bitArray.bits, r + i);
      p := bitArray.FindNext(p);
      i := i + 1;
    }
  }

  // ---------------------------------------------------------------------
  // SArray
  // ---------------------------------------------------------------------

  /** `getbit(bitvec, pos)`: bit `pos & 7` of byte `pos >> 3`. */
  function GetBit(bitvec: seq<nat>, pos: nat): (b: bool)
    requires pos < 8 * |bitvec|
    ensures b == ByteStream(bitvec)[pos]
  {
    AndPow2(bitvec[pos / 8], pos % 8);
    And(bitvec[pos / 8], Pow2(pos % 8)) != 0
  }

  /** The counting loop of `SArray(bitvec)`. */
  method CountBits(bitvec: seq<nat>) returns (numOnes: nat)
    ensures numOnes == Ones(ByteStream(bitvec))
  {
    ghost var s := ByteStream(bitvec);
    var n := 8 * |bitvec|;
    numOnes := 0;
    var i := 0;
    while i < n
      invariant 0 <= i <= n && numOnes == Rank(s, i)
    {
      RankStep(s, i);
      if GetBit(bitvec, i) {
        numOnes := numOnes + 1;
      }
      i := i + 1;
    }
    RankAll(s);
  }

  /** `number_of_low_bits = floor(log2(n / num_ones))` */
  function LowWidth(n: nat, m: nat): nat
    requires 1 <= m <= n
  {
    FloorLog2(n / m)
  }

  /** Where the ones of the high bitset go: one j of s lands at (Select(s, j) >> l) + j. */
  ghost function HighMarks(s: seq<bool>, l: nat): (Q: seq<nat>)
    ensures |Q| == Ones(s)
  {
    HighMarksUpTo(s, l, Ones(s))
  }

  /** The high marks of the first k ones. */
  ghost function HighMarksUpTo(s: seq<bool>, l: nat, k: nat): (Q: seq<nat>)
    requires k <= Ones(s)
    ensures |Q| == k
  {
    if k == 0 then [] else HighMarksUpTo(s, l, k - 1) + [ShiftRight(Select(s, k - 1), l) + (k - 1)]
  }

  lemma {:induction false} HighMarkAt(s: seq<bool>, l: nat, k: nat, j: nat)
    requires j < k <= Ones(s)
    ensures HighMarksUpTo(s, l, k)[j] == ShiftRight(Select(s, j), l) + j
  {
    if j < k - 1 {
      HighMarkAt(s, l, k - 1, j);
    }
  }

  /** The high marks are increasing and fit in `num_ones + (n >> l)` positions. */
  lemma HighMarksFit(s: seq<bool>, l: nat)
    ensures Increasing(HighMarks(s, l))
    ensures forall j | 0 <= j < Ones(s) :: HighMarks(s, l)[j] < Ones(s) + ShiftRight(|s|, l)
  {
    var Q := HighMarks(s, l);
    forall i, j | 0 <= i < j < |Q|
      ensures Q[i] < Q[j]
    {
      HighMarkAt(s, l, |Q|, i);
      HighMarkAt(s, l, |Q|, j);
      SelectLess(s, i, j);
      ShiftRightMono(Select(s, i), Select(s, j), l);
    }
    forall j | 0 <= j < Ones(s)
      ensures Q[j] < Ones(s) + ShiftRight(|s|, l)
    {
      HighMarkFits(s, l, j);
    }
  }

  lemma HighMarkFits(s: seq<bool>, l: nat, j: nat)
    requires j < Ones(s)
    ensures HighMarks(s, l)[j] == ShiftRight(Select(s, j), l) + j < Ones(s) + ShiftRight(|s|, l)
  {
    HighMarkAt(s, l, Ones(s), j);
    ShiftRightMono(Select(s, j), |s|, l);
  }

  /** Adding one more position to a marking stream sets that position. */
  lemma MarksSnoc(qs: seq<nat>, q: nat, n: nat)
    requires q < n
    ensures Marks(qs + [q], n) == Marks(qs, n)[q := true]
  {
    assert (qs + [q])[..|qs|] == qs;
  }

  /**
   * The first k elements of width l of a bit run hold the low l bits of the
   * first k positions of the ones of s.
   */
  ghost predicate LowsOk(bits: seq<bool>, s: seq<bool>, l: nat, k: nat)
    decreases k
  {
    k <= Ones(s) && k * l <= |bits|
    && (k == 0 || (LowsOk(bits, s, l, k - 1) && ElementOf(bits, k - 1, l) == LowBits(Select(s, k - 1), l)))
  }

  lemma {:induction false} LowsOkAt(bits: seq<bool>, s: seq<bool>, l: nat, k: nat, j: nat)
    requires LowsOk(bits, s, l, k) && j < k
    ensures (j + 1) * l <= |bits| && ElementOf(bits, j, l) == LowBits(Select(s, j), l)
  {
    if j < k - 1 {
      LowsOkAt(bits, s, l, k - 1, j);
    }
  }

  /** Writing an element at or after k keeps the first k elements. */
  lemma {:induction false} LowsOkKeep(before: seq<bool>, s: seq<bool>, l: nat, j: nat, k: nat, v: nat)
    requires LowsOk(before, s, l, k) && k <= j && (j + 1) * l <= |before|
    ensures LowsOk(Splice(before, j, v, l), s, l, k)
  {
    if k > 0 {
      LowsOkKeep(before, s, l, j, k - 1, v);
      MulLe(k, j + 1, l);
      SetKeepsOthers(before, j, k - 1, v, l);
    }
  }

  /** Writing the low part of the j-th one as element j extends the run by one. */
  lemma LowsOkStep(before: seq<bool>, s: seq<bool>, l: nat, j: nat, v: nat)
    requires LowsOk(before, s, l, j) && (j + 1) * l <= |before| && j < Ones(s)
    requires v == LowBits(Select(s, j), l)
    ensures LowsOk(Splice(before, j, v, l), s, l, j + 1)
  {
    LowsOkKeep(before, s, l, j, j, v);
    SetThenGet(before, j, v, l);
    ShiftRightIsDiv(v, l);
    LowBitsSmall(v, l);
  }

  /**
   * The high half of one step of the constructor's loop at the k-th one,
   * found at position i: set bit `(i >> l) + k` of the high bitset.
   */
  method PlaceHigh(hi: DynamicBitset, ghost s: seq<bool>, l: nat, hiSize: nat, k: nat, i: nat)
    requires k < Ones(s) && Select(s, k) == i && ShiftRight(i, l) + k < hiSize
    requires |hi.bits| == hiSize && hi.bits == Marks(HighMarksUpTo(s, l, k), hiSize)
    modifies hi
    ensures |hi.bits| == hiSize && hi.bits == Marks(HighMarksUpTo(s, l, k + 1), hiSize)
  {
    MarksSnoc(HighMarksUpTo(s, l, k), ShiftRight(i, l) + k, hiSize);
    hi.Set(ShiftRight(i, l) + k, true);
  }

  /**
   * The low half of the same step: store `i & ((1 << l) - 1)` as element k
   * of the low store.
   */
  method PlaceLow(low: CompactStore, ghost s: seq<bool>, numOnes: nat, k: nat, i: nat)
    requires low.Valid() && |low.bitArray.bits| == low.width * numOnes
    requires k < numOnes && k < Ones(s) && Select(s, k) == i
    requires LowsOk(low.bitArray.bits, s, low.width, k)
    modifies low.bitArray
    ensures |low.bitArray.bits| == low.width * numOnes && LowsOk(low.bitArray.bits, s, low.width, k + 1)
  {
    var l := low.width;
    Pow2Le(l, W);
    WordPow();
    MulLe(k + 1, numOnes, l);
    ghost var before := low.bitArray.bits;
    low.Set(k, LowBits(i, l));
    LowsOkStep(before, s, l, k, LowBits(i, l));
  }

  /** The high bitset of an SArray over s with l low bits: one mark per one of s. */
  ghost function HighBits(s: seq<bool>, l: nat): seq<bool>
  {
    Marks(HighMarks(s, l), Ones(s) + ShiftRight(|s|, l))
  }

  /** Selecting in the high bitset finds the high part of the position plus the index. */
  lemma HighSelect(s: seq<bool>, l: nat, idx: nat)
    requires idx < Ones(s)
    ensures Ones(HighBits(s, l)) == Ones(s) && Select(HighBits(s, l), idx) == ShiftRight(Select(s, idx), l) + idx
  {
    HighMarksFit(s, l);
    MarksSelect(HighMarks(s, l), Ones(s) + ShiftRight(|s|, l), idx);
    HighMarkAt(s, l, Ones(s), idx);
  }

  /** Shifting the high part back and adding the low part restores a word. */
  lemma Recombine(p: nat, l: nat)
    requires p < WordMod
    ensures ShiftLeft(ShiftRight(p, l), l, W) + LowBits(p, l) == p
  {
    SplitAt(p, l);
    WordPow();
    ShiftLeftExact(ShiftRight(p, l), l, W);
  }

  /** The high part read from the high bitset and the low part read from the low store make up the position. */
  lemma Recombined(hiBits: seq<bool>, lowBits: seq<bool>, s: seq<bool>, l: nat, idx: nat, high: nat, diff: nat, low: nat)
    requires idx < Ones(s) && Ones(hiBits) == Ones(s) && |s| < WordMod
    requires Select(hiBits, idx) == ShiftRight(Select(s, idx), l) + idx && high == Select(hiBits, idx)
    requires diff == high - idx
    requires (idx + 1) * l <= |lowBits| && low == ElementOf(lowBits, idx, l)
    requires ElementOf(lowBits, idx, l) == LowBits(Select(s, idx), l)
    ensures ShiftLeft(diff, l, W) + low == Select(s, idx)
  {
    Recombine(Select(s, idx), l);
  }

  /**
   * The high and low runs of an SArray over s with l low bits: the k-th one
   * of s, at position p, is marked at `(p >> l) + k` in the high run and
   * stored as the low l bits of p in element k of the low run.
   */
  ghost predicate Parts(hiBits: seq<bool>, lowBits: seq<bool>, s: seq<bool>, l: nat)
  {
    1 <= Ones(s) && |s| < WordMod
    && hiBits == HighBits(s, l)
    && |lowBits| == l * Ones(s) && LowsOk(lowBits, s, l, Ones(s))
  }

  /**
   * The state of the filling loop after k ones: the high run marks the first
   * k high marks and the low run holds the first k low parts.
   */
  ghost predicate Filled(hiBits: seq<bool>, lowBits: seq<bool>, s: seq<bool>, l: nat, hiSize: nat, numOnes: nat, k: nat)
  {
    k <= numOnes && k <= Ones(s) && |hiBits| == hiSize && hiBits == Marks(HighMarksUpTo(s, l, k), hiSize)
    && |lowBits| == l * numOnes && LowsOk(lowBits, s, l, k)
  }

  /** The runs the filling loop leaves behind are the parts of an SArray. */
  lemma PartsFrom(hiBits: seq<bool>, lowBits: seq<bool>, s: seq<bool>, l: nat, hiSize: nat)
    requires 1 <= Ones(s) && |s| < WordMod && hiSize == Ones(s) + ShiftRight(|s|, l)
    requires Filled(hiBits, lowBits, s, l, hiSize, Ones(s), Ones(s))
    ensures Parts(hiBits, lowBits, s, l) && Ones(hiBits) == Ones(s)
  {
    HighMarksFit(s, l);
    MarksRank(HighMarks(s, l), hiSize, 0);
  }

  /** The bits of a byte vector, position by position. */
  ghost predicate ByteBits(bitvec: seq<nat>, s: seq<bool>)
  {
    |s| == 8 * |bitvec| && forall p | 0 <= p < |s| :: s[p] == Bit(bitvec[p / 8], p % 8)
  }

  /**
   * The filling loop of `SArray(bitvec)` after position i, with k ones before
   * it: s is the stream of bitvec, and the runs are filled for those k ones.
   */
  ghost predicate FillingAt(bitvec: seq<nat>, s: seq<bool>, hiBits: seq<bool>, lowBits: seq<bool>, l: nat,
                            hiSize: nat, numOnes: nat, i: nat, k: nat)
  {
    ByteBits(bitvec, s) && numOnes == Ones(s) && hiSize == numOnes + ShiftRight(|s|, l)
    && i <= |s| && k == Rank(s, i) && Filled(hiBits, lowBits, s, l, hiSize, numOnes, k)
  }

  /** One round of the filling loop of `SArray(bitvec)`, at position i with k ones before it. */
  method FillStep(bitvec: seq<nat>, hi: DynamicBitset, low: CompactStore, ghost s: seq<bool>,
                  hiSize: nat, numOnes: nat, i: nat, k: nat) returns (k': nat)
    requires hi != low.bitArray && low.Valid() && i < |s|
    requires FillingAt(bitvec, s, hi.bits, low.bitArray.bits, low.width, hiSize, numOnes, i, k)
    modifies hi, low.bitArray
    ensures FillingAt(bitvec, s, hi.bits, low.bitArray.bits, low.width, hiSize, numOnes, i + 1, k')
  {
    RankStep(s, i);
    RankMono(s, i + 1, |s|);
    RankAll(s);
    k' := k;
    if GetBit(bitvec, i) {
      SelectUnique(s, k, i);
      ShiftRightMono(i, |s|, low.width);
      PlaceHigh(hi, s, low.width, hiSize, k, i);
      PlaceLow(low, s, numOnes, k, i);
      k' := k + 1;
    }
  }

  /** The filling loop of `SArray(bitvec)`. */
  method FillParts(bitvec: seq<nat>, hi: DynamicBitset, low: CompactStore, ghost s: seq<bool>, hiSize: nat, numOnes: nat)
    requires hi != low.bitArray && low.Valid()
    requires FillingAt(bitvec, s, hi.bits, low.bitArray.bits, low.width, hiSize, numOnes, 0, 0)
    modifies hi, low.bitArray
    ensures Filled(hi.bits, low.bitArray.bits, s, low.width, hiSize, numOnes, numOnes)
  {
    var oneCounter := 0;
    var i := 0;
    while i < 8 * |bitvec|
      invariant FillingAt(bitvec, s, hi.bits, low.bitArray.bits, low.width, hiSize, numOnes, i, oneCounter)
    {
      oneCounter := FillStep(bitvec, hi, low, s, hiSize, numOnes, i, oneCounter);
      i := i + 1;
    }
    RankAll(s);
    assert oneCounter == numOnes;
  }

  /**
   * The body of `SArray(bitvec)` up to the `DArray` over the high bits:
   * count the ones, choose the width of the low parts, and fill both runs.
   */
  method BuildParts(bitvec: seq<nat>) returns (hi: DynamicBitset, low: CompactStore)
    requires 1 <= Ones(ByteStream(bitvec)) < 8 * |bitvec| && 16 * |bitvec| < Npos
    requires LowWidth(8 * |bitvec|, Ones(ByteStream(bitvec))) <= 30
    ensures fresh(hi) && fresh(low.bitArray) && hi != low.bitArray && low.Valid()
    ensures low.width == LowWidth(8 * |bitvec|, Ones(ByteStream(bitvec)))
    ensures Parts(hi.bits, low.bitArray.bits, ByteStream(bitvec), low.width)
    ensures Ones(hi.bits) == Ones(ByteStream(bitvec)) && |hi.bits| < Npos
  {
    ghost var s := ByteStream(bitvec);
    var n := 8 * |bitvec|;
    var numOnes := CountBits(bitvec);
    var l := FloorLog2(n / numOnes);
    var hiSize := numOnes + ShiftRight(n, l);
    ShiftRightLe(n, l);
    hi := new DynamicBitset(hiSize);
    MulLe(0, l, numOnes);
    var lowBits := new DynamicBitset(l * numOnes);
    low := new CompactStore(lowBits, l);
    assert FillingAt(bitvec, s, hi.bits, lowBits.bits, l, hiSize, numOnes, 0, 0);
    FillParts(bitvec, hi, low, s, hiSize, numOnes);
    PartsFrom(hi.bits, lowBits.bits, s, l, hiSize);
  }

  /** `SArray`: select over a sparse bit vector by high bits in unary and low bits in a `CompactStore`. */
  class SArray {
    /** `low_ptr` */
    const lowStore: CompactStore
    const darray: DArray
    const numberOfLowBits: nat
    /** The indexed bit stream (`bitvec`, which the constructor does not keep). */
    ghost const Source: seq<bool>

    ghost predicate Valid()
      reads darray.bitArray, lowStore.bitArray
    {
      darray.bitArray != lowStore.bitArray && darray.Valid() && lowStore.Valid()
      && lowStore.width == numberOfLowBits
      && Parts(darray.bitArray.bits, lowStore.bitArray.bits, Source, numberOfLowBits)
    }

    /**
     * `SArray(bitvec)` on a vector that is neither free of ones (the width
     * computation divides by their number) nor all ones (the source exits;
     * see `Build`).
     */
    constructor (bitvec: seq<nat>)
      requires forall i | 0 <= i < |bitvec| :: bitvec[i] < 256
      requires 1 <= Ones(ByteStream(bitvec)) < 8 * |bitvec| && 16 * |bitvec| < Npos
      requires LowWidth(8 * |bitvec|, Ones(ByteStream(bitvec))) <= 30
      ensures Valid() && Source == ByteStream(bitvec)
      ensures numberOfLowBits == LowWidth(8 * |bitvec|, Ones(ByteStream(bitvec)))
      ensures fresh(darray.bitArray) && fresh(lowStore.bitArray)
    {
      var hi, low := BuildParts(bitvec);
      darray := new DArray(hi);
      lowStore := low;
      numberOfLowBits := low.width;
      Source := ByteStream(bitvec);
    }

    /**
     * `select(idx)`: the position of the idx-th one (from 0); the index
     * `2^64 - 1` wraps to 0 on the increment and answers -1 as an unsigned word.
     */
    method Select(idx: nat) returns (r: nat)
      requires Valid() && (idx < Ones(Source) || idx == WordMod - 1)
      ensures idx == WordMod - 1 ==> r == Npos
      ensures idx < Ones(Source) ==> r == Streams.Select(Source, idx)
    {
      // `idx + 1` on a 64-bit unsigned word
      var index := if idx == WordMod - 1 then 0 else idx + 1;
      if index == 0 {
        return Npos;
      }
      var k := index - 1;
      assert k == idx;
      HighSelect(Source, numberOfLowBits, k);
      var high := darray.Select(index);
      var result: nat := high - k;
      ghost var diff := result;
      result := ShiftLeft(result, numberOfLowBits, W);
      LowsOkAt(lowStore.bitArray.bits, Source, numberOfLowBits, Ones(Source), k);
      var low := lowStore.At(k);
      Recombined(darray.bitArray.bits, lowStore.bitArray.bits, Source, numberOfLowBits, k, high, diff, low);
      r := result + low;
    }
  }

  /** `SArray(bitvec)` with its exit on a vector of all ones modelled as `None`. */
  method Build(bitvec: seq<nat>) returns (r: Option<SArray>)
    requires forall i | 0 <= i < |bitvec| :: bitvec[i] < 256
    requires 1 <= Ones(ByteStream(bitvec)) && 16 * |bitvec| < Npos
    requires LowWidth(8 * |bitvec|, Ones(ByteStream(bitvec))) <= 30
    ensures r.None? <==> Ones(ByteStream(bitvec)) == 8 * |bitvec|
    ensures r.Some? ==> r.value.Valid() && r.value.Source == ByteStream(bitvec)
    ensures r.Some? ==> fresh(r.value.darray.bitArray) && fresh(r.value.lowStore.bitArray)
  {
    var numOnes := CountBits(bitvec);
    if numOnes == 8 * |bitvec| {
      return None;
    }
    var a := new SArray(bitvec);
    return Some(a);
  }
}
