/**
 * `simple_select_zero_half`: Vigna's select over the zeros of a word
 * array, with a fixed geometry.  The position of every 1024th zero is
 * sampled in an inventory; a block of 1024 zeros spanning less than 2^16
 * positions keeps the 16-bit offset of every 64th zero from its first
 * zero, a longer block is flagged with `-start - 1` and keeps the 64-bit
 * offset of every 256th zero; a query starts from the nearest sample and
 * scans the remaining zeros word by word.
 */
module ZeroHalf {
  import opened Bits
  import opened Streams
  import opened Broadword
  import opened EliasFanoBits
  import opened Inventories
  import opened Subinventories
  import opened SubinventoryFill
  import opened WordScan
  import SimpleSelect
  import EliasFano

  /**
   * `LOG2_ONES_PER_INVENTORY` 10, `LOG2_LONGWORDS_PER_SUBINVENTORY` 2,
   * `LOG2_ONES_PER_SUB64` 8 and `LOG2_ONES_PER_SUB16` 6; a long block keeps
   * 64-bit offsets in its own subinventory words, nothing is spilled.
   */
  const G: Geometry := Geometry(10, 2, 8, 6, false)

  lemma GeometryOk()
    ensures Ok(G) && Pow2(10) == 1024 && Pow2(8) == 256 && Pow2(6) == 64
  {
    assert Pow2(2) == 4 && Pow2(4) == 16;
    Pow2Add(4, 2);
    Pow2Add(4, 4);
    Pow2Add(8, 2);
  }

  // ---------------------------------------------------------------------
  // Zeros
  // ---------------------------------------------------------------------

  /** The zeros of a stream are its marks. */
  lemma ClearMarks(s: seq<bool>)
    ensures MarksOf(ClearBits, s) == Flip(s)
  {
  }

  /** Zeros before position p: the positions before p that are not ones. */
  lemma {:induction false} RankFlip(s: seq<bool>, p: nat)
    requires p <= |s|
    ensures Rank(Flip(s), p) == p - Rank(s, p)
  {
    if p > 0 {
      RankFlip(s, p - 1);
    }
  }

  /** The positions of the zeros among the first n bits, in order. */
  ghost function ZeroPositions(bits: seq<nat>, n: nat): seq<nat>
    requires n <= 64 * |bits|
  {
    Positions(MarksOf(ClearBits, Prefix(bits, n)))
  }

  /** A word's zeros are the ones of `~word`. */
  lemma NotView(x: nat)
    requires IsWord(x)
    ensures Pow2(W) == WordMod && IsWord(Not(x, W)) && WordView(Not(x, W)) == Flip(WordView(x))
  {
    WordPow();
    forall j | 0 <= j < 64
      ensures WordView(Not(x, W))[j] == Flip(WordView(x))[j]
    {
      BitNot(x, W, j);
    }
  }

  /** The stream of i + 1 words is that of the first i followed by word i. */
  lemma WordStreamSnoc(bits: seq<nat>, i: nat)
    requires i < |bits|
    ensures WordStream(bits[..i + 1]) == WordStream(bits[..i]) + WordView(bits[i])
  {
    var r := WordStream(bits[..i]) + WordView(bits[i]);
    forall p | 0 <= p < 64 * (i + 1)
      ensures WordStream(bits[..i + 1])[p] == r[p]
    {
      if p >= 64 * i {
        assert p / 64 == i && p % 64 == p - 64 * i;
      }
    }
  }

  /** Counting `~bits[ i ]` adds the zeros of word i. */
  lemma ZerosStep(bits: seq<nat>, i: nat)
    requires Words(bits) && i < |bits|
    ensures Pow2(W) == WordMod && IsWord(Not(bits[i], W))
    ensures Ones(Flip(WordStream(bits[..i + 1]))) == Ones(Flip(WordStream(bits[..i]))) + Count(Not(bits[i], W))
  {
    var a := WordStream(bits[..i]);
    var w := WordView(bits[i]);
    WordStreamSnoc(bits, i);
    assert Flip(a + w) == Flip(a) + Flip(w);
    NotView(bits[i]);
    OnesAppend(Flip(a), Flip(w));
  }

  /** `for( i ... ) c += count( ~bits[ i ] )`: the zeros of the first numWords words. */
  method CountZeros(bits: seq<nat>, numWords: nat) returns (c: nat)
    requires Words(bits) && numWords <= |bits|
    ensures c == Ones(Flip(WordStream(bits[..numWords])))
  {
    c := 0;
    var i := 0;
    assert WordStream(bits[..0]) == [];
    while i < numWords
      invariant i <= numWords && c == Ones(Flip(WordStream(bits[..i])))
    {
      ZerosStep(bits, i);
      c := c + Count(Not(bits[i], W));
      i := i + 1;
    }
  }

  /** The padding of a partial last word: `64 - num_bits % 64` positions, else none. */
  lemma PaddingIs(n: nat)
    ensures 64 * ((n + 63) / 64) - n == if n % 64 != 0 then 64 - n % 64 else 0
  {
  }

  /**
   * With the bits past n clear, the zeros of the whole words are the zeros
   * of the first n bits and the padding.
   */
  lemma PaddingZeros(bits: seq<nat>, numWords: nat, n: nat)
    requires numWords <= |bits| && n <= 64 * numWords
    requires forall p | n <= p < 64 * numWords :: !Bit(bits[p / 64], p % 64)
    ensures n <= 64 * |bits|
    ensures Ones(Flip(WordStream(bits[..numWords]))) == Ones(MarksOf(ClearBits, Prefix(bits, n))) + (64 * numWords - n)
  {
    var whole := WordStream(bits[..numWords]);
    var prefix := WordStream(bits)[..n];
    EliasFano.OnesOfPadded(bits, numWords, n);
    OnesFlip(whole);
    OnesFlip(prefix);
    ClearMarks(prefix);
  }

  // ---------------------------------------------------------------------
  // Construction
  // ---------------------------------------------------------------------

  /**
   * What the constructor accepts: a word array holding num_bits bits, with
   * the unused bits of its last word clear (the zeros are counted by whole
   * words and the padding subtracted), and positions that fit `int64_t`
   * inventory entries.
   */
  ghost predicate Admissible(bits: seq<nat>, numBits: nat)
  {
    Words(bits) && numBits < Top && (numBits + 63) / 64 <= |bits|
    && (forall p | numBits <= p < 64 * ((numBits + 63) / 64) :: !Bit(bits[p / 64], p % 64))
  }

  /** The counts of the constructor's first lines: `num_ones` over whole words, and c without the padding. */
  method Measure(bits: seq<nat>, numBits: nat) returns (numOnes: nat, c: nat)
    requires Admissible(bits, numBits)
    ensures numBits <= 64 * |bits| && c == Ones(MarksOf(ClearBits, Prefix(bits, numBits)))
    ensures numOnes == c + (64 * ((numBits + 63) / 64) - numBits)
  {
    var numWords := (numBits + 63) / 64;
    numOnes := CountZeros(bits, numWords);
    PaddingZeros(bits, numWords, numBits);
    PaddingIs(numBits);
    c := numOnes;
    if numBits % 64 != 0 {
      c := c - (64 - numBits % 64);
    }
  }

  /**
   * The built structure: c zeros, the inventory with its sentinel and
   * flags, and the subinventory the second scan leaves.
   */
  ghost predicate Built(bits: seq<nat>, n: nat, c: nat, inv: seq<int>, units: seq<nat>)
  {
    Words(bits) && n < Top && n <= 64 * |bits|
    && c == Ones(MarksOf(ClearBits, Prefix(bits, n)))
    && Filled(ZeroPositions(bits, n), n, G, inv, units, [])
  }

  /** `inventory_size * LONGWORDS_PER_SUBINVENTORY` words are the units of every block's region. */
  lemma CapacityIs(c: nat, inventorySize: nat)
    requires inventorySize == NumBlocks(c, 10)
    ensures Capacity(c, G) == 4 * (inventorySize * 4)
  {
    ScaleIs(inventorySize, 4);
    assert Pow2(4) == 16;
  }

  /** With no zeros there is no block: the inventory is the sentinel alone. */
  lemma FilledEmpty(pos: seq<nat>, n: nat, inv: seq<int>)
    requires |pos| == 0 && inv == Flagged(pos, n, G, 0)
    ensures Filled(pos, n, G, inv, [], [])
  {
    GeometryOk();
    NoBlocks(10);
    ScaleIs(0, 4);
  }

  /**
   * The constructor's passes, corrected: the inventory of
   * `inventory_size + 1` entries; then the zeroed subinventory of
   * `inventory_size * 4` words and the scan that flags long blocks and
   * writes their samples.
   */
  method Build(bits: seq<nat>, numBits: nat) returns (numOnes: nat, c: nat, inv: seq<int>, units: seq<nat>)
    requires Admissible(bits, numBits)
    ensures Built(bits, numBits, c, inv, units)
    ensures numOnes == c + (64 * ((numBits + 63) / 64) - numBits)
  {
    numOnes, c := Measure(bits, numBits);
    GeometryOk();
    var inventorySize := (c + 1024 - 1) / 1024;
    BlocksIs(c, 10);
    var inventory := InventoryPass(bits, numBits, ClearBits, 10, inventorySize);
    SimpleSelect.BuiltIsFlagged(inventory[..], ZeroPositions(bits, numBits), numBits, G);
    CapacityIs(c, inventorySize);
    var subinventory := SimpleSelect.Zeroed(4 * (inventorySize * 4));
    var none := SimpleSelect.Zeroed(0);
    if c > 0 {
      FillPass(bits, numBits, ClearBits, G, c, inventory, subinventory, none);
    } else {
      FilledEmpty(ZeroPositions(bits, numBits), numBits, inventory[..]);
    }
    inv, units := inventory[..], subinventory[..];
  }

  // ---------------------------------------------------------------------
  // The paths of a query
  // ---------------------------------------------------------------------

  /** What a query reads: the zero positions and the structure over them. */
  ghost predicate Queryable(pos: seq<nat>, n: nat, inv: seq<int>, units: seq<nat>)
  {
    |pos| <= n < Top && Filled(pos, n, G, inv, units, [])
  }

  /**
   * An entry is negative exactly when its block is long, the same test
   * that decides whether the block keeps 16-bit or 64-bit offsets; a
   * negative entry `-start - 1` gives its block's first position back.
   */
  lemma EntrySign(pos: seq<nat>, n: nat, b: nat)
    requires Increasing(pos) && Below(pos, n) && n < Top && b < NumBlocks(|pos|, 10)
    ensures (Entry(pos, n, G, b) >= 0) == !IsLong(pos, n, 10, b)
    ensures Entry(pos, n, G, b) >= 0 ==> Entry(pos, n, G, b) == Sample(pos, n, 10, b)
    ensures Entry(pos, n, G, b) < 0 ==> -Entry(pos, n, G, b) - 1 == Sample(pos, n, 10, b)
  {
    BlockExists(|pos|, 10, b);
  }

  /** Inventory entry b of a filled index is its block's entry. */
  lemma EntryOf(pos: seq<nat>, n: nat, inv: seq<int>, units: seq<nat>, b: nat)
    requires Queryable(pos, n, inv, units) && b < NumBlocks(|pos|, 10)
    ensures inv[b] == Entry(pos, n, G, b)
    ensures (inv[b] >= 0) == !IsLong(pos, n, 10, b)
    ensures inv[b] >= 0 ==> inv[b] == Sample(pos, n, 10, b)
    ensures inv[b] < 0 ==> -inv[b] - 1 == Sample(pos, n, 10, b)
  {
    SimpleSelect.EntryAt(pos, n, G, inv, units, [], b);
    EntrySign(pos, n, b);
  }

  /**
   * A short block: the entry plus 16-bit sample `subrank >> 6` is the
   * position of zero `rank - residual`, residual being `subrank & 63`.
   */
  lemma ShortOf(pos: seq<nat>, n: nat, inv: seq<int>, units: seq<nat>, rank: nat)
    requires Queryable(pos, n, inv, units) && rank < |pos|
    requires ShiftRight(rank, 10) < |inv| && inv[ShiftRight(rank, 10)] >= 0
    ensures Region(G, ShiftRight(rank, 10)) + ShiftRight(And(rank, 1023), 6) < |units|
    ensures And(And(rank, 1023), 63) <= rank
    ensures inv[ShiftRight(rank, 10)] + units[Region(G, ShiftRight(rank, 10)) + ShiftRight(And(rank, 1023), 6)]
            == pos[rank - And(And(rank, 1023), 63)]
  {
    GeometryOk();
    var b := ShiftRight(rank, 10);
    var subrank := And(rank, 1023);
    SimpleSelect.Located(|pos|, 10, rank);
    EntryOf(pos, n, inv, units, b);
    BlockOfBelow(BlockOnes(|pos|, 10, b), 6, subrank);
    SimpleSelect.ShortUnit(pos, n, G, inv, units, [], b, ShiftRight(subrank, 6));
    SimpleSelect.ShortHit(pos, n, G, units, b, subrank);
  }

  /** The entry after block b, a position or the sentinel, lies at or below n. */
  lemma NextSampleBelow(pos: seq<nat>, n: nat, b: nat)
    requires Below(pos, n) && b < NumBlocks(|pos|, 10)
    ensures Sample(pos, n, 10, b + 1) <= n
  {
    BlockExists(|pos|, 10, b + 1);
  }

  /** Unit 4 k + i of a long block's units is unit i of its sample k. */
  lemma LongCurrentAt(pos: seq<nat>, n: nat, b: nat, k: nat, i: nat)
    requires Increasing(pos) && Below(pos, n)
    requires b < NumBlocks(|pos|, 10) && IsLong(pos, n, 10, b)
    requires k < NumBlocks(BlockOnes(|pos|, 10, b), 8) && i < 4
    ensures 4 * k + i < |Current(pos, n, G, b, BlockOnes(|pos|, 10, b))|
    ensures Current(pos, n, G, b, BlockOnes(|pos|, 10, b))[4 * k + i]
            == Unit(SubSample(pos, n, 10, b, BlockOnes(|pos|, 10, b), 8, k), i)
  {
    assert (4 * k + i) / 4 == k && (4 * k + i) % 4 == i;
  }

  /** Units 4 k .. 4 k + 3 of a long block's units are the four of its sample k. */
  lemma CurrentWord(pos: seq<nat>, n: nat, b: nat, k: nat)
    requires Increasing(pos) && Below(pos, n) && n < Top
    requires b < NumBlocks(|pos|, 10) && IsLong(pos, n, 10, b)
    requires k < NumBlocks(BlockOnes(|pos|, 10, b), 8)
    ensures 4 * k + 4 <= |Current(pos, n, G, b, BlockOnes(|pos|, 10, b))|
    ensures Current(pos, n, G, b, BlockOnes(|pos|, 10, b))[4 * k..4 * k + 4]
            == WordUnits(SubSample(pos, n, 10, b, BlockOnes(|pos|, 10, b), 8, k))
    ensures SubSample(pos, n, 10, b, BlockOnes(|pos|, 10, b), 8, k) < WordMod
  {
    var ones := BlockOnes(|pos|, 10, b);
    var c := Current(pos, n, G, b, ones);
    var v := SubSample(pos, n, 10, b, ones, 8, k);
    LongCurrentAt(pos, n, b, k, 0);
    LongCurrentAt(pos, n, b, k, 1);
    LongCurrentAt(pos, n, b, k, 2);
    LongCurrentAt(pos, n, b, k, 3);
    FourUnits(c, 4 * k, v);
    NextSampleBelow(pos, n, b);
    TopIs();
  }

  /** Four elements that are the units of v, in order, are `WordUnits( v )`. */
  lemma FourUnits(c: seq<nat>, at: nat, v: nat)
    requires at + 4 <= |c|
    requires c[at] == Unit(v, 0) && c[at + 1] == Unit(v, 1) && c[at + 2] == Unit(v, 2) && c[at + 3] == Unit(v, 3)
    ensures c[at..at + 4] == WordUnits(v)
  {
  }

  /** Four units of a slice that spell a word read back as that word. */
  lemma WordAt(u: seq<nat>, lo: nat, c: seq<nat>, at: nat, v: nat)
    requires lo + |c| <= |u| && u[lo..lo + |c|] == c
    requires at + 4 <= |c| && c[at..at + 4] == WordUnits(v) && v < WordMod
    ensures lo + at + 4 <= |u| && Word64(u, lo + at) == v
  {
    forall t | 0 <= t < 4
      ensures u[lo + at + t] == WordUnits(v)[t]
    {
      assert u[lo..lo + |c|][at + t] == u[lo + at + t];
      assert c[at..at + 4][t] == c[at + t];
    }
    assert Word64(u, lo + at) == Word64(WordUnits(v), 0);
    WordUnitsJoin(v);
  }

  /** Block b's units, as the scan left them, at the start of its region. */
  lemma RegionHolds(pos: seq<nat>, n: nat, inv: seq<int>, units: seq<nat>, b: nat)
    requires Queryable(pos, n, inv, units) && b < NumBlocks(|pos|, 10)
    ensures Region(G, b) + |Current(pos, n, G, b, BlockOnes(|pos|, 10, b))| <= |units|
    ensures units[Region(G, b)..Region(G, b) + |Current(pos, n, G, b, BlockOnes(|pos|, 10, b))|]
            == Current(pos, n, G, b, BlockOnes(|pos|, 10, b))
  {
    assert UnitsAt(pos, n, G, units, b);
  }

  /** Word k of a long block's region holds the offset of its zero `256 k`. */
  lemma LongUnit(pos: seq<nat>, n: nat, inv: seq<int>, units: seq<nat>, b: nat, k: nat)
    requires Queryable(pos, n, inv, units)
    requires b < NumBlocks(|pos|, 10) && IsLong(pos, n, 10, b)
    requires k < NumBlocks(BlockOnes(|pos|, 10, b), 8)
    ensures Region(G, b) + 4 * k + 4 <= |units|
    ensures Word64(units, Region(G, b) + 4 * k) == SubSample(pos, n, 10, b, BlockOnes(|pos|, 10, b), 8, k)
  {
    RegionHolds(pos, n, inv, units, b);
    CurrentWord(pos, n, b, k);
    WordAt(units, Region(G, b), Current(pos, n, G, b, BlockOnes(|pos|, 10, b)), 4 * k,
           SubSample(pos, n, 10, b, BlockOnes(|pos|, 10, b), 8, k));
  }

  /** A 64-bit sample added to its block's first position is the position of the sampled zero. */
  lemma LongHit(pos: seq<nat>, n: nat, b: nat, subrank: nat)
    requires Increasing(pos) && Below(pos, n)
    requires b < NumBlocks(|pos|, 10) && subrank < BlockOnes(|pos|, 10, b)
    ensures ShiftRight(subrank, 8) < NumBlocks(BlockOnes(|pos|, 10, b), 8)
    ensures And(subrank, 255) <= subrank && Scale(b, 10) + subrank < |pos|
    ensures Sample(pos, n, 10, b) + SubSample(pos, n, 10, b, BlockOnes(|pos|, 10, b), 8, ShiftRight(subrank, 8))
            == pos[Scale(b, 10) + subrank - And(subrank, 255)]
  {
    GeometryOk();
    var ones := BlockOnes(|pos|, 10, b);
    BlockOfBelow(ones, 8, subrank);
    SimpleSelect.SubrankSplit(subrank, 8);
    SimpleSelect.SampleAt(pos, n, 10, b, ones, 8, ShiftRight(subrank, 8));
    InBlock(pos, n, 10, b, subrank);
  }

  /**
   * A long block: `-entry - 1` plus 64-bit word `( index << 2 ) + ( subrank
   * >> 8 )` is the position of zero `rank - residual`, residual being
   * `subrank & 255`.
   */
  lemma LongOf(pos: seq<nat>, n: nat, inv: seq<int>, units: seq<nat>, rank: nat)
    requires Queryable(pos, n, inv, units) && rank < |pos|
    requires ShiftRight(rank, 10) < |inv| && inv[ShiftRight(rank, 10)] < 0
    ensures Region(G, ShiftRight(rank, 10)) + 4 * ShiftRight(And(rank, 1023), 8) + 4 <= |units|
    ensures And(And(rank, 1023), 255) <= rank
    ensures -inv[ShiftRight(rank, 10)] - 1
            + Word64(units, Region(G, ShiftRight(rank, 10)) + 4 * ShiftRight(And(rank, 1023), 8))
            == pos[rank - And(And(rank, 1023), 255)]
  {
    GeometryOk();
    var b := ShiftRight(rank, 10);
    var subrank := And(rank, 1023);
    SimpleSelect.Located(|pos|, 10, rank);
    EntryOf(pos, n, inv, units, b);
    LongHit(pos, n, b, subrank);
    LongUnit(pos, n, inv, units, b, ShiftRight(subrank, 8));
  }

  /** Every block has an inventory entry, and the sentinel follows them. */
  lemma InventorySize(pos: seq<nat>, n: nat, inv: seq<int>, units: seq<nat>, rank: nat)
    requires Queryable(pos, n, inv, units) && rank < |pos|
    ensures |inv| == NumBlocks(|pos|, 10) + 1 && ShiftRight(rank, 10) < |inv|
  {
    BlockOfBelow(|pos|, 10, rank);
  }

  /**
   * The sampled zero at or below zero `rank`: a non-negative entry is its
   * block's first zero and a 16-bit sample is added to it, a negative entry
   * `-start - 1` gets a 64-bit sample. The residual is the zeros between.
   */
  method Lookup(ghost pos: seq<nat>, n: nat, inv: seq<int>, units: seq<nat>, rank: nat)
    returns (start: nat, residual: nat)
    requires Queryable(pos, n, inv, units) && rank < |pos|
    ensures residual <= rank && start == pos[rank - residual]
  {
    InventorySize(pos, n, inv, units, rank);
    var inventoryIndex := ShiftRight(rank, 10);
    var subrank := And(rank, 1023);
    if inv[inventoryIndex] >= 0 {
      ShortOf(pos, n, inv, units, rank);
      start := inv[inventoryIndex] + units[Region(G, inventoryIndex) + ShiftRight(subrank, 6)];
      residual := And(subrank, 63);
    } else {
      LongOf(pos, n, inv, units, rank);
      start := -inv[inventoryIndex] - 1 + Word64(units, Region(G, inventoryIndex) + 4 * ShiftRight(subrank, 8));
      residual := And(subrank, 255);
    }
  }

  /** The scan that counts `residual` zeros on from the sampled one. */
  method ScanZeros(bits: seq<nat>, n: nat, ghost pos: seq<nat>, rank: nat, start: nat, residual: nat)
    returns (r: nat)
    requires Words(bits) && n <= 64 * |bits| && pos == ZeroPositions(bits, n)
    requires rank < |pos| && residual <= rank && start == pos[rank - residual]
    ensures r == pos[rank]
  {
    if residual == 0 {
      return start;
    }
    ScanFromSample(bits, n, ClearBits, rank, residual, start);
    r := ScanWords(bits, ClearBits, start, residual, rank);
  }

  /** `select_zero( rank )`: a lookup, then a scan. */
  method Query(bits: seq<nat>, n: nat, inv: seq<int>, units: seq<nat>, ghost pos: seq<nat>, rank: nat)
    returns (r: nat)
    requires Words(bits) && n <= 64 * |bits| && pos == ZeroPositions(bits, n)
    requires Queryable(pos, n, inv, units) && rank < |pos|
    ensures r == pos[rank]
  {
    var start, residual := Lookup(pos, n, inv, units, rank);
    r := ScanZeros(bits, n, pos, rank, start, residual);
  }

  /** A zero's position, with the zeros before it counted: the constructor's debug check. */
  lemma ZeroAt(s: seq<bool>, t: nat, rank: nat)
    requires t < |s| && MarksOf(ClearBits, s)[t] && Rank(MarksOf(ClearBits, s), t) == rank
    ensures !s[t] && t - Rank(s, t) == rank
  {
    ClearMarks(s);
    RankFlip(s, t);
  }

  /** `simple_select_zero_half` */
  class SimpleSelectZeroHalf {
    /** The indexed words (`bits`, shared with the caller). */
    const bits: seq<nat>
    const numBits: nat
    const numWords: nat
    /** `num_ones`: the zeros of the whole words, the padding included. */
    const numOnes: nat
    const inventorySize: nat
    /** `inventory`: inventory_size + 1 entries, long blocks as `-start - 1`. */
    const inventory: seq<int>
    /** `subinventory`, as 16-bit units, four to a word. */
    const subinventory: seq<nat>
    /** The indexed stream: the first num_bits bits of `bits`. */
    ghost const Source: seq<bool>
    /** The positions of its zeros in order. */
    ghost const Pos: seq<nat>

    ghost predicate Valid()
    {
      Built(bits, numBits, |Pos|, inventory, subinventory)
      && Source == WordStream(bits)[..numBits] && Pos == ZeroPositions(bits, numBits)
      && numWords == (numBits + 63) / 64 && inventorySize == NumBlocks(|Pos|, 10)
    }

    /** `simple_select_zero_half( bits, num_bits )` */
    constructor (bits: seq<nat>, numBits: nat)
      requires Admissible(bits, numBits)
      ensures Valid() && this.bits == bits && this.numBits == numBits
      ensures Source == WordStream(bits)[..numBits] && |Pos| == Ones(Flip(Source))
      ensures numOnes == |Pos| + (64 * numWords - numBits)
      ensures |inventory| == inventorySize + 1 && |subinventory| == 16 * inventorySize
    {
      var ones, c, inv, units := Build(bits, numBits);
      this.bits := bits;
      this.numBits := numBits;
      numWords := (numBits + 63) / 64;
      numOnes := ones;
      inventorySize := NumBlocks(c, 10);
      inventory := inv;
      subinventory := units;
      Source := WordStream(bits)[..numBits];
      Pos := ZeroPositions(bits, numBits);
      ClearMarks(WordStream(bits)[..numBits]);
      CapacityIs(c, NumBlocks(c, 10));
    }

    /**
     * `select_zero( rank )`: the position of the rank-th zero (from 0), with
     * exactly `rank` zeros before it.
     */
    method SelectZero(rank: nat) returns (r: nat)
      requires Valid() && rank < |Pos|
      ensures r == Pos[rank] && r < numBits && !Source[r] && r - Rank(Source, r) == rank
    {
      PositionsIncreasing(MarksOf(ClearBits, Prefix(bits, numBits)));
      r := Query(bits, numBits, inventory, subinventory, Pos, rank);
      ZeroAt(Source, r, rank);
    }
  }

  // ---------------------------------------------------------------------
  // The constructor as written
  // ---------------------------------------------------------------------

  /** `inventory.resize( inventory_size )`: the entries the vector holds as written. */
  function InventoryLengthAsWritten(c: nat): nat
  {
    (c + 1024 - 1) / 1024
  }

  /**
   * The sentinel `inventory[ inventory_size ] = num_bits`, and the read
   * `inventory[ inventory_index + 1 ]` of the last block, index the vector
   * one past its end as written.
   */
  lemma SentinelPastEnd(c: nat)
    ensures NumBlocks(c, 10) == InventoryLengthAsWritten(c)
    ensures c > 0 ==> ShiftRight(c - 1, 10) + 1 == InventoryLengthAsWritten(c)
  {
    GeometryOk();
    BlocksIs(c, 10);
    if c > 0 {
      var b := ShiftRight(c - 1, 10);
      BlockOfBelow(c, 10, c - 1);
      Decompose(c - 1, 10);
      BlockExists(c, 10, b + 1);
      ScaleNext(b, 10);
    }
  }

  /** Line 99 flags a block whose span exceeds 2^16. */
  predicate FlaggedAsWritten(span: int)
  {
    span > 0x1_0000
  }

  /** Line 105 keeps 16-bit offsets for a span below 2^16, 64-bit ones otherwise. */
  predicate SixteenBitAsWritten(span: int)
  {
    span < 0x1_0000
  }

  /**
   * A span of exactly 2^16 gets 64-bit offsets but an unflagged entry, so
   * `select_zero` reads those words as 16-bit offsets.
   */
  lemma ExactSpanMisread(span: int)
    ensures FlaggedAsWritten(span) == !SixteenBitAsWritten(span) <==> span != 0x1_0000
  {
  }

  /**
   * What `select_zero` answers in such a block.  The entry is not flagged,
   * so the query takes the 16-bit path and reads unit subrank / 64 of the
   * block's four words as written.  From subrank 256 on that unit lies in
   * words 1 to 3, which the 64-bit samples never reach, so it reads 0 and
   * the scan starts from the block's first zero instead of from zero
   * subrank - subrank % 64.
   */
  lemma ExactSpanAnswer(pos: seq<nat>, n: nat, b: nat, subrank: nat)
    requires Increasing(pos) && Below(pos, n) && b < NumBlocks(|pos|, 10)
    requires Sample(pos, n, 10, b + 1) - Sample(pos, n, 10, b) == 0x1_0000
    requires 256 <= subrank < BlockOnes(|pos|, 10, b)
    ensures !FlaggedAsWritten(0x1_0000) && !SixteenBitAsWritten(0x1_0000)
    ensures Scale(b, 10) + subrank < |pos|
    ensures var u := subrank / 64;
      u / 4 < 4
      && Sample(pos, n, 10, b) + Unit(LongWordsAsWritten(LongSamples(pos, n, b))[u / 4], u % 4) == pos[Scale(b, 10)]
      < pos[Scale(b, 10) + (subrank - subrank % 64)]
  {
    GeometryOk();
    var u := subrank / 64;
    var w := LongWordsAsWritten(LongSamples(pos, n, b));
    LastSampleWins(LongSamples(pos, n, b));
    assert w[u / 4] == 0;
    ShiftRightZero(16 * (u % 4));
    LowBitsSmall(0, 16);
    assert Unit(w[u / 4], u % 4) == 0;
    InBlock(pos, n, 10, b, 0);
    assert Sample(pos, n, 10, b) == pos[Scale(b, 10)];
    InBlock(pos, n, 10, b, subrank - subrank % 64);
    ScaleIs(b, 10);
  }

  /** Shifting 0 right leaves 0. */
  lemma {:induction false} ShiftRightZero(s: nat)
    ensures ShiftRight(0, s) == 0
  {
    if s > 0 { ShiftRightZero(s - 1); }
  }

  /**
   * A long block's four words as written: `p64[ offset ] = ...` without
   * `offset++`, so every 64-bit sample overwrites word 0.
   */
  function LongWordsAsWritten(samples: seq<nat>): (w: seq<nat>)
    ensures |w| == 4
  {
    if samples == [] then Zeros(4)
    else LongWordsAsWritten(samples[..|samples| - 1])[0 := samples[|samples| - 1]]
  }

  /** As written, word 0 ends with the last sample and the other words stay zero. */
  lemma {:induction false} LastSampleWins(samples: seq<nat>)
    ensures LongWordsAsWritten(samples)[1..] == [0, 0, 0]
    ensures samples != [] ==> LongWordsAsWritten(samples)[0] == samples[|samples| - 1]
  {
    if samples != [] {
      LastSampleWins(samples[..|samples| - 1]);
    }
  }

  /** The 64-bit samples of a long block, every 256th zero's offset from its first. */
  ghost function LongSamples(pos: seq<nat>, n: nat, b: nat): (r: seq<nat>)
    requires Increasing(pos) && Below(pos, n) && b < NumBlocks(|pos|, 10)
    ensures |r| == NumBlocks(BlockOnes(|pos|, 10, b), 8)
  {
    var ones := BlockOnes(|pos|, 10, b);
    seq(NumBlocks(ones, 8), k requires 0 <= k < NumBlocks(ones, 8) => SubSample(pos, n, 10, b, ones, 8, k))
  }

  /**
   * As written, `select_zero` of the first zero of a flagged block with
   * more than 256 zeros returns its first position plus word 0, which
   * holds the offset of a later zero: not the first zero's position.
   */
  lemma FirstZeroMisplaced(pos: seq<nat>, n: nat, b: nat)
    requires Increasing(pos) && Below(pos, n) && b < NumBlocks(|pos|, 10)
    requires FlaggedAsWritten(Sample(pos, n, 10, b + 1) - Sample(pos, n, 10, b))
    requires BlockOnes(|pos|, 10, b) > 256
    ensures Scale(b, 10) < |pos|
    ensures Sample(pos, n, 10, b) + LongWordsAsWritten(LongSamples(pos, n, b))[0] > pos[Scale(b, 10)]
  {
    GeometryOk();
    var ones := BlockOnes(|pos|, 10, b);
    var samples := LongSamples(pos, n, b);
    var m := |samples|;
    BlockOfBelow(ones, 8, 256);
    Decompose(256, 8);
    assert ShiftRight(256, 8) == 1;
    LastSampleWins(samples);
    InBlock(pos, n, 10, b, 0);
    BlockExists(ones, 8, m - 1);
    ScaleMono(1, m - 1, 8);
    ScaleIs(1, 8);
    InBlock(pos, n, 10, b, Scale(m - 1, 8));
    ScaleIs(0, 10);
  }

  /** `num_ones` as written: the zeros of the whole words, before the padding is subtracted. */
  ghost function NumOnesAsWritten(bits: seq<nat>, numBits: nat): nat
    requires (numBits + 63) / 64 <= |bits|
  {
    Ones(Flip(WordStream(bits[..(numBits + 63) / 64])))
  }

  /**
   * `assert( rank < num_ones )` admits, when the last word is partial, ranks
   * past the last zero of the stream.
   */
  lemma PaddingRanksAdmitted(bits: seq<nat>, numBits: nat)
    requires Admissible(bits, numBits) && numBits % 64 != 0
    ensures numBits <= 64 * |bits|
    ensures Ones(MarksOf(ClearBits, Prefix(bits, numBits))) < NumOnesAsWritten(bits, numBits)
  {
    PaddingZeros(bits, (numBits + 63) / 64, numBits);
    PaddingIs(numBits);
  }
}
