/**
 * `simple_select11`: select over the double-ones of a word array.  A set
 * bit opens a pair and the next bit closes it when set (a double-one,
 * marked at its second bit) or forgets it when clear, so a run of k ones
 * holds k / 2 double-ones.  The index is `simple_select`'s over the
 * second bits of the double-ones, and `select11( r )` answers one past
 * the second bit of the r-th of them (counting from 1): the length of the
 * shortest prefix holding r double-ones.
 */
module Select11 {
  import opened Bits
  import opened Streams
  import opened Broadword
  import opened EliasFanoBits
  import opened Inventories
  import opened Subinventories
  import opened SubinventoryFill
  import opened WordScan
  import SimpleSelect

  /** `MAX_LOG2_LONGWORDS_PER_SUBINVENTORY`, one more than `simple_select`'s. */
  const MaxLog2Longwords: nat := 4

  /** The positions of the second bits of the double-ones among the first n bits. */
  ghost function PairPositions(bits: seq<nat>, n: nat): seq<nat>
    requires n <= 64 * |bits|
  {
    Positions(MarksOf(DoubleOnes, Prefix(bits, n)))
  }

  /**
   * What the constructor demands: a word array of num_bits bits, the
   * caller's `num_double_ones` equal to the count of the first scan
   * (`assert( c == d )`), and more than one double-one per inventory entry
   * (`assert( ones_per_inventory > 1 )`); a length below 2^50 keeps
   * `c * MAX_ONES_PER_INVENTORY` from wrapping.
   */
  ghost predicate Admissible(bits: seq<nat>, numBits: nat, numDoubleOnes: nat)
  {
    Words(bits) && 0 < numBits < SimpleSelect.MaxBits && (numBits + 63) / 64 <= |bits|
    && numDoubleOnes == Ones(MarksOf(DoubleOnes, Prefix(bits, numBits)))
    && 2 <= SimpleSelect.Ratio(numDoubleOnes, numBits)
  }

  /** A ratio of two or more needs a double-one and gives at least two per entry. */
  lemma PerInventory(c: nat, n: nat)
    requires c <= n < SimpleSelect.MaxBits && 0 < n && 2 <= SimpleSelect.Ratio(c, n)
    ensures 0 < c && 1 <= SimpleSelect.Log2PerInventory(c, n)
  {
    if c == 0 {
      assert SimpleSelect.Ratio(c, n) == (n - 1) / n;
      DivAtLeast(n - 1, n, 1);
    }
    assert Pow2(1) == 2;
  }

  /**
   * The built index: c double-ones, the geometry derived from
   * `log2_ones_per_inventory` with at most 2^4 longwords per entry, and
   * the inventory, subinventory and exact spill the three scans leave.
   */
  ghost predicate Built(bits: seq<nat>, n: nat, c: nat, g: Geometry,
                        inv: seq<int>, units: seq<nat>, spill: seq<nat>)
  {
    Words(bits) && 0 < n < SimpleSelect.MaxBits && n <= 64 * |bits|
    && c == Ones(MarksOf(DoubleOnes, Prefix(bits, n))) && 0 < c <= n
    && g == Derived(SimpleSelect.Log2PerInventory(c, n), MaxLog2Longwords) && 1 <= g.log2PerInventory
    && Filled(PairPositions(bits, n), n, g, inv, units, spill)
  }

  /**
   * The constructor: `log2_ones_per_inventory = msb( ratio )`, then its
   * passes.
   */
  method Build(bits: seq<nat>, numBits: nat, numDoubleOnes: nat)
    returns (g: Geometry, inv: seq<int>, units: seq<nat>, spill: seq<nat>)
    requires Admissible(bits, numBits, numDoubleOnes)
    ensures Built(bits, numBits, numDoubleOnes, g, inv, units, spill)
  {
    PerInventory(numDoubleOnes, numBits);
    SimpleSelect.RatioBounds(numDoubleOnes, numBits);
    var l := Msb(SimpleSelect.Ratio(numDoubleOnes, numBits)) as nat;
    g, inv, units, spill := Passes(bits, numBits, numDoubleOnes, l);
  }

  /**
   * The passes: the inventory of every 2^L-th double-one and the
   * sentinel, then the sizing pass, the zeroed `subinventory` and
   * `exact_spill`, and the filling pass, each scan keeping the `firstone`
   * flag.
   */
  method Passes(bits: seq<nat>, numBits: nat, c: nat, l: nat)
    returns (g: Geometry, inv: seq<int>, units: seq<nat>, spill: seq<nat>)
    requires numBits <= 64 * |bits| && numBits < SimpleSelect.MaxBits && 1 <= l
    requires c == Ones(MarksOf(DoubleOnes, Prefix(bits, numBits))) && 0 < c
    ensures g == Derived(l, MaxLog2Longwords)
    ensures Filled(PairPositions(bits, numBits), numBits, g, inv, units, spill)
  {
    var onesPerInventory := Pow2(l);
    var inventorySize := (c + onesPerInventory - 1) / onesPerInventory;
    BlocksIs(c, l);
    var inventory := InventoryPass(bits, numBits, DoubleOnes, l, inventorySize);
    g := Derived(l, MaxLog2Longwords);
    DerivedOk(l, MaxLog2Longwords);
    units, spill := SimpleSelect.FillParts(bits, numBits, DoubleOnes, c, g, inventory);
    inv := inventory[..];
  }

  /** The double-one positions of a built index, and what a query needs of them. */
  lemma BuiltPositions(bits: seq<nat>, n: nat, c: nat, g: Geometry, inv: seq<int>, units: seq<nat>, spill: seq<nat>)
    requires Built(bits, n, c, g, inv, units, spill)
    ensures |PairPositions(bits, n)| == c
    ensures SimpleSelect.Queryable(PairPositions(bits, n), n, g, inv, units, spill)
  {
    PositionsIncreasing(MarksOf(DoubleOnes, Prefix(bits, n)));
  }

  // ---------------------------------------------------------------------
  // The paths of a query
  // ---------------------------------------------------------------------

  /**
   * A sampled double-one: `1 + inventory_rank & ~( 1ULL << 63 )` adds one
   * before it clears the flag, and gives one past the sampled position.
   */
  lemma SampledNext(pos: seq<nat>, n: nat, g: Geometry, inv: seq<int>, units: seq<nat>, spill: seq<nat>, rank: nat)
    requires SimpleSelect.Queryable(pos, n, g, inv, units, spill) && rank < |pos|
    requires 1 <= g.log2PerInventory && And(rank, Pow2(g.log2PerInventory) - 1) == 0
    ensures ShiftRight(rank, g.log2PerInventory) < |inv|
    ensures -Top <= 1 + inv[ShiftRight(rank, g.log2PerInventory)] < Top
    ensures And(Unsigned(1 + inv[ShiftRight(rank, g.log2PerInventory)]), Pow2(63) - 1) == pos[rank] + 1
  {
    var l := g.log2PerInventory;
    var b := ShiftRight(rank, l);
    SimpleSelect.Located(|pos|, l, rank);
    assert Filled(pos, n, g, inv, units, spill);
    SimpleSelect.EntryAt(pos, n, g, inv, units, spill, b);
    BlockExists(|pos|, l, b);
    assert Sample(pos, n, l, b) == pos[rank];
    ClearTop(pos[rank] + 1, IsLong(pos, n, l, b));
  }

  /**
   * The lookups of `select11`, for `rank = rankToFind - 1`: a sampled
   * double-one from its entry; otherwise `simple_select`'s short and long
   * paths plus one.  Each start is one past the position of double-one
   * `rank - residual`, with `residual` double-ones left to scan.
   */
  method Lookup(ghost pos: seq<nat>, n: nat, g: Geometry, inv: seq<int>, units: seq<nat>, spill: seq<nat>, rank: nat)
    returns (start: nat, residual: nat)
    requires SimpleSelect.Queryable(pos, n, g, inv, units, spill) && rank < |pos| && 1 <= g.log2PerInventory
    ensures residual <= rank && start == pos[rank - residual] + 1
  {
    var l := g.log2PerInventory;
    var inventoryIndex := ShiftRight(rank, l);
    if And(rank, Pow2(l) - 1) == 0 {
      start := SampledLookup(pos, n, g, inv, units, spill, rank);
      return start, 0;
    }
    SimpleSelect.Located(|pos|, l, rank);
    SimpleSelect.InventorySize(pos, n, g, inv, units, spill);
    var position: nat;
    if inv[inventoryIndex] >= 0 {
      position, residual := SimpleSelect.ShortLookup(pos, n, g, inv, units, spill, rank);
    } else {
      position := SimpleSelect.LongLookup(pos, n, g, inv, units, spill, rank);
      residual := 0;
    }
    start := 1 + position;
  }

  /** A sampled double-one: `1 + inventory_rank`, with bit 63 cleared after the addition. */
  method SampledLookup(ghost pos: seq<nat>, n: nat, g: Geometry, inv: seq<int>, units: seq<nat>, spill: seq<nat>, rank: nat)
    returns (r: nat)
    requires SimpleSelect.Queryable(pos, n, g, inv, units, spill) && rank < |pos|
    requires 1 <= g.log2PerInventory && And(rank, Pow2(g.log2PerInventory) - 1) == 0
    ensures r == pos[rank] + 1
  {
    SampledNext(pos, n, g, inv, units, spill, rank);
    r := And(Unsigned(1 + inv[ShiftRight(rank, g.log2PerInventory)]), Pow2(63) - 1);
  }

  // ---------------------------------------------------------------------
  // The residual scan
  // ---------------------------------------------------------------------

  /** Bit j of word i is position 64 i + j of the stream. */
  lemma StreamBit(bits: seq<nat>, i: nat, j: nat)
    requires i < |bits| && j < 64
    ensures Bit(bits[i], j) == WordStream(bits)[64 * i + j]
  {
    assert (64 * i + j) / 64 == i && (64 * i + j) % 64 == j;
  }

  /** `(*bits)[ start / 64 ] & -1ULL << start` keeps the bits from start on. */
  lemma FirstWord(bits: seq<nat>, start: nat, word: nat)
    requires Words(bits) && start < 64 * |bits|
    requires word == And(bits[start / 64], NegPow2(start % 64))
    ensures forall j | start % 64 <= j < 64 :: Bit(word, j) == Bit(bits[start / 64], j)
  {
    forall j | start % 64 <= j < 64
      ensures Bit(word, j) == Bit(bits[start / 64], j)
    {
      BitAnd(bits[start / 64], NegPow2(start % 64), j);
    }
  }

  /**
   * The state of the residual loop at position p: `firstone` is the flag
   * before p, and `res` double-ones, the last of them double-one k, are
   * still to come.
   */
  ghost predicate ScanAt(bits: seq<nat>, k: nat, p: nat, firstone: bool, res: nat)
  {
    p <= 64 * |bits| && 0 < res
    && k + 1 == Rank(AllMarks(DoubleOnes, bits), p) + res
    && firstone == Paired(WordStream(bits), p)
  }

  /**
   * One bit of the scan, bit j of word i: the bit is a double-one exactly
   * when it is set and closes an open pair, and the flag after it is set
   * exactly when the bit opens one; the last double-one wanted is k.
   */
  lemma PairStep(bits: seq<nat>, k: nat, i: nat, j: nat, p: nat, firstone: bool, res: nat)
    requires i < |bits| && j < 64 && p == 64 * i + j && ScanAt(bits, k, p, firstone, res)
    ensures Bit(bits[i], j) && firstone && res == 1
            ==> k < Ones(AllMarks(DoubleOnes, bits)) && Select(AllMarks(DoubleOnes, bits), k) == p
    ensures Bit(bits[i], j) && firstone && res > 1 ==> ScanAt(bits, k, p + 1, false, res - 1)
    ensures Bit(bits[i], j) && !firstone ==> ScanAt(bits, k, p + 1, true, res)
    ensures !Bit(bits[i], j) ==> ScanAt(bits, k, p + 1, false, res)
  {
    var s := WordStream(bits);
    var f := AllMarks(DoubleOnes, bits);
    StreamBit(bits, i, j);
    RankStep(f, p);
    if s[p] && firstone && res == 1 {
      SelectUnique(f, k, p);
    }
  }

  /** A position with fewer marks before it than the stream holds lies inside it. */
  lemma Inside(bits: seq<nat>, k: nat, p: nat, firstone: bool, res: nat)
    requires ScanAt(bits, k, p, firstone, res) && k < Ones(AllMarks(DoubleOnes, bits))
    ensures p < 64 * |bits|
  {
    RankAll(AllMarks(DoubleOnes, bits));
  }

  /**
   * The inner loop of `select11`'s scan: walk the bits of one word from
   * `place` on, counting them in `place`, and stop right after the
   * `res`-th double-one, or at the end of the word.
   */
  method ScanWord(bits: seq<nat>, ghost k: nat, wordIndex: nat, word: nat, place: nat, ghost at: nat,
                  firstone: bool, res: nat)
    returns (place': nat, ghost at': nat, firstone': bool, res': nat)
    requires wordIndex < |bits| && place < 64 && at == 64 * wordIndex + place && ScanAt(bits, k, at, firstone, res)
    requires forall j | place <= j < 64 :: Bit(word, j) == Bit(bits[wordIndex], j)
    ensures at' == 64 * wordIndex + place'
    ensures res' == 0 ==> k < Ones(AllMarks(DoubleOnes, bits)) && Select(AllMarks(DoubleOnes, bits), k) + 1 == at'
    ensures res' > 0 ==> place' == 64 && ScanAt(bits, k, at', firstone', res')
  {
    place', at', firstone', res' := place, at, firstone, res;
    var j := place;
    while j < 64
      invariant place' == j <= 64 && at' == 64 * wordIndex + place' && ScanAt(bits, k, at', firstone', res')
    {
      PairStep(bits, k, wordIndex, j, at', firstone', res');
      place' := place' + 1;
      at' := at' + 1;
      if Bit(word, j) {
        if !firstone' {
          firstone' := true;
        } else {
          res' := res' - 1;
          if res' == 0 {
            break;
          }
          firstone' := false;
        }
      } else {
        firstone' := false;
      }
      j := j + 1;
    }
  }

  /**
   * The residual loop of `select11`: from `start`, with no pair open,
   * scan word by word (the first word masked below start) until the
   * `residual`-th double-one; the result is one past double-one k.
   */
  method ScanPairs(bits: seq<nat>, start: nat, residual: nat, ghost k: nat) returns (r: nat)
    requires Words(bits) && start <= 64 * |bits| && 0 < residual
    requires k + 1 == Rank(AllMarks(DoubleOnes, bits), start) + residual && k < Ones(AllMarks(DoubleOnes, bits))
    requires !Paired(WordStream(bits), start)
    ensures k < Ones(AllMarks(DoubleOnes, bits)) && r == Select(AllMarks(DoubleOnes, bits), k) + 1
  {
    Inside(bits, k, start, false, residual);
    var wordIndex: nat := start / 64;
    var firstone := false;
    var place: nat := start % 64;
    var res: nat := residual;
    var word := And(bits[wordIndex], NegPow2(start % 64));
    FirstWord(bits, start, word);
    ghost var at := start;
    while true
      invariant wordIndex < |bits| && place < 64 && at == 64 * wordIndex + place && ScanAt(bits, k, at, firstone, res)
      invariant forall j | place <= j < 64 :: Bit(word, j) == Bit(bits[wordIndex], j)
      decreases 64 * |bits| - at
    {
      place, at, firstone, res := ScanWord(bits, k, wordIndex, word, place, at, firstone, res);
      if res > 0 {
        Inside(bits, k, at, firstone, res);
        wordIndex := wordIndex + 1;
        place := 0;
        word := bits[wordIndex];
      } else {
        break;
      }
    }
    r := wordIndex * 64 + place;
  }

  /** Past a double-one no pair is open, and one more double-one is counted. */
  lemma PastMark(s: seq<bool>, p: nat, k: nat, residual: nat)
    requires 0 < p <= |s| && MarksOf(DoubleOnes, s)[p - 1] && k == Rank(MarksOf(DoubleOnes, s), p - 1) + residual
    ensures !Paired(s, p) && k + 1 == Rank(MarksOf(DoubleOnes, s), p) + residual
  {
    RankStep(MarksOf(DoubleOnes, s), p - 1);
    PairClosed(s, p - 1);
  }

  /**
   * The scan resumes one past a double-one, where no pair is open, with
   * the double-ones after it counted over the whole array: those past n
   * lie after the wanted one.
   */
  lemma PairsFromSample(bits: seq<nat>, n: nat, k: nat, residual: nat, start: nat)
    requires n <= 64 * |bits| && k < |PairPositions(bits, n)| && 0 < residual <= k
    requires start == PairPositions(bits, n)[k - residual] + 1
    ensures start <= 64 * |bits| && !Paired(WordStream(bits), start)
    ensures k + 1 == Rank(AllMarks(DoubleOnes, bits), start) + residual && k < Ones(AllMarks(DoubleOnes, bits))
    ensures Select(AllMarks(DoubleOnes, bits), k) == PairPositions(bits, n)[k]
  {
    SampleIsMark(bits, n, k, residual, start - 1);
    PastMark(WordStream(bits), start, k, residual);
  }

  /** The sample is a double-one of the whole array, with the ranks counted over it. */
  lemma SampleIsMark(bits: seq<nat>, n: nat, k: nat, residual: nat, sample: nat)
    requires n <= 64 * |bits| && k < |PairPositions(bits, n)| && residual <= k
    requires sample == PairPositions(bits, n)[k - residual]
    ensures sample < 64 * |bits| && AllMarks(DoubleOnes, bits)[sample]
    ensures k == Rank(AllMarks(DoubleOnes, bits), sample) + residual && k < Ones(AllMarks(DoubleOnes, bits))
    ensures Select(AllMarks(DoubleOnes, bits), k) == PairPositions(bits, n)[k]
  {
    var m := MarksOf(DoubleOnes, Prefix(bits, n));
    ScanFromSample(bits, n, DoubleOnes, k, residual, sample);
    MarksOfPrefix(DoubleOnes, bits, n);
    assert m[sample];
  }

  /** From a lookup's `start`, the scan of the residual double-ones. */
  method ScanFrom(bits: seq<nat>, n: nat, ghost pos: seq<nat>, rank: nat, start: nat, residual: nat)
    returns (r: nat)
    requires Words(bits) && n <= 64 * |bits| && pos == PairPositions(bits, n)
    requires rank < |pos| && residual <= rank && start == pos[rank - residual] + 1
    ensures r == pos[rank] + 1
  {
    if residual == 0 {
      return start;
    }
    PairsFromSample(bits, n, rank, residual, start);
    r := ScanPairs(bits, start, residual, rank);
  }

  /** `select11( rankToFind )`: zero for rank zero, else a lookup and a scan for `rankToFind - 1`. */
  method Query(bits: seq<nat>, n: nat, g: Geometry, inv: seq<int>, units: seq<nat>, spill: seq<nat>,
               ghost pos: seq<nat>, rankToFind: nat) returns (r: nat)
    requires Words(bits) && n <= 64 * |bits| && pos == PairPositions(bits, n) && 1 <= g.log2PerInventory
    requires SimpleSelect.Queryable(pos, n, g, inv, units, spill) && rankToFind <= |pos|
    ensures r == if rankToFind == 0 then 0 else pos[rankToFind - 1] + 1
  {
    if rankToFind == 0 {
      return 0;
    }
    var rank := rankToFind - 1;
    var start, residual := Lookup(pos, n, g, inv, units, spill, rank);
    r := ScanFrom(bits, n, pos, rank, start, residual);
  }

  /**
   * One past the position of mark r - 1 is the shortest prefix that holds
   * r marks: it holds exactly r, ends in a mark, and every shorter prefix
   * holds fewer.
   */
  lemma {:induction false} ShortestPrefix(m: seq<bool>, r: nat, p: nat)
    requires 0 < r <= Ones(m) && p == Select(m, r - 1) + 1
    ensures p <= |m| && m[p - 1] && Rank(m, p) == r
    ensures forall q | 0 <= q < p :: Rank(m, q) < r
  {
    RankStep(m, p - 1);
    forall q | 0 <= q < p
      ensures Rank(m, q) < r
    {
      RankMono(m, q, p - 1);
    }
  }

  /**
   * The answer of a query, one past the position of double-one rank - 1
   * (zero for rank zero), is the shortest prefix of the stream holding
   * rank double-ones.
   */
  lemma QueryIsShortest(s: seq<bool>, pos: seq<nat>, rank: nat, r: nat)
    requires pos == Positions(MarksOf(DoubleOnes, s)) && rank <= |pos|
    requires r == if rank == 0 then 0 else pos[rank - 1] + 1
    ensures r <= |s| && Rank(MarksOf(DoubleOnes, s), r) == rank
    ensures forall q | 0 <= q < r :: Rank(MarksOf(DoubleOnes, s), q) < rank
  {
    if rank > 0 {
      ShortestPrefix(MarksOf(DoubleOnes, s), rank, r);
    }
  }

  /** `simple_select11` */
  class SimpleSelect11 {
    /** The indexed words (`bits`, shared with the caller). */
    const bits: seq<nat>
    const numBits: nat
    /** `num_ones`: the caller's count of double-ones. */
    const numOnes: nat
    /** `log2_ones_per_inventory` and the sample rates derived from it. */
    const g: Geometry
    /** `inventory`: inventory_size + 1 entries, long blocks flagged by bit 63. */
    const inventory: seq<int>
    /** `subinventory`, as 16-bit units, four to a word. */
    const subinventory: seq<nat>
    /** `exact_spill` */
    const exactSpill: seq<nat>
    /** The indexed stream: the first num_bits bits of `bits`. */
    ghost const Source: seq<bool>
    /** The positions of the second bits of its double-ones, in order. */
    ghost const Pos: seq<nat>

    ghost predicate Valid()
    {
      Built(bits, numBits, numOnes, g, inventory, subinventory, exactSpill)
      && Source == WordStream(bits)[..numBits] && Pos == Positions(MarksOf(DoubleOnes, Source))
      && Pos == PairPositions(bits, numBits)
    }

    /** `simple_select11( bits, num_bits, num_double_ones )` */
    constructor (bits: seq<nat>, numBits: nat, numDoubleOnes: nat)
      requires Admissible(bits, numBits, numDoubleOnes)
      ensures Valid() && this.bits == bits && this.numBits == numBits && numOnes == numDoubleOnes
      ensures Source == WordStream(bits)[..numBits] && |Pos| == numOnes
    {
      var geometry, inv, units, spill := Build(bits, numBits, numDoubleOnes);
      this.bits := bits;
      this.numBits := numBits;
      numOnes := numDoubleOnes;
      g := geometry;
      inventory := inv;
      subinventory := units;
      exactSpill := spill;
      Source := WordStream(bits)[..numBits];
      Pos := PairPositions(bits, numBits);
    }

    /**
     * `select11( rank )`: 0 for rank 0, else one past the second bit of
     * the rank-th double-one; the shortest prefix of the stream holding
     * rank double-ones.
     */
    method Select11(rank: nat) returns (r: nat)
      requires Valid() && rank <= numOnes
      ensures r == if rank == 0 then 0 else Pos[rank - 1] + 1
      ensures r <= numBits && Rank(MarksOf(DoubleOnes, Source), r) == rank
      ensures forall q | 0 <= q < r :: Rank(MarksOf(DoubleOnes, Source), q) < rank
    {
      BuiltPositions(bits, numBits, numOnes, g, inventory, subinventory, exactSpill);
      r := Query(bits, numBits, g, inventory, subinventory, exactSpill, Pos, rank);
      QueryIsShortest(Source, Pos, rank, r);
    }
  }
}
