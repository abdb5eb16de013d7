/**
 * `FingerPrintStore` and `FingerPrintValueStore`: one fixed-width hash
 * fragment (the fingerprint) per slot of a minimal perfect hash, kept in a
 * `CompactStore`, and the lookup that answers a key's value only when the
 * fingerprint at its slot matches.
 *
 * Hashing is MurmurHash2 (Austin Appleby) on 32-bit unsigned arithmetic,
 * written out with explicit wrap-around; the fingerprint is the top bits
 * of the 32-bit hash.
 */
module FingerPrints {
  import opened Bits
  import opened CompactStores

  /** An `unsigned char` of a key. */
  type Byte = b: nat | b < 0x100

  /** The hash takes the key length as an `int`; keys are shorter than 2^31 bytes. */
  const MaxKeyLength: nat := 0x8000_0000

  type Key = k: seq<Byte> | |k| < MaxKeyLength

  /** Bits of the hash, a 32-bit `unsigned`.  Passed as this name, never as the numeral. */
  const HashBits: nat := 32

  lemma HashPow()
    ensures Pow2(HashBits) == HalfMod
  {
    Pow2Values();
  }

  /** The mixing constants `m` and `r`. */
  const M: nat := 0x5bd1e995
  const R: nat := 24

  /** `a * b` on 32-bit `unsigned`. */
  function Mul32(a: nat, b: nat): (r: nat)
    ensures r < HalfMod
  {
    (a * b) % HalfMod
  }

  /** `a ^ b` on 32-bit `unsigned`. */
  function Xor32(a: nat, b: nat): (r: nat)
    requires a < HalfMod && b < HalfMod
    ensures r < HalfMod
  {
    HashPow();
    XorBound(a, b, HashBits);
    Xor(a, b)
  }

  /** `h ^= h >> s` on 32-bit `unsigned`. */
  function XorShift(h: nat, s: nat): (r: nat)
    requires h < HalfMod
    ensures r < HalfMod
  {
    ShiftRightLe(h, s);
    Xor32(h, ShiftRight(h, s))
  }

  /** Block i of the key: bytes 4i .. 4i + 3 read as a little-endian `unsigned`. */
  function Block(key: seq<Byte>, i: nat): (k: nat)
    requires 4 * i + 4 <= |key|
    ensures k < HalfMod
  {
    (key[4 * i] as nat) + 0x100 * (key[4 * i + 1] as nat) + 0x1_0000 * (key[4 * i + 2] as nat) + 0x100_0000 * (key[4 * i + 3] as nat)
  }

  /** One block mixed into the hash. */
  function MixBlock(h: nat, k: nat): (r: nat)
    requires h < HalfMod && k < HalfMod
    ensures r < HalfMod
  {
    var k1 := Mul32(XorShift(Mul32(k, M), R), M);
    Xor32(Mul32(h, M), k1)
  }

  /** The hash after the first n blocks of the key. */
  function MixBlocks(h: nat, key: seq<Byte>, n: nat): (r: nat)
    requires h < HalfMod && 4 * n <= |key|
    ensures r < HalfMod
  {
    if n == 0 then h else MixBlock(MixBlocks(h, key, n - 1), Block(key, n - 1))
  }

  /** The zero to three bytes after the last whole block, top byte first. */
  function MixTail(h: nat, tail: seq<Byte>): (r: nat)
    requires h < HalfMod && |tail| < 4
    ensures r < HalfMod
  {
    var h3 := if |tail| == 3 then Xor32(h, (tail[2] as nat) * 0x1_0000) else h;
    var h2 := if |tail| >= 2 then Xor32(h3, (tail[1] as nat) * 0x100) else h3;
    if |tail| >= 1 then Mul32(Xor32(h2, tail[0]), M) else h2
  }

  /** The final avalanche. */
  function Finalize(h: nat): (r: nat)
    requires h < HalfMod
    ensures r < HalfMod
  {
    XorShift(Mul32(XorShift(h, 13), M), 15)
  }

  /**
   * MurmurHash2 of a key, block by block: the seed mixed with the length,
   * each whole 4-byte block, the tail bytes, the final avalanche.
   */
  function Murmur2(key: Key, seed: nat): (r: nat)
    requires seed < HalfMod
    ensures r < HalfMod
  {
    var blocks := |key| / 4;
    Finalize(MixTail(MixBlocks(Xor32(seed, |key|), key, blocks), key[4 * blocks..]))
  }

  /** `MurmurHash2(key, len, seed)`: the loop over 4-byte blocks, then the fall-through switch. */
  method MurmurHash2(key: Key, seed: nat) returns (h: nat)
    requires seed < HalfMod
    ensures h == Murmur2(key, seed)
  {
    var len: nat := |key|;
    var h0 := Xor32(seed, len);
    h := h0;
    var data := 0;
    ghost var blocks := 0;
    while len >= 4
      invariant data + len == |key| && data == 4 * blocks
      invariant h == MixBlocks(h0, key, blocks)
    {
      var k := (key[data] as nat) + 0x100 * (key[data + 1] as nat) + 0x1_0000 * (key[data + 2] as nat) + 0x100_0000 * (key[data + 3] as nat);
      k := Mul32(k, M);
      k := XorShift(k, R);
      k := Mul32(k, M);
      h := Mul32(h, M);
      h := Xor32(h, k);
      data := data + 4;
      len := len - 4;
      blocks := blocks + 1;
    }
    DivUnique(|key|, 4, blocks, len);
    if len == 3 {
      h := Xor32(h, (key[data + 2] as nat) * 0x1_0000);
    }
    if len >= 2 {
      h := Xor32(h, (key[data + 1] as nat) * 0x100);
    }
    if len >= 1 {
      h := Xor32(h, key[data]);
      h := Mul32(h, M);
    }
    h := XorShift(h, 13);
    h := Mul32(h, M);
    h := XorShift(h, 15);
  }

  /**
   * The mask of `fp` built as a 64-bit value, `((1 << w) - 1) << (32 - w)`:
   * bits 32 - w .. 31, the top w bits of a 32-bit hash.
   */
  function FpMask(w: nat): (r: nat)
    requires w <= HashBits
  {
    HashPow();
    Pow2Le(HashBits - w, HashBits);
    HalfMod - Pow2(HashBits - w)
  }

  lemma FpMaskBits(w: nat, k: nat)
    requires w <= HashBits
    ensures Bit(FpMask(w), k) <==> HashBits - w <= k < HashBits
  {
    var s := HashBits - w;
    HashPow();
    Pow2Le(s, HashBits);
    var low := Pow2(s) - 1;
    assert FpMask(w) == Not(low, HashBits);
    BitNot(low, HashBits, k);
    BitLowMask(s, k);
  }

  /**
   * The mask of `fp` as written: both shifts are evaluated on `int`.  For
   * 1 <= w <= 31 the 32-bit result has bit 31 set (assuming two's-complement
   * wrap-around), so widening it to 64 bits for `h &=` sets bits
   * 32 - w .. 63.  At w = 32, `1 << 32` shifts an `int` by its full width;
   * x86 reduces the count modulo 32, giving 1, and the mask is 0.  At w = 0
   * the mask is 0 as well.
   */
  function FpMaskAsWritten(w: nat): (r: nat)
    requires w <= HashBits
    ensures IsWord(r)
  {
    if 1 <= w < HashBits then NegPow2(HashBits - w) else 0
  }

  /** `fp(key)` with the 64-bit mask: the hash masked to its top w bits and shifted down by 32 - w. */
  function Fingerprint(key: Key, w: nat): (r: nat)
    requires w <= HashBits
  {
    ShiftRight(And(Murmur2(key, 0), FpMask(w)), HashBits - w)
  }

  /** `fp(key)` as written, with the `int` mask. */
  function FingerprintAsWritten(key: Key, w: nat): (r: nat)
    requires w <= HashBits
  {
    ShiftRight(And(Murmur2(key, 0), FpMaskAsWritten(w)), HashBits - w)
  }

  /** Masking a 32-bit hash with any mask covering bits 32 - w .. 31 and shifting down keeps its top w bits. */
  lemma TopBits(h: nat, mask: nat, w: nat)
    requires h < HalfMod && w <= HashBits
    requires forall k: nat :: HashBits - w <= k < HashBits ==> Bit(mask, k)
    ensures ShiftRight(And(h, mask), HashBits - w) == h / Pow2(HashBits - w) < Pow2(w)
  {
    var s := HashBits - w;
    HashPow();
    ShiftRightIsDiv(h, s);
    ShiftRightBound(h, s, w);
    AndBound(h, mask);
    ShiftRightMono(And(h, mask), h, s);
    forall k: nat | k < w
      ensures Bit(ShiftRight(And(h, mask), s), k) == Bit(ShiftRight(h, s), k)
    {
      BitShiftRight(And(h, mask), s, k);
      BitShiftRight(h, s, k);
      BitAnd(h, mask, k + s);
    }
    BitsEqual(ShiftRight(And(h, mask), s), ShiftRight(h, s), w);
  }

  /** The fingerprint is the top w bits of the 32-bit hash, so it is below 2^w. */
  lemma FingerprintIsTopBits(key: Key, w: nat)
    requires w <= HashBits
    ensures Fingerprint(key, w) == Murmur2(key, 0) / Pow2(HashBits - w)
    ensures Fingerprint(key, w) < Pow2(w)
  {
    forall k: nat | HashBits - w <= k < HashBits
      ensures Bit(FpMask(w), k)
    {
      FpMaskBits(w, k);
    }
    TopBits(Murmur2(key, 0), FpMask(w), w);
  }

  /** For widths 1 to 31 the mask as written selects the same top bits. */
  lemma AsWrittenAgrees(key: Key, w: nat)
    requires 1 <= w < HashBits
    ensures FingerprintAsWritten(key, w) == Fingerprint(key, w)
  {
    TopBits(Murmur2(key, 0), FpMaskAsWritten(w), w);
    FingerprintIsTopBits(key, w);
  }

  /**
   * At width 32, the width the constructor accepts as its largest, the mask
   * as written is 0 and every key gets fingerprint 0, while the intended
   * fingerprint is the whole hash.
   */
  lemma Width32Collapses(key: Key)
    ensures FingerprintAsWritten(key, HashBits) == 0
    ensures Fingerprint(key, HashBits) == Murmur2(key, 0)
  {
    FingerprintIsTopBits(key, HashBits);
    assert Pow2(0) == 1;
    AndBound(Murmur2(key, 0), 0);
  }

  /** Slot i of n slots of width w laid over s. */
  ghost function SlotOf(s: seq<bool>, n: nat, w: nat, i: nat): nat
    requires |s| == w * n && i < n
  {
    MulLe(i + 1, n, w);
    ElementOf(s, i, w)
  }

  /** The n slots of width w over s after slot i receives the low w bits of v. */
  function PutSlot(s: seq<bool>, n: nat, w: nat, i: nat, v: nat): (r: seq<bool>)
    requires |s| == w * n && i < n
    ensures |r| == |s|
  {
    MulLe(i + 1, n, w);
    Splice(s, i, v, w)
  }

  /** Slot i after a put holds the value put there, when it fits in w bits. */
  lemma PutThenGet(s: seq<bool>, n: nat, w: nat, i: nat, v: nat)
    requires |s| == w * n && i < n && v < Pow2(w)
    ensures SlotOf(PutSlot(s, n, w, i, v), n, w, i) == v
  {
    MulLe(i + 1, n, w);
    SetThenGet(s, i, v, w);
    ShiftRightIsDiv(v, w);
    LowBitsSmall(v, w);
  }

  /** A put leaves every other slot as it was. */
  lemma PutKeepsOthers(s: seq<bool>, n: nat, w: nat, i: nat, j: nat, v: nat)
    requires |s| == w * n && i < n && j < n && i != j
    ensures SlotOf(PutSlot(s, n, w, i, v), n, w, j) == SlotOf(s, n, w, j)
  {
    MulLe(i + 1, n, w);
    MulLe(j + 1, n, w);
    SetKeepsOthers(s, i, j, v, w);
  }

  class FingerPrintStore {
    /** `finger_print_size` */
    const fingerPrintSize: nat
    /** `totalNumberOfBits` */
    const totalNumberOfBits: nat
    /** `totalNumberOfElements` */
    const totalNumberOfElements: nat
    /** The compact store of fingerprints over its own bitset. */
    const store: CompactStore

    predicate Valid()
      reads store.bitArray
    {
      fingerPrintSize <= HashBits && store.Valid() && store.width == fingerPrintSize
      && totalNumberOfBits == fingerPrintSize * totalNumberOfElements
      && |store.bitArray.bits| == totalNumberOfBits
    }

    /** `FingerPrintStore(numberOfElements, bits_per_fingerprint)`: width·n cleared bits. */
    constructor (numberOfElements: nat, bitsPerFingerprint: nat)
      requires bitsPerFingerprint <= HashBits
      ensures Valid() && fresh(store) && fresh(store.bitArray)
      ensures fingerPrintSize == bitsPerFingerprint && totalNumberOfElements == numberOfElements
      ensures totalNumberOfBits == bitsPerFingerprint * numberOfElements
      ensures store.bitArray.bits == seq(totalNumberOfBits, _ => false)
    {
      fingerPrintSize := bitsPerFingerprint;
      totalNumberOfBits := bitsPerFingerprint * numberOfElements;
      totalNumberOfElements := numberOfElements;
      var bitset := new DynamicBitset(bitsPerFingerprint * numberOfElements);
      store := new CompactStore(bitset, bitsPerFingerprint);
    }

    /** The fingerprint slot i holds. */
    ghost function Slot(i: nat): nat
      reads store.bitArray
      requires Valid() && i < totalNumberOfElements
    {
      SlotOf(store.bitArray.bits, totalNumberOfElements, fingerPrintSize, i)
    }

    /** The check `checkFP(index, key)` performs: index in range and its slot holding key's fingerprint. */
    ghost predicate Matches(index: nat, key: Key)
      reads store.bitArray
      requires Valid()
    {
      index < totalNumberOfElements && Slot(index) == Fingerprint(key, fingerPrintSize)
    }

    /** `fp(key)` */
    method Fp(key: Key) returns (r: nat)
      requires fingerPrintSize <= HashBits
      ensures r == Fingerprint(key, fingerPrintSize) && r < Pow2(fingerPrintSize)
    {
      var h := MurmurHash2(key, 0);
      r := ShiftRight(And(h, FpMask(fingerPrintSize)), HashBits - fingerPrintSize);
      FingerprintIsTopBits(key, fingerPrintSize);
    }

    /**
     * `storeFP(index, key)`: slot index receives key's fingerprint, after
     * which key matches there, and no other slot changes.
     */
    method StoreFP(index: nat, key: Key)
      requires Valid() && index < totalNumberOfElements
      modifies store.bitArray
      ensures Valid()
      ensures store.bitArray.bits
              == PutSlot(old(store.bitArray.bits), totalNumberOfElements, fingerPrintSize, index, Fingerprint(key, fingerPrintSize))
      ensures Matches(index, key)
      ensures forall j | 0 <= j < totalNumberOfElements && j != index :: Slot(j) == old(Slot(j))
    {
      var fpv := Fp(key);
      WordPow();
      Pow2Le(fingerPrintSize, W);
      MulLe(index + 1, totalNumberOfElements, fingerPrintSize);
      ghost var s := store.bitArray.bits;
      store.Set(index, fpv);
      assert store.bitArray.bits == PutSlot(s, totalNumberOfElements, fingerPrintSize, index, fpv);
      PutThenGet(s, totalNumberOfElements, fingerPrintSize, index, fpv);
      forall j | 0 <= j < totalNumberOfElements && j != index
        ensures Slot(j) == SlotOf(s, totalNumberOfElements, fingerPrintSize, j)
      {
        PutKeepsOthers(s, totalNumberOfElements, fingerPrintSize, index, j, fpv);
      }
    }

    /** `checkFP(index, key)`: false out of range, otherwise whether slot index holds key's fingerprint. */
    method CheckFP(index: nat, key: Key) returns (found: bool)
      requires Valid()
      ensures found == Matches(index, key)
    {
      if index >= totalNumberOfElements {
        return false;
      }
      MulLe(index + 1, totalNumberOfElements, fingerPrintSize);
      var retrieved := store.Get(index);
      var fpv := Fp(key);
      found := retrieved == fpv;
    }
  }

  /**
   * What a lookup answers, from the fingerprint bits (width wf), the rank
   * bits (width wr) of n slots and the value table: the value at the rank
   * stored in the slot, when the slot is in range, its fingerprint is the
   * key's and the rank is inside the table; 0 otherwise.
   */
  ghost function Answer(fpBits: seq<bool>, wf: nat, rankBits: seq<bool>, wr: nat, n: nat,
                        values: seq<nat>, index: nat, key: Key): nat
    requires wf <= HashBits && |fpBits| == wf * n && |rankBits| == wr * n
  {
    if index < n then
      var rank := SlotOf(rankBits, n, wr, index);
      if SlotOf(fpBits, n, wf, index) == Fingerprint(key, wf) && rank < |values| then values[rank] else 0
    else 0
  }

  class FingerPrintValueStore {
    /** `fp_store` */
    const fpStore: FingerPrintStore
    /**
     * `cv_store`: the rank store.  `CompressedValueStoreElias` is not part
     * of this model; it stands here as the compact store of ranks it is
     * built from, answering `at(i)` with element i.
     */
    const rankStore: CompactStore
    /** `val_store`: the table of distinct values, indexed by rank. */
    const values: seq<nat>

    predicate Valid()
      reads fpStore.store.bitArray, rankStore.bitArray
    {
      fpStore.Valid() && rankStore.Valid()
      && |rankStore.bitArray.bits| == rankStore.width * fpStore.totalNumberOfElements
    }

    /** `FingerPrintValueStore(fingerprints, ranks, values)` */
    constructor (fingerprints: FingerPrintStore, ranks: CompactStore, values: seq<nat>)
      ensures fpStore == fingerprints && rankStore == ranks && this.values == values
    {
      fpStore := fingerprints;
      rankStore := ranks;
      this.values := values;
    }

    /** The rank stored for slot index. */
    ghost function RankAt(index: nat): nat
      reads fpStore.store.bitArray, rankStore.bitArray
      requires Valid() && index < fpStore.totalNumberOfElements
    {
      SlotOf(rankStore.bitArray.bits, fpStore.totalNumberOfElements, rankStore.width, index)
    }

    /**
     * `query(index, key)`: 0 unless the fingerprint matches (which includes
     * index being in range); then the value at the stored rank, or 0 when
     * the rank is past the end of the value table.
     */
    method Query(index: nat, key: Key) returns (r: nat)
      requires Valid()
      ensures !fpStore.Matches(index, key) ==> r == 0
      ensures fpStore.Matches(index, key) && RankAt(index) < |values| ==> r == values[RankAt(index)]
      ensures fpStore.Matches(index, key) && RankAt(index) >= |values| ==> r == 0
      ensures r == Answer(fpStore.store.bitArray.bits, fpStore.fingerPrintSize, rankStore.bitArray.bits,
                          rankStore.width, fpStore.totalNumberOfElements, values, index, key)
    {
      var found := fpStore.CheckFP(index, key);
      if found {
        MulLe(index + 1, fpStore.totalNumberOfElements, rankStore.width);
        var rank := rankStore.At(index);
        if rank < |values| {
          return values[rank];
        }
      }
      return 0;
    }
  }
}
