/**
 * `CompactStore`: an array of fixed-width unsigned elements laid over a
 * shared `boost::dynamic_bitset`.  Element p occupies bit positions
 * [p * w, (p + 1) * w), most significant bit first.
 *
 * The bitset itself is a collaborator whose internals are not modelled:
 * `DynamicBitset` gives it the interface the store and the select indexes
 * use (`test`, `set`, `find_next`).
 */
module CompactStores {
  import opened Bits
  import opened Streams

  /** `dynamic_bitset::npos`, the "not found" answer of `find_next`. */
  const Npos: nat := 0xFFFF_FFFF_FFFF_FFFF

  /** The first set position at or after `from`, or `Npos` when there is none. */
  function FirstSetFrom(bits: seq<bool>, from: nat): (r: nat)
    requires |bits| < Npos
    decreases |bits| - from
    ensures r == Npos ==> forall q | from <= q < |bits| :: !bits[q]
    ensures r != Npos ==> from <= r < |bits| && bits[r] && forall q | from <= q < r :: !bits[q]
  {
    if from >= |bits| then Npos
    else if bits[from] then from
    else FirstSetFrom(bits, from + 1)
  }

  /** The interface of `boost::dynamic_bitset<>` used by the store. */
  class DynamicBitset {
    var bits: seq<bool>

    /** `dynamic_bitset(n)`: n cleared bits. */
    constructor (n: nat)
      ensures bits == seq(n, _ => false)
    {
      bits := seq(n, _ => false);
    }

    /** `set(pos, val)` */
    method Set(pos: nat, val: bool)
      requires pos < |bits|
      modifies this
      ensures bits == old(bits)[pos := val]
    {
      bits := bits[pos := val];
    }

    /** `find_next(pos)`: the first set position after pos, or `npos`. */
    function FindNext(pos: nat): (r: nat)
      reads this
      requires |bits| < Npos
      ensures r == Npos ==> forall q | pos < q < |bits| :: !bits[q]
      ensures r != Npos ==> pos < r < |bits| && bits[r] && forall q | pos < q < r :: !bits[q]
    {
      FirstSetFrom(bits, pos + 1)
    }
  }

  /** Element p of width w of a bit run: positions [p * w, (p + 1) * w) read most significant first. */
  ghost function ElementOf(s: seq<bool>, p: nat, w: nat): nat
    requires (p + 1) * w <= |s|
  {
    MulLe(p, p + 1, w);
    MsbFirst(s[p * w..(p + 1) * w])
  }

  /** The bit run after element p of width w is overwritten with the low w bits of v. */
  function Splice(s: seq<bool>, p: nat, v: nat, w: nat): (r: seq<bool>)
    requires (p + 1) * w <= |s|
    ensures |r| == |s|
  {
    MulLe(p, p + 1, w);
    s[..p * w] + FieldBits(v, w) + s[(p + 1) * w..]
  }

  /** Reading element p back after writing v there yields v modulo 2^w. */
  lemma SetThenGet(s: seq<bool>, p: nat, v: nat, w: nat)
    requires (p + 1) * w <= |s|
    ensures ElementOf(Splice(s, p, v, w), p, w) == v % Pow2(w)
  {
    MulLe(p, p + 1, w);
    assert Splice(s, p, v, w)[p * w..(p + 1) * w] == FieldBits(v, w);
    MsbFirstField(v, w);
    ShiftRightIsDiv(v, w);
  }

  /** Writing element p leaves every other element unchanged. */
  lemma SetKeepsOthers(s: seq<bool>, p: nat, q: nat, v: nat, w: nat)
    requires (p + 1) * w <= |s| && (q + 1) * w <= |s| && p != q
    ensures ElementOf(Splice(s, p, v, w), q, w) == ElementOf(s, q, w)
  {
    MulLe(p, p + 1, w);
    MulLe(q, q + 1, w);
    if p < q {
      MulLe(p + 1, q, w);
    } else {
      MulLe(q + 1, p, w);
    }
    assert Splice(s, p, v, w)[q * w..(q + 1) * w] == s[q * w..(q + 1) * w];
  }

  /** Bit position of the sign of a 32-bit `int`. */
  const IntSignBit: nat := 31

  /**
   * `MASK` of `set` as written: `1 << (w - 1)` is evaluated as an `int`
   * before it is widened to 64 bits.  The shift count `w - 1` is an
   * unsigned 64-bit value, and x86 takes a 32-bit shift count modulo 32,
   * so the bit shifted to is (w + 31) % 32.  Below width 32 that is bit
   * w - 1; at widths 32 and 64 it is `INT_MIN`, which sign-extends to
   * bits 31..63; from width 33 on the mask starts again at bit 0.
   */
  function IntMaskAsWritten(w: nat): (r: nat)
    requires w <= W
    ensures IsWord(r)
  {
    var b := (w + IntSignBit) % (IntSignBit + 1);
    if b < IntSignBit then WordPow(); Pow2Le(b + 1, W); Pow2(b) else NegPow2(IntSignBit)
  }

  /** The bits the loop of `set` stores for v at width w with a given mask. */
  function StoredField(v: nat, w: nat, mask: nat): (r: seq<bool>)
    ensures |r| == w
  {
    seq(w, i requires 0 <= i < w => And(ShiftLeft(v, i, W), mask) != 0)
  }

  /** The bits the loop of `set` stores with the mask as written. */
  function StoredFieldAsWritten(v: nat, w: nat): (r: seq<bool>)
    requires w <= W
    ensures |r| == w
  {
    StoredField(v, w, IntMaskAsWritten(w))
  }

  /** Below width 32 the mask as written is the intended one: the field is stored exactly. */
  lemma AsWrittenBelow32(v: nat, w: nat)
    requires 1 <= w <= IntSignBit
    ensures StoredFieldAsWritten(v, w) == FieldBits(v, w)
  {
    forall i | 0 <= i < w
      ensures StoredFieldAsWritten(v, w)[i] == FieldBits(v, w)[i]
    {
      AndPow2(ShiftLeft(v, i, W), w - 1);
      BitShiftLeft(v, i, W, w - 1);
    }
  }

  /** The number spelled by n ones is 2^n - 1. */
  lemma {:induction false} MsbFirstAllOnes(n: nat)
    ensures MsbFirst(seq(n, _ => true)) == Pow2(n) - 1
  {
    if n > 0 {
      assert seq(n, _ => true)[..n - 1] == seq(n - 1, _ => true);
      MsbFirstAllOnes(n - 1);
    }
  }

  /**
   * With a sign-extended mask at bit j, the value 2^j stored at width j + 1
   * becomes j + 1 ones: every shifted copy of its single bit meets the mask.
   */
  lemma SignExtendedFillsField(j: nat)
    requires 2 * j < W
    ensures StoredField(Pow2(j), j + 1, NegPow2(j)) == seq(j + 1, _ => true)
  {
    var f := StoredField(Pow2(j), j + 1, NegPow2(j));
    forall i | 0 <= i < |f|
      ensures f[i]
    {
      ShiftedMeetsMask(j, i);
    }
  }

  /** The single bit of 2^j shifted left by i <= j is bit j + i, which the sign-extended mask keeps. */
  lemma ShiftedMeetsMask(j: nat, i: nat)
    requires 2 * j < W && i <= j
    ensures And(ShiftLeft(Pow2(j), i, W), NegPow2(j)) != 0
  {
    var x := ShiftLeft(Pow2(j), i, W);
    var m := NegPow2(j);
    BitPow2(j, j);
    BitShiftLeft(Pow2(j), i, W, j + i);
    assert Bit(x, j + i) && Bit(m, j + i);
    BitAnd(x, m, j + i);
    BitZero(j + i);
  }

  /** At width 32 the mask as written is `INT_MIN` sign-extended. */
  lemma SignExtendedAt32()
    ensures IntMaskAsWritten(IntSignBit + 1) == NegPow2(IntSignBit)
  {
    assert (IntSignBit + 1 + IntSignBit) % (IntSignBit + 1) == IntSignBit;
  }

  /**
   * At width 32 the value 2^31, which fits, is stored as 32 ones and so
   * reads back as 2^32 - 1.
   */
  lemma Width32Counterexample()
    ensures StoredFieldAsWritten(Pow2(IntSignBit), IntSignBit + 1) == seq(IntSignBit + 1, _ => true)
    ensures MsbFirst(StoredFieldAsWritten(Pow2(IntSignBit), IntSignBit + 1)) == 2 * Pow2(IntSignBit) - 1
  {
    var f := StoredFieldAsWritten(Pow2(IntSignBit), IntSignBit + 1);
    SignExtendedAt32();
    assert f == StoredField(Pow2(IntSignBit), IntSignBit + 1, NegPow2(IntSignBit));
    SignExtendedFillsField(IntSignBit);
    MsbFirstAllOnes(IntSignBit + 1);
  }

  /** The number spelled by n zeros is 0. */
  lemma {:induction false} MsbFirstAllZeros(n: nat)
    ensures MsbFirst(seq(n, _ => false)) == 0
  {
    if n > 0 {
      assert seq(n, _ => false)[..n - 1] == seq(n - 1, _ => false);
      MsbFirstAllZeros(n - 1);
    }
  }

  /**
   * At width 33 the mask as written is bit 0, which the left-shifted copies
   * of 2^32 never reach: the value, which fits, is stored as 33 zeros and
   * reads back as 0.
   */
  lemma Width33Counterexample()
    ensures IntMaskAsWritten(IntSignBit + 2) == 1
    ensures StoredFieldAsWritten(Pow2(IntSignBit + 1), IntSignBit + 2) == seq(IntSignBit + 2, _ => false)
    ensures MsbFirst(StoredFieldAsWritten(Pow2(IntSignBit + 1), IntSignBit + 2)) == 0
  {
    var v := Pow2(IntSignBit + 1);
    var f := StoredFieldAsWritten(v, IntSignBit + 2);
    assert (IntSignBit + 2 + IntSignBit) % (IntSignBit + 1) == 0;
    assert IntMaskAsWritten(IntSignBit + 2) == Pow2(0);
    forall i | 0 <= i < |f|
      ensures !f[i]
    {
      AndPow2(ShiftLeft(v, i, W), 0);
      BitShiftLeft(v, i, W, 0);
      BitPow2(IntSignBit + 1, 0);
    }
    assert f == seq(IntSignBit + 2, _ => false);
    MsbFirstAllZeros(IntSignBit + 2);
  }

  /** The loop of `set` with the intended 64-bit mask stores the field of v exactly. */
  lemma TopMaskStoresField(v: nat, w: nat)
    requires w <= W
    ensures StoredField(v, w, TopMask(w)) == FieldBits(v, w)
  {
    forall i | 0 <= i < w
      ensures StoredField(v, w, TopMask(w))[i] == FieldBits(v, w)[i]
    {
      FieldStep(v, w, i, ShiftLeft(v, i, W));
    }
  }

  class CompactStore {
    /** The shared bitset (`bitArrayPtr`). */
    const bitArray: DynamicBitset
    /** `bits_per_element` */
    const width: nat

    predicate Valid()
    {
      width <= 64
    }

    /** `CompactStore(bitArray, element_size)` */
    constructor (bitArray: DynamicBitset, width: nat)
      requires width <= 64
      ensures Valid() && this.bitArray == bitArray && this.width == width
    {
      this.bitArray := bitArray;
      this.width := width;
    }

    /** Element p as the bitset currently holds it. */
    ghost function Element(p: nat): nat
      reads bitArray
      requires (p + 1) * width <= |bitArray.bits|
    {
      ElementOf(bitArray.bits, p, width)
    }

    /** `getbit(pos)` */
    function GetBit(pos: nat): (b: bool)
      reads bitArray
      requires pos < |bitArray.bits|
      ensures b == bitArray.bits[pos]
    {
      bitArray.bits[pos]
    }

    /** `operator[](pos)`: element pos, unchecked. */
    method Get(pos: nat) returns (r: nat)
      requires Valid() && (pos + 1) * width <= |bitArray.bits|
      ensures r == Element(pos) && r < Pow2(width)
    {
      MulLe(pos, pos + 1, width);
      r := ReadField(pos * width);
    }

    /** The loop of `operator[]`, from the element's first position `offset`. */
    method ReadField(offset: nat) returns (r: nat)
      requires Valid() && offset + width <= |bitArray.bits|
      ensures r == MsbFirst(bitArray.bits[offset..offset + width])
    {
      ghost var field := bitArray.bits[offset..offset + width];
      r := 0;
      var i := 0;
      while i < width
        invariant 0 <= i <= width
        invariant r == MsbFirst(field[..i])
      {
        var b := GetBit(offset + i);
        MsbFirstSnoc(field, i);
        // `retVal <<= 1; retVal |= bit` on fewer than 64 bits (AppendBit)
        r := 2 * r + (if b then 1 else 0);
        i := i + 1;
      }
      assert field[..width] == field;
    }

    /** `at(pos)`: the same unchecked read as `operator[]`. */
    method At(pos: nat) returns (r: nat)
      requires Valid() && (pos + 1) * width <= |bitArray.bits|
      ensures r == Element(pos)
    {
      r := Get(pos);
    }

    /** `setbit(pos, value)` */
    method SetBit(pos: nat, val: bool)
      requires pos < |bitArray.bits|
      modifies bitArray
      ensures bitArray.bits == old(bitArray.bits)[pos := val]
    {
      bitArray.Set(pos, val);
    }

    /**
     * `set(pos, value)` with the mask built as a 64-bit value: element pos
     * receives the low `width` bits of value and nothing else changes.
     */
    method Set(pos: nat, value: nat)
      requires Valid() && IsWord(value) && (pos + 1) * width <= |bitArray.bits|
      modifies bitArray
      ensures bitArray.bits == Splice(old(bitArray.bits), pos, value, width)
    {
      MulLe(pos, pos + 1, width);
      WriteField(value, pos * width);
    }

    /** The loop of `set`, from the element's first position `offset`. */
    method WriteField(value: nat, offset: nat)
      requires Valid() && IsWord(value) && offset + width <= |bitArray.bits|
      modifies bitArray
      ensures bitArray.bits == old(bitArray.bits)[..offset] + FieldBits(value, width) + old(bitArray.bits)[offset + width..]
    {
      var mask := TopMask(width);
      ghost var s := bitArray.bits;
      ghost var f := FieldBits(value, width);
      var v := value;
      var i := 0;
      ShiftLeftNone(value);
      OverwrittenNone(s, offset, f);
      while i < width
        invariant 0 <= i <= width
        invariant |bitArray.bits| == |s|
        invariant v == ShiftLeft(value, i, W)
        invariant bitArray.bits == Overwritten(s, offset, f, i)
      {
        FieldStep(value, width, i, v);
        SetBit(offset + i, And(v, mask) != 0);
        SpliceStep(s, offset, f, i);
        v := ShiftLeft(v, 1, W);
        i := i + 1;
      }
      OverwrittenAll(s, offset, f);
    }
  }
}
