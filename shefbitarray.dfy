/**
 * `ShefBitArray`: a bitset packed into a vector of 64-bit words.  Position
 * p lives in word p / 64, at the bit `bit_mask(p)` selects: 1 shifted left
 * by 64 - p % 64.  At the first position of a word that shift is the full
 * word width, which x86 reduces modulo 64 to a shift by 0, so position p is
 * bit (64 - p % 64) % 64: bit 0 for the first position of a word, then bits
 * 63 down to 1.  Every position has a bit of its own.
 */
module ShefBitArrays {
  import opened Bits
  import opened Streams
  import CompactStores

  /** Number of words for n bits: n / 64, plus one for a partial word. */
  function WordArrayLength(n: nat): (r: nat)
    ensures n <= 64 * r < n + 64
  {
    n / 64 + (if n % 64 != 0 then 1 else 0)
  }

  /** The shift count of `bit_mask(pos)`, reduced modulo the word width as x86 does. */
  function Slot(pos: nat): nat
  {
    (W - pos % W) % W
  }

  /** Two positions of one word occupy the same bit exactly when they are equal. */
  lemma SlotsDistinct(p: nat, q: nat)
    requires p / 64 == q / 64
    ensures Slot(p) < 64
    ensures (Slot(p) == Slot(q)) == (p == q)
  {
  }

  /** `bit_mask(pos)`: `size_t(1) << (64 - pos % 64)`, exactly one set bit, the slot of pos. */
  function BitMask(pos: nat): (r: nat)
    ensures IsWord(r) && r == Pow2(Slot(pos))
    ensures forall k: nat :: Bit(r, k) <==> k == Slot(pos)
  {
    var b := Slot(pos);
    WordPow();
    Pow2Le(b + 1, W);
    ShiftLeftExact(1, b, W);
    forall k: nat ensures Bit(Pow2(b), k) <==> k == b {
      BitPow2(b, k);
    }
    ShiftLeft(1, b, W)
  }

  /** The bits of a word vector, position by position. */
  function ViewOf(ws: seq<nat>): (r: seq<bool>)
    ensures |r| == 64 * |ws|
  {
    seq(64 * |ws|, p requires 0 <= p < 64 * |ws| => Bit(ws[p / 64], Slot(p)))
  }

  /** Replacing one word by a word that differs only at the bit of pos changes only pos. */
  lemma UpdateView(ws: seq<nat>, w': nat, pos: nat, val: bool)
    requires pos < 64 * |ws|
    requires forall k: nat :: Bit(w', k) == (if k == Slot(pos) then val else Bit(ws[pos / 64], k))
    ensures ViewOf(ws[pos / 64 := w']) == ViewOf(ws)[pos := val]
  {
    var ws' := ws[pos / 64 := w'];
    forall p | 0 <= p < 64 * |ws|
      ensures ViewOf(ws')[p] == ViewOf(ws)[pos := val][p]
    {
      if p / 64 == pos / 64 {
        SlotsDistinct(p, pos);
      }
    }
  }

  /** Element `start` of width `length` ends where element `start + 1` begins. */
  lemma ElementEnd(start: nat, length: nat)
    ensures (start + 1) * length == start * length + length
  {
  }

  class ShefBitArray {
    var words: seq<nat>

    ghost predicate Valid()
      reads this
    {
      forall i | 0 <= i < |words| :: IsWord(words[i])
    }

    /** The bits held, position by position. */
    ghost function View(): (r: seq<bool>)
      reads this
      ensures |r| == 64 * |words|
    {
      ViewOf(words)
    }

    /** `ShefBitArray(number_of_bits)`: enough zero words for the bits. */
    constructor (n: nat)
      ensures Valid()
      ensures |words| == WordArrayLength(n)
      ensures forall i | 0 <= i < |words| :: words[i] == 0
      ensures View() == seq(64 * WordArrayLength(n), _ => false)
    {
      words := seq(WordArrayLength(n), _ => 0);
      new;
      forall p | 0 <= p < 64 * |words| ensures !View()[p] {
        BitZero(Slot(p));
      }
    }

    /** `size()`: the capacity in bits, a whole number of words. */
    function Size(): (r: nat)
      reads this
      ensures r == |View()| && r % 64 == 0
    {
      |words| * 64
    }

    /** `getbit(pos)` */
    function GetBit(pos: nat): (b: bool)
      reads this
      requires Valid() && pos < Size()
      ensures b == View()[pos]
    {
      AndPow2(words[pos / 64], Slot(pos));
      And(words[pos / 64], BitMask(pos)) != 0
    }

    /** `test(pos)` delegates to `getbit`. */
    function Test(pos: nat): (b: bool)
      reads this
      requires Valid() && pos < Size()
      ensures b == GetBit(pos)
    {
      GetBit(pos)
    }

    /** `setbit(pos, val)` */
    method SetBit(pos: nat, val: bool)
      requires Valid() && pos < Size()
      modifies this
      ensures Valid() && |words| == old(|words|)
      ensures View() == old(View())[pos := val]
    {
      var i := pos / 64;
      var w := words[i];
      var m := BitMask(pos);
      var w';
      if val {
        w' := Or(w, m);
        forall k: nat ensures Bit(w', k) == (if k == Slot(pos) then val else Bit(w, k)) {
          BitOr(w, m, k);
        }
        WordPow();
        OrBound(w, m, W);
      } else {
        WordPow();
        w' := And(w, Not(m, W));
        forall k: nat ensures Bit(w', k) == (if k == Slot(pos) then val else Bit(w, k)) {
          BitAnd(w, Not(m, W), k);
          BitNot(m, W, k);
          if k >= 64 { BitBound(w, W, k); }
        }
        AndBound(w, Not(m, W));
      }
      UpdateView(words, w', pos, val);
      words := words[i := w'];
    }

    /** `set(pos, val)` delegates to `setbit`. */
    method Set(pos: nat, val: bool)
      requires Valid() && pos < Size()
      modifies this
      ensures Valid() && |words| == old(|words|)
      ensures View() == old(View())[pos := val]
    {
      SetBit(pos, val);
    }

    /**
     * `set_range(value, start, length)` with the mask built as a 64-bit
     * value: element `start` of width `length`, that is positions
     * [start * length, (start + 1) * length), receives the low `length`
     * bits of value, most significant first; nothing else changes.
     */
    method SetRange(value: nat, start: nat, length: nat)
      requires Valid() && IsWord(value) && length <= 64 && (start + 1) * length <= Size()
      modifies this
      ensures Valid() && |words| == old(|words|)
      ensures View() == old(View())[..start * length] + FieldBits(value, length) + old(View())[(start + 1) * length..]
    {
      ElementEnd(start, length);
      CompactStores.TopMaskStoresField(value, length);
      WriteField(value, start * length, length, TopMask(length));
    }

    /**
     * `set_range(value, start, length)` as written: the mask is the `int`
     * `1 << (length - 1)` widened to 64 bits, so the element receives the
     * bits the loop tests against that mask.
     */
    method SetRangeAsWritten(value: nat, start: nat, length: nat)
      requires Valid() && IsWord(value) && length <= 64 && (start + 1) * length <= Size()
      modifies this
      ensures Valid() && |words| == old(|words|)
      ensures View() == old(View())[..start * length] + CompactStores.StoredFieldAsWritten(value, length) + old(View())[(start + 1) * length..]
    {
      ElementEnd(start, length);
      WriteField(value, start * length, length, CompactStores.IntMaskAsWritten(length));
    }

    /**
     * The loop of `set_range` from the element's first position `offset`:
     * bit i of the element is set when the value shifted left i times meets
     * the mask.
     */
    method WriteField(value: nat, offset: nat, length: nat, mask: nat)
      requires Valid() && IsWord(value) && offset + length <= Size()
      modifies this
      ensures Valid() && |words| == old(|words|)
      ensures View() == old(View())[..offset] + CompactStores.StoredField(value, length, mask) + old(View())[offset + length..]
    {
      ghost var s := View();
      ghost var f := CompactStores.StoredField(value, length, mask);
      var v := value;
      var i := 0;
      ShiftLeftNone(value);
      OverwrittenNone(s, offset, f);
      while i < length
        invariant 0 <= i <= length
        invariant Valid() && |words| == old(|words|)
        invariant v == ShiftLeft(value, i, W)
        invariant View() == Overwritten(s, offset, f, i)
      {
        SetBit(offset + i, And(v, mask) != 0);
        SpliceStep(s, offset, f, i);
        ShiftLeftTwice(value, i, 1, W);
        v := ShiftLeft(v, 1, W);
        i := i + 1;
      }
      OverwrittenAll(s, offset, f);
    }

    /** `get_range(start, length)`: element `start` of width `length`, read most significant first. */
    method GetRange(start: nat, length: nat) returns (r: nat)
      requires Valid() && length <= 64 && (start + 1) * length <= Size()
      ensures r == MsbFirst(View()[start * length..(start + 1) * length])
    {
      ElementEnd(start, length);
      r := ReadField(start * length, length);
    }

    /** The loop of `get_range`, from the element's first position `offset`. */
    method ReadField(offset: nat, length: nat) returns (r: nat)
      requires Valid() && length <= 64 && offset + length <= Size()
      ensures r == MsbFirst(View()[offset..offset + length])
    {
      ghost var field := View()[offset..offset + length];
      r := 0;
      var i := 0;
      while i < length
        invariant 0 <= i <= length
        invariant r == MsbFirst(field[..i])
      {
        var b := GetBit(offset + i);
        MsbFirstSnoc(field, i);
        // `retVal <<= 1; retVal |= bit` on fewer than 64 bits (AppendBit)
        r := 2 * r + (if b then 1 else 0);
        i := i + 1;
      }
      assert field[..length] == field;
    }
  }

  /** Reading back an element just written yields the value modulo 2^length. */
  lemma RangeRoundTrip(s: seq<bool>, value: nat, start: nat, length: nat)
    requires (start + 1) * length <= |s|
    ensures var s' := s[..start * length] + FieldBits(value, length) + s[(start + 1) * length..];
      |s'| == |s| && MsbFirst(s'[start * length..(start + 1) * length]) == LowBits(value, length)
  {
    var s' := s[..start * length] + FieldBits(value, length) + s[(start + 1) * length..];
    assert s'[start * length..(start + 1) * length] == FieldBits(value, length);
    MsbFirstField(value, length);
  }

  /**
   * With the mask as written the round trip still holds below length 32:
   * the element reads back as the value modulo 2^length.
   */
  lemma RangeRoundTripAsWritten(s: seq<bool>, value: nat, start: nat, length: nat)
    requires 1 <= length <= CompactStores.IntSignBit && (start + 1) * length <= |s|
    ensures var s' := s[..start * length] + CompactStores.StoredFieldAsWritten(value, length) + s[(start + 1) * length..];
      |s'| == |s| && MsbFirst(s'[start * length..(start + 1) * length]) == LowBits(value, length)
  {
    CompactStores.AsWrittenBelow32(value, length);
    RangeRoundTrip(s, value, start, length);
  }

  /**
   * At length 32 the mask as written breaks the round trip: the value 2^31,
   * which fits, is written as 32 ones and reads back as 2^32 - 1.
   */
  lemma RangeWidth32Counterexample(s: seq<bool>, start: nat)
    requires (start + 1) * 32 <= |s|
    ensures var s' := s[..start * 32] + CompactStores.StoredFieldAsWritten(Pow2(31), 32) + s[(start + 1) * 32..];
      |s'| == |s| && MsbFirst(s'[start * 32..(start + 1) * 32]) == 2 * Pow2(31) - 1 != LowBits(Pow2(31), 32)
  {
    var f := CompactStores.StoredFieldAsWritten(Pow2(31), 32);
    var s' := s[..start * 32] + f + s[(start + 1) * 32..];
    assert s'[start * 32..(start + 1) * 32] == f;
    CompactStores.Width32Counterexample();
    RangeRoundTrip(s, Pow2(31), start, 32);
    LowBitsSmall(Pow2(31), 32);
  }
}
