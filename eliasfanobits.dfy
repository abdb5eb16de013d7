/**
 * The word-array helpers of the Elias-Fano header: `set`, `set_bits` and
 * `get_bits` address a caller's `uint64_t` array as one bit stream in
 * which position p is bit p % 64 (least significant first) of word p / 64.
 * A field of `width` bits starting at `start` holds bit j of its value at
 * position start + j, and may straddle two words.
 */
module EliasFanoBits {
  import opened Bits
  import opened Streams

  /** Every entry is a 64-bit word. */
  predicate Words(ws: seq<nat>)
  {
    forall i | 0 <= i < |ws| :: IsWord(ws[i])
  }

  /** Two word sequences spell the given stream, position by position. */
  lemma StreamIs(ws: seq<nat>, s: seq<bool>)
    requires |s| == 64 * |ws|
    requires forall p | 0 <= p < |s| :: Bit(ws[p / 64], p % 64) == s[p]
    ensures WordStream(ws) == s
  {
  }

  /** `bits[word] | 1ULL << k`: bit k set, the others kept. */
  function SetInWord(w: nat, k: nat): (r: nat)
    requires IsWord(w) && k < 64
    ensures IsWord(r)
    ensures forall j: nat :: Bit(r, j) == (Bit(w, j) || j == k)
  {
    WordPow();
    Pow2Le(k + 1, W);
    OrBound(w, Pow2(k), W);
    forall j: nat ensures Bit(Or(w, Pow2(k)), j) == (Bit(w, j) || j == k) {
      BitOrPow2(w, k, j);
    }
    Or(w, Pow2(k))
  }

  /** `set(bits, pos)`: position pos is set and nothing else changes. */
  method Set(bits: array<nat>, pos: nat)
    requires Words(bits[..]) && pos < 64 * bits.Length
    modifies bits
    ensures Words(bits[..])
    ensures WordStream(bits[..]) == WordStream(old(bits[..]))[pos := true]
  {
    ghost var ws := bits[..];
    var i := pos / 64;
    bits[i] := SetInWord(bits[i], pos % 64);
    assert bits[..] == ws[i := bits[i]];
    StreamIs(bits[..], WordStream(ws)[pos := true]);
  }

  /**
   * `(w & ~(((1ULL << width) - 1) << sb)) | value << sb`: the word holding
   * a `set_bits` field that fits in one word.
   */
  function WriteInWord(w: nat, value: nat, sb: nat, width: nat): nat
  {
    Or(And(w, Not(ShiftLeft(Pow2(width) - 1, sb, W), W)), ShiftLeft(value, sb, W))
  }

  /** The single-word write keeps a word a word: bits outside the field kept, the field replaced. */
  lemma InWordBit(w: nat, value: nat, sb: nat, width: nat, k: nat)
    requires IsWord(w) && value < Pow2(width) && sb + width <= 64 && k < 64
    ensures IsWord(WriteInWord(w, value, sb, width))
    ensures Bit(WriteInWord(w, value, sb, width), k) == (if sb <= k < sb + width then Bit(value, k - sb) else Bit(w, k))
  {
    var m := ShiftLeft(Pow2(width) - 1, sb, W);
    var kept := And(w, Not(m, W));
    var placed := ShiftLeft(value, sb, W);
    assert IsWord(Or(kept, placed)) by {
      WordPow();
      AndBound(w, Not(m, W));
      OrBound(kept, placed, W);
    }
    BitPlaced(Pow2(width) - 1, sb, width, k);
    if sb <= k < sb + width {
      BitLowMask(width, k - sb);
    }
    BitNot(m, W, k);
    BitAndIs(w, Not(m, W), k, Bit(w, k), !(sb <= k < sb + width));
    BitPlaced(value, sb, width, k);
    BitOrIs(kept, placed, k, Bit(w, k) && !(sb <= k < sb + width), sb <= k < sb + width && Bit(value, k - sb));
  }

  /**
   * `(w & ((1ULL << sb) - 1)) | value << sb`: the first word of a field
   * that straddles two words.
   */
  function WriteLowWord(w: nat, value: nat, sb: nat): nat
  {
    Or(And(w, Pow2(sb) - 1), ShiftLeft(value, sb, W))
  }

  /** The first word of a straddling write keeps its bits below sb and takes the low field bits above. */
  lemma LowWordBit(w: nat, value: nat, sb: nat, k: nat)
    requires IsWord(w) && sb < 64 && k < 64
    ensures IsWord(WriteLowWord(w, value, sb))
    ensures Bit(WriteLowWord(w, value, sb), k) == (if k < sb then Bit(w, k) else Bit(value, k - sb))
  {
    var kept := And(w, Pow2(sb) - 1);
    var placed := ShiftLeft(value, sb, W);
    assert IsWord(Or(kept, placed)) by {
      WordPow();
      AndBound(w, Pow2(sb) - 1);
      OrBound(kept, placed, W);
    }
    BitLowMask(sb, k);
    BitAndIs(w, Pow2(sb) - 1, k, Bit(w, k), k < sb);
    BitShiftLeft(value, sb, W, k);
    BitOrIs(kept, placed, k, Bit(w, k) && k < sb, sb <= k && Bit(value, k - sb));
  }

  /**
   * `(w & -(1ULL << t)) | value >> (64 - sb)`, with s = 64 - sb: the
   * second word of a straddling field.
   */
  function WriteHighWord(w: nat, value: nat, s: nat, t: nat): nat
    requires t < W
  {
    Or(And(w, NegPow2(t)), ShiftRight(value, s))
  }

  /** The second word of a straddling write takes the field bits from s on and keeps the rest. */
  lemma HighWordBit(w: nat, value: nat, s: nat, t: nat, k: nat)
    requires IsWord(w) && t < W && value < Pow2(s + t) && k < W
    ensures IsWord(WriteHighWord(w, value, s, t))
    ensures Bit(WriteHighWord(w, value, s, t), k) == (if k < t then Bit(value, k + s) else Bit(w, k))
  {
    var kept := And(w, NegPow2(t));
    var placed := ShiftRight(value, s);
    ShiftRightBound(value, s, t);
    AndBound(w, NegPow2(t));
    WordOr(kept, placed, t);
    BitAndIs(w, NegPow2(t), k, Bit(w, k), t <= k);
    BitShiftedDown(value, s, t, k);
    BitOrIs(kept, placed, k, Bit(w, k) && t <= k, k < t && Bit(value, k + s));
  }

  /** A word Or-ed with a number of fewer than 64 bits is a word. */
  lemma WordOr(a: nat, b: nat, t: nat)
    requires IsWord(a) && b < Pow2(t) && t < W
    ensures IsWord(Or(a, b))
  {
    WordPow();
    Pow2Le(t, W);
    OrBound(a, b, W);
  }

  /**
   * Word x is word w with its bits [lo, lo + len) (below 64) replaced by
   * the bits of value from position off on.
   */
  ghost predicate Patched(x: nat, w: nat, value: nat, lo: nat, len: nat, off: nat)
  {
    forall k | 0 <= k < 64 :: Bit(x, k) == (if lo <= k < lo + len then Bit(value, k - lo + off) else Bit(w, k))
  }

  /**
   * `set_bits(bits, start, width, value)`: the field [start, start + width)
   * receives value, bit j at position start + j; nothing else changes.
   */
  method SetBits(bits: array<nat>, start: nat, width: nat, value: nat)
    requires Words(bits[..]) && 0 < width < 64 && value < Pow2(width)
    requires start + width <= 64 * bits.Length
    modifies bits
    ensures Words(bits[..])
    ensures WordStream(bits[..]) == WordStream(old(bits[..]))[..start] + BitsOf(value, width) + WordStream(old(bits[..]))[start + width..]
  {
    ghost var ws := bits[..];
    var startWord := start / 64;
    var endWord := (start + width - 1) / 64;
    var startBit := start % 64;
    if startWord == endWord {
      var x := WriteInWord(bits[startWord], value, startBit, width);
      InWordPatched(ws[startWord], value, startBit, width);
      OneWordWrite(ws, start, width, value, x);
      bits[startWord] := x;
      assert bits[..] == ws[startWord := x];
    } else {
      TwoWordPosition(0, start, width);
      var t := width - 64 + startBit;
      var s := 64 - startBit;
      assert s + t == width;
      var x := WriteLowWord(bits[startWord], value, startBit);
      var y := WriteHighWord(bits[endWord], value, s, t);
      LowWordPatched(ws[startWord], value, startBit);
      HighWordPatched(ws[endWord], value, s, t);
      TwoWordWrite(ws, start, width, value, x, y);
      bits[startWord] := x;
      bits[endWord] := y;
      ghost var ws1: seq<nat> := ws[startWord := x];
      assert bits[..] == ws1[endWord := y];
    }
  }

  /** The single-word write patches the field's bits into the word. */
  lemma InWordPatched(w: nat, value: nat, sb: nat, width: nat)
    requires IsWord(w) && value < Pow2(width) && sb + width <= 64
    ensures IsWord(WriteInWord(w, value, sb, width))
    ensures Patched(WriteInWord(w, value, sb, width), w, value, sb, width, 0)
  {
    forall k | 0 <= k < 64
      ensures Bit(WriteInWord(w, value, sb, width), k) == (if sb <= k < sb + width then Bit(value, k - sb + 0) else Bit(w, k))
    {
      InWordBit(w, value, sb, width, k);
    }
    InWordBit(w, value, sb, width, 0);
  }

  /** The first word of a straddling write takes the low field bits from bit sb on. */
  lemma LowWordPatched(w: nat, value: nat, sb: nat)
    requires IsWord(w) && sb < 64
    ensures IsWord(WriteLowWord(w, value, sb))
    ensures Patched(WriteLowWord(w, value, sb), w, value, sb, 64 - sb, 0)
  {
    forall k | 0 <= k < 64
      ensures Bit(WriteLowWord(w, value, sb), k) == (if sb <= k < sb + (64 - sb) then Bit(value, k - sb + 0) else Bit(w, k))
    {
      LowWordBit(w, value, sb, k);
    }
    LowWordBit(w, value, sb, 0);
  }

  /** The second word of a straddling write takes the field bits from s on below bit t. */
  lemma HighWordPatched(w: nat, value: nat, s: nat, t: nat)
    requires IsWord(w) && t < W && value < Pow2(s + t)
    ensures IsWord(WriteHighWord(w, value, s, t))
    ensures Patched(WriteHighWord(w, value, s, t), w, value, 0, t, s)
  {
    forall k | 0 <= k < 64
      ensures Bit(WriteHighWord(w, value, s, t), k) == (if 0 <= k < 0 + t then Bit(value, k - 0 + s) else Bit(w, k))
    {
      HighWordBit(w, value, s, t, k);
    }
    HighWordBit(w, value, s, t, 0);
  }

  /** The stream after a single-word `set_bits`. */
  lemma OneWordWrite(ws: seq<nat>, start: nat, width: nat, value: nat, x: nat)
    requires Words(ws) && 0 < width < 64 && start + width <= 64 * |ws|
    requires start / 64 == (start + width - 1) / 64
    requires IsWord(x) && Patched(x, ws[start / 64], value, start % 64, width, 0)
    ensures Words(ws[start / 64 := x])
    ensures WordStream(ws[start / 64 := x]) == WordStream(ws)[..start] + BitsOf(value, width) + WordStream(ws)[start + width..]
  {
    var sw, sb := start / 64, start % 64;
    var ws' := ws[sw := x];
    var s := WordStream(ws)[..start] + BitsOf(value, width) + WordStream(ws)[start + width..];
    forall p | 0 <= p < |s|
      ensures Bit(ws'[p / 64], p % 64) == s[p]
    {
      FieldAt(WordStream(ws), start, value, width, p);
      OneWordPosition(p, start, width);
    }
    StreamIs(ws', s);
  }

  /** Position p of a stream after a field was spliced in at start. */
  lemma FieldAt(s: seq<bool>, start: nat, value: nat, width: nat, p: nat)
    requires start + width <= |s| && p < |s|
    ensures (s[..start] + BitsOf(value, width) + s[start + width..])[p]
      == if start <= p < start + width then Bit(value, p - start) else s[p]
  {
  }

  /** The stream after a `set_bits` that straddles two words. */
  lemma TwoWordWrite(ws: seq<nat>, start: nat, width: nat, value: nat, x: nat, y: nat)
    requires Words(ws) && 0 < width < 64 && start + width <= 64 * |ws|
    requires start / 64 != (start + width - 1) / 64
    requires start / 64 + 1 < |ws|
    requires IsWord(x) && Patched(x, ws[start / 64], value, start % 64, 64 - start % 64, 0)
    requires IsWord(y) && Patched(y, ws[start / 64 + 1], value, 0, width - 64 + start % 64, 64 - start % 64)
    ensures var ws1: seq<nat> := ws[start / 64 := x]; Words(ws1[start / 64 + 1 := y])
    ensures var ws1: seq<nat> := ws[start / 64 := x];
      WordStream(ws1[start / 64 + 1 := y]) == WordStream(ws)[..start] + BitsOf(value, width) + WordStream(ws)[start + width..]
  {
    TwoWordPosition(0, start, width);
    var sw := start / 64;
    var ws1: seq<nat> := ws[sw := x];
    var ws' := ws1[sw + 1 := y];
    var s := WordStream(ws)[..start] + BitsOf(value, width) + WordStream(ws)[start + width..];
    forall p | 0 <= p < |s|
      ensures Bit(ws'[p / 64], p % 64) == s[p]
    {
      FieldAt(WordStream(ws), start, value, width, p);
      TwoWordPosition(p, start, width);
    }
    StreamIs(ws', s);
  }

  /** Where a position lies relative to a field inside one word. */
  lemma OneWordPosition(p: nat, start: nat, width: nat)
    requires 0 < width && start / 64 == (start + width - 1) / 64
    ensures p / 64 == start / 64 ==> (start <= p < start + width <==> start % 64 <= p % 64 < start % 64 + width)
    ensures p / 64 == start / 64 && start <= p ==> p % 64 - start % 64 == p - start
    ensures p / 64 != start / 64 ==> !(start <= p < start + width)
  {
  }

  /** Where a position lies relative to a field that straddles two words. */
  lemma TwoWordPosition(p: nat, start: nat, width: nat)
    requires 0 < width < 64 && start / 64 != (start + width - 1) / 64
    ensures (start + width - 1) / 64 == start / 64 + 1
    ensures p / 64 == start / 64 ==> (start <= p <==> start % 64 <= p % 64) && p % 64 - start % 64 == p - start
    ensures p / 64 == start / 64 + 1 ==>
      (p < start + width <==> p % 64 < width - 64 + start % 64) && p % 64 + 64 - start % 64 == p - start
    ensures p / 64 != start / 64 && p / 64 != start / 64 + 1 ==> !(start <= p < start + width)
  {
  }

  /**
   * `end_word` of `get_bits`: `(start + width - 1) / 64` computed on
   * unsigned 64-bit values, so that width 0 at position 0 wraps around.
   */
  function EndWord(start: nat, width: nat): (r: nat)
    requires IsWord(start) && width < 64
    ensures 0 < width && start + width <= WordMod ==> r == (start + width - 1) / 64
    ensures width == 0 ==> (r == start / 64 <==> start % 64 != 0)
  {
    ((start + width + WordMod - 1) % WordMod) / 64
  }

  /**
   * `get_bits(bits, start, width)`: the single-word read masks the shifted
   * word; the straddling read masks only the part taken from the second word.
   */
  function GetBits(bits: seq<nat>, start: nat, width: nat): nat
    requires IsWord(start) && width < 64
    requires start / 64 < |bits|
    requires start / 64 != EndWord(start, width) ==> start / 64 + 1 < |bits|
  {
    var startWord := start / 64;
    var startBit := start % 64;
    if startWord == EndWord(start, width) then
      ReadInWord(bits[startWord], startBit, width)
    else
      ReadAcross(bits[startWord], bits[startWord + 1], startBit, width)
  }

  /** `(w >> sb) & mask` */
  function ReadInWord(w: nat, sb: nat, width: nat): nat
  {
    And(ShiftRight(w, sb), Pow2(width) - 1)
  }

  /** `(w >> sb) | ((w2 << (64 - sb)) & mask)` */
  function ReadAcross(w: nat, w2: nat, sb: nat, width: nat): nat
    requires sb < 64
  {
    Or(ShiftRight(w, sb), And(ShiftLeft(w2, 64 - sb, W), Pow2(width) - 1))
  }

  /** Bit k of the single-word read. */
  lemma OneWordBit(w: nat, sb: nat, width: nat, k: nat)
    ensures Bit(ReadInWord(w, sb, width), k) == (k < width && Bit(w, sb + k))
  {
    BitLowMask(width, k);
    BitShiftRight(w, sb, k);
    BitAndIs(ShiftRight(w, sb), Pow2(width) - 1, k, Bit(w, sb + k), k < width);
  }

  /** Bit k of the straddling read: the first word's part, then the masked second word's part. */
  lemma TwoWordsBit(w: nat, w2: nat, sb: nat, width: nat, k: nat)
    requires IsWord(w) && sb < 64 && width < 64
    ensures Bit(ReadAcross(w, w2, sb, width), k) == ((k < 64 - sb && Bit(w, sb + k)) || (64 - sb <= k < width && Bit(w2, sb + k - 64)))
  {
    var shifted := ShiftLeft(w2, 64 - sb, W);
    BitShiftRight(w, sb, k);
    if k >= 64 - sb {
      WordPow();
      BitBound(w, W, sb + k);
    }
    BitShiftLeft(w2, 64 - sb, W, k);
    BitLowMask(width, k);
    BitAndIs(shifted, Pow2(width) - 1, k, 64 - sb <= k < W && Bit(w2, k - (64 - sb)), k < width);
    BitOrIs(ShiftRight(w, sb), And(shifted, Pow2(width) - 1), k,
      k < 64 - sb && Bit(w, sb + k), 64 - sb <= k < width && Bit(w2, sb + k - 64));
  }

  /** Positions between two positions of one word lie in that word, at the matching offset. */
  lemma SameWord(a: nat, p: nat, b: nat)
    requires a <= p <= b && a / 64 == b / 64
    ensures p / 64 == a / 64 && p % 64 == a % 64 + (p - a)
  {
  }

  /** A position k after start, in the word of start or the next one. */
  lemma NextWord(start: nat, k: nat)
    requires start % 64 + k < 128
    ensures start % 64 + k < 64 ==> (start + k) / 64 == start / 64 && (start + k) % 64 == start % 64 + k
    ensures start % 64 + k >= 64 ==> (start + k) / 64 == start / 64 + 1 && (start + k) % 64 == start % 64 + k - 64
  {
  }

  /** r holds the stretch [start, start + width) of the word stream in its low bits, and nothing above. */
  ghost predicate HoldsStretch(r: nat, ws: seq<nat>, start: nat, width: nat)
    requires start + width <= 64 * |ws|
  {
    (forall k | 0 <= k < width :: Bit(r, k) == Bit(ws[(start + k) / 64], (start + k) % 64))
    && (forall k: nat | width <= k :: !Bit(r, k))
  }

  /** The single-word read of a field inside one word holds that field. */
  lemma OneWordRead(ws: seq<nat>, start: nat, width: nat, r: nat)
    requires 0 < width && start / 64 == (start + width - 1) / 64 && start / 64 < |ws|
    requires forall k: nat :: Bit(r, k) == (k < width && Bit(ws[start / 64], start % 64 + k))
    ensures start + width <= 64 * |ws|
    ensures HoldsStretch(r, ws, start, width)
  {
    forall k | 0 <= k < width ensures Bit(r, k) == Bit(ws[(start + k) / 64], (start + k) % 64) {
      SameWord(start, start + k, start + width - 1);
    }
  }

  /** The straddling read of a field across two words holds that field. */
  lemma TwoWordRead(ws: seq<nat>, start: nat, width: nat, r: nat)
    requires 0 < width < 64 && start / 64 != (start + width - 1) / 64 && start / 64 + 1 < |ws|
    requires forall k: nat :: Bit(r, k) == ((k < 64 - start % 64 && Bit(ws[start / 64], start % 64 + k)) || (64 - start % 64 <= k < width && Bit(ws[start / 64 + 1], start % 64 + k - 64)))
    ensures start + width <= 64 * |ws|
    ensures HoldsStretch(r, ws, start, width)
  {
    TwoWordPosition(0, start, width);
    forall k | 0 <= k < width ensures Bit(r, k) == Bit(ws[(start + k) / 64], (start + k) % 64) {
      NextWord(start, k);
    }
  }

  /**
   * For 0 < width < 64, `get_bits` returns the field [start, start + width)
   * read least significant first, whether or not it straddles two words.
   */
  lemma GetBitsField(bits: seq<nat>, start: nat, width: nat)
    requires Words(bits) && IsWord(start) && 0 < width < 64 && start + width <= WordMod
    requires start / 64 < |bits|
    requires start / 64 != EndWord(start, width) ==> start / 64 + 1 < |bits|
    ensures start + width <= 64 * |bits|
    ensures GetBits(bits, start, width) < Pow2(width)
    ensures BitsOf(GetBits(bits, start, width), width) == WordStream(bits)[start..start + width]
  {
    var r := GetBits(bits, start, width);
    var w, sb := bits[start / 64], start % 64;
    if start / 64 == (start + width - 1) / 64 {
      forall k: nat ensures Bit(r, k) == (k < width && Bit(w, sb + k)) {
        OneWordBit(w, sb, width, k);
      }
      OneWordRead(bits, start, width, r);
    } else {
      var w2 := bits[start / 64 + 1];
      forall k: nat ensures Bit(r, k) == ((k < 64 - sb && Bit(w, sb + k)) || (64 - sb <= k < width && Bit(w2, sb + k - 64))) {
        TwoWordsBit(w, w2, sb, width, k);
      }
      TwoWordRead(bits, start, width, r);
    }
    BitsBelowPow2(r, width);
    BitsOfStream(r, bits, start, width);
  }

  /** A number whose low width bits match a stretch of the word stream spells that stretch. */
  lemma BitsOfStream(r: nat, ws: seq<nat>, start: nat, width: nat)
    requires start + width <= 64 * |ws|
    requires forall k | 0 <= k < width :: Bit(r, k) == Bit(ws[(start + k) / 64], (start + k) % 64)
    ensures BitsOf(r, width) == WordStream(ws)[start..start + width]
  {
    forall k | 0 <= k < width ensures BitsOf(r, width)[k] == WordStream(ws)[start..start + width][k] {
      assert WordStream(ws)[start + k] == Bit(ws[(start + k) / 64], (start + k) % 64);
    }
  }

  /**
   * Width 0, which the header calls bogus: 0 inside a word, and the whole
   * word at a word boundary, where `end_word` wraps to another word.
   */
  lemma GetBitsWidthZero(bits: seq<nat>, start: nat)
    requires IsWord(start) && start / 64 < |bits|
    requires start / 64 != EndWord(start, 0) ==> start / 64 + 1 < |bits|
    ensures GetBits(bits, start, 0) == (if start % 64 == 0 then bits[start / 64] else 0)
  {
    var sw := start / 64;
    if start % 64 == 0 {
      var high := And(ShiftLeft(bits[sw + 1], 64, W), 0);
      AndBound(ShiftLeft(bits[sw + 1], 64, W), 0);
      assert Or(ShiftRight(bits[sw], 0), high) == bits[sw];
    } else {
      AndBound(ShiftRight(bits[sw], start % 64), 0);
    }
  }

  /** A number with no set bit at or above n is below 2^n. */
  lemma BitsBelowPow2(x: nat, n: nat)
    requires forall k: nat :: n <= k ==> !Bit(x, k)
    ensures x < Pow2(n)
  {
    var m := Bound(x);
    Pow2Le(m, n + m);
    BitsBelow(x, n, n + m);
  }

  /** Some m with x < 2^m. */
  function Bound(x: nat): (m: nat)
    ensures x < Pow2(m)
  {
    if x == 0 then 0 else 1 + Bound(x / 2)
  }

  /** Reading a field back after `set_bits` wrote it yields the value written. */
  lemma GetAfterSet(ws: seq<nat>, ws': seq<nat>, start: nat, width: nat, value: nat)
    requires Words(ws) && Words(ws') && |ws'| == |ws|
    requires 0 < width < 64 && value < Pow2(width) && start + width <= 64 * |ws| && start + width <= WordMod
    requires WordStream(ws') == WordStream(ws)[..start] + BitsOf(value, width) + WordStream(ws)[start + width..]
    ensures start / 64 < |ws'| && (start / 64 != EndWord(start, width) ==> start / 64 + 1 < |ws'|)
    ensures GetBits(ws', start, width) == value
  {
    assert WordStream(ws')[start..start + width] == BitsOf(value, width);
    FieldRead(ws', start, width, value);
  }

  /** Reading a field whose stretch of the stream spells value yields value. */
  lemma FieldRead(ws: seq<nat>, start: nat, width: nat, value: nat)
    requires Words(ws) && 0 < width < 64 && value < Pow2(width) && start + width <= 64 * |ws| && start + width <= WordMod
    requires WordStream(ws)[start..start + width] == BitsOf(value, width)
    ensures start / 64 < |ws| && (start / 64 != EndWord(start, width) ==> start / 64 + 1 < |ws|)
    ensures GetBits(ws, start, width) == value
  {
    var r := GetBits(ws, start, width);
    GetBitsField(ws, start, width);
    forall k: nat | k < width ensures Bit(r, k) == Bit(value, k) {
      assert BitsOf(r, width)[k] == BitsOf(value, width)[k];
    }
    BitsEqual(r, value, width);
  }
}
