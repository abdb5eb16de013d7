/**
 * `elias_fano` (cmph): the Elias-Fano representation of the positions of
 * the ones of a bit vector.  The j-th one, at position p, is split into its
 * low l bits, stored as field j of `lower_bits`, and its high part, marked
 * by setting bit `(p >> l) + j` of `upper_bits`.  `select(r)` reads both
 * halves back.  The select index over the upper bits (`simple_select_half`)
 * is taken as the specification of select on that stream.
 */
module EliasFano {
  import opened Bits
  import opened Streams
  import opened Broadword
  import opened EliasFanoBits
  import opened SArrays

  /** `num_ones == 0 ? 0 : max(0, msb(num_bits / num_ones))` */
  function LowerWidth(n: nat, m: nat): (l: nat)
    requires IsWord(n) && m <= n
    ensures l < 64
  {
    if m == 0 then 0 else var t := Msb(n / m); if t < 0 then 0 else t
  }

  /** The width is the SArray's `floor(log2(n / m))` whenever there is a one. */
  lemma LowerWidthIsFloorLog2(n: nat, m: nat)
    requires IsWord(n) && 1 <= m <= n
    ensures LowerWidth(n, m) == LowWidth(n, m) && Pow2(LowerWidth(n, m)) <= n / m
  {
    FloorLog2Unique(n / m, Msb(n / m));
  }

  /** The low fields of all the ones take no more bits than the vector itself. */
  lemma LowerFits(n: nat, m: nat, l: nat)
    requires 1 <= m <= n && Pow2(l) <= n / m
    ensures m * l <= n
  {
    BelowPow2(l);
    MulLe(l, Pow2(l), m);
    MulLe(Pow2(l), n / m, m);
  }

  lemma {:induction false} BelowPow2(l: nat)
    ensures l < Pow2(l)
  {
    if l > 0 {
      BelowPow2(l - 1);
    }
  }

  /** A value below 2^l or-ed onto a multiple of 2^l is added to it. */
  lemma {:induction false} OrShifted(a: nat, l: nat, b: nat)
    requires b < Pow2(l)
    ensures Or(a * Pow2(l), b) == a * Pow2(l) + b
  {
    if l > 0 {
      var x := a * Pow2(l);
      Double(a, Pow2(l - 1));
      assert x == 2 * (a * Pow2(l - 1));
      OrShifted(a, l - 1, b / 2);
      if x != 0 && b != 0 {
        assert Or(x, b) == 2 * Or(x / 2, b / 2) + (if b % 2 == 1 then 1 else 0);
      }
    }
  }

  /** `x & ((1ULL << l) - 1)` is the low l bits of x. */
  lemma AndLowMask(x: nat, l: nat)
    ensures And(x, Pow2(l) - 1) == LowBits(x, l)
  {
    forall k: nat | k < l
      ensures Bit(And(x, Pow2(l) - 1), k) == Bit(LowBits(x, l), k)
    {
      BitAnd(x, Pow2(l) - 1, k);
      BitLowMask(l, k);
      BitLowBits(x, l, k);
    }
    AndBound(x, Pow2(l) - 1);
    BitsEqual(And(x, Pow2(l) - 1), LowBits(x, l), l);
  }

  /** The stream of the first n bits of a word array spells s. */
  ghost predicate WordsSpell(bits: seq<nat>, s: seq<bool>)
  {
    |s| <= 64 * |bits| && forall p | 0 <= p < |s| :: s[p] == Bit(bits[p / 64], p % 64)
  }

  /** The stream of a non-empty word array is its first word followed by the rest. */
  lemma WordStreamCons(ws: seq<nat>)
    requires |ws| > 0
    ensures WordStream(ws) == WordView(ws[0]) + WordStream(ws[1..])
  {
    var r := WordView(ws[0]) + WordStream(ws[1..]);
    forall p | 0 <= p < 64 * |ws|
      ensures WordStream(ws)[p] == r[p]
    {
      if p >= 64 {
        assert (p - 64) / 64 == p / 64 - 1 && (p - 64) % 64 == p % 64;
      }
    }
  }

  /** The counting loop of the constructor: the words are added from the last one down. */
  method CountOnes(bits: seq<nat>, numWords: nat) returns (m: nat)
    requires Words(bits) && numWords <= |bits|
    ensures m == Ones(WordStream(bits[..numWords]))
  {
    m := 0;
    var i := numWords;
    assert WordStream(bits[i..numWords]) == [];
    while i != 0
      invariant i <= numWords && m == Ones(WordStream(bits[i..numWords]))
    {
      i := i - 1;
      var rest := bits[i..numWords];
      WordStreamCons(rest);
      assert rest[1..] == bits[i + 1..numWords];
      OnesAppend(WordView(bits[i]), WordStream(bits[i + 1..numWords]));
      m := m + Count(bits[i]);
    }
    assert bits[0..numWords] == bits[..numWords];
  }

  /**
   * Field j of the lower stream, at [j * l, j * l + l), holds the low l bits
   * of the j-th one of s, least significant first, for every j < k.
   */
  ghost predicate LowerFields(t: seq<bool>, s: seq<bool>, l: nat, k: nat)
    decreases k
  {
    k <= Ones(s)
    && (k == 0 || (LowerFields(t, s, l, k - 1) && (k - 1) * l + l <= |t|
                   && t[(k - 1) * l..(k - 1) * l + l] == BitsOf(LowBits(Select(s, k - 1), l), l)))
  }

  lemma {:induction false} LowerFieldAt(t: seq<bool>, s: seq<bool>, l: nat, k: nat, j: nat)
    requires LowerFields(t, s, l, k) && j < k
    ensures j * l + l <= |t| && t[j * l..j * l + l] == BitsOf(LowBits(Select(s, j), l), l)
  {
    if j < k - 1 {
      LowerFieldAt(t, s, l, k - 1, j);
    }
  }

  /** Writing a field at or after field k keeps the first k fields. */
  lemma {:induction false} LowerFieldsKeep(t: seq<bool>, s: seq<bool>, l: nat, j: nat, k: nat, v: nat)
    requires LowerFields(t, s, l, k) && k <= j && j * l + l <= |t|
    ensures LowerFields(t[..j * l] + BitsOf(v, l) + t[j * l + l..], s, l, k)
  {
    if k > 0 {
      LowerFieldsKeep(t, s, l, j, k - 1, v);
      var t' := t[..j * l] + BitsOf(v, l) + t[j * l + l..];
      var a := (k - 1) * l;
      MulLe(k, j, l);
      assert a + l <= j * l;
      assert t'[a..a + l] == t[a..a + l];
    }
  }

  /** Writing the low part of the k-th one as field k extends the fields by one. */
  lemma LowerFieldsStep(t: seq<bool>, s: seq<bool>, l: nat, k: nat, v: nat)
    requires LowerFields(t, s, l, k) && k < Ones(s) && k * l + l <= |t|
    requires v == LowBits(Select(s, k), l)
    ensures LowerFields(t[..k * l] + BitsOf(v, l) + t[k * l + l..], s, l, k + 1)
  {
    LowerFieldsKeep(t, s, l, k, k, v);
    var t' := t[..k * l] + BitsOf(v, l) + t[k * l + l..];
    assert t'[k * l..k * l + l] == BitsOf(v, l);
  }

  /**
   * The lower half of one step of the constructor's loop at the k-th one,
   * found at position i: `set_bits(lower_bits, pos * l, l, i & lower_bits_mask)`.
   */
  method PlaceLower(lower: array<nat>, ghost s: seq<bool>, l: nat, k: nat, i: nat)
    requires Words(lower[..]) && 0 < l < 64 && k < Ones(s) && Select(s, k) == i
    requires k * l + l <= 64 * lower.Length
    requires LowerFields(WordStream(lower[..]), s, l, k)
    modifies lower
    ensures Words(lower[..]) && LowerFields(WordStream(lower[..]), s, l, k + 1)
  {
    var mask := Pow2(l) - 1;
    AndLowMask(i, l);
    ghost var before := WordStream(lower[..]);
    SetBits(lower, k * l, l, And(i, mask));
    LowerFieldsStep(before, s, l, k, LowBits(i, l));
  }

  /**
   * The upper half of the same step: `set(upper_bits, (i >> l) + pos)`.
   */
  method PlaceUpper(upper: array<nat>, ghost s: seq<bool>, l: nat, k: nat, i: nat)
    requires Words(upper[..]) && k < Ones(s) && Select(s, k) == i
    requires ShiftRight(i, l) + k < 64 * upper.Length
    requires WordStream(upper[..]) == Marks(HighMarksUpTo(s, l, k), 64 * upper.Length)
    modifies upper
    ensures Words(upper[..]) && WordStream(upper[..]) == Marks(HighMarksUpTo(s, l, k + 1), 64 * upper.Length)
  {
    MarksSnoc(HighMarksUpTo(s, l, k), ShiftRight(i, l) + k, 64 * upper.Length);
    Set(upper, ShiftRight(i, l) + k);
  }

  /**
   * The state of the constructor's loop after position i, with k ones
   * before it: the upper stream marks the first k high marks, and the lower
   * stream holds the first k low fields (or is the two zero words kept
   * when l is 0).
   */
  ghost predicate Placed(s: seq<bool>, up: seq<nat>, low: seq<nat>, l: nat, i: nat, k: nat)
  {
    Words(up) && Words(low) && i <= |s| && k == Rank(s, i) && k <= Ones(s)
    && WordStream(up) == Marks(HighMarksUpTo(s, l, k), 64 * |up|)
    && (l == 0 ==> low == [0, 0])
    && (l > 0 ==> LowerFields(WordStream(low), s, l, k))
  }

  /** One round of the constructor's loop, at position i with k ones before it. */
  method PlaceStep(bits: seq<nat>, upper: array<nat>, lower: array<nat>, ghost s: seq<bool>, l: nat, i: nat, k: nat)
    returns (k': nat)
    requires upper != lower && l < 64 && i < |s| && WordsSpell(bits, s)
    requires Ones(s) + ShiftRight(|s|, l) < 64 * upper.Length && FieldStart(Ones(s), l) <= 64 * lower.Length
    requires Placed(s, upper[..], lower[..], l, i, k)
    modifies upper, lower
    ensures Placed(s, upper[..], lower[..], l, i + 1, k')
  {
    AndPow2(bits[i / 64], i % 64);
    if And(bits[i / 64], Pow2(i % 64)) != 0 {
      PlaceOne(upper, lower, s, l, i, k);
      k' := k + 1;
    } else {
      SkipZero(s, upper[..], lower[..], l, i, k);
      k' := k;
    }
  }

  /** The round at a one: its low part becomes field k, its high part is marked. */
  method PlaceOne(upper: array<nat>, lower: array<nat>, ghost s: seq<bool>, l: nat, i: nat, k: nat)
    requires upper != lower && l < 64 && i < |s| && s[i]
    requires Ones(s) + ShiftRight(|s|, l) < 64 * upper.Length && FieldStart(Ones(s), l) <= 64 * lower.Length
    requires Placed(s, upper[..], lower[..], l, i, k)
    modifies upper, lower
    ensures Placed(s, upper[..], lower[..], l, i + 1, k + 1)
  {
    RankStep(s, i);
    RankMono(s, i + 1, |s|);
    RankAll(s);
    SelectUnique(s, k, i);
    if l != 0 {
      FieldEnd(k, Ones(s), l, 64 * lower.Length);
      PlaceLower(lower, s, l, k, i);
    }
    ShiftRightMono(i, |s|, l);
    PlaceUpper(upper, s, l, k, i);
  }

  /** The round at a zero changes nothing. */
  lemma SkipZero(s: seq<bool>, up: seq<nat>, low: seq<nat>, l: nat, i: nat, k: nat)
    requires Placed(s, up, low, l, i, k) && i < |s| && !s[i]
    ensures Placed(s, up, low, l, i + 1, k)
  {
    RankStep(s, i);
  }

  /** Field k of width l ends within a capacity that holds m > k fields. */
  lemma FieldEnd(k: nat, m: nat, l: nat, cap: nat)
    requires k < m && m * l <= cap
    ensures k * l + l <= cap
  {
    MulLe(k + 1, m, l);
  }

  /** The constructor's loop over the positions of the vector. */
  method PlaceAll(bits: seq<nat>, upper: array<nat>, lower: array<nat>, ghost s: seq<bool>, l: nat, numBits: nat)
    requires upper != lower && l < 64 && numBits == |s| && WordsSpell(bits, s)
    requires Ones(s) + ShiftRight(|s|, l) < 64 * upper.Length && FieldStart(Ones(s), l) <= 64 * lower.Length
    requires Placed(s, upper[..], lower[..], l, 0, 0)
    modifies upper, lower
    ensures Placed(s, upper[..], lower[..], l, |s|, Ones(s))
  {
    var pos := 0;
    var i := 0;
    while i < numBits
      invariant Placed(s, upper[..], lower[..], l, i, pos)
    {
      pos := PlaceStep(bits, upper, lower, s, l, i, pos);
      i := i + 1;
    }
    RankAll(s);
    assert i == |s| && pos == Ones(s);
  }

  /** The first n positions of a marking stream mark the same positions below n. */
  lemma MarksPrefix(qs: seq<nat>, big: nat, n: nat)
    requires n <= big
    ensures Marks(qs, big)[..n] == Marks(qs, n)
  {
  }

  /**
   * `block_size`: the largest b with b * l + b <= 64 and b <= l, found by
   * counting up from 0 until one of the two fails.
   */
  method BlockSize(l: nat) returns (b: nat)
    ensures b * l + b <= 64 && b <= l
    ensures forall c: nat | c > b :: c * l + c > 64 || c > l
  {
    b := 0;
    b := b + 1;
    while b * l + b <= 64 && b <= l
      invariant 1 <= b && b * l + b <= 64 + l + 1
      invariant forall c: nat | 1 <= c < b :: c * l + c <= 64 && c <= l
      decreases 65 - b
    {
      b := b + 1;
    }
    b := b - 1;
    forall c: nat | c > b
      ensures c * l + c > 64 || c > l
    {
      MulLe(b + 1, c, l);
    }
  }

  class EliasFano {
    const numBits: nat
    const numOnes: nat
    /** `l`: the width of the low fields. */
    const l: nat
    const lowerBits: array<nat>
    const upperBits: array<nat>
    /** The number of indexed positions of the upper bits, `num_ones + (num_bits >> l)`. */
    const upperLength: nat
    /** The indexed bit stream (`bits`, which the structure does not keep). */
    ghost const Source: seq<bool>

    ghost predicate Valid()
      reads lowerBits, upperBits
    {
      lowerBits != upperBits
      && |Source| == numBits && IsWord(numBits) && numOnes == Ones(Source) && FieldStart(numOnes, l) <= numBits
      && l == LowerWidth(numBits, numOnes)
      && upperLength == numOnes + ShiftRight(numBits, l)
      && Halves(lowerBits[..], upperBits[..], Source, l, upperLength)
    }

    /**
     * `elias_fano(bits, num_bits)` over the first num_bits positions of a
     * word array whose last used word is zero past num_bits (the count of
     * ones adds whole words).
     */
    constructor (bits: seq<nat>, numBits: nat)
      requires Words(bits) && numBits + 64 <= WordMod && (numBits + 63) / 64 <= |bits|
      requires forall p | numBits <= p < 64 * ((numBits + 63) / 64) :: !Bit(bits[p / 64], p % 64)
      ensures Valid() && Source == WordStream(bits)[..numBits] && this.numBits == numBits
      ensures lowerBits.Length == (FieldStart(numOnes, l) + 63) / 64 + (if l == 0 then 2 else 0)
      ensures upperBits.Length == (numOnes + ShiftRight(numBits, l) + 1 + 63) / 64
      ensures fresh(lowerBits) && fresh(upperBits)
    {
      var m, width := Measure(bits, numBits);
      ghost var s := WordStream(bits)[..numBits];
      SpellsPrefix(bits, numBits);
      var lower, upper := BuildHalves(bits, numBits, s, m, width);
      this.numBits := numBits;
      numOnes := m;
      l := width;
      lowerBits := lower;
      upperBits := upper;
      upperLength := m + ShiftRight(numBits, width);
      Source := s;
    }

    /**
     * `select(rank)`: the position of the rank-th one (from 0), as the
     * high part found by selecting in the upper bits, shifted back, or-ed
     * with the low field read by `get_bits`.
     */
    method Select(rank: nat) returns (r: nat)
      requires Valid() && rank < numOnes
      ensures r == Streams.Select(Source, rank)
    {
      HighSelect(Source, l, rank);
      var high := Streams.Select(WordStream(upperBits[..])[..upperLength], rank);
      LowerRead(lowerBits[..], Source, l, numOnes, rank);
      var low := GetBits(lowerBits[..], FieldStart(rank, l), l);
      r := Or(ShiftLeft(high - rank, l, W), low);
      Assemble(Streams.Select(Source, rank), l, rank, high, low);
    }
  }

  /** The first n positions of the stream of a word array are spelled by it. */
  lemma SpellsPrefix(bits: seq<nat>, n: nat)
    requires n <= 64 * |bits|
    ensures WordsSpell(bits, WordStream(bits)[..n])
  {
  }

  /** The count and the width of the low fields, the first part of the constructor. */
  method Measure(bits: seq<nat>, numBits: nat) returns (m: nat, width: nat)
    requires Words(bits) && numBits + 64 <= WordMod && (numBits + 63) / 64 <= |bits|
    requires forall p | numBits <= p < 64 * ((numBits + 63) / 64) :: !Bit(bits[p / 64], p % 64)
    ensures m == Ones(WordStream(bits)[..numBits]) && m <= numBits
    ensures width == LowerWidth(numBits, m) && FieldStart(m, width) <= numBits
  {
    var numWords := (numBits + 63) / 64;
    m := CountOnes(bits, numWords);
    OnesOfPadded(bits, numWords, numBits);
    width := LowerWidth(numBits, m);
    if m > 0 {
      LowerWidthIsFloorLog2(numBits, m);
      LowerFits(numBits, m, width);
    }
  }

  /**
   * The filled vectors: the upper stream's first `upperLength` positions
   * are the high marks of the ones of s, and the lower stream holds their
   * low fields (or is the two zero words kept when l is 0).
   */
  ghost predicate Halves(low: seq<nat>, up: seq<nat>, s: seq<bool>, l: nat, upperLength: nat)
  {
    Words(low) && Words(up)
    && upperLength < 64 * |up| && WordStream(up)[..upperLength] == HighBits(s, l)
    && (l == 0 ==> low == [0, 0])
    && (l > 0 ==> FieldStart(Ones(s), l) <= 64 * |low| && LowerFields(WordStream(low), s, l, Ones(s)))
  }

  /** The allocation and the filling loop of the constructor. */
  method BuildHalves(bits: seq<nat>, numBits: nat, ghost s: seq<bool>, m: nat, width: nat)
    returns (lower: array<nat>, upper: array<nat>)
    requires WordsSpell(bits, s) && |s| == numBits && m == Ones(s) && width < 64 && FieldStart(m, width) <= numBits
    ensures fresh(lower) && fresh(upper) && lower != upper
    ensures lower.Length == (FieldStart(m, width) + 63) / 64 + (if width == 0 then 2 else 0)
    ensures upper.Length == (m + ShiftRight(numBits, width) + 1 + 63) / 64
    ensures Halves(lower[..], upper[..], s, width, m + ShiftRight(numBits, width))
  {
    var upperLen := m + ShiftRight(numBits, width);
    lower, upper := Allocate(FieldStart(m, width), width, upperLen);
    PlacedNone(s, upper[..], lower[..], width);
    PlaceAll(bits, upper, lower, s, width, numBits);
    HalvesFrom(s, upper[..], lower[..], width, upperLen);
  }

  /** Before the loop: nothing is marked and no field is written. */
  lemma PlacedNone(s: seq<bool>, up: seq<nat>, low: seq<nat>, l: nat)
    requires Words(up) && Words(low) && WordStream(up) == Marks([], 64 * |up|)
    requires l == 0 ==> low == [0, 0]
    ensures Placed(s, up, low, l, 0, 0)
  {
  }

  /** After the loop over all positions, the vectors are filled. */
  lemma HalvesFrom(s: seq<bool>, up: seq<nat>, low: seq<nat>, l: nat, upperLen: nat)
    requires Placed(s, up, low, l, |s|, Ones(s))
    requires upperLen == Ones(s) + ShiftRight(|s|, l) && upperLen < 64 * |up|
    requires l > 0 ==> FieldStart(Ones(s), l) <= 64 * |low|
    ensures Halves(low, up, s, l, upperLen)
  {
    MarksPrefix(HighMarks(s, l), 64 * |up|, upperLen);
  }

  /**
   * The two zeroed vectors of the constructor: `(lowBits + 63) / 64` words
   * (two more when l is 0) and `(upperLen + 1 + 63) / 64` words.
   */
  method Allocate(lowBits: nat, l: nat, upperLen: nat) returns (lower: array<nat>, upper: array<nat>)
    requires l == 0 ==> lowBits == 0
    ensures fresh(lower) && fresh(upper) && lower != upper
    ensures lower.Length == (lowBits + 63) / 64 + (if l == 0 then 2 else 0)
    ensures upper.Length == (upperLen + 1 + 63) / 64
    ensures lowBits <= 64 * lower.Length && upperLen < 64 * upper.Length
    ensures l == 0 ==> lower[..] == [0, 0]
    ensures Words(lower[..]) && WordStream(lower[..]) == Marks([], 64 * lower.Length)
    ensures Words(upper[..]) && WordStream(upper[..]) == Marks([], 64 * upper.Length)
  {
    var lowerLength := (lowBits + 63) / 64 + (if l == 0 then 2 else 0);
    lower := new nat[lowerLength](_ => 0);
    upper := new nat[(upperLen + 1 + 63) / 64](_ => 0);
    ZeroWords(lower[..]);
    ZeroWords(upper[..]);
  }

  /** Offset of field j of width l in the lower stream, `j * l`. */
  function FieldStart(j: nat, l: nat): (r: nat)
    ensures r == j * l
  {
    j * l
  }

  /** Field `rank` of the lower stream, read by `get_bits`, is the low part of the rank-th one. */
  lemma LowerRead(ws: seq<nat>, s: seq<bool>, l: nat, m: nat, rank: nat)
    requires Words(ws) && l < 64 && rank < m <= Ones(s) && FieldStart(m, l) <= |s| < WordMod
    requires l == 0 ==> ws == [0, 0]
    requires l > 0 ==> FieldStart(m, l) <= 64 * |ws| && LowerFields(WordStream(ws), s, l, m)
    ensures IsWord(FieldStart(rank, l)) && FieldStart(rank, l) / 64 < |ws|
    ensures FieldStart(rank, l) / 64 != EndWord(FieldStart(rank, l), l) ==> FieldStart(rank, l) / 64 + 1 < |ws|
    ensures GetBits(ws, FieldStart(rank, l), l) == LowBits(Select(s, rank), l)
  {
    var start := FieldStart(rank, l);
    if l == 0 {
      assert start == 0;
      LowerReadZero(ws, s, rank);
    } else {
      LowerReadField(ws, s, l, m, rank, start);
    }
  }

  /** With no low bits, `lower_bits` is two zero words and `get_bits` at 0 reads 0. */
  lemma LowerReadZero(ws: seq<nat>, s: seq<bool>, rank: nat)
    requires ws == [0, 0] && rank < Ones(s)
    ensures GetBits(ws, 0, 0) == LowBits(Select(s, rank), 0)
  {
    GetBitsWidthZero(ws, 0);
  }

  /** With low bits, field `rank` starts at `start` = rank * l and is read whole. */
  lemma LowerReadField(ws: seq<nat>, s: seq<bool>, l: nat, m: nat, rank: nat, start: nat)
    requires Words(ws) && 0 < l < 64 && rank < m <= Ones(s) && FieldStart(m, l) <= |s| < WordMod && start == rank * l
    requires FieldStart(m, l) <= 64 * |ws| && LowerFields(WordStream(ws), s, l, m)
    ensures IsWord(start) && start / 64 < |ws|
    ensures start / 64 != EndWord(start, l) ==> start / 64 + 1 < |ws|
    ensures GetBits(ws, start, l) == LowBits(Select(s, rank), l)
  {
    FieldEnd(rank, m, l, |s|);
    FieldEnd(rank, m, l, 64 * |ws|);
    LowerFieldAt(WordStream(ws), s, l, m, rank);
    FieldRead(ws, start, l, LowBits(Select(s, rank), l));
  }

  /**
   * The high part found in the upper bits, less the rank, shifted back and
   * or-ed with the low part, is the position.
   */
  lemma Assemble(p: nat, l: nat, rank: nat, high: nat, low: nat)
    requires p < WordMod && high == ShiftRight(p, l) + rank && low == LowBits(p, l)
    ensures Or(ShiftLeft(high - rank, l, W), low) == p
  {
    var diff := high - rank;
    SplitAt(p, l);
    ShiftLeftBound(diff, l);
    OrShifted(diff, l, low);
  }

  /** Shifting the high part of a position below 2^64 back does not wrap. */
  lemma ShiftLeftBound(d: nat, l: nat)
    requires d * Pow2(l) < WordMod
    ensures ShiftLeft(d, l, W) == d * Pow2(l)
  {
    WordPow();
    ShiftLeftExact(d, l, W);
  }

  /** A freshly zeroed word array is made of words and its stream has no ones. */
  lemma ZeroWords(ws: seq<nat>)
    requires forall i | 0 <= i < |ws| :: ws[i] == 0
    ensures Words(ws) && WordStream(ws) == Marks([], 64 * |ws|)
  {
    forall p | 0 <= p < 64 * |ws|
      ensures WordStream(ws)[p] == Marks([], 64 * |ws|)[p]
    {
      BitZero(p % 64);
    }
  }

  /** The ones counted over whole words are the ones of the first n positions when the rest is zero. */
  lemma OnesOfPadded(bits: seq<nat>, numWords: nat, n: nat)
    requires numWords <= |bits| && n <= 64 * numWords
    requires forall p | n <= p < 64 * numWords :: !Bit(bits[p / 64], p % 64)
    ensures Ones(WordStream(bits[..numWords])) == Ones(WordStream(bits)[..n])
  {
    var all := WordStream(bits[..numWords]);
    assert all == all[..n] + all[n..];
    forall p | 0 <= p < n
      ensures all[..n][p] == WordStream(bits)[..n][p]
    {
    }
    assert all[..n] == WordStream(bits)[..n];
    forall p | 0 <= p < |all[n..]|
      ensures !all[n..][p]
    {
      assert all[n..][p] == Bit(bits[(n + p) / 64], (n + p) % 64);
    }
    OnesAppend(all[..n], all[n..]);
    OnesNone(all[n..]);
  }
}
