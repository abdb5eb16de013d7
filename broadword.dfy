/**
 * The word helpers shared by the Sux-derived headers: `count`, `msb`,
 * `ceil_log2` and `select_in_word`, including the table-driven
 * `SELPOPCOUNT` variant of `select_in_word`.  The broadword arithmetic the
 * source uses for `count` and `select_in_word` is specified by its result
 * (population count, position of the k-th set bit).
 */
module Broadword {
  import opened Bits
  import opened Streams

  function PopCount(x: nat): nat
  {
    if x == 0 then 0 else x % 2 + PopCount(x / 2)
  }

  lemma {:induction false} PopCountBits(x: nat, n: nat)
    requires x < Pow2(n)
    ensures PopCount(x) == Ones(BitsOf(x, n))
  {
    if n == 0 {
      assert x == 0;
    } else {
      PopCountBits(x / 2, n - 1);
      assert BitsOf(x, n) == [x % 2 == 1] + BitsOf(x / 2, n - 1);
      OnesAppend([x % 2 == 1], BitsOf(x / 2, n - 1));
      assert Ones([x % 2 == 1]) == x % 2 by {
        assert [x % 2 == 1][..0] == [];
      }
    }
  }

  /** `count(x)`: the number of set bits of a 64-bit word. */
  function Count(x: nat): (r: nat)
    requires IsWord(x)
    ensures r == Ones(WordView(x)) && r <= 64
  {
    WordPow();
    PopCountBits(x, W);
    PopCount(x)
  }

  /** Floor of log2 for a positive number. */
  function FloorLog2(y: nat): (r: nat)
    requires y >= 1
    ensures Pow2(r) <= y < Pow2(r + 1)
  {
    if y == 1 then 0 else 1 + FloorLog2(y / 2)
  }

  /** When y lies in [2^m, 2^(m+1)), m is its floor log2. */
  lemma FloorLog2Unique(y: nat, m: nat)
    requires Pow2(m) <= y < Pow2(m + 1)
    ensures FloorLog2(y) == m
  {
    var f := FloorLog2(y);
    if f < m { Pow2Le(f + 1, m); }
    if m < f { Pow2Le(m + 1, f); }
  }

  /**
   * `msb(x)`: -1 for 0, else the index of the highest set bit.  The two
   * halving steps are the source's; the final 16-bit broadword step is
   * specified by its result.
   */
  function Msb(x: nat): (r: int)
    requires IsWord(x)
    ensures x == 0 ==> r == -1
    ensures x > 0 ==> 0 <= r < 64 && Pow2(r) <= x < Pow2(r + 1)
  {
    if x == 0 then -1
    else
      // ( x & 0xFFFFFFFF00000000 ) != 0 holds exactly when x >= 2^32
      var x1 := if x >= HalfMod then ShiftRight(x, 32) else x;
      var m1 := if x >= HalfMod then 32 else 0;
      // after the first step x < 2^32, so ( x & 0xFFFF0000 ) != 0 holds exactly when x >= 2^16
      var x2 := if x1 >= 0x1_0000 then ShiftRight(x1, 16) else x1;
      var m2 := if x1 >= 0x1_0000 then m1 + 16 else m1;
      MsbHalvings(x, x1, x2);
      m2 + FloorLog2(x2)
  }

  /** Dropping s low bits of a number of at least 2^s lowers its floor log2 by s. */
  lemma {:induction false} FloorLog2Shift(x: nat, s: nat)
    requires x >= Pow2(s)
    ensures ShiftRight(x, s) >= 1 && FloorLog2(x) == s + FloorLog2(ShiftRight(x, s))
  {
    if s > 0 {
      FloorLog2Shift(x / 2, s - 1);
    }
  }

  lemma MsbHalvings(x: nat, x1: nat, x2: nat)
    requires 1 <= x < WordMod
    requires x1 == if x >= HalfMod then ShiftRight(x, 32) else x
    requires x2 == if x1 >= 0x1_0000 then ShiftRight(x1, 16) else x1
    ensures x1 >= 1 && x2 >= 1
    ensures FloorLog2(x) == (if x >= HalfMod then 32 else 0) + (if x1 >= 0x1_0000 then 16 else 0) + FloorLog2(x2)
    ensures FloorLog2(x) < 64
  {
    Pow2Values();
    MsbStep(x, 32, x1);
    MsbStep(x1, 16, x2);
    WordPow();
    FloorLog2Below(x, W);
  }

  /** One halving step of `msb`: either the value is shifted down by s or left alone. */
  lemma MsbStep(x: nat, s: nat, x': nat)
    requires x >= 1
    requires (x >= Pow2(s) && x' == ShiftRight(x, s)) || (x < Pow2(s) && x' == x)
    ensures x' >= 1 && FloorLog2(x) == (if x >= Pow2(s) then s else 0) + FloorLog2(x')
  {
    if x >= Pow2(s) { FloorLog2Shift(x, s); }
  }

  lemma FloorLog2Below(x: nat, n: nat)
    requires 1 <= x < Pow2(n)
    ensures FloorLog2(x) < n
  {
    if FloorLog2(x) >= n { Pow2Le(n, FloorLog2(x)); }
  }

  lemma ShiftRightTwice(x: nat, a: nat, b: nat)
    ensures ShiftRight(ShiftRight(x, a), b) == ShiftRight(x, a + b)
  {
    if a > 0 { ShiftRightTwice(x / 2, a - 1, b); }
  }

  /**
   * `ceil_log2(x) = msb(x - 1) + 1` on unsigned words: for x >= 1 the least r
   * with x <= 2^r; for x == 0 the subtraction wraps to 2^64 - 1 and the
   * result is 64.
   */
  function CeilLog2(x: nat): (r: nat)
    requires IsWord(x)
    ensures x == 0 ==> r == 64
    ensures x >= 1 ==> r <= 64 && x <= Pow2(r) && (r == 0 || Pow2(r - 1) < x)
  {
    var pred := if x == 0 then WordMod - 1 else x - 1;
    var m := Msb(pred);
    if x == 0 then
      assert pred >= HalfMod;
      CeilLog2Wrap(pred, m);
      m + 1
    else m + 1
  }

  lemma CeilLog2Wrap(y: nat, m: int)
    requires y == WordMod - 1 && 0 <= m < 64 && Pow2(m) <= y < Pow2(m + 1)
    ensures m == 63
  {
    WordPow();
    if m < W - 1 {
      Pow2Le(m + 1, W - 1);
    }
  }

  /**
   * `select_in_word(x, k)`: the position of the k-th (0-based) set bit of x,
   * or 72 when x has at most k set bits.
   */
  function SelectInWord(x: nat, k: nat): (r: nat)
    requires IsWord(x)
    ensures k < Count(x) ==> r < 64 && Bit(x, r) && Rank(WordView(x), r) == k
    ensures k >= Count(x) ==> r == 72
  {
    if k < Count(x) then Select(WordView(x), k) else 72
  }

  /** The i-th byte of a word, `x >> i & 0xFF`. */
  function ByteOf(x: nat, i: nat): (r: nat)
    ensures r < Pow2(8)
  {
    LowBits(ShiftRight(x, i), 8)
  }

  /** The byte popcount table `popcount[b]` holds the number of ones of b. */
  lemma ByteOnes(x: nat, i: nat)
    requires i + 8 <= 64
    ensures PopCount(ByteOf(x, i)) == Ones(WordView(x)[i..i + 8])
  {
    PopCountBits(ByteOf(x, i), 8);
    forall k | 0 <= k < 8
      ensures BitsOf(ByteOf(x, i), 8)[k] == WordView(x)[i..i + 8][k]
    {
      BitLowBits(ShiftRight(x, i), 8, k);
      BitShiftRight(x, i, k);
    }
    assert BitsOf(ByteOf(x, i), 8) == WordView(x)[i..i + 8];
  }

  /** `popcount[x >> i & 0xFF]`: the number of ones in bits [i, i + 8) of x. */
  function BytePopCount(x: nat, i: nat): (r: nat)
    requires i + 8 <= 64
    ensures r == Ones(WordView(x)[i..i + 8])
  {
    ByteOnes(x, i);
    PopCount(ByteOf(x, i))
  }

  /**
   * The `SELPOPCOUNT` variant of `select_in_word`: skip whole bytes by their
   * popcount, then scan the bits of the byte holding the k-th one; -1 when
   * no such bit exists.
   */
  method SelectInWordByBytes(x: nat, k: int) returns (r: int)
    requires IsWord(x) && k >= 0
    ensures k < Count(x) ==> r == SelectInWord(x, k)
    ensures k >= Count(x) ==> r == -1
  {
    ghost var w := WordView(x);
    var i := 0;
    var c := k;
    while i < 64
      invariant 0 <= i <= 64 && i % 8 == 0
      invariant c == k - Rank(w, i) && c >= 0
    {
      RankSplit(w, i, i + 8);
      c := c - BytePopCount(x, i);
      if c < 0 {
        c := c + BytePopCount(x, i);
        r := SelectInByte(x, i, c);
        return;
      }
      i := i + 8;
    }
    RankAll(w);
    assert Count(x) <= k;
    return -1;
  }

  /** The inner loop of the `SELPOPCOUNT` variant: the c-th one of byte i / 8. */
  method SelectInByte(x: nat, i: nat, c: int) returns (r: int)
    requires IsWord(x) && i + 8 <= 64
    requires 0 <= c && Rank(WordView(x), i) + c < Rank(WordView(x), i + 8)
    ensures Rank(WordView(x), i) + c < Count(x)
    ensures r == SelectInWord(x, Rank(WordView(x), i) + c)
  {
    ghost var w := WordView(x);
    ghost var k := Rank(w, i) + c;
    assert k < Count(x) by {
      RankMono(w, i + 8, 64);
      RankAll(w);
    }
    var j := 0;
    var c' := c;
    while j < 8
      invariant 0 <= j <= 8
      invariant c' == k - Rank(w, i + j) && c' >= 0
    {
      assert Rank(w, i + j + 1) == Rank(w, i + j) + (if Bit(x, i + j) then 1 else 0) by {
        RankStep(w, i + j);
      }
      if Bit(x, i + j) {
        if c' == 0 {
          SelectUnique(w, k, i + j);
          return i + j;
        }
        c' := c' - 1;
      }
      j := j + 1;
    }
    assert false;
  }
}
