/**
 * Unsigned machine words as natural numbers.
 *
 * A `uint64_t` of the source is a `nat` below 2^64; its bits are read with
 * `Bit`, and the C operators `&`, `|`, `^`, `>>` and masking to the low `n`
 * bits are the recursive functions below, each specified bit by bit.
 */
module Bits {

  /** 2^k */
  function Pow2(k: nat): (r: nat)
    ensures r >= 1
  {
    if k == 0 then 1 else 2 * Pow2(k - 1)
  }

  /** 2^64: one more than the largest `uint64_t`. */
  const WordMod: nat := 0x1_0000_0000_0000_0000

  /** 2^32: one more than the largest 32-bit `unsigned`. */
  const HalfMod: nat := 0x1_0000_0000

  predicate IsWord(x: nat)
  {
    x < WordMod
  }

  lemma {:induction false} Pow2Add(a: nat, b: nat)
    ensures Pow2(a + b) == Pow2(a) * Pow2(b)
  {
    if a > 0 {
      Pow2Add(a - 1, b);
      Double(Pow2(b), Pow2(a - 1));
    }
  }

  lemma {:induction false} Pow2Le(a: nat, b: nat)
    requires a <= b
    ensures Pow2(a) <= Pow2(b)
  {
    if a < b { Pow2Le(a, b - 1); }
  }

  lemma Pow2Values()
    ensures Pow2(16) == 0x1_0000 && Pow2(32) == HalfMod && Pow2(64) == WordMod
  {
    assert Pow2(4) == 16;
    Pow2Add(4, 4);
    Pow2Add(8, 8);
    Pow2Add(16, 16);
    Pow2Add(32, 32);
  }

  /** Bits in a word.  Widths are passed as this name, never as the numeral. */
  const W: nat := 64

  lemma WordPow()
    ensures Pow2(W) == WordMod
  {
    Pow2Values();
  }

  /** Bit k of x; bit 0 is the least significant. */
  function Bit(x: nat, k: nat): bool
  {
    if k == 0 then x % 2 == 1 else Bit(x / 2, k - 1)
  }

  /** Euclidean division is unique: the basis of every shift/mask identity below. */
  lemma DivUnique(x: nat, d: nat, q: nat, r: nat)
    requires d > 0 && x == q * d + r && r < d
    ensures x / d == q && x % d == r
  {
    var q' := x / d;
    if q' > q {
      MulLe(q + 1, q', d);
      assert false;
    } else if q' < q {
      MulLe(q' + 1, q, d);
      assert false;
    }
  }

  lemma Double(a: nat, p: nat)
    ensures a * (2 * p) == 2 * (a * p)
  {
  }

  lemma MulLe(a: nat, b: nat, d: nat)
    requires a <= b
    ensures a * d <= b * d
  {
  }

  /** `x >> s` */
  function ShiftRight(x: nat, s: nat): nat
  {
    if s == 0 then x else ShiftRight(x / 2, s - 1)
  }

  lemma {:induction false} ShiftRightMono(a: nat, b: nat, l: nat)
    requires a <= b
    ensures ShiftRight(a, l) <= ShiftRight(b, l)
  {
    if l > 0 {
      ShiftRightMono(a / 2, b / 2, l - 1);
    }
  }

  lemma {:induction false} ShiftRightLe(x: nat, l: nat)
    ensures ShiftRight(x, l) <= x
  {
    if l > 0 {
      ShiftRightLe(x / 2, l - 1);
    }
  }

  /** `x & ((1 << n) - 1)`: the low n bits of x. */
  function LowBits(x: nat, n: nat): (r: nat)
    ensures r < Pow2(n)
  {
    if n == 0 then 0 else 2 * LowBits(x / 2, n - 1) + x % 2
  }

  /** A number is its high part shifted back plus its low part. */
  lemma {:induction false} SplitAt(x: nat, n: nat)
    ensures x == ShiftRight(x, n) * Pow2(n) + LowBits(x, n)
  {
    if n > 0 {
      SplitAt(x / 2, n - 1);
      Double(ShiftRight(x / 2, n - 1), Pow2(n - 1));
    }
  }

  /** `>>` and the low-bit mask are division and remainder by a power of two. */
  lemma ShiftRightIsDiv(x: nat, n: nat)
    ensures ShiftRight(x, n) == x / Pow2(n) && LowBits(x, n) == x % Pow2(n)
  {
    SplitAt(x, n);
    DivUnique(x, Pow2(n), ShiftRight(x, n), LowBits(x, n));
  }

  lemma {:induction false} BitZero(k: nat)
    ensures !Bit(0, k)
  {
    if k > 0 { BitZero(k - 1); }
  }

  lemma {:induction false} BitShiftRight(x: nat, s: nat, k: nat)
    ensures Bit(ShiftRight(x, s), k) == Bit(x, k + s)
  {
    if s > 0 { BitShiftRight(x / 2, s - 1, k); }
  }

  lemma {:induction false} BitLowBits(x: nat, n: nat, k: nat)
    ensures Bit(LowBits(x, n), k) == (k < n && Bit(x, k))
  {
    if n == 0 {
      BitZero(k);
    } else if k > 0 {
      BitLowBits(x / 2, n - 1, k - 1);
    }
  }

  /** `x << s` before truncation. */
  lemma {:induction false} BitMul(x: nat, s: nat, k: nat)
    ensures Bit(x * Pow2(s), k) == (k >= s && Bit(x, k - s))
  {
    if s > 0 {
      Double(x, Pow2(s - 1));
      if k > 0 { BitMul(x, s - 1, k - 1); }
    }
  }

  lemma {:induction false} BitBound(x: nat, n: nat, k: nat)
    requires x < Pow2(n) && n <= k
    ensures !Bit(x, k)
  {
    if n > 0 {
      BitBound(x / 2, n - 1, k - 1);
    } else {
      BitZero(k);
    }
  }

  /** A number below 2^n is determined by its low n bits. */
  lemma {:induction false} BitsEqual(x: nat, y: nat, n: nat)
    requires x < Pow2(n) && y < Pow2(n)
    requires forall k: nat :: k < n ==> Bit(x, k) == Bit(y, k)
    ensures x == y
  {
    if n > 0 {
      assert Bit(x, 0) == Bit(y, 0);
      forall k: nat | k < n - 1
        ensures Bit(x / 2, k) == Bit(y / 2, k)
      {
        assert Bit(x, k + 1) == Bit(y, k + 1);
      }
      BitsEqual(x / 2, y / 2, n - 1);
    }
  }

  /** A number with no bit at or above n is below 2^n. */
  lemma {:induction false} BitsBelow(x: nat, n: nat, m: nat)
    requires x < Pow2(m)
    requires forall k: nat :: n <= k < m ==> !Bit(x, k)
    ensures x < Pow2(n)
  {
    if m > n {
      if x >= Pow2(m - 1) {
        HighBit(x, m - 1);
        assert false;
      }
      BitsBelow(x, n, m - 1);
    } else {
      Pow2Le(m, n);
    }
  }

  lemma {:induction false} HighBit(x: nat, k: nat)
    requires Pow2(k) <= x < Pow2(k + 1)
    ensures Bit(x, k)
  {
    if k > 0 { HighBit(x / 2, k - 1); }
  }

  lemma {:induction false} BitPow2(j: nat, k: nat)
    ensures Bit(Pow2(j), k) == (j == k)
  {
    if j > 0 {
      if k > 0 { BitPow2(j - 1, k - 1); }
    } else if k > 0 {
      BitZero(k - 1);
    }
  }

  /** `a & b` */
  function And(a: nat, b: nat): nat
  {
    if a == 0 || b == 0 then 0
    else 2 * And(a / 2, b / 2) + (if a % 2 == 1 && b % 2 == 1 then 1 else 0)
  }

  /** `a | b` */
  function Or(a: nat, b: nat): nat
  {
    if a == 0 then b
    else if b == 0 then a
    else 2 * Or(a / 2, b / 2) + (if a % 2 == 1 || b % 2 == 1 then 1 else 0)
  }

  /** `a ^ b` */
  function Xor(a: nat, b: nat): nat
  {
    if a == 0 then b
    else if b == 0 then a
    else 2 * Xor(a / 2, b / 2) + (if (a % 2 == 1) != (b % 2 == 1) then 1 else 0)
  }

  /** `~x` on an n-bit unsigned value. */
  function Not(x: nat, n: nat): nat
    requires x < Pow2(n)
  {
    Pow2(n) - 1 - x
  }

  lemma {:induction false} BitAnd(a: nat, b: nat, k: nat)
    ensures Bit(And(a, b), k) == (Bit(a, k) && Bit(b, k))
  {
    if a == 0 || b == 0 {
      BitZero(k);
    } else if k > 0 {
      BitAnd(a / 2, b / 2, k - 1);
    }
  }

  lemma {:induction false} BitOr(a: nat, b: nat, k: nat)
    ensures Bit(Or(a, b), k) == (Bit(a, k) || Bit(b, k))
  {
    if a == 0 || b == 0 {
      BitZero(k);
    } else if k > 0 {
      BitOr(a / 2, b / 2, k - 1);
    }
  }

  lemma {:induction false} BitXor(a: nat, b: nat, k: nat)
    ensures Bit(Xor(a, b), k) == (Bit(a, k) != Bit(b, k))
  {
    if a == 0 || b == 0 {
      BitZero(k);
    } else if k > 0 {
      BitXor(a / 2, b / 2, k - 1);
    }
  }

  lemma {:induction false} BitNot(x: nat, n: nat, k: nat)
    requires x < Pow2(n)
    ensures Bit(Not(x, n), k) == (k < n && !Bit(x, k))
  {
    if n == 0 {
      BitZero(k);
    } else {
      assert Not(x, n) / 2 == Not(x / 2, n - 1);
      if k > 0 { BitNot(x / 2, n - 1, k - 1); }
    }
  }

  lemma {:induction false} AndBound(a: nat, b: nat)
    ensures And(a, b) <= a && And(a, b) <= b
  {
    if a != 0 && b != 0 { AndBound(a / 2, b / 2); }
  }

  lemma {:induction false} OrBound(a: nat, b: nat, n: nat)
    requires a < Pow2(n) && b < Pow2(n)
    ensures Or(a, b) < Pow2(n)
  {
    if a != 0 && b != 0 { OrBound(a / 2, b / 2, n - 1); }
  }

  lemma {:induction false} XorBound(a: nat, b: nat, n: nat)
    requires a < Pow2(n) && b < Pow2(n)
    ensures Xor(a, b) < Pow2(n)
  {
    if a != 0 && b != 0 { XorBound(a / 2, b / 2, n - 1); }
  }

  /** `x << s` on an n-bit unsigned value: the product, truncated to n bits. */
  function ShiftLeft(x: nat, s: nat, n: nat): (r: nat)
    ensures r < Pow2(n)
  {
    LowBits(x * Pow2(s), n)
  }

  lemma BitShiftLeft(x: nat, s: nat, n: nat, k: nat)
    ensures Bit(ShiftLeft(x, s, n), k) == (s <= k < n && Bit(x, k - s))
  {
    BitLowBits(x * Pow2(s), n, k);
    BitMul(x, s, k);
  }

  /** `x & (1 << k)` is non-zero exactly when bit k of x is set. */
  lemma AndPow2(x: nat, k: nat)
    ensures (And(x, Pow2(k)) != 0) == Bit(x, k)
  {
    BitAnd(x, Pow2(k), k);
    BitPow2(k, k);
    if Bit(x, k) {
      BitZero(k);
    } else {
      AndBound(x, Pow2(k));
      forall j: nat | j < k + 1
        ensures Bit(And(x, Pow2(k)), j) == Bit(0, j)
      {
        BitAnd(x, Pow2(k), j);
        BitPow2(k, j);
        BitZero(j);
      }
      BitsEqual(And(x, Pow2(k)), 0, k + 1);
    }
  }

  /** `x | (1 << k)` sets bit k and keeps the others. */
  lemma BitOrPow2(x: nat, k: nat, j: nat)
    ensures Bit(Or(x, Pow2(k)), j) == (Bit(x, j) || j == k)
  {
    BitOr(x, Pow2(k), j);
    BitPow2(k, j);
  }

  /** `x & ~(1 << k)` on an n-bit word clears bit k and keeps the others. */
  lemma BitClearPow2(x: nat, k: nat, n: nat, j: nat)
    requires k < n && x < Pow2(n)
    ensures Pow2(k) < Pow2(n)
    ensures Bit(And(x, Not(Pow2(k), n)), j) == (Bit(x, j) && j != k)
  {
    Pow2Le(k + 1, n);
    BitAnd(x, Not(Pow2(k), n), j);
    BitNot(Pow2(k), n, j);
    BitPow2(k, j);
    if j >= n { BitBound(x, n, j); }
  }

  /** Shifting left by a, then by b, is shifting left by a + b. */
  lemma ShiftLeftTwice(x: nat, a: nat, b: nat, n: nat)
    ensures ShiftLeft(ShiftLeft(x, a, n), b, n) == ShiftLeft(x, a + b, n)
  {
    forall k: nat | k < n
      ensures Bit(ShiftLeft(ShiftLeft(x, a, n), b, n), k) == Bit(ShiftLeft(x, a + b, n), k)
    {
      BitShiftLeft(ShiftLeft(x, a, n), b, n, k);
      BitShiftLeft(x, a + b, n, k);
      if b <= k { BitShiftLeft(x, a, n, k - b); }
    }
    BitsEqual(ShiftLeft(ShiftLeft(x, a, n), b, n), ShiftLeft(x, a + b, n), n);
  }

  /** A shift that loses no bits is a multiplication. */
  lemma ShiftLeftExact(x: nat, s: nat, n: nat)
    requires x * Pow2(s) < Pow2(n)
    ensures ShiftLeft(x, s, n) == x * Pow2(s)
  {
    LowBitsSmall(x * Pow2(s), n);
  }

  /** Masking a value of fewer than n bits to its low n bits leaves it unchanged. */
  lemma {:induction false} LowBitsSmall(y: nat, n: nat)
    requires y < Pow2(n)
    ensures LowBits(y, n) == y
  {
    if n > 0 { LowBitsSmall(y / 2, n - 1); }
  }

  /** `r <<= 1; r |= bit` on a value of fewer than 64 bits appends the bit. */
  lemma AppendBit(r: nat, b: bool, n: nat)
    requires r < Pow2(n) && n < W
    ensures Or(ShiftLeft(r, 1, W), if b then 1 else 0) == 2 * r + (if b then 1 else 0)
  {
    assert Pow2(1) == 2;
    MulTwo(r, Pow2(1));
    assert 2 * r < Pow2(W) by {
      assert Pow2(n + 1) == 2 * Pow2(n);
      Pow2Le(n + 1, W);
    }
    ShiftLeftExact(r, 1, W);
    OrLowBit(r, b);
  }

  lemma MulTwo(r: nat, p: nat)
    requires p == 2
    ensures r * p == 2 * r
  {
  }

  lemma OrLowBit(r: nat, b: bool)
    ensures Or(2 * r, if b then 1 else 0) == 2 * r + (if b then 1 else 0)
  {
    if r == 0 {
    } else if b {
      assert Or(2 * r, 1) == 2 * Or(r, 0) + 1;
    } else {
      assert Or(2 * r, 0) == 2 * r;
    }
  }

  /** `(1 << j) - 1` has exactly the bits below j. */
  lemma {:induction false} BitLowMask(j: nat, k: nat)
    ensures Bit(Pow2(j) - 1, k) == (k < j)
  {
    if j == 0 {
      BitZero(k);
    } else if k > 0 {
      assert (Pow2(j) - 1) / 2 == Pow2(j - 1) - 1;
      BitLowMask(j - 1, k - 1);
    }
  }

  /** -2^j as a 64-bit two's-complement word: bits j..63 set. */
  function NegPow2(j: nat): (r: nat)
    requires j < W
    ensures IsWord(r)
    ensures forall k: nat :: Bit(r, k) <==> j <= k < W
  {
    WordPow();
    Pow2Le(j, W);
    var low := Pow2(j) - 1;
    var m := Not(low, W);
    forall k: nat ensures Bit(m, k) <==> j <= k < W {
      BitNot(low, W, k);
      BitLowMask(j, k);
    }
    m
  }

  /** Shifting right by s takes a number below 2^(s + n) below 2^n. */
  lemma {:induction false} ShiftRightBound(x: nat, s: nat, n: nat)
    requires x < Pow2(s + n)
    ensures ShiftRight(x, s) < Pow2(n)
  {
    if s > 0 {
      ShiftRightBound(x / 2, s - 1, n);
    }
  }

  /** Bit k of an Or from known bits k of its operands. */
  lemma BitOrIs(a: nat, b: nat, k: nat, x: bool, y: bool)
    requires Bit(a, k) == x && Bit(b, k) == y
    ensures Bit(Or(a, b), k) == (x || y)
  {
    BitOr(a, b, k);
  }

  /** Bit k of an And from known bits k of its operands. */
  lemma BitAndIs(a: nat, b: nat, k: nat, x: bool, y: bool)
    requires Bit(a, k) == x && Bit(b, k) == y
    ensures Bit(And(a, b), k) == (x && y)
  {
    BitAnd(a, b, k);
  }

  /** A value of fewer than `width` bits shifted left by s occupies bits [s, s + width). */
  lemma BitPlaced(value: nat, s: nat, width: nat, k: nat)
    requires value < Pow2(width) && k < W
    ensures Bit(ShiftLeft(value, s, W), k) == (s <= k < s + width && Bit(value, k - s))
  {
    BitShiftLeft(value, s, W, k);
    if s <= k && k >= s + width {
      BitBound(value, width, k - s);
    }
  }

  /** A value of fewer than s + t bits shifted right by s leaves bits [0, t). */
  lemma BitShiftedDown(value: nat, s: nat, t: nat, k: nat)
    requires value < Pow2(s + t)
    ensures Bit(ShiftRight(value, s), k) == (k < t && Bit(value, k + s))
  {
    BitShiftRight(value, s, k);
    if k >= t {
      BitBound(value, s + t, k + s);
    }
  }
}
