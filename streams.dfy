/**
 * Bit streams and the rank/select vocabulary every index in the store is
 * specified against.  A stream is a `seq<bool>`; position p of a word
 * array is bit p % 64 of word p / 64 (and likewise for byte arrays).
 */
module Streams {
  import opened Bits

  /** Number of set positions. */
  function Ones(s: seq<bool>): (r: nat)
    ensures r <= |s|
  {
    if |s| == 0 then 0 else Ones(s[..|s| - 1]) + (if s[|s| - 1] then 1 else 0)
  }

  lemma {:induction false} OnesAppend(a: seq<bool>, b: seq<bool>)
    ensures Ones(a + b) == Ones(a) + Ones(b)
  {
    if |b| == 0 {
      assert a + b == a;
    } else {
      assert (a + b)[..|a + b| - 1] == a + b[..|b| - 1];
      OnesAppend(a, b[..|b| - 1]);
    }
  }

  /** Ones strictly before position i. */
  function Rank(s: seq<bool>, i: nat): nat
    requires i <= |s|
  {
    if i == 0 then 0 else Rank(s, i - 1) + (if s[i - 1] then 1 else 0)
  }

  lemma RankStep(s: seq<bool>, i: nat)
    requires i < |s|
    ensures Rank(s, i + 1) == Rank(s, i) + (if s[i] then 1 else 0)
  {
  }

  /** Rank counts the ones of the prefix. */
  lemma {:induction false} RankIsOnes(s: seq<bool>, i: nat)
    requires i <= |s|
    ensures Rank(s, i) == Ones(s[..i])
  {
    if i > 0 {
      RankIsOnes(s, i - 1);
      assert s[..i][..i - 1] == s[..i - 1];
    }
  }

  /** The ones of s[..j] are those of s[..i] plus those of s[i..j]. */
  lemma RankSplit(s: seq<bool>, i: nat, j: nat)
    requires i <= j <= |s|
    ensures Rank(s, j) == Rank(s, i) + Ones(s[i..j])
  {
    RankIsOnes(s, i);
    RankIsOnes(s, j);
    assert s[..j] == s[..i] + s[i..j];
    OnesAppend(s[..i], s[i..j]);
  }

  lemma RankMono(s: seq<bool>, i: nat, j: nat)
    requires i <= j <= |s|
    ensures Rank(s, i) <= Rank(s, j)
  {
    RankSplit(s, i, j);
  }

  lemma RankAll(s: seq<bool>)
    ensures Rank(s, |s|) == Ones(s)
  {
    RankIsOnes(s, |s|);
    assert s[..|s|] == s;
  }

  /** Position of the k-th (0-based) one. */
  function Select(s: seq<bool>, k: nat): (p: nat)
    requires k < Ones(s)
    ensures p < |s| && s[p] && Rank(s, p) == k
  {
    SelectFrom(s, k, 0)
  }

  /** The k-th one, searching from position i, before which there are at most k ones. */
  function SelectFrom(s: seq<bool>, k: nat, i: nat): (p: nat)
    requires i <= |s| && Rank(s, i) <= k < Ones(s)
    decreases |s| - i
    ensures i <= p < |s| && s[p] && Rank(s, p) == k
  {
    RankAll(s);
    RankStep(s, i);
    if s[i] && Rank(s, i) == k then i else SelectFrom(s, k, i + 1)
  }

  /** The k-th one is the only set position with k ones before it. */
  lemma SelectUnique(s: seq<bool>, k: nat, p: nat)
    requires p < |s| && s[p] && Rank(s, p) == k
    ensures k < Ones(s) && Select(s, k) == p
  {
    RankStep(s, p);
    RankMono(s, p + 1, |s|);
    RankAll(s);
    var q := Select(s, k);
    if q < p {
      RankStep(s, q);
      RankMono(s, q + 1, p);
      assert false;
    } else if p < q {
      RankMono(s, p + 1, q);
      assert false;
    }
  }

  /** Select is strictly increasing in k. */
  lemma SelectLess(s: seq<bool>, k1: nat, k2: nat)
    requires k1 < k2 < Ones(s)
    ensures Select(s, k1) < Select(s, k2)
  {
    var p1 := Select(s, k1);
    var p2 := Select(s, k2);
    if p2 < p1 {
      RankStep(s, p2);
      RankMono(s, p2 + 1, p1);
      assert false;
    }
  }

  /** The stream with every bit complemented (the source's `~word`). */
  function Flip(s: seq<bool>): (r: seq<bool>)
    ensures |r| == |s|
  {
    seq(|s|, i requires 0 <= i < |s| => !s[i])
  }

  lemma {:induction false} OnesFlip(s: seq<bool>)
    ensures Ones(Flip(s)) == |s| - Ones(s)
  {
    if |s| > 0 {
      assert Flip(s)[..|s| - 1] == Flip(s[..|s| - 1]);
      OnesFlip(s[..|s| - 1]);
    }
  }

  /** The low n bits of x, least significant first. */
  function BitsOf(x: nat, n: nat): (r: seq<bool>)
    ensures |r| == n
  {
    seq(n, k requires 0 <= k < n => Bit(x, k))
  }

  /** The 64 bits of a word, least significant first. */
  function WordView(x: nat): (r: seq<bool>)
    ensures |r| == 64
  {
    BitsOf(x, 64)
  }

  /** The bit stream of a word array: position p is bit p % 64 of word p / 64. */
  function WordStream(ws: seq<nat>): (r: seq<bool>)
    ensures |r| == 64 * |ws|
  {
    seq(64 * |ws|, p requires 0 <= p < 64 * |ws| => Bit(ws[p / 64], p % 64))
  }

  lemma WordStreamSlice(ws: seq<nat>, i: nat)
    requires i < |ws|
    ensures WordStream(ws)[64 * i..64 * i + 64] == WordView(ws[i])
  {
  }

  /** The bit stream of a byte array: position p is bit p % 8 of byte p / 8. */
  function ByteStream(bs: seq<nat>): (r: seq<bool>)
    ensures |r| == 8 * |bs|
  {
    seq(8 * |bs|, p requires 0 <= p < 8 * |bs| => Bit(bs[p / 8], p % 8))
  }

  /**
   * The number a run of bits spells when read most significant first, as
   * the loops `v <<= 1; v |= bit` compute it.
   */
  function MsbFirst(bs: seq<bool>): (r: nat)
    ensures r < Pow2(|bs|)
  {
    if |bs| == 0 then 0
    else 2 * MsbFirst(bs[..|bs| - 1]) + (if bs[|bs| - 1] then 1 else 0)
  }

  /** The low w bits of v, most significant first. */
  function FieldBits(v: nat, w: nat): (r: seq<bool>)
    ensures |r| == w
  {
    seq(w, i requires 0 <= i < w => Bit(v, w - 1 - i))
  }

  /** The field of v is the field of v / 2 followed by the lowest bit of v. */
  lemma FieldBitsLast(v: nat, w: nat)
    requires w > 0
    ensures FieldBits(v, w) == FieldBits(v / 2, w - 1) + [v % 2 == 1]
  {
    forall i | 0 <= i < w
      ensures FieldBits(v, w)[i] == (FieldBits(v / 2, w - 1) + [v % 2 == 1])[i]
    {
      if i < w - 1 {
        assert Bit(v, w - 1 - i) == Bit(v / 2, w - 2 - i);
      } else {
        assert Bit(v, 0) == (v % 2 == 1);
      }
    }
  }

  /** Reading back the field of v yields v modulo 2^w. */
  lemma {:induction false} MsbFirstField(v: nat, w: nat)
    ensures MsbFirst(FieldBits(v, w)) == LowBits(v, w)
  {
    if w > 0 {
      FieldBitsLast(v, w);
      assert FieldBits(v, w)[..w - 1] == FieldBits(v / 2, w - 1);
      MsbFirstField(v / 2, w - 1);
    }
  }

  /** Writing back the number a run of bits spells gives the same bits. */
  lemma {:induction false} FieldMsbFirst(bs: seq<bool>)
    ensures FieldBits(MsbFirst(bs), |bs|) == bs
  {
    if |bs| > 0 {
      var n := |bs| - 1;
      FieldMsbFirst(bs[..n]);
      var x := MsbFirst(bs);
      assert x / 2 == MsbFirst(bs[..n]);
      FieldBitsLast(x, |bs|);
      assert bs == bs[..n] + [bs[n]];
    }
  }

  /** The run s with its positions [off, off + i) replaced by the first i elements of f. */
  function Overwritten<T>(s: seq<T>, off: nat, f: seq<T>, i: nat): (r: seq<T>)
    requires i <= |f| && off + |f| <= |s|
    ensures |r| == |s|
  {
    s[..off] + f[..i] + s[off + i..]
  }

  /** Nothing written yet: the run is unchanged. */
  lemma OverwrittenNone<T>(s: seq<T>, off: nat, f: seq<T>)
    requires off + |f| <= |s|
    ensures Overwritten(s, off, f, 0) == s
  {
    assert s[..off] + f[..0] + s[off..] == s;
  }

  /** Writing the next element of a field into a run that already holds its first i elements. */
  lemma SpliceStep<T>(s: seq<T>, off: nat, f: seq<T>, i: nat)
    requires i < |f| && off + |f| <= |s|
    ensures Overwritten(s, off, f, i)[off + i := f[i]] == Overwritten(s, off, f, i + 1)
  {
  }

  /** The whole field written. */
  lemma OverwrittenAll<T>(s: seq<T>, off: nat, f: seq<T>)
    requires off + |f| <= |s|
    ensures Overwritten(s, off, f, |f|) == s[..off] + f + s[off + |f|..]
  {
    assert f[..|f|] == f;
  }

  /** Reading one more bit doubles the value and adds the bit. */
  /** Writing the next bit of the target extends the prefix written so far. */
  lemma ExtendPrefix(target: seq<bool>, len: nat, before: seq<bool>, after: seq<bool>)
    requires len < |target| && before == target[..len] && after == before + [target[len]]
    ensures after == target[..len + 1]
  {
  }

  /** Bit n of a value written most significant first after `before` sits at `|before| + len - 1 - n`. */
  lemma FieldBitAt(before: seq<bool>, ich: nat, len: nat, n: nat, at: nat)
    requires n < len && at == |before| + len - 1 - n
    ensures at < |before + FieldBits(ich, len)| && (before + FieldBits(ich, len))[at] == Bit(ich, n)
  {
  }

  lemma MsbFirstSnoc(bs: seq<bool>, i: nat)
    requires i < |bs|
    ensures MsbFirst(bs[..i + 1]) == 2 * MsbFirst(bs[..i]) + (if bs[i] then 1 else 0)
  {
    assert bs[..i + 1][..i] == bs[..i];
  }

  /** The mask `1ULL << (length - 1)`: the top bit of a field of `length` bits. */
  function TopMask(length: nat): (r: nat)
    requires length <= 64
    ensures length >= 1 ==> r == Pow2(length - 1)
  {
    if length == 0 then 0 else Pow2(length - 1)
  }

  lemma ShiftLeftNone(x: nat)
    requires IsWord(x)
    ensures ShiftLeft(x, 0, W) == x
  {
    WordPow();
    LowBitsSmall(x, W);
  }

  /**
   * One step of a field-writing loop: after i shifts the top bit of the
   * element holds bit i of the field, and one more shift is the next step.
   */
  lemma FieldStep(value: nat, length: nat, i: nat, v: nat)
    requires i < length <= 64 && v == ShiftLeft(value, i, W)
    ensures (And(v, TopMask(length)) != 0) == FieldBits(value, length)[i]
    ensures ShiftLeft(v, 1, W) == ShiftLeft(value, i + 1, W)
  {
    var top := length - 1;
    AndPow2(v, top);
    assert TopMask(length) == Pow2(top);
    BitShiftLeft(value, i, W, top);
    assert Bit(v, top) == Bit(value, top - i);
    assert FieldBits(value, length)[i] == Bit(value, top - i);
    ShiftLeftTwice(value, i, 1, W);
  }

  /** Strictly increasing positions. */
  ghost predicate Increasing(qs: seq<nat>)
  {
    forall i, j | 0 <= i < j < |qs| :: qs[i] < qs[j]
  }

  /** Every position of qs lies below n. */
  ghost predicate Below(qs: seq<nat>, n: nat)
  {
    forall i | 0 <= i < |qs| :: qs[i] < n
  }

  /** The positions of the ones of s, in order: `select` for every rank. */
  ghost function Positions(s: seq<bool>): (r: seq<nat>)
    ensures |r| == Ones(s)
  {
    seq(Ones(s), k requires 0 <= k < Ones(s) => Select(s, k))
  }

  lemma PositionsIncreasing(s: seq<bool>)
    ensures Increasing(Positions(s)) && Below(Positions(s), |s|)
  {
    var ps := Positions(s);
    forall i, j | 0 <= i < j < |ps|
      ensures ps[i] < ps[j]
    {
      SelectLess(s, i, j);
    }
  }

  /** The stream of length n whose set positions are those listed in qs (positions past n are dropped). */
  function Marks(qs: seq<nat>, n: nat): (r: seq<bool>)
    ensures |r| == n
  {
    seq(n, p requires 0 <= p < n => p in qs)
  }

  lemma {:induction false} OnesNone(s: seq<bool>)
    requires forall p | 0 <= p < |s| :: !s[p]
    ensures Ones(s) == 0
  {
    if |s| > 0 {
      OnesNone(s[..|s| - 1]);
    }
  }

  /** Setting a clear position adds one to the rank of every later position. */
  lemma RankSetTrue(s: seq<bool>, q: nat, x: nat)
    requires q < |s| && !s[q] && x <= |s|
    ensures Rank(s[q := true], x) == Rank(s, x) + (if q < x then 1 else 0)
  {
    var t := s[q := true];
    if x <= q {
      RankIsOnes(t, x);
      RankIsOnes(s, x);
      assert t[..x] == s[..x];
    } else {
      RankSplit(t, q + 1, x);
      RankSplit(s, q + 1, x);
      assert t[q + 1..x] == s[q + 1..x];
      RankStep(t, q);
      RankStep(s, q);
      RankIsOnes(t, q);
      RankIsOnes(s, q);
      assert t[..q] == s[..q];
    }
  }

  /**
   * In the stream marking an increasing list of positions, there are as many
   * ones as positions and exactly j ones precede the j-th listed position.
   */
  lemma {:induction false} MarksRank(qs: seq<nat>, n: nat, j: nat)
    requires Increasing(qs) && forall i | 0 <= i < |qs| :: qs[i] < n
    requires j <= |qs|
    ensures Ones(Marks(qs, n)) == |qs|
    ensures j < |qs| ==> Rank(Marks(qs, n), qs[j]) == j
  {
    var m := Marks(qs, n);
    if |qs| == 0 {
      OnesNone(m);
    } else {
      var last := |qs| - 1;
      var init := qs[..last];
      var q := qs[last];
      var m0 := Marks(init, n);
      assert m == m0[q := true];
      MarksRank(init, n, if j < last then j else 0);
      RankSetTrue(m0, q, n);
      RankAll(m);
      RankAll(m0);
      if j < last {
        RankSetTrue(m0, q, qs[j]);
      } else if j == last {
        RankSetTrue(m0, q, q);
        RankSplit(m0, q, n);
        OnesNone(m0[q..n]);
      }
    }
  }

  /** Selecting the j-th one of the marking stream finds the j-th listed position. */
  lemma MarksSelect(qs: seq<nat>, n: nat, j: nat)
    requires Increasing(qs) && forall i | 0 <= i < |qs| :: qs[i] < n
    requires j < |qs|
    ensures Ones(Marks(qs, n)) == |qs| && Select(Marks(qs, n), j) == qs[j]
  {
    MarksRank(qs, n, j);
    SelectUnique(Marks(qs, n), j, qs[j]);
  }
}
