/**
 * The residual scan shared by `simple_select::select` and
 * `simple_select_zero_half::select_zero`: from a sampled position, skip
 * whole words by their count of marks, then select inside the word that
 * holds the wanted one.
 */
module WordScan {
  import opened Bits
  import opened Streams
  import opened Broadword
  import opened Inventories
  import opened EliasFanoBits

  /** The marks of a word: the word itself, or `~word` when zeros are selected. */
  function MarkWord(kind: Kind, x: nat): (r: nat)
    requires kind != DoubleOnes && IsWord(x)
    ensures IsWord(r)
  {
    WordPow();
    if kind == SetBits then x else Not(x, W)
  }

  /** The mark stream of a whole word array. */
  function AllMarks(kind: Kind, bits: seq<nat>): (r: seq<bool>)
    ensures |r| == 64 * |bits|
  {
    MarksOf(kind, WordStream(bits))
  }

  /** Bit j of word i's marks is mark 64 i + j of the array. */
  lemma MarkWordBit(kind: Kind, bits: seq<nat>, i: nat, j: nat)
    requires kind != DoubleOnes && i < |bits| && IsWord(bits[i]) && j < 64
    ensures Bit(MarkWord(kind, bits[i]), j) == AllMarks(kind, bits)[64 * i + j]
  {
    WordPow();
    assert (64 * i + j) / 64 == i && (64 * i + j) % 64 == j;
    if kind == ClearBits {
      BitNot(bits[i], W, j);
    }
  }

  /**
   * The marks of the first n positions are the first n marks of the array:
   * a double-one is decided by the bits up to it.
   */
  lemma MarksOfPrefix(kind: Kind, bits: seq<nat>, n: nat)
    requires n <= 64 * |bits|
    ensures MarksOf(kind, Prefix(bits, n)) == AllMarks(kind, bits)[..n]
  {
    if kind == DoubleOnes {
      forall p | 0 <= p < n
        ensures MarksOf(kind, Prefix(bits, n))[p] == AllMarks(kind, bits)[p]
      {
        PairedPrefix(WordStream(bits), n, p);
      }
    }
  }

  /** Rank below n does not look past n. */
  lemma RankPrefix(s: seq<bool>, n: nat, p: nat)
    requires p <= n <= |s|
    ensures Rank(s[..n], p) == Rank(s, p)
  {
    RankIsOnes(s[..n], p);
    RankIsOnes(s, p);
    assert s[..n][..p] == s[..p];
  }

  /** A one found within the first n positions is found in the whole stream. */
  lemma SelectPrefix(s: seq<bool>, n: nat, k: nat)
    requires n <= |s| && k < Ones(s[..n])
    ensures k < Ones(s) && Select(s[..n], k) == Select(s, k)
  {
    var p := Select(s[..n], k);
    RankPrefix(s, n, p);
    SelectUnique(s, k, p);
  }

  /** Word i of the stream with the marks below lo cleared. */
  function Window(f: seq<bool>, i: nat, lo: nat): (r: seq<bool>)
    requires 64 * i + 64 <= |f|
    ensures |r| == 64
  {
    seq(64, j requires 0 <= j < 64 => lo <= 64 * i + j && f[64 * i + j])
  }

  /** Ranks inside a window are the stream's ranks counted from lo. */
  lemma {:induction false} WindowRank(f: seq<bool>, i: nat, lo: nat, q: nat)
    requires 64 * i <= lo <= 64 * i + 64 && 64 * i + 64 <= |f| && q <= 64
    ensures Rank(Window(f, i, lo), q) == Rank(f, Max(lo, 64 * i + q)) - Rank(f, lo)
  {
    if q > 0 {
      WindowRank(f, i, lo, q - 1);
      RankStep(Window(f, i, lo), q - 1);
      if lo < 64 * i + q {
        RankStep(f, 64 * i + q - 1);
      }
    }
  }

  /** The masked first word: `bits[ start / 64 ] & -1ULL << start`, as marks. */
  lemma FirstWindow(kind: Kind, bits: seq<nat>, start: nat, word: nat)
    requires kind != DoubleOnes && Words(bits) && start < 64 * |bits|
    requires word == And(MarkWord(kind, bits[start / 64]), NegPow2(start % 64))
    ensures IsWord(word) && WordView(word) == Window(AllMarks(kind, bits), start / 64, start)
  {
    var i := start / 64;
    var x := MarkWord(kind, bits[i]);
    AndBound(x, NegPow2(start % 64));
    forall j | 0 <= j < 64
      ensures WordView(word)[j] == Window(AllMarks(kind, bits), i, start)[j]
    {
      BitAnd(x, NegPow2(start % 64), j);
      MarkWordBit(kind, bits, i, j);
    }
  }

  /** A later word, unmasked. */
  lemma NextWindow(kind: Kind, bits: seq<nat>, i: nat, word: nat)
    requires kind != DoubleOnes && Words(bits) && i < |bits|
    requires word == MarkWord(kind, bits[i])
    ensures IsWord(word) && WordView(word) == Window(AllMarks(kind, bits), i, 64 * i)
  {
    forall j | 0 <= j < 64
      ensures WordView(word)[j] == Window(AllMarks(kind, bits), i, 64 * i)[j]
    {
      MarkWordBit(kind, bits, i, j);
    }
  }

  /** Skipping a window whose marks are all below the wanted one. */
  lemma SkipWindow(f: seq<bool>, words: nat, i: nat, lo: nat, k: nat, res: nat)
    requires |f| == 64 * words && 64 * i <= lo <= 64 * i + 64 && i < words
    requires k == Rank(f, lo) + res && k < Ones(f) && res >= Ones(Window(f, i, lo))
    ensures 64 * (i + 1) + 64 <= |f| && k == Rank(f, 64 * (i + 1)) + (res - Ones(Window(f, i, lo)))
  {
    var w := Window(f, i, lo);
    WindowRank(f, i, lo, 64);
    RankAll(w);
    RankAll(f);
    RankMono(f, 64 * i + 64, |f|);
  }

  /** The wanted mark lies in the window: selecting in the word finds it. */
  lemma FoundInWindow(f: seq<bool>, i: nat, lo: nat, k: nat, res: nat, q: nat)
    requires 64 * i <= lo <= 64 * i + 64 && 64 * i + 64 <= |f|
    requires k == Rank(f, lo) + res
    requires q < 64 && Window(f, i, lo)[q] && Rank(Window(f, i, lo), q) == res
    ensures k < Ones(f) && Select(f, k) == 64 * i + q
  {
    WindowRank(f, i, lo, q);
    SelectUnique(f, k, 64 * i + q);
  }

  /**
   * A scan that starts at the position of mark k - residual of the first n
   * positions and looks for mark k finds mark k of those n positions: the
   * array's marks past n lie after it.
   */
  lemma ScanFromSample(bits: seq<nat>, n: nat, kind: Kind, k: nat, residual: nat, start: nat)
    requires n <= 64 * |bits|
    requires k < Ones(MarksOf(kind, Prefix(bits, n))) && residual <= k
    requires start == Positions(MarksOf(kind, Prefix(bits, n)))[k - residual]
    ensures start < 64 * |bits| && k == Rank(AllMarks(kind, bits), start) + residual
    ensures k < Ones(AllMarks(kind, bits))
    ensures Select(AllMarks(kind, bits), k) == Positions(MarksOf(kind, Prefix(bits, n)))[k]
  {
    var f := AllMarks(kind, bits);
    MarksOfPrefix(kind, bits, n);
    RankPrefix(f, n, start);
    SelectPrefix(f, n, k);
  }

  /**
   * The residual loop of `select`: start at the word of `start` with the
   * marks below it cleared, drop whole words while the residual reaches
   * their count, and select the residual-th mark of the word where it stops.
   * The residual counts marks from `start` on, so the result is mark k.
   */
  method ScanWords(bits: seq<nat>, kind: Kind, start: nat, residual: nat, ghost k: nat) returns (r: nat)
    requires kind != DoubleOnes && Words(bits) && start < 64 * |bits|
    requires k == Rank(AllMarks(kind, bits), start) + residual && k < Ones(AllMarks(kind, bits))
    ensures r == Select(AllMarks(kind, bits), k)
  {
    ghost var f := AllMarks(kind, bits);
    var i := start / 64;
    var word := And(MarkWord(kind, bits[i]), NegPow2(start % 64));
    FirstWindow(kind, bits, start, word);
    var res: nat := residual;
    ghost var lo := start;
    while res >= Count(word)
      invariant i < |bits| && 64 * i <= lo <= 64 * i + 64
      invariant IsWord(word) && WordView(word) == Window(f, i, lo)
      invariant k == Rank(f, lo) + res
      decreases |bits| - i
    {
      SkipWindow(f, |bits|, i, lo, k, res);
      res := res - Count(word);
      i := i + 1;
      word := MarkWord(kind, bits[i]);
      NextWindow(kind, bits, i, word);
      lo := 64 * i;
    }
    var q := SelectInWord(word, res);
    FoundInWindow(f, i, lo, k, res, q);
    r := 64 * i + q;
  }
}
