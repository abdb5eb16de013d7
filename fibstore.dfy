/**
 * `CompressedValueStoreFibonacci`: a store of small counts as Fibonacci
 * codewords.  Value x is stored as the Zeckendorf digits of x + 1 over the
 * table 1, 2, 3, 5, 8, ..., lowest digit first, closed by an extra one; as
 * no two neighbouring digits are set, the closing "11" is the only
 * double-one of a codeword, and `simple_select11` over the code vector
 * finds where codeword i starts.
 */
module FibonacciValues {
  import opened Bits
  import opened Streams
  import opened EliasFanoBits
  import opened Inventories
  import opened Codewords
  import opened Zeckendorf
  import Select11
  import SimpleSelect
  import EliasFano

  // ---------------------------------------------------------------------
  // The table
  // ---------------------------------------------------------------------

  /** The entries from Fib(k) on that do not exceed maxValue. */
  ghost function FibsFrom(k: nat, maxValue: nat): seq<nat>
    decreases maxValue + 1 - Fib(k)
  {
    if Fib(k) > maxValue then []
    else
      FibGrows(k);
      [Fib(k)] + FibsFrom(k + 1, maxValue)
  }

  /** `fibonacci_vec`: the entries of the table up to maxValue. */
  ghost function FibTable(maxValue: nat): seq<nat>
  {
    FibsFrom(0, maxValue)
  }

  /** A table holding entries 0, 1, 2, ... in order. */
  ghost predicate IsTable(fib: seq<nat>)
  {
    forall k | 0 <= k < |fib| :: fib[k] == Fib(k)
  }

  lemma {:induction false} FibsFromAre(k: nat, maxValue: nat)
    ensures forall j | 0 <= j < |FibsFrom(k, maxValue)| :: FibsFrom(k, maxValue)[j] == Fib(k + j) <= maxValue
    ensures maxValue < Fib(k + |FibsFrom(k, maxValue)|)
    decreases maxValue + 1 - Fib(k)
  {
    var t := FibsFrom(k, maxValue);
    if Fib(k) <= maxValue {
      FibGrows(k);
      var rest := FibsFrom(k + 1, maxValue);
      FibsFromAre(k + 1, maxValue);
      assert t == [Fib(k)] + rest;
      forall j | 0 < j < |t|
        ensures t[j] == Fib(k + j) <= maxValue
      {
        assert t[j] == rest[j - 1] == Fib(k + 1 + (j - 1));
      }
      assert k + |t| == k + 1 + |rest|;
    }
  }

  /**
   * The table holds the entries up to maxValue and no more: entry k is
   * Fib(k), none exceeds maxValue, the next would.  Below Fib(30) it has at
   * most 30 entries.
   */
  lemma TableIs(maxValue: nat)
    ensures IsTable(FibTable(maxValue))
    ensures forall k | 0 <= k < |FibTable(maxValue)| :: FibTable(maxValue)[k] <= maxValue
    ensures maxValue < Fib(|FibTable(maxValue)|)
    ensures maxValue < Fib(30) ==> |FibTable(maxValue)| <= 30
  {
    FibsFromAre(0, maxValue);
    var n := |FibTable(maxValue)|;
    if maxValue < Fib(30) && n > 30 {
      assert FibTable(maxValue)[n - 1] == Fib(n - 1) <= maxValue;
      if n - 1 > 30 {
        FibLess(30, n - 1);
      }
    }
  }

  /**
   * The table loop: `a = 1, b = 1`, and while `b <= max_value` push b and
   * step to the next pair with `b += a; a = b - a`; b ends as the first
   * entry past max_value.
   */
  method BuildTable(maxValue: nat) returns (fib: seq<nat>, b: nat)
    ensures fib == FibTable(maxValue) && b == Fib(|fib|)
  {
    var a: nat := 1;
    b := 1;
    fib := [];
    FibRecurrence(0);
    while b <= maxValue
      invariant b == Fib(|fib|) && a == (if |fib| == 0 then 1 else Fib(|fib| - 1))
      invariant fib + FibsFrom(|fib|, maxValue) == FibTable(maxValue)
      decreases maxValue + 1 - b
    {
      ghost var k := |fib|;
      FibGrows(k);
      assert FibsFrom(k, maxValue) == [b] + FibsFrom(k + 1, maxValue);
      fib := fib + [b];
      if k > 0 {
        FibRecurrence(k - 1);
      }
      b := b + a;
      a := b - a;
    }
  }

  /**
   * As written, no value whose successor reaches the last entry can be
   * coded: for every positive max_value, the value one below the last entry
   * is at most max_value, yet no entry exceeds its successor and the
   * constructor exits.  With max_value 1 the table is just 1, and even 0
   * cannot be stored.
   */
  lemma TableRejects(maxValue: nat)
    requires 1 <= maxValue
    ensures |FibTable(maxValue)| >= 1
    ensures var last := FibTable(maxValue)[|FibTable(maxValue)| - 1];
            1 <= last && last - 1 <= maxValue && !Codable(FibTable(maxValue), last - 1 + 1)
  {
    TableIs(maxValue);
    FibRecurrence(0);
    var t := FibTable(maxValue);
    var top := |t| - 1;
    var r := UpperBound(t, t[top]);
    if r < |t| {
      assert Fib(top) < Fib(r);
      if r < top {
        FibLess(r, top);
      }
    }
  }

  /** The example above: with max_value 1, storing 0 exits. */
  lemma ZeroRejected()
    ensures FibTable(1) == [1] && !Codable(FibTable(1), 0 + 1)
  {
    TableRejects(1);
    TableIs(1);
    FibRecurrence(0);
  }

  /**
   * The table the constructor evidently needs: every entry up to
   * max_value + 1 and the first entry beyond it, so that the successor of
   * every value up to max_value lies below some entry.
   */
  ghost function CoveringTable(maxValue: nat): seq<nat>
  {
    FibTable(maxValue + 1) + [Fib(|FibTable(maxValue + 1)|)]
  }

  /**
   * The covering table is a table whose last entry exceeds max_value + 1,
   * so the successor of every value up to max_value is codable; below
   * Fib(29) it has at most 30 entries.
   */
  lemma CoveringTableIs(maxValue: nat)
    ensures IsTable(CoveringTable(maxValue))
    ensures forall v | 1 <= v <= maxValue + 1 :: Codable(CoveringTable(maxValue), v)
    ensures maxValue + 1 < Fib(29) ==> |CoveringTable(maxValue)| <= 30
  {
    TableIs(maxValue + 1);
    var t := CoveringTable(maxValue);
    var n := |FibTable(maxValue + 1)|;
    assert t[n] == Fib(n) && maxValue + 1 < Fib(n);
    forall v | 1 <= v <= maxValue + 1
      ensures Codable(t, v)
    {
      BelowLast(t, v);
    }
  }

  /** A value below the last entry has an entry above it. */
  lemma BelowLast(t: seq<nat>, v: nat)
    requires |t| >= 1 && v < t[|t| - 1]
    ensures UpperBound(t, v) < |t|
  {
  }

  /**
   * The table loop run to max_value + 1, followed by the b that ended it.
   */
  method BuildCoveringTable(maxValue: nat) returns (fib: seq<nat>)
    ensures fib == CoveringTable(maxValue)
  {
    var table, next := BuildTable(maxValue + 1);
    fib := table + [next];
  }

  /**
   * `std::upper_bound( fibonacci_vec.begin(), fibonacci_vec.end(), v )`:
   * the first place holding more than v, or the end.
   */
  function UpperBound(s: seq<nat>, v: nat): (r: nat)
    ensures r <= |s|
    ensures forall i | 0 <= i < r :: s[i] <= v
    ensures r < |s| ==> v < s[r]
  {
    if |s| == 0 || v < s[0] then 0 else 1 + UpperBound(s[1..], v)
  }

  /** v + 1 of a stored value: positive, and below some entry (else the constructor exits). */
  ghost predicate Codable(fib: seq<nat>, v: nat)
  {
    1 <= v && UpperBound(fib, v) < |fib|
  }

  /** For a codable v the upper bound is one past the top digit of its representation. */
  lemma CodableTop(fib: seq<nat>, v: nat)
    requires IsTable(fib) && Codable(fib, v)
    ensures 1 <= UpperBound(fib, v) && Top(v) + 1 == UpperBound(fib, v)
  {
    var u := UpperBound(fib, v);
    FibRecurrence(0);
    assert fib[0] == 1;
    TopUnique(v, u - 1);
  }

  // ---------------------------------------------------------------------
  // The code
  // ---------------------------------------------------------------------

  /** The codeword of a stored value x: the Zeckendorf digits of x + 1, lowest first, then a closing one. */
  function Codeword(x: nat): (r: seq<bool>)
    ensures |r| >= 2 && r[|r| - 1]
  {
    Zeck(x + 1) + [true]
  }

  /**
   * A `code_cache` entry for v: `( code_value, code_len )` whose `code_len`
   * bits, most significant first, are the digits of v and the closing one.
   */
  ghost predicate CodeOf(v: nat, entry: (nat, nat))
  {
    1 <= v && entry.1 == |Zeck(v)| + 1 && entry.0 < Pow2(entry.1)
    && FieldBits(entry.0, entry.1) == Zeck(v) + [true]
  }

  /** Two entries for the same v agree: a cached code is the code a fresh computation gives. */
  lemma CacheAgrees(v: nat, e1: (nat, nat), e2: (nat, nat))
    requires CodeOf(v, e1) && CodeOf(v, e2)
    ensures e1 == e2
  {
    MsbFirstField(e1.0, e1.1);
    MsbFirstField(e2.0, e2.1);
    LowBitsSmall(e1.0, e1.1);
    LowBitsSmall(e2.0, e2.1);
  }

  /** n clear digits. */
  function Zeros(n: nat): (r: seq<bool>)
    ensures |r| == n
  {
    seq(n, _ => false)
  }

  /**
   * A cache miss: `pos` is the place of the largest entry not above v
   * (`upper_bound`, one back), `code_len = pos + 2`, and the loop from
   * `pos` down to 0 takes every entry that fits in what is left of v,
   * setting bit `pos - j + 1` of `code_value`, whose bit 0 is the closing one.
   */
  method FibEncode(fib: seq<nat>, v: nat) returns (codeValue: nat, codeLen: nat)
    requires IsTable(fib) && |fib| <= 30 && Codable(fib, v)
    ensures CodeOf(v, (codeValue, codeLen)) && codeLen <= |fib|
  {
    var minval := UpperBound(fib, v);
    CodableTop(fib, v);
    if minval != 0 {
      minval := minval - 1;
    }
    var pos := minval;
    codeLen := pos + 2;
    codeValue := 1;
    var val: nat := v;
    var k: nat := pos + 1;
    ghost var hi: seq<bool> := [];
    ClosingOne(pos);
    while k > 0
      invariant Encoding(v, pos, k, val, codeValue, hi)
    {
      var j := k - 1;
      var take := fib[j] <= val;
      var rest := if take then val - fib[j] else val;
      var next := if take then Or(codeValue, Pow2(pos - j + 1)) else codeValue;
      EncodeStep(v, pos, k, val, codeValue, hi, take, rest, next);
      val, codeValue, hi := rest, next, [take] + hi;
      k := j;
    }
    FibRecurrence(0);
    assert Greedy(val, 0) == [] && Zeros(0) == [];
  }

  /**
   * The state of the digit loop with k digits left to choose: what is left
   * of v is below Fib(k), `hi` holds the digits chosen so far, and they
   * stand in `code_value` above k clear bits and the closing one.
   */
  ghost predicate Encoding(v: nat, pos: nat, k: nat, val: nat, codeValue: nat, hi: seq<bool>)
  {
    k <= pos + 1 && |hi| == pos + 1 - k && val < Fib(k)
    && Greedy(v, pos + 1) == Greedy(val, k) + hi
    && codeValue < Pow2(pos + 2) && FieldBits(codeValue, pos + 2) == Zeros(k) + hi + [true]
  }

  /** One round of the digit loop: entry k - 1 is taken when it fits in what is left. */
  lemma EncodeStep(v: nat, pos: nat, k: nat, val: nat, codeValue: nat, hi: seq<bool>,
                   take: bool, rest: nat, next: nat)
    requires 0 < k && Encoding(v, pos, k, val, codeValue, hi)
    requires take == (Fib(k - 1) <= val) && rest == (if take then val - Fib(k - 1) else val)
    requires next == if take then Or(codeValue, Pow2(pos - (k - 1) + 1)) else codeValue
    ensures Encoding(v, pos, k - 1, rest, next, [take] + hi)
  {
    if take {
      Remainder(val, k);
    }
    SetDigit(codeValue, pos, k - 1, hi, take, next);
    assert Greedy(val, k) == Greedy(rest, k - 1) + [take];
    assert Greedy(v, pos + 1) == Greedy(rest, k - 1) + ([take] + hi);
  }

  /** `code_value = 1`: the closing one under pos + 1 clear digits. */
  lemma ClosingOne(pos: nat)
    ensures 1 < Pow2(pos + 2)
    ensures FieldBits(1, pos + 2) == Zeros(pos + 1) + [] + [true]
  {
    Pow2Le(1, pos + 2);
    var f := FieldBits(1, pos + 2);
    var z := Zeros(pos + 1) + [] + [true];
    forall i | 0 <= i < pos + 2
      ensures f[i] == z[i]
    {
      if i < pos + 1 {
        BitZero(pos - i);
        assert Bit(1, pos + 1 - i) == Bit(0, pos - i);
      } else {
        assert Bit(1, 0);
      }
    }
  }

  /** `code_value |= 1 << ( pos - j + 1 )` when entry j is taken: digit j of the code is set. */
  lemma SetDigit(codeValue: nat, pos: nat, j: nat, hi: seq<bool>, take: bool, next: nat)
    requires j <= pos && |hi| == pos - j && codeValue < Pow2(pos + 2)
    requires FieldBits(codeValue, pos + 2) == Zeros(j + 1) + hi + [true]
    requires next == if take then Or(codeValue, Pow2(pos - j + 1)) else codeValue
    ensures next < Pow2(pos + 2)
    ensures FieldBits(next, pos + 2) == Zeros(j) + ([take] + hi) + [true]
  {
    if take {
      Pow2Le(pos - j + 2, pos + 2);
      OrBound(codeValue, Pow2(pos - j + 1), pos + 2);
      forall i | 0 <= i < pos + 2
        ensures FieldBits(next, pos + 2)[i] == (Zeros(j) + ([take] + hi) + [true])[i]
      {
        BitOrPow2(codeValue, pos - j + 1, pos + 1 - i);
        assert FieldBits(codeValue, pos + 2)[i] == (Zeros(j + 1) + hi + [true])[i];
      }
    } else {
      assert Zeros(j + 1) + hi + [true] == Zeros(j) + ([take] + hi) + [true];
    }
  }

  // ---------------------------------------------------------------------
  // Word vectors written bit by bit
  // ---------------------------------------------------------------------

  /** The bits from `len` on are clear. */
  ghost predicate Clear(vec: seq<nat>, len: nat)
  {
    forall p | len <= p < 64 * |vec| :: !WordStream(vec)[p]
  }

  /** The words a vector of `len` bits takes once written to: at least one. */
  function VecSize(len: nat): nat
  {
    if len == 0 then 1 else (len + 63) / 64
  }

  /**
   * A vector as `addToCodeVector` leaves it after writing `len` bits:
   * `VecSize(len)` words, filled from bit 0 of word 0 up, with nothing set
   * past the last bit written.
   */
  ghost predicate Packed(vec: seq<nat>, len: nat)
  {
    Words(vec) && |vec| == VecSize(len) && len <= 64 * |vec| && Clear(vec, len)
  }

  /** The first `len` bits of a vector. */
  ghost function Content(vec: seq<nat>, len: nat): (r: seq<bool>)
    requires len <= 64 * |vec|
    ensures |r| == len
  {
    WordStream(vec)[..len]
  }

  /** A vector as `addToCodeVector` leaves it (or untouched and empty) whose first `len` bits are `bits`. */
  ghost predicate Written(vec: seq<nat>, len: nat, bits: seq<bool>)
  {
    (Packed(vec, len) || (vec == [] && len == 0)) && len <= 64 * |vec| && WordStream(vec)[..len] == bits
  }

  /** `p >> 6` and `p & 63`: the word of bit p and the bit within it. */
  lemma WordAddress(p: nat)
    ensures ShiftRight(p, 6) == p / 64 && And(p, 63) == p % 64
  {
    assert Pow2(6) == 64;
    EliasFano.AndLowMask(p, 6);
    ShiftRightIsDiv(p, 6);
  }

  /** `push_back( 0 )` adds clear bits and keeps the others. */
  lemma PushZero(vec: seq<nat>, len: nat)
    requires Words(vec) && len <= 64 * |vec| && Clear(vec, len)
    ensures Words(vec + [0]) && len <= 64 * |vec + [0]| && Clear(vec + [0], len)
    ensures WordStream(vec + [0])[..len] == WordStream(vec)[..len]
  {
    var v := vec + [0];
    forall p | 0 <= p < 64 * |v|
      ensures WordStream(v)[p] == (p < 64 * |vec| && WordStream(vec)[p])
    {
      if p >= 64 * |vec| {
        BitZero(p % 64);
      }
    }
  }

  /**
   * One step of `addToCodeVector`: bit b goes to position len, in word
   * `len >> 6` (cleared first when the bit opens it) at bit `len & 63`.
   */
  lemma PutBit(vec: seq<nat>, len: nat, b: bool, vec1: seq<nat>, vec2: seq<nat>)
    requires Words(vec) && |vec| == len / 64 + 1 && Clear(vec, len)
    requires vec1 == (if len % 64 == 0 then vec[len / 64 := 0] else vec)
    requires vec2 == (if b then vec1[len / 64 := Or(vec1[len / 64], Pow2(len % 64))] else vec1)
    ensures Words(vec2) && |vec2| == |vec| && Clear(vec2, len + 1)
    ensures WordStream(vec2)[..len + 1] == WordStream(vec)[..len] + [b]
  {
    var nc := len / 64;
    var m := len % 64;
    Pow2Le(m, 63);
    WordPow();
    OrBound(vec1[nc], Pow2(m), 64);
    forall p | 0 <= p < 64 * |vec|
      ensures WordStream(vec2)[p] == (if p < len then WordStream(vec)[p] else p == len && b)
    {
      var i := p / 64;
      var j := p % 64;
      assert WordStream(vec2)[p] == Bit(vec2[i], j) && WordStream(vec)[p] == Bit(vec[i], j);
      if i == nc {
        assert p < len <==> j < m;
        BitOrPow2(vec1[nc], m, j);
        if m == 0 {
          BitZero(j);
        } else {
          assert Bit(vec1[nc], j) == Bit(vec[nc], j);
        }
      } else {
        assert p < len <==> i < nc;
        assert vec2[i] == vec[i];
      }
    }
  }

  /**
   * `addToCodeVector( ich, ich_len_in_bits, code_vector, code_vector_len_in_bits )`:
   * append the low `ich_len_in_bits` bits of `ich`, most significant first,
   * to the vector's bits, growing it a word at a time.
   */
  method AddToCodeVector(ich: nat, ichLenInBits: nat, codeVector: seq<nat>, codeVectorLenInBits: nat,
                         ghost written: seq<bool>)
    returns (vec: seq<nat>, lenInBits: nat)
    requires ich < WordMod && ichLenInBits <= 64
    requires Written(codeVector, codeVectorLenInBits, written)
    ensures lenInBits == codeVectorLenInBits + ichLenInBits && Packed(vec, lenInBits)
    ensures Written(vec, lenInBits, written + FieldBits(ich, ichLenInBits))
  {
    ghost var field := FieldBits(ich, ichLenInBits);
    ghost var target := written + field;
    vec := codeVector;
    lenInBits := codeVectorLenInBits;
    if |vec| == 0 {
      vec := [0];
    }
    StartVector(codeVector, lenInBits, written, vec, target);
    var n: int := ichLenInBits - 1;
    while n >= 0
      invariant -1 <= n < ichLenInBits && lenInBits == codeVectorLenInBits + (ichLenInBits - 1 - n)
      invariant |written| == codeVectorLenInBits
      invariant Packed(vec, lenInBits)
      invariant Content(vec, lenInBits) == target[..lenInBits]
    {
      FieldBitAt(written, ich, ichLenInBits, n, lenInBits);
      vec := WriteBit(vec, lenInBits, ich, n, target);
      n := n - 1;
      lenInBits := lenInBits + 1;
    }
    Finish(vec, lenInBits, target);
  }

  /** The vector `addToCodeVector` starts from: the one given, or one clear word for an empty one. */
  lemma StartVector(codeVector: seq<nat>, len: nat, written: seq<bool>, vec: seq<nat>, target: seq<bool>)
    requires Written(codeVector, len, written) && vec == (if |codeVector| == 0 then [0] else codeVector)
    requires |written| <= |target| && target[..|written|] == written
    ensures Packed(vec, len) && Content(vec, len) == target[..len]
  {
    if |codeVector| == 0 {
      FreshWord();
    }
  }

  /** A vector whose content is all of the target has the target written. */
  lemma Finish(vec: seq<nat>, len: nat, target: seq<bool>)
    requires Packed(vec, len) && len == |target| && Content(vec, len) == target[..len]
    ensures Written(vec, len, target)
  {
    assert target[..len] == target;
  }

  /**
   * The body of `addToCodeVector`'s loop: grow the vector to reach word
   * `len >> 6`, clear that word when the bit opens it, and set bit
   * `len & 63` of it when bit n of `ich` is set.
   */
  method WriteBit(codeVector: seq<nat>, len: nat, ich: nat, n: nat, ghost target: seq<bool>) returns (vec: seq<nat>)
    requires len < |target| && target[len] == Bit(ich, n)
    requires Packed(codeVector, len) && Content(codeVector, len) == target[..len]
    ensures Packed(vec, len + 1) && Content(vec, len + 1) == target[..len + 1]
  {
    vec := codeVector;
    WordAddress(len);
    var block := ShiftRight(len, 6);
    var m := And(len, 63);
    while block > |vec| - 1
      invariant Words(vec) && 1 <= |vec| <= block + 1 && len <= 64 * |vec| && Clear(vec, len)
      invariant WordStream(vec)[..len] == Content(codeVector, len)
    {
      PushZero(vec, len);
      vec := vec + [0];
    }
    ghost var pushed := vec;
    if m == 0 {
      vec := vec[block := 0];
    }
    ghost var cleared := vec;
    AndPow2(ich, n);
    if And(ich, Pow2(n)) != 0 {
      vec := vec[block := Or(vec[block], Pow2(m))];
    }
    PutBit(pushed, len, Bit(ich, n), cleared, vec);
    ExtendPrefix(target, len, Content(codeVector, len), Content(vec, len + 1));
  }

  /** `push_back( 0 )` on an empty vector: one word, no bit set. */
  lemma FreshWord()
    ensures Packed([0], 0)
  {
    forall p | 0 <= p < 64
      ensures !WordStream([0])[p]
    {
      BitZero(p % 64);
    }
  }

  // ---------------------------------------------------------------------
  // The code vector
  // ---------------------------------------------------------------------

  /** The codewords of the stored values, one after another. */
  ghost function FibStream(vs: seq<nat>): seq<bool>
  {
    Concat(Codeword, vs)
  }

  /** Every `code_cache` entry is the code of its key, no longer than the table. */
  ghost predicate CacheSound(fib: seq<nat>, cache: map<nat, (nat, nat)>)
  {
    forall w | w in cache :: CodeOf(w, cache[w]) && cache[w].1 <= |fib|
  }

  /**
   * The constructor's loop: code `value_array[i] + 1` for each of the first
   * `num_elements` values, through the cache, and append the code.
   */
  method Encode(fib: seq<nat>, valueArray: seq<nat>, numElements: nat) returns (codeVector: seq<nat>, numBits: nat)
    requires IsTable(fib) && |fib| <= 30 && numElements <= |valueArray|
    requires forall i | 0 <= i < numElements :: Codable(fib, valueArray[i] + 1)
    ensures Written(codeVector, numBits, FibStream(valueArray[..numElements]))
  {
    var cache: map<nat, (nat, nat)> := map[];
    codeVector, numBits := [], 0;
    var i: nat := 0;
    while i < numElements
      invariant i <= numElements && CacheSound(fib, cache)
      invariant Written(codeVector, numBits, FibStream(valueArray[..i]))
    {
      ConcatStep(Codeword, valueArray, i);
      cache, codeVector, numBits := EncodeValue(fib, valueArray[i], cache, codeVector, numBits, FibStream(valueArray[..i]));
      i := i + 1;
    }
  }

  /** The body of the constructor's loop, for the value x. */
  method EncodeValue(fib: seq<nat>, x: nat, cache: map<nat, (nat, nat)>, codeVector: seq<nat>, numBits: nat,
                     ghost written: seq<bool>)
    returns (cache': map<nat, (nat, nat)>, codeVector': seq<nat>, numBits': nat)
    requires IsTable(fib) && |fib| <= 30 && Codable(fib, x + 1) && CacheSound(fib, cache)
    requires Written(codeVector, numBits, written)
    ensures CacheSound(fib, cache')
    ensures Written(codeVector', numBits', written + Codeword(x))
  {
    var code, codeLen;
    cache', code, codeLen := CachedCode(fib, x + 1, cache);
    Pow2Le(codeLen, 64);
    WordPow();
    codeVector', numBits' := AddToCodeVector(code, codeLen, codeVector, numBits, written);
  }

  /**
   * `code_cache.at( v )`, computing the code and storing it first when v is
   * not yet cached.
   */
  method CachedCode(fib: seq<nat>, v: nat, cache: map<nat, (nat, nat)>)
    returns (cache': map<nat, (nat, nat)>, code: nat, codeLen: nat)
    requires IsTable(fib) && |fib| <= 30 && Codable(fib, v) && CacheSound(fib, cache)
    ensures CacheSound(fib, cache') && cache'.Keys == cache.Keys + {v} && (v in cache ==> cache' == cache)
    ensures CodeOf(v, (code, codeLen)) && codeLen <= |fib|
  {
    cache' := cache;
    if v !in cache' {
      var codeValue, len := FibEncode(fib, v);
      cache' := cache'[v := (codeValue, len)];
    }
    var codePair := cache'[v];
    code, codeLen := codePair.0, codePair.1;
  }

  /** A codeword of a codable successor is two to |fib| bits long. */
  lemma CodewordLength(fib: seq<nat>, x: nat)
    requires IsTable(fib) && Codable(fib, x + 1)
    ensures 2 <= |Codeword(x)| <= |fib|
  {
    CodableTop(fib, x + 1);
  }

  /** The stream of n codable values is 2n to 30n bits long. */
  lemma {:induction false} StreamLength(fib: seq<nat>, vs: seq<nat>)
    requires IsTable(fib) && |fib| <= 30 && forall i | 0 <= i < |vs| :: Codable(fib, vs[i] + 1)
    ensures 2 * |vs| <= |FibStream(vs)| <= 30 * |vs|
  {
    if |vs| > 0 {
      var init := vs[..|vs| - 1];
      assert forall i | 0 <= i < |init| :: init[i] == vs[i];
      StreamLength(fib, init);
      CodewordLength(fib, vs[|vs| - 1]);
    }
  }

  // ---------------------------------------------------------------------
  // The double-ones of the stream
  // ---------------------------------------------------------------------

  /** The double-ones of a codeword: one mark, on its last bit. */
  function EndMark(x: nat): (r: seq<bool>)
    ensures |r| == |Codeword(x)|
  {
    Zeros(|Codeword(x)| - 1) + [true]
  }

  /** One mark per codeword, at its end. */
  lemma EndMarkOne(x: nat)
    ensures Ones(EndMark(x)) == 1 && Select(EndMark(x), 0) == |Codeword(x)| - 1
  {
    var n := |Codeword(x)| - 1;
    var m := EndMark(x);
    OnesNone(Zeros(n));
    OnesAppend(Zeros(n), [true]);
    assert Ones([true]) == Ones([]) + 1;
    assert m[..n] == Zeros(n);
    OnesNone(m[..n]);
    RankIsOnes(m, n);
    SelectUnique(m, 0, n);
  }

  lemma EndMarks()
    ensures OneMark(EndMark)
  {
    forall v: nat
      ensures Ones(EndMark(v)) == 1
    {
      EndMarkOne(v);
    }
  }

  /**
   * Inside a codeword, before its closing bit, a pair is open exactly
   * after a set digit: no two neighbouring digits are set.
   */
  lemma {:induction false} CodewordPairs(x: nat, p: nat)
    requires p < |Codeword(x)|
    ensures Paired(Codeword(x), p) == (p > 0 && Codeword(x)[p - 1])
  {
    var c := Codeword(x);
    if p > 0 {
      CodewordPairs(x, p - 1);
      if p >= 2 {
        ZeckRepresents(x + 1);
        assert c[p - 2] == Zeck(x + 1)[p - 2] && c[p - 1] == Zeck(x + 1)[p - 1];
      }
    }
  }

  /**
   * The only double-one of a codeword is its closing "11", and no pair is
   * left open after it.
   */
  lemma CodewordMarks(x: nat)
    ensures MarksOf(DoubleOnes, Codeword(x)) == EndMark(x)
    ensures !Paired(Codeword(x), |Codeword(x)|)
  {
    var c := Codeword(x);
    var n := |c|;
    forall p | 0 <= p < n
      ensures MarksOf(DoubleOnes, c)[p] == EndMark(x)[p]
    {
      MarkAt(x, p);
    }
    MarkAt(x, n - 2);
    CodewordPairs(x, n - 1);
  }

  /** Position p of a codeword is a double-one exactly when it is the closing bit. */
  lemma MarkAt(x: nat, p: nat)
    requires p < |Codeword(x)|
    ensures (Codeword(x)[p] && Paired(Codeword(x), p)) == (p == |Codeword(x)| - 1)
    ensures Codeword(x)[p] == (p == |Codeword(x)| - 1 || Zeck(x + 1)[p])
  {
    var c := Codeword(x);
    var ds := Zeck(x + 1);
    ZeckRepresents(x + 1);
    CodewordPairs(x, p);
    if 0 < p < |c| - 1 {
      assert c[p - 1] == ds[p - 1] && c[p] == ds[p];
    }
  }

  /** After a stream with no pair open, pairs are open as in the stream that follows. */
  lemma {:induction false} PairedAfter(a: seq<bool>, b: seq<bool>, p: nat)
    requires p <= |b| && !Paired(a, |a|)
    ensures Paired(a + b, |a| + p) == Paired(b, p)
  {
    if p == 0 {
      PairedPrefix(a + b, |a|, |a|);
      assert (a + b)[..|a|] == a;
    } else {
      PairedAfter(a, b, p - 1);
      assert (a + b)[|a| + p - 1] == b[p - 1];
    }
  }

  /** The double-ones of a stream with no pair open at its end, followed by another. */
  lemma MarksConcat(a: seq<bool>, b: seq<bool>)
    requires !Paired(a, |a|)
    ensures MarksOf(DoubleOnes, a + b) == MarksOf(DoubleOnes, a) + MarksOf(DoubleOnes, b)
    ensures Paired(a + b, |a + b|) == Paired(b, |b|)
  {
    var s := a + b;
    forall p | 0 <= p < |s|
      ensures MarksOf(DoubleOnes, s)[p] == (MarksOf(DoubleOnes, a) + MarksOf(DoubleOnes, b))[p]
    {
      if p < |a| {
        PairedPrefix(s, |a|, p);
        assert s[..|a|] == a;
      } else {
        PairedAfter(a, b, p - |a|);
      }
    }
    PairedAfter(a, b, |b|);
  }

  /** The double-ones of the code stream: one at the end of every codeword. */
  lemma {:induction false} StreamMarks(vs: seq<nat>)
    ensures MarksOf(DoubleOnes, FibStream(vs)) == Concat(EndMark, vs)
    ensures !Paired(FibStream(vs), |FibStream(vs)|)
  {
    if |vs| > 0 {
      var init := vs[..|vs| - 1];
      var x := vs[|vs| - 1];
      StreamMarks(init);
      CodewordMarks(x);
      MarksConcat(FibStream(init), Codeword(x));
    }
  }

  /**
   * `select11( k )`, over the code stream, is where codeword k starts: one
   * past the closing bit of codeword k - 1, or 0.
   */
  lemma SelectIsStart(vs: seq<nat>, pos: seq<nat>, k: nat)
    requires pos == Positions(MarksOf(DoubleOnes, FibStream(vs))) && k <= |vs|
    ensures |pos| == |vs|
    ensures (if k == 0 then 0 else pos[k - 1] + 1) == Start(Codeword, vs, k)
  {
    StreamMarks(vs);
    EndMarks();
    OnesConcat(EndMark, vs);
    if k == 0 {
      assert vs[..0] == [];
    } else {
      var i := k - 1;
      SelectCodeword(EndMark, vs, i);
      EndMarkOne(vs[i]);
      SameLayout(Codeword, EndMark, vs[..i]);
      CodewordAt(Codeword, vs, i);
    }
  }

  /** At most 2^44 values. */
  const MaxElements: nat := 0x1000_0000_0000

  /**
   * The code vector of 1 to 2^44 codable values meets `simple_select11`'s
   * demands: fewer than 2^50 bits, one double-one per value, and at least
   * two double-ones per 8192 bits.
   */
  lemma StoreAdmissible(fib: seq<nat>, codeVector: seq<nat>, numBits: nat, vs: seq<nat>)
    requires IsTable(fib) && |fib| <= 30 && 1 <= |vs| < MaxElements
    requires forall i | 0 <= i < |vs| :: Codable(fib, vs[i] + 1)
    requires Written(codeVector, numBits, FibStream(vs))
    ensures Select11.Admissible(codeVector, numBits, |vs|)
  {
    StreamLength(fib, vs);
    var n := numBits;
    var c := |vs|;
    assert n == |FibStream(vs)| && 2 <= n <= 30 * c;
    assert Prefix(codeVector, n) == FibStream(vs);
    StreamMarks(vs);
    EndMarks();
    OnesConcat(EndMark, vs);
    DenseEnough(c, n);
  }

  /** At most 30 bits per double-one leave at least two double-ones per 8192 bits. */
  lemma DenseEnough(c: nat, n: nat)
    requires 1 <= c && 0 < n <= 30 * c
    ensures 2 <= SimpleSelect.Ratio(c, n)
  {
    DivAtLeast(c * 8192 + n - 1, n, 2);
  }

  // ---------------------------------------------------------------------
  // Reading a value back
  // ---------------------------------------------------------------------

  /** The digits of a codeword: all its bits but the closing one. */
  function Digits(code: seq<bool>): (r: seq<bool>)
  {
    if |code| == 0 then [] else code[..|code| - 1]
  }

  /** Decoding inverts the code: the digits of the codeword of x stand for x + 1. */
  lemma DecodeCodeword(x: nat)
    ensures Weight(Digits(Codeword(x))) == x + 1
  {
    ZeckRepresents(x + 1);
    assert Digits(Codeword(x)) == Zeck(x + 1);
  }

  /**
   * The loop of `at`: walk `index1` up to `index2`, reading bit
   * `index1 & 63` of word `index1 >> 6`, and add `fibonacci_vec[pos]` for
   * every set bit but the last of the `length` bits.
   */
  method SumDigits(codeVector: seq<nat>, fib: seq<nat>, index1: nat, index2: nat) returns (value: nat)
    requires IsTable(fib) && index1 <= index2 <= 64 * |codeVector| && index2 - index1 <= |fib| + 1
    ensures value == Weight(Digits(WordStream(codeVector)[index1..index2]))
  {
    ghost var code := WordStream(codeVector)[index1..index2];
    var length := index2 - index1;
    var pos: int := -1;
    var p := index1;
    value := 0;
    while p < index2
      invariant index1 <= p <= index2 && pos == p - index1 - 1
      invariant Summed(code, p - index1, value)
    {
      pos := pos + 1;
      WordAddress(p);
      var blockNum := ShiftRight(p, 6);
      AndPow2(codeVector[blockNum], And(p, 63));
      assert code[pos] == Bit(codeVector[blockNum], And(p, 63));
      ghost var before := value;
      if And(codeVector[blockNum], Pow2(And(p, 63))) != 0 {
        if length - pos > 1 {
          value := value + fib[pos];
        }
      }
      SumStep(code, pos, before, value);
      p := p + 1;
    }
    SumAll(code, value);
  }

  /** The digits among the first k bits of a code stand for value. */
  ghost predicate Summed(code: seq<bool>, k: nat, value: nat)
  {
    value == Weight(Digits(code)[..Min(k, |Digits(code)|)])
  }

  /** One round of `at`'s loop: bit k adds its entry when it is set and not the last. */
  lemma SumStep(code: seq<bool>, k: nat, value: nat, value': nat)
    requires k < |code| && Summed(code, k, value)
    requires value' == if code[k] && |code| - k > 1 then value + Fib(k) else value
    ensures Summed(code, k + 1, value')
  {
    var ds := Digits(code);
    if k < |ds| {
      assert ds[..k + 1] == ds[..k] + [code[k]];
      Snoc(ds[..k], code[k]);
    }
  }

  /** Once every bit is read, the sum is that of all the digits. */
  lemma SumAll(code: seq<bool>, value: nat)
    requires Summed(code, |code|, value)
    ensures value == Weight(Digits(code))
  {
    assert Digits(code)[..|Digits(code)|] == Digits(code);
  }

  /**
   * `CompressedValueStoreFibonacci`: the table, the code vector and the
   * `simple_select11` index over it.
   */
  class FibonacciValueStore {
    /** `fibonacci_vec` */
    const fibonacciVec: seq<nat>
    const numElementsStored: nat
    const bitsInCodeVector: nat
    /** The codewords, 64 bits to a word from bit 0 of word 0 up. */
    const codeVector: seq<nat>
    /** The `simple_select11` index over the code vector. */
    const ss: Select11.SimpleSelect11
    /** The values stored. */
    ghost const Values: seq<nat>

    ghost predicate Valid()
    {
      IsTable(fibonacciVec) && |fibonacciVec| <= 30
      && numElementsStored == |Values| && 1 <= |Values| < MaxElements
      && (forall i | 0 <= i < |Values| :: Codable(fibonacciVec, Values[i] + 1))
      && bitsInCodeVector <= 64 * |codeVector|
      && ss.Valid() && ss.bits == codeVector && ss.numBits == bitsInCodeVector && ss.numOnes == |Values|
      && ss.Source == FibStream(Values)
    }

    /**
     * `CompressedValueStoreFibonacci( value_array, num_elements, max_value )`:
     * build the table, code the first `num_elements` values and index the
     * code vector.  The table is the covering one (see `CoveringTable`);
     * max_value stays below Fib(29) = 1346269 so that codes fit the 32-bit
     * `code_value`.
     */
    constructor (valueArray: seq<nat>, numElements: nat, maxValue: nat)
      requires 1 <= numElements <= |valueArray| && numElements < MaxElements
      requires maxValue + 1 < Fib(29)
      requires forall i | 0 <= i < numElements :: valueArray[i] <= maxValue
      ensures Valid() && Values == valueArray[..numElements] && fibonacciVec == CoveringTable(maxValue)
    {
      var fib := BuildCoveringTable(maxValue);
      CoveringTableIs(maxValue);
      ghost var vs := valueArray[..numElements];
      forall i | 0 <= i < numElements
        ensures Codable(fib, valueArray[i] + 1)
      {
        assert 1 <= valueArray[i] + 1 <= maxValue + 1;
      }
      var cv, numBits := Encode(fib, valueArray, numElements);
      StoreAdmissible(fib, cv, numBits, vs);
      var index := new Select11.SimpleSelect11(cv, numBits, numElements);
      fibonacciVec := fib;
      numElementsStored := numElements;
      bitsInCodeVector := numBits;
      codeVector := cv;
      ss := index;
      Values := vs;
    }

    /**
     * `at( index )`: the digits between the starts of values index and
     * index + 1 (or the end of the code vector), summed, less one; -1 as
     * an unsigned word past the last value.
     */
    method At(index: nat) returns (r: nat)
      requires Valid()
      ensures index < numElementsStored ==> r == Values[index]
      ensures numElementsStored <= index ==> r == WordMod - 1
    {
      if index > numElementsStored {
        return WordMod - 1;
      }
      var index1, index2 := Bounds(index);
      Located(fibonacciVec, WordStream(codeVector), bitsInCodeVector, Values, index, index1, index2);
      var value := SumDigits(codeVector, fibonacciVec, index1, index2);
      r := if value == 0 then WordMod - 1 else value - 1;
    }

    /** `select11` at index, and at index + 1 or the end: where codeword index starts and ends. */
    method Bounds(index: nat) returns (index1: nat, index2: nat)
      requires Valid() && index <= numElementsStored
      ensures index1 == Start(Codeword, Values, index)
      ensures index2 == if index < numElementsStored then Start(Codeword, Values, index + 1) else bitsInCodeVector
    {
      SelectIsStart(Values, ss.Pos, index);
      index1 := ss.Select11(index);
      if index + 1 < numElementsStored {
        SelectIsStart(Values, ss.Pos, index + 1);
        index2 := ss.Select11(index + 1);
      } else {
        StartAll(Codeword, Values);
        index2 := bitsInCodeVector;
      }
    }
  }

  /**
   * The bits `at` reads for value index lie in the code vector: codeword
   * index, whose digits stand for its value plus one, or nothing past the
   * last value.
   */
  lemma Located(fib: seq<nat>, stream: seq<bool>, bits: nat, vs: seq<nat>, index: nat, index1: nat, index2: nat)
    requires IsTable(fib) && forall i | 0 <= i < |vs| :: Codable(fib, vs[i] + 1)
    requires bits <= |stream| && stream[..bits] == FibStream(vs) && index <= |vs|
    requires index1 == Start(Codeword, vs, index)
    requires index2 == if index < |vs| then Start(Codeword, vs, index + 1) else bits
    ensures index1 <= index2 <= bits && index2 - index1 <= |fib| + 1
    ensures index < |vs| ==> Weight(Digits(stream[index1..index2])) == vs[index] + 1
    ensures index == |vs| ==> index1 == index2
  {
    StartAll(Codeword, vs);
    if index < |vs| {
      CodewordAt(Codeword, vs, index);
      CodewordLength(fib, vs[index]);
      SliceWithin(stream, FibStream(vs), bits, index1, index2);
      DecodeCodeword(vs[index]);
    }
  }

  /** A slice of a stream within a prefix of it is the same slice of that prefix. */
  lemma SliceWithin(stream: seq<bool>, prefix: seq<bool>, bits: nat, i: nat, j: nat)
    requires bits <= |stream| && stream[..bits] == prefix && i <= j <= bits
    ensures stream[i..j] == prefix[i..j]
  {
    assert stream[..bits][i..j] == stream[i..j];
  }
}
