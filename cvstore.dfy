/**
 * `CompressedValueStore`: a store of small counts in two parallel bit
 * streams.  Value v is written as the low `code_len` bits of v + 2, most
 * significant first, `code_len` being the floor log2 of v + 2, so the
 * leading one is implicit; the index stream gets a one followed by
 * `code_len - 1` zeros at the same place.  An `SArray` over the index
 * stream finds where codeword i starts.
 */
module CompressedValues {
  import opened Bits
  import opened Streams
  import opened Broadword
  import opened CompactStores
  import opened WordScan
  import opened SArrays
  import EliasFano
  import Inventories

  // ---------------------------------------------------------------------
  // The code
  // ---------------------------------------------------------------------

  /**
   * The largest value the store takes: `1 << code_len` is a shift of a
   * 32-bit `int`, so v + 2 stays below 2^31 and `code_len` below 31.
   */
  const MaxValue: nat := 0x7FFF_FFFD

  /** `code_len = floor( log2( v + 2 ) )`, at least one. */
  function CodeLen(v: nat): (r: nat)
    ensures 1 <= r && Pow2(r) <= v + 2 < Pow2(r + 1)
  {
    FloorLog2(v + 2)
  }

  /** A value of the store has a code of at most 30 bits. */
  lemma CodeLenBound(v: nat)
    requires v <= MaxValue
    ensures CodeLen(v) <= 30
  {
    if CodeLen(v) > 30 {
      Pow2Le(31, CodeLen(v));
      Pow2Values();
      assert false;
    }
  }

  /** `code_bits = v + 2 - ( 1 << code_len )`: v + 2 without its leading one. */
  function CodeBits(v: nat): (r: nat)
    ensures r < Pow2(CodeLen(v)) && r + Pow2(CodeLen(v)) == v + 2
  {
    v + 2 - Pow2(CodeLen(v))
  }

  /** The codeword of v: `code_bits` over `code_len` bits, most significant first. */
  function Codeword(v: nat): (r: seq<bool>)
    ensures |r| == CodeLen(v)
  {
    FieldBits(CodeBits(v), CodeLen(v))
  }

  /** The index stream's share of a codeword of `len` bits: a one, then `len - 1` zeros. */
  function Marker(len: nat): (r: seq<bool>)
    requires len >= 1
    ensures |r| == len && r[0] && Ones(r) == 1
  {
    var zeros := seq(len - 1, _ => false);
    OnesNone(zeros);
    OnesAppend([true], zeros);
    [true] + zeros
  }

  /** What `at` returns for the bits of a codeword: `compressed_code + ( 1 << length ) - 2`. */
  function Decode(code: seq<bool>): (r: nat)
    requires |code| >= 1
  {
    Pow2Le(1, |code|);
    MsbFirst(code) + Pow2(|code|) - 2
  }

  /** Decoding a codeword gives its value back. */
  lemma DecodeCodeword(v: nat)
    ensures Decode(Codeword(v)) == v
  {
    MsbFirstField(CodeBits(v), CodeLen(v));
    LowBitsSmall(CodeBits(v), CodeLen(v));
  }

  /** Every non-empty run of bits is the codeword of exactly the value it decodes to. */
  lemma CodewordDecode(code: seq<bool>)
    requires |code| >= 1
    ensures Codeword(Decode(code)) == code
  {
    var v := Decode(code);
    var l := |code|;
    assert Pow2(l + 1) == 2 * Pow2(l);
    FloorLog2Unique(v + 2, l);
    assert CodeBits(v) == MsbFirst(code);
    FieldMsbFirst(code);
  }

  // ---------------------------------------------------------------------
  // The two streams
  // ---------------------------------------------------------------------

  /** The code stream of a sequence of values: their codewords, one after another. */
  function CodeStream(vs: seq<nat>): (r: seq<bool>)
  {
    if |vs| == 0 then [] else CodeStream(vs[..|vs| - 1]) + Codeword(vs[|vs| - 1])
  }

  /** The index stream: one marker per value, as long as its codeword. */
  function IndexStream(vs: seq<nat>): (r: seq<bool>)
    ensures |r| == |CodeStream(vs)| && Ones(r) == |vs|
  {
    if |vs| == 0 then []
    else
      var r := IndexStream(vs[..|vs| - 1]) + Marker(CodeLen(vs[|vs| - 1]));
      OnesAppend(IndexStream(vs[..|vs| - 1]), Marker(CodeLen(vs[|vs| - 1])));
      r
  }

  /** Where codeword i starts: the length of the codewords before it. */
  function Start(vs: seq<nat>, i: nat): nat
    requires i <= |vs|
  {
    |CodeStream(vs[..i])|
  }

  /** The streams of a prefix of the values are prefixes of the streams. */
  lemma StreamsPrefix(vs: seq<nat>, i: nat)
    requires i <= |vs|
    ensures Start(vs, i) <= |CodeStream(vs)|
    ensures CodeStream(vs)[..Start(vs, i)] == CodeStream(vs[..i])
    ensures IndexStream(vs)[..Start(vs, i)] == IndexStream(vs[..i])
  {
    CodePrefix(vs, i);
    IndexPrefix(vs, i);
  }

  lemma {:induction false} CodePrefix(vs: seq<nat>, i: nat)
    requires i <= |vs|
    ensures |CodeStream(vs[..i])| <= |CodeStream(vs)|
    ensures CodeStream(vs)[..|CodeStream(vs[..i])|] == CodeStream(vs[..i])
  {
    if i < |vs| {
      var init := vs[..|vs| - 1];
      assert init[..i] == vs[..i];
      CodePrefix(init, i);
    } else {
      assert vs[..i] == vs;
    }
  }

  lemma {:induction false} IndexPrefix(vs: seq<nat>, i: nat)
    requires i <= |vs|
    ensures |IndexStream(vs[..i])| <= |IndexStream(vs)|
    ensures IndexStream(vs)[..|IndexStream(vs[..i])|] == IndexStream(vs[..i])
  {
    if i < |vs| {
      var init := vs[..|vs| - 1];
      assert init[..i] == vs[..i];
      IndexPrefix(init, i);
    } else {
      assert vs[..i] == vs;
    }
  }

  /** Codeword i lies between the starts of values i and i + 1, in both streams. */
  lemma CodewordAt(vs: seq<nat>, i: nat)
    requires i < |vs|
    ensures Start(vs, i + 1) == Start(vs, i) + CodeLen(vs[i]) <= |CodeStream(vs)|
    ensures CodeStream(vs)[Start(vs, i)..Start(vs, i + 1)] == Codeword(vs[i])
    ensures IndexStream(vs)[Start(vs, i)..Start(vs, i + 1)] == Marker(CodeLen(vs[i]))
  {
    var pre := vs[..i + 1];
    assert pre[..i] == vs[..i];
    StreamsPrefix(vs, i + 1);
    var c := CodeStream(vs);
    assert c[Start(vs, i)..Start(vs, i + 1)] == c[..Start(vs, i + 1)][Start(vs, i)..];
    var x := IndexStream(vs);
    assert x[Start(vs, i)..Start(vs, i + 1)] == x[..Start(vs, i + 1)][Start(vs, i)..];
  }

  /** The last start is the end of the code stream. */
  lemma StartAll(vs: seq<nat>)
    ensures Start(vs, |vs|) == |CodeStream(vs)|
  {
    assert vs[..|vs|] == vs;
  }

  /** Marker i is the i-th one of the index stream: selecting it finds where codeword i starts. */
  lemma SelectMarker(vs: seq<nat>, i: nat)
    requires i < |vs|
    ensures i < Ones(IndexStream(vs)) && Select(IndexStream(vs), i) == Start(vs, i)
  {
    var x := IndexStream(vs);
    var p := Start(vs, i);
    CodewordAt(vs, i);
    StreamsPrefix(vs, i);
    assert x[p] == x[p..Start(vs, i + 1)][0];
    RankIsOnes(x, p);
    assert |vs[..i]| == i;
    SelectUnique(x, i, p);
  }

  // ---------------------------------------------------------------------
  // Byte vectors written bit by bit
  // ---------------------------------------------------------------------

  /** Every element a byte. */
  ghost predicate Bytes(vec: seq<nat>)
  {
    forall i | 0 <= i < |vec| :: vec[i] < 256
  }

  /** The bits from `len` on are clear. */
  ghost predicate Clear(vec: seq<nat>, len: nat)
  {
    forall p | len <= p < 8 * |vec| :: !ByteStream(vec)[p]
  }

  /** The bytes a vector of `len` bits takes once written to: at least one. */
  function VecSize(len: nat): nat
  {
    if len == 0 then 1 else (len + 7) / 8
  }

  /**
   * A vector as `addToCodeVector` leaves it after writing `len` bits:
   * `VecSize(len)` bytes, filled from bit 0 of byte 0 up, with nothing set
   * past the last bit written.
   */
  ghost predicate Packed(vec: seq<nat>, len: nat)
  {
    Bytes(vec) && |vec| == VecSize(len) && len <= 8 * |vec| && Clear(vec, len)
  }

  /** The first `len` bits of a vector. */
  ghost function Content(vec: seq<nat>, len: nat): (r: seq<bool>)
    requires len <= 8 * |vec|
    ensures |r| == len
  {
    ByteStream(vec)[..len]
  }

  /** `p >> 3` and `p & 7`: the byte of bit p and the bit within it. */
  lemma ByteAddress(p: nat)
    ensures ShiftRight(p, 3) == p / 8 && And(p, 7) == p % 8
  {
    assert Pow2(3) == 8;
    EliasFano.AndLowMask(p, 3);
    ShiftRightIsDiv(p, 3);
  }

  /** `push_back( 0 )` adds clear bits and keeps the others. */
  lemma PushZero(vec: seq<nat>, len: nat)
    requires Bytes(vec) && len <= 8 * |vec| && Clear(vec, len)
    ensures Bytes(vec + [0]) && len <= 8 * |vec + [0]| && Clear(vec + [0], len)
    ensures ByteStream(vec + [0])[..len] == ByteStream(vec)[..len]
  {
    var v := vec + [0];
    forall p | 0 <= p < 8 * |v|
      ensures ByteStream(v)[p] == (p < 8 * |vec| && ByteStream(vec)[p])
    {
      if p >= 8 * |vec| {
        BitZero(p % 8);
      }
    }
  }

  /**
   * One step of `addToCodeVector`: bit b goes to position len, in byte
   * `len >> 3` (cleared first when the bit opens it) at bit `len & 7`.
   */
  lemma PutBit(vec: seq<nat>, len: nat, b: bool, vec1: seq<nat>, vec2: seq<nat>)
    requires Bytes(vec) && |vec| == len / 8 + 1 && Clear(vec, len)
    requires vec1 == (if len % 8 == 0 then vec[len / 8 := 0] else vec)
    requires vec2 == (if b then vec1[len / 8 := Or(vec1[len / 8], Pow2(len % 8))] else vec1)
    ensures Bytes(vec2) && |vec2| == |vec| && Clear(vec2, len + 1)
    ensures ByteStream(vec2)[..len + 1] == ByteStream(vec)[..len] + [b]
  {
    var nc := len / 8;
    var m := len % 8;
    Pow2Le(m, 7);
    assert Pow2(8) == 256;
    OrBound(vec1[nc], Pow2(m), 8);
    forall p | 0 <= p < 8 * |vec|
      ensures ByteStream(vec2)[p] == (if p < len then ByteStream(vec)[p] else p == len && b)
    {
      var i := p / 8;
      var j := p % 8;
      assert ByteStream(vec2)[p] == Bit(vec2[i], j) && ByteStream(vec)[p] == Bit(vec[i], j);
      if i == nc {
        assert p < len <==> j < m;
        BitOrPow2(vec1[nc], m, j);
        if m == 0 {
          BitZero(j);
        } else {
          assert Bit(vec1[nc], j) == Bit(vec[nc], j);
        }
      } else {
        assert p < len <==> i < nc;
        assert vec2[i] == vec[i];
      }
    }
  }

  /**
   * `addToCodeVector( ich, ich_len_in_bits, code_vector, code_vector_len_in_bits )`:
   * append the low `ich_len_in_bits` bits of `ich`, most significant first,
   * to the vector's bits, growing it a byte at a time.
   */
  method AddToCodeVector(ich: nat, ichLenInBits: nat, codeVector: seq<nat>, codeVectorLenInBits: nat,
                         ghost written: seq<bool>)
    returns (vec: seq<nat>, lenInBits: nat)
    requires ich < HalfMod && ichLenInBits <= 32
    requires Written(codeVector, codeVectorLenInBits, written)
    ensures lenInBits == codeVectorLenInBits + ichLenInBits && Packed(vec, lenInBits)
    ensures Written(vec, lenInBits, written + FieldBits(ich, ichLenInBits))
  {
    ghost var field := FieldBits(ich, ichLenInBits);
    ghost var target := written + field;
    vec := codeVector;
    lenInBits := codeVectorLenInBits;
    if |vec| == 0 {
      vec := [0];
    }
    StartVector(codeVector, lenInBits, written, vec, target);
    var n: int := ichLenInBits - 1;
    while n >= 0
      invariant -1 <= n < ichLenInBits && lenInBits == codeVectorLenInBits + (ichLenInBits - 1 - n)
      invariant |written| == codeVectorLenInBits
      invariant Packed(vec, lenInBits)
      invariant Content(vec, lenInBits) == target[..lenInBits]
    {
      FieldBitAt(written, ich, ichLenInBits, n, lenInBits);
      vec := WriteBit(vec, lenInBits, ich, n, target);
      n := n - 1;
      lenInBits := lenInBits + 1;
    }
    Finish(vec, lenInBits, target);
  }

  /** The vector `addToCodeVector` starts from: the one given, or one clear byte for an empty one. */
  lemma StartVector(codeVector: seq<nat>, len: nat, written: seq<bool>, vec: seq<nat>, target: seq<bool>)
    requires Written(codeVector, len, written) && vec == (if |codeVector| == 0 then [0] else codeVector)
    requires |written| <= |target| && target[..|written|] == written
    ensures Packed(vec, len) && Content(vec, len) == target[..len]
  {
    if |codeVector| == 0 {
      FreshByte();
    }
  }

  /** A vector whose content is all of the target has the target written. */
  lemma Finish(vec: seq<nat>, len: nat, target: seq<bool>)
    requires Packed(vec, len) && len == |target| && Content(vec, len) == target[..len]
    ensures Written(vec, len, target)
  {
    assert target[..len] == target;
  }

  /**
   * The body of `addToCodeVector`'s loop: grow the vector to reach byte
   * `len >> 3`, clear that byte when the bit opens it, and set bit
   * `len & 7` of it when bit n of `ich` is set.
   */
  method WriteBit(codeVector: seq<nat>, len: nat, ich: nat, n: nat, ghost target: seq<bool>) returns (vec: seq<nat>)
    requires len < |target| && target[len] == Bit(ich, n)
    requires Packed(codeVector, len) && Content(codeVector, len) == target[..len]
    ensures Packed(vec, len + 1) && Content(vec, len + 1) == target[..len + 1]
  {
    vec := codeVector;
    ByteAddress(len);
    var nc := ShiftRight(len, 3);
    var m := And(len, 7);
    while nc > |vec| - 1
      invariant Bytes(vec) && 1 <= |vec| <= nc + 1 && len <= 8 * |vec| && Clear(vec, len)
      invariant ByteStream(vec)[..len] == Content(codeVector, len)
    {
      PushZero(vec, len);
      vec := vec + [0];
    }
    ghost var pushed := vec;
    if m == 0 {
      vec := vec[nc := 0];
    }
    ghost var cleared := vec;
    AndPow2(ich, n);
    if And(ich, Pow2(n)) != 0 {
      vec := vec[nc := Or(vec[nc], Pow2(m))];
    }
    PutBit(pushed, len, Bit(ich, n), cleared, vec);
    ExtendPrefix(target, len, Content(codeVector, len), Content(vec, len + 1));
  }

  /** `push_back( 0 )` on an empty vector: one byte, no bit set. */
  lemma FreshByte()
    ensures Packed([0], 0)
  {
    forall p | 0 <= p < 8
      ensures !ByteStream([0])[p]
    {
      BitZero(p % 8);
    }
  }

  // ---------------------------------------------------------------------
  // Building the store
  // ---------------------------------------------------------------------

  /** A vector as `addToCodeVector` leaves it (or untouched and empty) whose first `len` bits are `bits`. */
  ghost predicate Written(vec: seq<nat>, len: nat, bits: seq<bool>)
  {
    (Packed(vec, len) || (vec == [] && len == 0)) && len <= 8 * |vec| && ByteStream(vec)[..len] == bits
  }

  /** The marker of a codeword is what `addToCodeVector( 1, 1, ... )` and then `( 0, len - 1, ... )` write. */
  lemma MarkerFields(len: nat)
    requires len >= 1
    ensures Marker(len) == FieldBits(1, 1) + FieldBits(0, len - 1)
  {
    forall i | 1 <= i < len
      ensures Marker(len)[i] == (FieldBits(1, 1) + FieldBits(0, len - 1))[i]
    {
      BitZero(len - 1 - i);
    }
  }

  /** The streams of one value more. */
  lemma EncodeStep(vs: seq<nat>, i: nat)
    requires i < |vs|
    ensures CodeStream(vs[..i + 1]) == CodeStream(vs[..i]) + Codeword(vs[i])
    ensures IndexStream(vs[..i + 1]) == IndexStream(vs[..i]) + Marker(CodeLen(vs[i]))
  {
    assert vs[..i + 1][..i] == vs[..i];
  }

  /** The codes of 0 and 1 are the only one-bit codes. */
  lemma CodeLenOne(v: nat)
    ensures CodeLen(v) == 1 <==> v <= 1
  {
    assert Pow2(2) == 4;
    if CodeLen(v) >= 2 {
      Pow2Le(2, CodeLen(v));
    }
  }

  /**
   * Every value takes one to 30 bits, so the code stream holds at least a
   * bit per value, at most 30, and exactly one exactly when every value is
   * 0 or 1.
   */
  lemma CodeStreamLength(vs: seq<nat>)
    ensures |vs| <= |CodeStream(vs)|
    ensures (forall i | 0 <= i < |vs| :: vs[i] <= MaxValue) ==> |CodeStream(vs)| <= 30 * |vs|
    ensures |CodeStream(vs)| == |vs| <==> forall i | 0 <= i < |vs| :: vs[i] <= 1
  {
    CodeStreamAtLeast(vs);
    if forall i | 0 <= i < |vs| :: vs[i] <= MaxValue {
      CodeStreamAtMost(vs);
    }
    CodeStreamOneBit(vs);
  }

  lemma {:induction false} CodeStreamAtLeast(vs: seq<nat>)
    ensures |vs| <= |CodeStream(vs)|
  {
    if |vs| > 0 {
      CodeStreamAtLeast(vs[..|vs| - 1]);
    }
  }

  lemma {:induction false} CodeStreamAtMost(vs: seq<nat>)
    requires forall i | 0 <= i < |vs| :: vs[i] <= MaxValue
    ensures |CodeStream(vs)| <= 30 * |vs|
  {
    if |vs| > 0 {
      var init := vs[..|vs| - 1];
      assert forall i | 0 <= i < |init| :: init[i] == vs[i];
      CodeStreamAtMost(init);
      CodeLenBound(vs[|vs| - 1]);
    }
  }

  lemma CodeStreamOneBit(vs: seq<nat>)
    ensures |CodeStream(vs)| == |vs| <==> forall i | 0 <= i < |vs| :: vs[i] <= 1
  {
    if |CodeStream(vs)| == |vs| {
      OneBitSmall(vs);
    }
    if forall i | 0 <= i < |vs| :: vs[i] <= 1 {
      SmallOneBit(vs);
    }
  }

  lemma {:induction false} OneBitSmall(vs: seq<nat>)
    requires |CodeStream(vs)| == |vs|
    ensures forall i | 0 <= i < |vs| :: vs[i] <= 1
  {
    if |vs| > 0 {
      var init := vs[..|vs| - 1];
      var v := vs[|vs| - 1];
      CodeStreamAtLeast(init);
      var k := CodeLen(v);
      var a, b := |CodeStream(init)|, |init|;
      assert b <= a && 1 <= k && |vs| == b + 1 && |CodeStream(vs)| == a + k;
      assert a == b && k == 1;
      CodeLenOne(v);
      OneBitSmall(init);
      forall i | 0 <= i < |vs|
        ensures vs[i] <= 1
      {
        if i < |init| {
          assert vs[i] == init[i];
        }
      }
    }
  }

  lemma {:induction false} SmallOneBit(vs: seq<nat>)
    requires forall i | 0 <= i < |vs| :: vs[i] <= 1
    ensures |CodeStream(vs)| == |vs|
  {
    if |vs| > 0 {
      var init := vs[..|vs| - 1];
      assert forall i | 0 <= i < |init| :: init[i] == vs[i];
      SmallOneBit(init);
      CodeLenOne(vs[|vs| - 1]);
    }
  }

  /**
   * The loop of the constructor: for each value, its codeword goes to the
   * code vector and its marker to the index vector.
   */
  method Encode(valueArray: seq<nat>, numElements: nat)
    returns (codeVector: seq<nat>, numBits1: nat, codeBitIndex: seq<nat>, numBits2: nat)
    requires numElements <= |valueArray|
    requires forall i | 0 <= i < numElements :: valueArray[i] <= MaxValue
    ensures Written(codeVector, numBits1, CodeStream(valueArray[..numElements]))
    ensures Written(codeBitIndex, numBits2, IndexStream(valueArray[..numElements]))
  {
    codeVector, numBits1, codeBitIndex, numBits2 := [], 0, [], 0;
    var i: nat := 0;
    while i < numElements
      invariant i <= numElements
      invariant Written(codeVector, numBits1, CodeStream(valueArray[..i]))
      invariant Written(codeBitIndex, numBits2, IndexStream(valueArray[..i]))
    {
      var v := valueArray[i];
      EncodeStep(valueArray, i);
      codeVector, numBits1, codeBitIndex, numBits2 := EncodeValue(v, codeVector, numBits1, codeBitIndex, numBits2,
        CodeStream(valueArray[..i]), IndexStream(valueArray[..i]));
      i := i + 1;
    }
  }

  /** The body of the constructor's loop, for value v. */
  method EncodeValue(v: nat, codeVector: seq<nat>, numBits1: nat, codeBitIndex: seq<nat>, numBits2: nat,
                     ghost codes: seq<bool>, ghost marks: seq<bool>)
    returns (codeVector': seq<nat>, numBits1': nat, codeBitIndex': seq<nat>, numBits2': nat)
    requires v <= MaxValue && Written(codeVector, numBits1, codes) && Written(codeBitIndex, numBits2, marks)
    ensures Written(codeVector', numBits1', codes + Codeword(v))
    ensures Written(codeBitIndex', numBits2', marks + Marker(CodeLen(v)))
  {
    CodeLenBound(v);
    Pow2Le(CodeLen(v), 32);
    Pow2Values();
    var codeLen := FloorLog2(v + 2);
    var codeBits := v + 2 - Pow2(codeLen);
    assert codeLen == CodeLen(v) && FieldBits(codeBits, codeLen) == Codeword(v);
    codeVector', numBits1' := AddToCodeVector(codeBits, codeLen, codeVector, numBits1, codes);
    codeBitIndex', numBits2' := AddMarker(codeLen, codeBitIndex, numBits2, marks);
  }

  /** `addToCodeVector( 1, 1, ... )`, then `( 0, code_len - 1, ... )` when `code_len > 1`. */
  method AddMarker(codeLen: nat, codeBitIndex: seq<nat>, numBits2: nat, ghost marks: seq<bool>)
    returns (codeBitIndex': seq<nat>, numBits2': nat)
    requires 1 <= codeLen <= 30 && Written(codeBitIndex, numBits2, marks)
    ensures Written(codeBitIndex', numBits2', marks + Marker(codeLen))
  {
    Pow2Values();
    MarkerAppend(marks, codeLen);
    codeBitIndex', numBits2' := AddToCodeVector(1, 1, codeBitIndex, numBits2, marks);
    if codeLen > 1 {
      codeBitIndex', numBits2' := AddToCodeVector(0, codeLen - 1, codeBitIndex', numBits2', marks + FieldBits(1, 1));
    }
  }

  /** What the two calls of `AddMarker` append, together. */
  lemma MarkerAppend(marks: seq<bool>, len: nat)
    requires len >= 1
    ensures len == 1 ==> marks + Marker(len) == marks + FieldBits(1, 1)
    ensures marks + Marker(len) == marks + FieldBits(1, 1) + FieldBits(0, len - 1)
  {
    MarkerFields(len);
    assert FieldBits(0, 0) == [];
  }

  /** `while( code_bit_index.size() % 64 ) code_bit_index.push_back( 0 )`. */
  method PadToWords(codeBitIndex: seq<nat>) returns (bitvec: seq<nat>)
    ensures |bitvec| % 64 == 0 && |codeBitIndex| <= |bitvec| < |codeBitIndex| + 64
    ensures bitvec == codeBitIndex + seq(|bitvec| - |codeBitIndex|, _ => 0)
  {
    bitvec := codeBitIndex;
    ghost var goal := |codeBitIndex| + (64 - |codeBitIndex| % 64) % 64;
    while |bitvec| % 64 != 0
      invariant |codeBitIndex| <= |bitvec| <= goal
      invariant bitvec == codeBitIndex + seq(|bitvec| - |codeBitIndex|, _ => 0)
      decreases goal - |bitvec|
    {
      bitvec := bitvec + [0];
    }
  }

  /**
   * The indexed stream holds the index stream of the values, then nothing
   * but zeros.
   */
  ghost predicate IndexOf(src: seq<bool>, vs: seq<nat>)
  {
    |IndexStream(vs)| <= |src| && src[..|IndexStream(vs)|] == IndexStream(vs)
    && forall p | |IndexStream(vs)| <= p < |src| :: !src[p]
  }

  /** Padding with zero bytes keeps the index stream and adds no ones. */
  lemma PaddedIndex(codeBitIndex: seq<nat>, len: nat, vs: seq<nat>, bitvec: seq<nat>)
    requires Written(codeBitIndex, len, IndexStream(vs))
    requires |codeBitIndex| <= |bitvec| && bitvec == codeBitIndex + seq(|bitvec| - |codeBitIndex|, _ => 0)
    ensures Bytes(bitvec) && IndexOf(ByteStream(bitvec), vs)
  {
    var s := ByteStream(bitvec);
    var c := ByteStream(codeBitIndex);
    forall p | 0 <= p < |s|
      ensures s[p] == (p < 8 * |codeBitIndex| && c[p])
    {
      if p >= 8 * |codeBitIndex| {
        BitZero(p % 8);
      } else {
        assert bitvec[p / 8] == codeBitIndex[p / 8];
      }
    }
    PrefixAgree(s, c, len);
  }

  /** Two streams that agree below len have the same first len elements. */
  lemma PrefixAgree(s: seq<bool>, c: seq<bool>, len: nat)
    requires len <= |s| && len <= |c| && forall p | 0 <= p < len :: s[p] == c[p]
    ensures s[..len] == c[..len]
  {
  }

  /** Selecting in the indexed stream finds where each codeword starts. */
  lemma IndexSelect(src: seq<bool>, vs: seq<nat>, i: nat)
    requires IndexOf(src, vs)
    ensures Ones(src) == |vs|
    ensures i < |vs| ==> Select(src, i) == Start(vs, i)
  {
    var len := |IndexStream(vs)|;
    assert src == src[..len] + src[len..];
    OnesNone(src[len..]);
    OnesAppend(src[..len], src[len..]);
    if i < |vs| {
      SelectMarker(vs, i);
      SelectPrefix(src, len, i);
    }
  }

  /** No more than 542 positions per one: the width of the low parts stays under 10. */
  lemma NarrowLowParts(n: nat, m: nat)
    requires 1 <= m <= n <= 542 * m
    ensures LowWidth(n, m) < 10
  {
    Inventories.DivAtLeast(n, m, 543);
    assert Pow2(10) == 1024;
    if LowWidth(n, m) >= 10 {
      Pow2Le(10, LowWidth(n, m));
    }
  }

  /** The most values a store takes: its bit counts stay far inside 64 bits. */
  const MaxElements: nat := 0x0100_0000_0000_0000

  /**
   * The values whose index vector, padded, has no zero for the `SArray` to
   * index (the `SArray` constructor exits on it): every value 0 or 1, and a
   * multiple of 512 of them.
   */
  ghost predicate AllOnesIndex(vs: seq<nat>)
  {
    |vs| % 512 == 0 && forall i | 0 <= i < |vs| :: vs[i] <= 1
  }

  /**
   * The padded index vector has ones exactly where codewords start, is small
   * enough for the `SArray`, and is all ones exactly on `AllOnesIndex`.
   */
  lemma IndexVector(codeBitIndex: seq<nat>, numBits2: nat, vs: seq<nat>, bitvec: seq<nat>)
    requires 1 <= |vs| < MaxElements && forall i | 0 <= i < |vs| :: vs[i] <= MaxValue
    requires Written(codeBitIndex, numBits2, IndexStream(vs))
    requires |bitvec| % 64 == 0 && |codeBitIndex| <= |bitvec| < |codeBitIndex| + 64
    requires bitvec == codeBitIndex + seq(|bitvec| - |codeBitIndex|, _ => 0)
    ensures Bytes(bitvec) && IndexOf(ByteStream(bitvec), vs) && Ones(ByteStream(bitvec)) == |vs|
    ensures 1 <= |vs| <= 8 * |bitvec| && 16 * |bitvec| < Npos && LowWidth(8 * |bitvec|, |vs|) <= 30
    ensures |vs| == 8 * |bitvec| <==> AllOnesIndex(vs)
  {
    PaddedIndex(codeBitIndex, numBits2, vs, bitvec);
    IndexSelect(ByteStream(bitvec), vs, 0);
    CodeStreamLength(vs);
    assert |codeBitIndex| == (numBits2 + 7) / 8;
    IndexSizes(|vs|, numBits2, |codeBitIndex|, |bitvec|);
  }

  /**
   * The sizes behind `IndexVector`: n values take `len` bits, one to 30
   * each, in c bytes padded to b.
   */
  lemma IndexSizes(n: nat, len: nat, c: nat, b: nat)
    requires 1 <= n <= len <= 30 * n && n < MaxElements
    requires c == (len + 7) / 8 && b % 64 == 0 && c <= b < c + 64
    ensures n <= 8 * b && 16 * b < Npos && LowWidth(8 * b, n) <= 30
    ensures n == 8 * b <==> n == len && len % 512 == 0
  {
    NarrowLowParts(8 * b, n);
    PaddedLength(len, c, b);
  }

  /**
   * A vector of `len` bits, `( len + 7 ) / 8` bytes, padded to whole
   * 64-byte blocks, has no padding bit exactly when `len` is a multiple of 512.
   */
  lemma PaddedLength(len: nat, c: nat, b: nat)
    requires 1 <= len && c == (len + 7) / 8 && b % 64 == 0 && c <= b < c + 64
    ensures len == 8 * b <==> len % 512 == 0
  {
    var m := b / 64;
    assert b == 64 * m;
    if len % 512 == 0 {
      var k := len / 512;
      assert len == 512 * k;
      assert c == 64 * k;
      assert m == k;
    }
  }

  /** `CompressedValueStore`: the code vector and the `SArray` over the index vector. */
  class CompressedValueStore {
    const numElementsStored: nat
    /** The codewords, eight bits to a byte from bit 0 of byte 0 up. */
    const codeVector: seq<nat>
    const bitsInCodeVector: nat
    /** The `SArray` over the padded index vector. */
    const ss: SArray
    /** The values stored. */
    ghost const Values: seq<nat>

    ghost predicate Valid()
      reads ss.darray.bitArray, ss.lowStore.bitArray
    {
      ss.Valid() && numElementsStored == |Values|
      && (forall i | 0 <= i < |Values| :: Values[i] <= MaxValue)
      && bitsInCodeVector <= 8 * |codeVector| && ByteStream(codeVector)[..bitsInCodeVector] == CodeStream(Values)
      && IndexOf(ss.Source, Values)
    }

    /**
     * `CompressedValueStore( value_array, num_elements )`: encode the first
     * `num_elements` values, pad the index vector to whole 64-byte blocks
     * and index it.
     */
    constructor (valueArray: seq<nat>, numElements: nat)
      requires 1 <= numElements <= |valueArray| && numElements < MaxElements
      requires forall i | 0 <= i < numElements :: valueArray[i] <= MaxValue
      requires !AllOnesIndex(valueArray[..numElements])
      ensures Valid() && Values == valueArray[..numElements]
      ensures fresh(ss.darray.bitArray) && fresh(ss.lowStore.bitArray)
    {
      ghost var vs := valueArray[..numElements];
      var cv, numBits1, codeBitIndex, numBits2 := Encode(valueArray, numElements);
      var bitvec := PadToWords(codeBitIndex);
      IndexVector(codeBitIndex, numBits2, vs, bitvec);
      var index := new SArray(bitvec);
      numElementsStored := numElements;
      codeVector := cv;
      bitsInCodeVector := numBits1;
      ss := index;
      Values := vs;
    }

    /**
     * `at( index )`: the codeword between the starts of values index and
     * index + 1 (or the end of the code vector), decoded; -1 as an unsigned
     * word past the last value.
     */
    method At(index: nat) returns (r: nat)
      requires Valid()
      ensures index < numElementsStored ==> r == Values[index]
      ensures numElementsStored <= index ==> r == WordMod - 1
    {
      if index >= numElementsStored {
        return WordMod - 1;
      }
      var index1, index2 := Bounds(index);
      r := Fetch(codeVector, bitsInCodeVector, Values, index, index1, index2);
    }

    /**
     * `index1 = ss->select( index )`, and `index2` the start of the next
     * value, or `bits_in_code_vector` after the last.
     */
    method Bounds(index: nat) returns (index1: nat, index2: nat)
      requires Valid() && index < numElementsStored
      ensures index1 == Start(Values, index) && index2 == Start(Values, index + 1)
    {
      IndexSelect(ss.Source, Values, index);
      index1 := ss.Select(index);
      if index + 1 < numElementsStored {
        IndexSelect(ss.Source, Values, index + 1);
        index2 := ss.Select(index + 1);
      } else {
        assert index + 1 == |Values|;
        StartAll(Values);
        index2 := bitsInCodeVector;
      }
    }
  }

  /** The rest of `at`: read the bits from `index1` to `index2` and decode them. */
  method Fetch(codeVector: seq<nat>, bits: nat, ghost vs: seq<nat>, ghost i: nat, index1: nat, index2: nat)
    returns (r: nat)
    requires bits <= 8 * |codeVector| && ByteStream(codeVector)[..bits] == CodeStream(vs)
    requires i < |vs| && vs[i] <= MaxValue && index1 == Start(vs, i) && index2 == Start(vs, i + 1)
    ensures r == vs[i]
  {
    DecodeAt(codeVector, bits, vs, i, index1, index2);
    var length := index2 - index1;
    var compressedCode := ReadCode(codeVector, index1, index2);
    ghost var code := ByteStream(codeVector)[index1..index2];
    assert |code| == length && compressedCode == MsbFirst(code);
    r := compressedCode + Pow2(length) - 2;
    assert r == Decode(code);
  }

  /** The bits between the starts of values i and i + 1 decode to value i. */
  lemma DecodeAt(codeVector: seq<nat>, bits: nat, vs: seq<nat>, i: nat, index1: nat, index2: nat)
    requires bits <= 8 * |codeVector| && ByteStream(codeVector)[..bits] == CodeStream(vs)
    requires i < |vs| && vs[i] <= MaxValue && index1 == Start(vs, i) && index2 == Start(vs, i + 1)
    ensures 1 <= index2 - index1 <= 30 && index2 <= bits
    ensures Decode(ByteStream(codeVector)[index1..index2]) == vs[i]
  {
    CodewordAt(vs, i);
    CodeLenBound(vs[i]);
    SliceOfPrefix(ByteStream(codeVector), bits, index1, index2);
    DecodeCodeword(vs[i]);
  }

  /** A slice of a prefix is a slice of the whole. */
  lemma SliceOfPrefix<T>(s: seq<T>, n: nat, i: nat, j: nat)
    requires i <= j <= n <= |s|
    ensures s[..n][i..j] == s[i..j]
  {
  }

  /**
   * The loop of `at`: shift in the bits from `index1` up to `index2`, bit
   * `index1 & 7` of byte `index1 >> 3` each.
   */
  method ReadCode(codeVector: seq<nat>, index1: nat, index2: nat) returns (compressedCode: nat)
    requires index1 <= index2 <= 8 * |codeVector| && index2 - index1 < W
    ensures compressedCode == MsbFirst(ByteStream(codeVector)[index1..index2])
  {
    ghost var code := ByteStream(codeVector)[index1..index2];
    compressedCode := 0;
    var i: nat := index1;
    while i < index2
      invariant index1 <= i <= index2
      invariant compressedCode == MsbFirst(code[..i - index1])
    {
      ByteAddress(i);
      var blockNum := ShiftRight(i, 3);
      var m := And(i, 7);
      assert code[i - index1] == Bit(codeVector[blockNum], m);
      MsbFirstSnoc(code, i - index1);
      AppendBit(compressedCode, code[i - index1], i - index1);
      AndPow2(codeVector[blockNum], m);
      ghost var prev := compressedCode;
      compressedCode := ShiftLeft(compressedCode, 1, W);
      if And(codeVector[blockNum], Pow2(m)) != 0 {
        compressedCode := Or(compressedCode, 1);
      } else {
        assert Or(compressedCode, 0) == compressedCode;
      }
      assert compressedCode == 2 * prev + (if code[i - index1] then 1 else 0);
      i := i + 1;
    }
    assert code[..index2 - index1] == code;
  }

  // ---------------------------------------------------------------------
  // The guard of `at`, as written
  // ---------------------------------------------------------------------

  /** `at` as written answers -1 only when `index > num_elements_stored`. */
  predicate RejectedAsWritten(index: nat, numElementsStored: nat)
  {
    index > numElementsStored
  }

  /**
   * The index `num_elements_stored` passes that guard, yet the index vector
   * holds exactly `num_elements_stored` ones, numbered from 0: no one has
   * that rank, so `ss->select( index )` is asked for a one that is not
   * there, outside what `SArray::select` answers (`SArrays.SArray.Select`).
   */
  lemma EndPassesGuard(store: CompressedValueStore)
    requires store.Valid()
    ensures !RejectedAsWritten(store.numElementsStored, store.numElementsStored)
    ensures Ones(store.ss.Source) == store.numElementsStored
    ensures forall p | 0 <= p < |store.ss.Source| && store.ss.Source[p] :: Rank(store.ss.Source, p) < store.numElementsStored
  {
    var s := store.ss.Source;
    IndexSelect(s, store.Values, 0);
    forall p | 0 <= p < |s| && s[p]
      ensures Rank(s, p) < store.numElementsStored
    {
      RankStep(s, p);
      RankMono(s, p + 1, |s|);
      RankAll(s);
    }
  }
}
