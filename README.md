# ShefLM succinct n-gram count store, modelled in Dafny

ShefLM stores a map from n-gram keys to occurrence counts in very little
memory. A minimal perfect hash sends each key to a slot. A
`FingerPrintStore` keeps a few hash bits of the key in that slot, and a
compressed rank store keeps the index of the key's count in a table of
distinct counts. A query checks the fingerprint, decodes the rank and looks
up the count.

The compressed stores are built from succinct data structures:

- bit containers: `ShefBitArray`, `CompactStore`, and the `set_bits` /
  `get_bits` word helpers of `elias_fano.h`;
- select indexes, which find the k-th one of a bit vector:
  - the `DArray`/`SArray` of Okanohara and Sadakane;
  - Vigna's `simple_select`, `simple_select_zero_half` and `elias_fano`;
  - `simple_select11`, which finds the k-th non-overlapping "11" pair;
- two codes for rank streams:
  - `CompressedValueStore`, a gamma-like code whose length markers sit in a
    parallel bit stream indexed by an `SArray`;
  - `CompressedValueStoreFibonacci`, a Zeckendorf code closed by "11" and
    indexed by `simple_select11`.

The model follows the C++ class by class:

- A class whose state changes in place (`ShefBitArray`, `CompactStore` over
  its bitset, `FingerPrintStore`) is a Dafny class. Its methods state the
  new state in terms of a view of the bits.
- An index built once and then queried (`DArray`, `SArray`, `elias_fano`,
  `simple_select`, `simple_select_zero_half`, `simple_select11`, both value
  stores, `FingerPrintValueStore`, `MPHR`) is a class with constant fields.
  Its constructor runs the source's construction loops as methods over
  arrays and sequences. Each query method is proved equal to a
  specification function on the indexed bit stream:
  - `Streams.Select(s, k)` is the position of the k-th one;
  - `Streams.Rank(s, i)` is the number of ones before i;
  - the value stores' queries are proved to return the stored value.
- The word helpers copied across the Sux-derived headers (`count`, `msb`,
  `select_in_word`, `ceil_log2`) are modelled once, in module `Broadword`.
- Machine words are naturals below 2^64. Bit operations are defined bit by
  bit in module `Bits`. Bit streams are `seq<bool>`, read in the order each
  structure uses:
  - for `ShefBitArray`, the bit `bit_mask` selects: bit 0 for the first
    position of a word, then bits 63 down to 1;
  - least significant first for the `uint64_t` vectors;
  - bit `pos & 7` of byte `pos >> 3` for the byte vectors.

Files, one module each:

| File | Module | Models |
|---|---|---|
| `bits.dfy` | `Bits` | word arithmetic |
| `streams.dfy` | `Streams` | rank, select and the stream views |
| `broadword.dfy` | `Broadword` | the word helpers |
| `shefbitarray.dfy` | | `ShefBitArray` |
| `compactstore.dfy` | | `CompactStore` and the bitset it shares |
| `eliasfanobits.dfy` | | `set`/`set_bits`/`get_bits` |
| `eliasfano.dfy` | | `elias_fano` |
| `sarray.dfy` | | `SelectTable`, `DArray`, `SArray` |
| `inventory.dfy`, `subinventory.dfy`, `fill.dfy`, `wordscan.dfy` | | the inventory, sub-inventory and spill layout, and the word-by-word residual scan, shared by the three Vigna-style indexes |
| `simpleselect.dfy` | | `simple_select` |
| `zerohalf.dfy` | | `simple_select_zero_half` |
| `select11.dfy` | | `simple_select11` |
| `cvstore.dfy` | | `CompressedValueStore` |
| `codewords.dfy`, `zeckendorf.dfy`, `fibstore.dfy` | | `CompressedValueStoreFibonacci` |
| `fingerprint.dfy` | | `FingerPrintStore`, `FingerPrintValueStore`, MurmurHash2 |
| `mphr.dfy` | | the `MPHR` build passes and `query` |

## Model

| member | source | states |
|---|---|---|
| Broadword.Count | src/elias_fano.h:94-99 | `count(x)` is the number of set bits of the word, at most 64 (the same function is copied at src/simple_select.h:41-46, src/simple_select_half.h:47-52, src/rank9sel.h:36-41 and src/cmph_0_9/simple_select_zero_half.h:47-52) |
| Broadword.PopCountBits | src/rank9sel.h:36-41 | the popcount of a number equals the number of ones among its low n bits |
| Broadword.FloorLog2 | src/simple_select.cpp:47-52 | the floor of log2 of a positive number: 2^r <= y < 2^(r+1) |
| Broadword.FloorLog2Unique | src/simple_select.cpp:47-52 | any m with 2^m <= y < 2^(m+1) is the floor log2, so the bound characterises it |
| Broadword.Msb | src/elias_fano.h:57-86 | `msb(0) == -1`; for x > 0 the result r lies in [0, 63] and 2^r <= x < 2^(r+1) (copies at src/simple_select.h:48-77, src/simple_select11.h:59-88, src/simple_select_half.h:84-113) |
| Broadword.MsbHalvings | src/simple_select11.h:59-88 | the two halving steps of `msb` (by 32, then by 16) add their shift to the floor log2 of what remains |
| Broadword.MsbStep | src/simple_select.h:48-77 | one halving step either shifts by s (when x >= 2^s), adding s to the floor log2, or leaves x alone |
| Broadword.FloorLog2Shift | src/simple_select_half.h:84-113 | dropping s low bits of a number of at least 2^s lowers its floor log2 by exactly s |
| Broadword.CeilLog2 | src/elias_fano.h:89-91 | `ceil_log2(x)` is the least r with x <= 2^r for x >= 1; for x == 0 the unsigned subtraction wraps and the result is 64 |
| Broadword.CeilLog2Wrap | src/elias_fano.h:89-91 | `msb(0 - 1)` on a 64-bit word is 63, which makes `ceil_log2(0)` equal 64 |
| Broadword.SelectInWord | src/simple_select_half.h:54-82 | for k < count(x) the result is a set bit of x with exactly k set bits below it; otherwise it is the documented 72 (copy at src/cmph_0_9/simple_select_zero_half.h:54-82) |
| Broadword.SelectInWordByBytes | src/rank9sel.h:43-77 | the `SELPOPCOUNT` variant agrees with `select_in_word` when the k-th set bit exists and returns -1 when it does not |
| Broadword.SelectInByte | src/rank9sel.h:48-55 | the bit scan inside the byte found by the popcount skip returns the (rank-before-byte + c)-th set bit of the word |
| Broadword.BytePopCount | src/rank9sel.h:48-55 | the byte popcount table entry for byte i of x counts the ones in bits [i, i + 8) of x |
| Broadword.ByteOnes | src/rank9sel.h:48-55 | the popcount of a byte of x equals the ones in the matching eight-bit window of x |
| ShefBitArrays.WordArrayLength | src/ShefBitArray.h:57-60 | n bits take n/64 words, plus one for a partial word: n <= 64r < n + 64 |
| ShefBitArrays.ShefBitArray.constructor | src/ShefBitArray.h:57-60 | a new array has that many words, all zero, so every bit reads false |
| ShefBitArrays.ShefBitArray.Size | src/ShefBitArray.h:102-110 | `size()` is the capacity in bits, a whole number of words, not the requested bit count |
| ShefBitArrays.ShefBitArray.GetBit | src/ShefBitArray.h:71-73 | `getbit(pos)` is the bit at position pos of the view, that is bit (64 - pos%64) % 64 of word pos/64, the bit `bit_mask(pos)` selects |
| ShefBitArrays.ShefBitArray.Test | src/ShefBitArray.h:75-77 | `test(pos)` answers exactly as `getbit(pos)`, hence the bit at position pos |
| ShefBitArrays.ShefBitArray.SetBit | src/ShefBitArray.h:62-69 | after `setbit(pos, val)` position pos holds val and every other position is unchanged |
| ShefBitArrays.ShefBitArray.Set | src/ShefBitArray.h:78-81 | `set` changes the bits exactly as `setbit` |
| ShefBitArrays.BitMask | src/ShefBitArray.h:46-49 | `bit_mask(pos)`, `1 << (64 - pos%64)` with the count taken modulo 64, is a word with exactly one set bit, bit (64 - pos%64) % 64 |
| ShefBitArrays.SlotsDistinct | src/ShefBitArray.h:46-49 | two positions of the same word get the same mask bit exactly when they are equal, so no position shares its bit |
| ShefBitArrays.UpdateView | src/ShefBitArray.h:62-69 | replacing one word by a word that differs only at pos's bit changes the bit view at pos only |
| ShefBitArrays.ShefBitArray.SetRange | src/ShefBitArray.h:83-91 | with the corrected 64-bit mask (see Findings), `set_range(value, start, length)` writes the low `length` bits of value, most significant first, over positions [start·length, (start+1)·length) and leaves all others unchanged |
| ShefBitArrays.ShefBitArray.SetRangeAsWritten | src/ShefBitArray.h:83-91 | `set_range` as written, with the `int` mask `1 << (length-1)` widened to 64 bits: positions [start·length, (start+1)·length) receive the bits the loop tests against that mask, all others are unchanged |
| ShefBitArrays.ShefBitArray.WriteField | src/ShefBitArray.h:85-89 | for any mask, the bit loop of `set_range` sets position offset+i to whether `value << i` meets the mask, for i < length, and changes nothing else |
| ShefBitArrays.ShefBitArray.GetRange | src/ShefBitArray.h:93-100 | `get_range(start, length)` is the element's bits read most significant first |
| ShefBitArrays.ShefBitArray.ReadField | src/ShefBitArray.h:93-100 | the bit loop of `get_range` accumulates the field's bits most significant first |
| ShefBitArrays.RangeRoundTrip | src/ShefBitArray.h:83-100 | with the corrected mask, reading an element just written with `set_range` yields the value modulo 2^length, so exactly the value when it fits, for every length up to 64 |
| ShefBitArrays.RangeRoundTripAsWritten | src/ShefBitArray.h:83-100 | with the mask as written the round trip holds for lengths 1 to 31 |
| ShefBitArrays.RangeWidth32Counterexample | src/ShefBitArray.h:84 | with the mask as written, `set_range(2^31, start, 32)` reads back as 2^32 - 1, not 2^31 |
| CompactStores.DynamicBitset.constructor | src/CompactStore.h:50-53 | the shared `dynamic_bitset(n)` starts as n cleared bits |
| CompactStores.DynamicBitset.Set | src/CompactStore.h:89-93 | `set(pos, val)` changes position pos only |
| CompactStores.DynamicBitset.FindNext | src/SArray.h:232-234 | `find_next(pos)` is the first set position after pos, or npos when there is none |
| CompactStores.FirstSetFrom | src/SArray.h:232-234 | the first set position at or after `from`, with nothing set in between, or npos |
| CompactStores.CompactStore.constructor | src/CompactStore.h:50-53 | the store keeps the caller's bitset and the element width |
| CompactStores.CompactStore.GetBit | src/CompactStore.h:86-88 | `getbit` reads the shared bitset at pos |
| CompactStores.CompactStore.Get | src/CompactStore.h:59-66 | `operator[](p)` is the element at bits [p·w, p·w + w) read most significant first, below 2^w |
| CompactStores.CompactStore.ReadField | src/CompactStore.h:59-66 | the loop of `operator[]` accumulates the w bits from `offset` most significant first |
| CompactStores.CompactStore.At | src/CompactStore.h:68-70 | `at(p)` answers exactly as `operator[]`, with no bounds check |
| CompactStores.CompactStore.SetBit | src/CompactStore.h:89-93 | `setbit` changes one position of the shared bitset |
| CompactStores.CompactStore.Set | src/CompactStore.h:76-84 | `set(p, v)` replaces bits [p·w, p·w + w) by the low w bits of v, most significant first, and nothing else (with the corrected mask, see Findings) |
| CompactStores.CompactStore.WriteField | src/CompactStore.h:78-82 | the loop of `set` writes the field from `offset` and leaves every other bit as it was |
| CompactStores.SetThenGet | src/CompactStore.h:59-84 | after `set(p, v)`, element p reads back as v mod 2^w |
| CompactStores.SetKeepsOthers | src/CompactStore.h:78-82 | `set(p, v)` leaves every other element q != p unchanged |
| CompactStores.AsWrittenBelow32 | src/CompactStore.h:77 | for widths below 32 the `int` mask as written stores the same bits as the intended mask |
| CompactStores.SignExtendedFillsField | src/CompactStore.h:77 | at width j + 1 with the sign-extended mask, the value 2^j is stored as j + 1 ones |
| CompactStores.Width32Counterexample | src/CompactStore.h:77 | at width 32, storing 2^31 writes 32 ones and reads back as 2^32 - 1 |
| CompactStores.Width33Counterexample | src/CompactStore.h:77 | at width 33 the mask as written is 1, so storing 2^32 writes 33 zeros and reads back as 0 |
| CompactStores.TopMaskStoresField | src/CompactStore.h:77-82 | with the 64-bit mask `1 << (w-1)` the loop of `set` stores exactly the w-bit field of v, most significant first |
| EliasFanoBits.SetInWord | src/elias_fano.h:101-103 | OR-ing in `1 << k` sets bit k and keeps every other bit |
| EliasFanoBits.Set | src/elias_fano.h:101-103 | `set(bits, pos)` sets bit pos%64 of word pos/64 and changes nothing else in the stream |
| EliasFanoBits.SetBits | src/elias_fano.h:105-121 | `set_bits(bits, start, width, value)` replaces stream bits [start, start + width) by the low width bits of value, least significant first, also when the field spans two words, and changes nothing else |
| EliasFanoBits.InWordBit | src/elias_fano.h:112-114 | the one-word path puts bit k - sb of value at every k in [sb, sb + width) and keeps the other bits |
| EliasFanoBits.LowWordBit | src/elias_fano.h:116-117 | the first word of the two-word path receives the value's low bits from sb upwards |
| EliasFanoBits.HighWordBit | src/elias_fano.h:118-119 | the second word of the two-word path receives the value's remaining bits in its low positions |
| EliasFanoBits.EndWord | src/elias_fano.h:127 | `end_word` is the word holding the field's last bit; at width 0 the `- 1` wraps and it differs from the start word exactly at word starts |
| EliasFanoBits.GetBitsField | src/elias_fano.h:123-130 | for 0 < width < 64 `get_bits` is below 2^width and its bits are the stream slice [start, start + width) |
| EliasFanoBits.TwoWordsBit | src/elias_fano.h:129 | the two-word read takes its first 64 - sb bits from the first word and the rest from the next |
| EliasFanoBits.GetBitsWidthZero | src/elias_fano.h:125-130 | the documented bogus width-0 read: the whole word at a word start, 0 elsewhere |
| EliasFanoBits.GetAfterSet | src/elias_fano.h:105-130 | `get_bits` after `set_bits` with a value below 2^width returns the value |
| EliasFanoBits.FieldRead | src/elias_fano.h:123-130 | a stream whose slice spells value's bits reads back as value |
| EliasFano.LowerWidth | src/cmph_0_9/elias_fano.cpp:37 | l is 0 without ones, else `msb(num_bits / num_ones)`, always below 64 |
| EliasFano.LowerWidthIsFloorLog2 | src/cmph_0_9/elias_fano.cpp:37 | l is the floor log2 of n/m, the same width `SArray` uses, so 2^l <= n/m |
| EliasFano.LowerFits | src/cmph_0_9/elias_fano.cpp:46 | the lower fields take m·l <= n bits |
| EliasFano.CountOnes | src/cmph_0_9/elias_fano.cpp:34 | the counting loop finds the number of ones in the first words |
| EliasFano.Measure | src/cmph_0_9/elias_fano.cpp:32-37 | the constructor's first phase: m is the number of ones among the first num_bits bits and l is its lower width |
| EliasFano.Allocate | src/cmph_0_9/elias_fano.cpp:44-48 | the lower array holds m·l bits, plus the two spare zero words when l == 0; the upper array holds m + (n >> l) bits plus one spare; both start cleared |
| EliasFano.PlaceLower | src/cmph_0_9/elias_fano.cpp:53 | the k-th one's lower field becomes its position mod 2^l, earlier fields are kept |
| EliasFano.PlaceUpper | src/cmph_0_9/elias_fano.cpp:54 | the k-th one sets upper bit (p >> l) + k and the upper stream marks exactly the first k + 1 such bits |
| EliasFano.PlaceOne | src/cmph_0_9/elias_fano.cpp:52-55 | at a one, its low l bits become lower field k and its upper bit is marked, so the first k + 1 ones are placed |
| EliasFano.PlaceStep | src/cmph_0_9/elias_fano.cpp:50-57 | one step of the fill loop keeps the placed prefix consistent |
| EliasFano.PlaceAll | src/cmph_0_9/elias_fano.cpp:50-57 | the fill loop places every one of the stream |
| EliasFano.BuildHalves | src/cmph_0_9/elias_fano.cpp:44-57 | the constructor's arrays hold every one's lower field and upper mark |
| EliasFano.BlockSize | src/cmph_0_9/elias_fano.cpp:67-69 | `block_size` is the largest b with b·l + b <= 64 and b <= l |
| EliasFano.EliasFano.constructor | src/cmph_0_9/elias_fano.cpp:31-108 | the index is built over the first num_bits bits of the word vector, with the array sizes above |
| EliasFano.EliasFano.Select | src/cmph_0_9/elias_fano.cpp:199-207 | `select(r)` is the position of the r-th (0-based) one of the indexed bits |
| EliasFano.LowerRead | src/cmph_0_9/elias_fano.cpp:206 | the r-th lower field read with `get_bits` is the r-th one's position mod 2^l |
| EliasFano.Assemble | src/cmph_0_9/elias_fano.cpp:206 | `(high - r) << l \| low` rebuilds the position from its upper and lower parts |
| SArrays.SelectTable.constructor | src/SArray.h:59-74 | `SelectTable[(i << 8) + x]` is i when bit 7 - i of byte x is set and -1 otherwise, for every i < 8 and byte x |
| SArrays.FillColumn | src/SArray.h:63-70 | filling byte x sets all eight of its entries and leaves the other bytes' entries alone |
| SArrays.ClearColumn | src/SArray.h:63-64 | the first loop sets byte x's entries to -1 |
| SArrays.MarkColumn | src/SArray.h:65-70 | the second loop records i at every set bit of byte x |
| SArrays.NumBlocks | src/SArray.h:149 | the number of 1024-ones blocks covers all m ones and no block is empty |
| SArrays.BlockLast | src/SArray.h:160-164 | a block's last one lies inside the block and below m |
| SArrays.OnePositions | src/SArray.h:140-147 | the position list holds every one of the bitset in order |
| SArrays.SelectIncreasing | src/SArray.h:140-147 | the positions of the ones are strictly increasing |
| SArrays.FillLong | src/SArray.h:167-172 | a long block stores every one's absolute position in `s_long` and keeps earlier entries |
| SArrays.FillShort | src/SArray.h:177-183 | a short block stores every 64th one's offset from the block's first one in `s_short` |
| SArrays.PassBlock | src/SArray.h:159-188 | one block classifies as long iff last - first >= 65536 and gets `pvec = -(count·1024 + 1)` or `count·16` |
| SArrays.BlockPass | src/SArray.h:155-195 | the sizing pass (r = 0) and the filling pass (r = 1) give the same headers and counts, and only the filling pass writes entries |
| SArrays.BlockOfOne | src/SArray.h:208-224 | the k-th one lies in block k/1024 and its sampled one is 64-aligned within the block |
| SArrays.DArray.constructor | src/SArray.h:130-196 | the tables built describe every block of the bitset |
| SArrays.DArray.Select | src/SArray.h:198-239 | `select(0)` is -1 as an unsigned word; for 1 <= k <= m `select(k)` is the k-th (1-based) one, on both block kinds |
| SArrays.DArray.SelectLong | src/SArray.h:209-213 | the long-block path reads the position straight from `s_long` |
| SArrays.DArray.SelectShort | src/SArray.h:214-235 | the short-block path starts at the sampled one and steps `find_next` the remaining times |
| SArrays.LongLookup | src/SArray.h:209-213 | `s_long[il + offset]` holds the k-th one |
| SArrays.ShortLookup | src/SArray.h:216-224 | the block's first one plus the stored offset is the sampled one |
| SArrays.WalkOnes | src/SArray.h:228-234 | stepping `find_next` from the r-th one reaches the (r + steps)-th |
| SArrays.FindNextSelect | src/SArray.h:232-234 | `find_next` after the r-th one is the (r + 1)-th one |
| SArrays.GetBit | src/SArray.h:270-273 | `getbit` reads bit pos % 8 of byte pos / 8, least significant first |
| SArrays.CountBits | src/SArray.h:279-281 | the counting loop finds the number of ones of the byte vector |
| SArrays.HighMarksFit | src/SArray.h:302-318 | the high marks (p >> l) + j are strictly increasing and below m + (n >> l) |
| SArrays.HighSelect | src/SArray.h:331-334 | the j-th one of the high bitmap is at (p_j >> l) + j, where p_j is the j-th one of the source |
| SArrays.Recombine | src/SArray.h:334-338 | shifting the high part back and adding the low bits rebuilds any position |
| SArrays.PlaceHigh | src/SArray.h:314 | the k-th one sets its high mark in the bitmap |
| SArrays.PlaceLow | src/SArray.h:315 | the k-th one's low bits go to element k of the low store |
| SArrays.FillParts | src/SArray.h:311-318 | the fill loop records every one's high mark and low part |
| SArrays.FillStep | src/SArray.h:312-317 | one round of the fill loop at position i keeps the high marks and low parts filled for exactly the ones before i + 1 |
| SArrays.BuildParts | src/SArray.h:277-318 | the constructor's bitmap and low store describe the byte vector with l = floor(log2(n / m)) |
| SArrays.SArray.constructor | src/SArray.h:277-324 | the index is built over the byte vector read least significant bit first |
| SArrays.SArray.Select | src/SArray.h:329-342 | `select(j)` is the j-th (0-based) one; for j = 2^64 - 1 the incremented index wraps to 0 and the answer is -1 |
| SArrays.Build | src/SArray.h:277-324 | construction gives up (the source exits) exactly when every bit is set, and otherwise indexes the vector |
| Inventories.MarksOf | src/simple_select11.cpp:56-72 | the bits each index counts: the ones, the zeros, or the second bit of each non-overlapping "11" pair |
| Inventories.NextMarkIs | src/simple_select11.cpp:56-72 | the scan's `firstone` flag and mark agree with the pairing of the whole stream |
| Inventories.PairClosed | src/simple_select11.cpp:63-71 | after a counted pair the flag is reset, so a run of k ones yields floor(k/2) pairs |
| Inventories.ScanStep | src/simple_select.cpp:61-68 | one bit of the counting scan advances the mark count by that bit's mark |
| Inventories.ScanMark | src/simple_select.cpp:64-66 | at a marked bit the counter d is its rank among the marks |
| Inventories.Derived | src/simple_select.cpp:75-82 | the geometry follows from `log2_ones_per_inventory`: 16-bit samples spaced to fit, 64-bit samples four times as far apart |
| Inventories.DerivedOk | src/simple_select.cpp:75-82 | the derived geometry is consistent: sub-sample spacings are powers of two that divide the block |
| Inventories.SubSamplesShared | src/simple_select.cpp:77-82 | with spills the sub-sample spacing exceeds 1, so the `ones_per_sub64 == 1` branch never runs |
| Inventories.BlockExists | src/simple_select.cpp:52 | block b exists iff b·2^l < number of marks |
| Inventories.BlocksAt | src/simple_select.cpp:65 | a new inventory entry starts exactly when the mark count is a multiple of 2^l |
| Inventories.InventoryStep | src/simple_select.cpp:65 | recording a sampled mark extends the inventory by its position |
| Inventories.InventoryPass | src/simple_select.cpp:56-71 | `inventory[k]` is the position of the (k·2^l)-th mark and `inventory[inventory_size]` is num_bits |
| Inventories.SampleLess | src/simple_select.cpp:61-71 | inventory entries are strictly increasing |
| Inventories.BlockOnes | src/simple_select.cpp:100 | each block holds between 1 and 2^l marks |
| Inventories.UnitsStep | src/simple_select.cpp:100-103 | a block's sub-inventory takes max(4, ones/2^s16) 16-bit units |
| Inventories.SpilledStep | src/simple_select.cpp:106-109 | a block of span at least 2^16 adds its ones to the spill count |
| Inventories.SizeStep | src/simple_select.cpp:91-114 | one sizing step keeps the unit and spill counts equal to those of the finished blocks |
| Inventories.SizingPass | src/simple_select.cpp:86-119 | the sizing pass totals the sub-inventory units and spilled entries over all blocks |
| Inventories.BlockStart | src/simple_select.cpp:133-134 | `(d & ones_per_inventory_mask) == 0` holds exactly when mark d opens a new block, and then `d >> log2_ones_per_inventory` is that block's index, whose first mark is d |
| Subinventories.UnitsAre | src/simple_select.cpp:102-103 | a block's unit count is the larger of 4 and its 16-bit sample count |
| Subinventories.InBlock | src/simple_select.cpp:133-143 | every mark of block b lies between its sample and the next |
| Subinventories.Offset | src/simple_select.cpp:147 | a mark's offset from its block's sample stays below the next sample |
| Subinventories.Current | src/simple_select.cpp:142-165 | the sub-inventory content of a block after j marks: 16-bit offsets for a short block, the spill start for a long one |
| Subinventories.CurrentFits | src/simple_select.cpp:118-147 | a block's sub-inventory content fits the units reserved for it |
| Subinventories.WordUnitsJoin | src/simple_select.cpp:159 | a 64-bit value written as four 16-bit units reads back as itself |
| Subinventories.SetTop | src/simple_select.cpp:158 | flagging an entry sets bit 63 and reads as a negative `int64_t` |
| Subinventories.ClearTop | src/simple_select.cpp:233 | clearing bit 63 recovers the position from flagged and unflagged entries |
| Subinventories.FlaggedNext | src/simple_select.cpp:158 | flagging block b changes only its inventory entry |
| SubinventoryFill.Store16 | src/simple_select.cpp:147 | a 16-bit store writes one unit, truncated to 16 bits |
| SubinventoryFill.Store64 | src/simple_select.cpp:159 | a 64-bit store writes four consecutive units |
| SubinventoryFill.Put | src/simple_select.cpp:163 | `exact_spill[at] = v` replaces entry at by v and keeps every other entry |
| SubinventoryFill.SubStart | src/simple_select.cpp:144 | `(d & ones_per_sub16_mask) == 0` holds exactly when mark j of its block is one of every 2^k-th, the marks whose offsets are sampled |
| SubinventoryFill.ShortMark | src/simple_select.cpp:142-148 | a mark of a short block at a 16-bit sample point stores its offset |
| SubinventoryFill.OffsetMark | src/simple_select_zero_half.cpp:113-118 | a mark of a long block at a 64-bit sample point stores its offset in four units |
| SubinventoryFill.SpillOpen | src/simple_select.cpp:157-160 | the first mark of a long block flags its entry and records the spill start |
| SubinventoryFill.SpillCopy | src/simple_select.cpp:161-163 | each mark of a long block is copied to `exact_spill` |
| SubinventoryFill.SpillMark | src/simple_select.cpp:155-164 | a long block's mark handling keeps units, spill and inventory consistent |
| SubinventoryFill.FlagEntry | src/simple_select.cpp:158 | flagging moves the inventory to the next flagged state |
| SubinventoryFill.OpenBlock | src/simple_select.cpp:133-140 | a new block starts with its span and an empty sub-inventory |
| SubinventoryFill.Locate | src/simple_select.cpp:133-140 | each mark either continues the current block or opens the next |
| SubinventoryFill.FlagOffsets | src/simple_select_zero_half.cpp:99 | with the corrected test span >= 2^16 (see Findings), a long block of an index that keeps 64-bit offsets has its entry flagged as `-inventory[i] - 1` and no other entry changes |
| SubinventoryFill.ShortStep | src/simple_select.cpp:142-148 | a mark of a short block leaves the sub-inventory holding the sampled offsets of every mark so far |
| SubinventoryFill.SpillStep | src/simple_select.cpp:155-164 | a mark of a long block that spills leaves units, spill and inventory holding every mark so far |
| SubinventoryFill.OffsetStep | src/simple_select_zero_half.cpp:113-118 | a mark of a long block that keeps offsets leaves the sub-inventory holding the sampled 64-bit offsets of every mark so far |
| SubinventoryFill.MarkStep | src/simple_select.cpp:142-165 | storing one mark keeps every store consistent |
| SubinventoryFill.FillMark | src/simple_select.cpp:130-168 | handling one mark keeps the fill loop's state consistent |
| SubinventoryFill.FillStep | src/simple_select.cpp:130-168 | one bit of the fill scan keeps the state consistent |
| SubinventoryFill.FillPass | src/simple_select.cpp:126-169 | after the fill scan every block's inventory, sub-inventory and spill entries are in place |
| SubinventoryFill.CapacityCovers | src/simple_select.cpp:118-121 | the sub-inventory allocated from the sizing pass covers every block's region |
| SubinventoryFill.SpillCovers | src/simple_select.cpp:118-121 | the spill array allocated from the sizing pass covers every long block's entries |
| SubinventoryFill.FilledAtEnd | src/simple_select.cpp:126-169 | at the end of the scan the filled state describes every block |
| WordScan.MarkWordBit | src/simple_select11.cpp:235-257 | the word each scan examines holds exactly the marks of the stream at those positions |
| WordScan.MarksOfPrefix | src/simple_select.cpp:253-286 | marking the whole words agrees with marking the first num_bits bits |
| WordScan.WindowRank | src/simple_select.cpp:253-286 | the ones of a masked word are the marks between the start position and the word's end |
| WordScan.FirstWindow | src/simple_select.cpp:255-256 | the first word is masked below the start position |
| WordScan.ScanFromSample | src/simple_select.cpp:253-286 | starting from a sample with the residual still to skip targets the k-th mark |
| WordScan.ScanWords | src/simple_select.cpp:253-286 | the residual scan over words, finished by `select_in_word`, returns the k-th mark's position |
| SimpleSelect.RatioBounds | src/simple_select.cpp:47 | the ones-per-inventory ratio lies in [1, 8192] |
| SimpleSelect.Log2PerInventory | src/simple_select.cpp:48-50 | `1ULL << msb(ratio)` rounds the ratio down to a power of two |
| SimpleSelect.Measure | src/simple_select.cpp:41-52 | the constructor counts the ones of the first num_bits bits and picks the inventory spacing |
| SimpleSelect.Passes | src/simple_select.cpp:56-169 | the inventory, sizing and fill passes index every one |
| SimpleSelect.FillParts | src/simple_select.cpp:86-169 | with more than one one per inventory entry, the sizing pass, the allocation of `subinventory` and `exact_spill` (modelled zeroed, see Left out) and the fill pass leave every block's sub-inventory and spill entries in place |
| SimpleSelect.Zeroed | src/simple_select.cpp:120-121 | `new uint64_t[k]` gives a fresh array of k entries, modelled as all zero |
| SimpleSelect.Build | src/simple_select.cpp:36-174 | the three arrays built describe the ones of the stream |
| SimpleSelect.SampledHit | src/simple_select.cpp:233 | a rank at a block start is answered by the inventory entry with bit 63 cleared |
| SimpleSelect.EntrySign | src/simple_select.cpp:158 | an inventory entry is negative iff its block is long; otherwise it is the sample position |
| SimpleSelect.ShortHit | src/simple_select.cpp:238-240 | in a short block the sample plus the 16-bit offset is the ones' sub-sample |
| SimpleSelect.SpillSlot | src/simple_select.cpp:244-245 | in a long block `exact_spill[start + subrank]` is the wanted one |
| SimpleSelect.SampledOf | src/simple_select.cpp:233 | the sampled entry for a block-aligned rank decodes to that rank's one |
| SimpleSelect.ShortOf | src/simple_select.cpp:238-241 | the short path's start is the one at the sub-sampled rank |
| SimpleSelect.LongOf | src/simple_select.cpp:242-246 | the long path's spill entry is the wanted one |
| SimpleSelect.Lookup | src/simple_select.cpp:221-246 | the table lookup returns a one at rank - residual as the scan's start |
| SimpleSelect.SampledLookup | src/simple_select.cpp:233 | the sampled path returns the wanted one outright |
| SimpleSelect.ShortLookup | src/simple_select.cpp:238-241 | the short path returns a start one and the residual to skip |
| SimpleSelect.LongLookup | src/simple_select.cpp:242-246 | the long path returns the wanted one outright |
| SimpleSelect.Query | src/simple_select.cpp:216-287 | `select` over the built arrays returns the rank-th one |
| SimpleSelect.SimpleSelect.constructor | src/simple_select.cpp:36-208 | the index counts the ones of the first num_bits bits; with a single one per inventory no sub-inventory or spill is allocated |
| SimpleSelect.SimpleSelect.Select | src/simple_select.cpp:216-287 | `select(r)` is the r-th (0-based) one of the indexed bits |
| SimpleSelect.SelectOfRank | src/simple_select.cpp:195-204 | the debug check: for every i with rank(i) < m, select(rank(i)) >= i |
| ZeroHalf.GeometryOk | src/simple_select_zero_half.cpp:31-41 | the fixed geometry is 1024 zeros per inventory entry, a 16-bit sample every 64 zeros and a 64-bit sample every 256 |
| ZeroHalf.ClearMarks | src/simple_select_zero_half.cpp:59-79 | the marks counted are the zeros |
| ZeroHalf.RankFlip | src/simple_select_zero_half.cpp:136-143 | the zeros before t number t - rank(t) |
| ZeroHalf.CountZeros | src/simple_select_zero_half.cpp:50-52 | the counting loop sums the popcounts of the complemented words |
| ZeroHalf.PaddingZeros | src/simple_select_zero_half.cpp:51-54 | the whole-word zero count exceeds the stream's zero count by exactly the padding, assuming cleared padding |
| ZeroHalf.Measure | src/simple_select_zero_half.cpp:50-55 | the constructor's counts: `num_ones` before the padding correction and the corrected zero count |
| ZeroHalf.Build | src/simple_select_zero_half.cpp:45-123 | the inventory and sub-inventory built describe every zero of the stream (with the corrections in Findings) |
| ZeroHalf.EntrySign | src/simple_select_zero_half.cpp:99 | a long block's entry is -start - 1 and a short block's is start; the sign tells which |
| ZeroHalf.EntryOf | src/simple_select_zero_half.cpp:183-190 | the stored entry decodes to its block's sample by the same rule |
| ZeroHalf.ShortOf | src/simple_select_zero_half.cpp:183-186 | in a short block the sample plus the 16-bit offset is the zero at the sub-sampled rank |
| ZeroHalf.LongUnit | src/simple_select_zero_half.cpp:113-118 | a long block's k-th 64-bit word holds its k-th 256-zero sample offset |
| ZeroHalf.LongOf | src/simple_select_zero_half.cpp:187-190 | in a long block the sample plus the 64-bit offset is the zero at the sub-sampled rank |
| ZeroHalf.Lookup | src/simple_select_zero_half.cpp:170-190 | the lookup returns the zero at rank - residual as the scan's start |
| ZeroHalf.ScanZeros | src/simple_select_zero_half.cpp:197-230 | the residual scan over complemented words returns the wanted zero |
| ZeroHalf.Query | src/simple_select_zero_half.cpp:164-231 | `select_zero` over the built arrays returns the rank-th zero |
| ZeroHalf.ZeroAt | src/simple_select_zero_half.cpp:136-143 | the debug check: the result t is a zero with t - rank(t) == r |
| ZeroHalf.SimpleSelectZeroHalf.constructor | src/simple_select_zero_half.cpp:45-158 | the index covers every zero of the first num_bits bits; `num_ones` keeps the uncorrected count |
| ZeroHalf.SimpleSelectZeroHalf.SelectZero | src/simple_select_zero_half.cpp:164-231 | `select_zero(r)` is the r-th (0-based) zero: below num_bits, clear, with t - rank(t) == r |
| ZeroHalf.SentinelPastEnd | src/simple_select_zero_half.cpp:63-79 | the inventory is sized to the block count, one short of the sentinel `inventory[inventory_size]` written past its end |
| ZeroHalf.ExactSpanMisread | src/simple_select_zero_half.cpp:99-111 | the two tests agree except at a span of exactly 2^16, which is neither flagged nor stored in 16 bits |
| ZeroHalf.ExactSpanAnswer | src/simple_select_zero_half.cpp:99-118 | in a block whose span is exactly 2^16, `select_zero` for a subrank of 256 or more reads a 16-bit unit the 64-bit samples never reached, so it starts from the block's first zero, strictly before the sampled zero it should start from |
| ZeroHalf.LongWordsAsWritten | src/simple_select_zero_half.cpp:113-118 | a long block's four words as written, with `offset` never advanced |
| ZeroHalf.LastSampleWins | src/simple_select_zero_half.cpp:116 | as written, word 0 ends with the last sample and the other words stay zero |
| ZeroHalf.FirstZeroMisplaced | src/simple_select_zero_half.cpp:116 | as written, in a long block with two or more samples, the block's first zero is answered too far right |
| ZeroHalf.PaddingRanksAdmitted | src/simple_select_zero_half.cpp:52-54 | the `rank < num_ones` assert admits ranks past the last zero when the last word is partial |
| Select11.PerInventory | src/simple_select11.cpp:90 | the inventory spacing is at least 2, as the constructor asserts |
| Select11.Build | src/simple_select11.cpp:35-188 | the arrays built describe every double-one of the stream |
| Select11.Passes | src/simple_select11.cpp:52-179 | the inventory, sizing and fill passes with the pairing flag index every double-one |
| Select11.SampledNext | src/simple_select11.cpp:209 | a block-aligned rank answers the inventory entry plus one, past the pair's second bit |
| Select11.Lookup | src/simple_select11.cpp:199-223 | the lookup returns one past the pair at rank - residual as the scan's start |
| Select11.SampledLookup | src/simple_select11.cpp:209 | the sampled path returns one past the wanted pair |
| Select11.PairStep | src/simple_select11.cpp:237-251 | one bit of the residual scan follows the same non-overlapping pairing as construction |
| Select11.ScanWord | src/simple_select11.cpp:235-257 | scanning a word either finds the pair or carries the flag and residual to the next word |
| Select11.ScanPairs | src/simple_select11.cpp:228-259 | the residual scan returns one past the k-th double-one |
| Select11.PairsFromSample | src/simple_select11.cpp:214-233 | a scan started after a sampled pair begins unpaired with the right residual |
| Select11.ScanFrom | src/simple_select11.cpp:228-259 | the scan from a start position finds one past the wanted pair |
| Select11.Query | src/simple_select11.cpp:192-260 | `select11(0)` is 0; for r >= 1 it is one past the second bit of the r-th double-one |
| Select11.ShortestPrefix | src/simple_select11.cpp:192-260 | one past the r-th mark is the shortest prefix holding r marks |
| Select11.QueryIsShortest | src/simple_select11.cpp:192-260 | the answer holds exactly r double-ones before it and every shorter prefix fewer |
| Select11.SimpleSelect11.constructor | src/simple_select11.cpp:35-188 | with the caller's count equal to the counted double-ones, the index covers all of them |
| Select11.SimpleSelect11.Select11 | src/simple_select11.cpp:192-260 | `select11(r)` is 0 for r = 0 and one past the r-th pair otherwise; r pairs lie before it and fewer before any earlier point |
| CompressedValues.CodeLen | src/CompressedValueStore.h:109 | `code_len = floor(log2(v + 2))` is at least 1 with 2^code_len <= v + 2 < 2^(code_len+1) |
| CompressedValues.CodeLenBound | src/CompressedValueStore.h:103-111 | for values up to the modelled maximum the code length is at most 30, inside the `int` shifts |
| CompressedValues.CodeBits | src/CompressedValueStore.h:111 | `code_bits = v + 2 - 2^code_len` lies in [0, 2^code_len) |
| CompressedValues.Marker | src/CompressedValueStore.h:114-115 | the index stream gets a 1 then code_len - 1 zeros: one one per codeword, at its start |
| CompressedValues.DecodeCodeword | src/CompressedValueStore.h:157-163 | decoding a codeword returns its value |
| CompressedValues.CodewordDecode | src/CompressedValueStore.h:109-111 | encoding the decoded value of any non-empty code gives the code back |
| CompressedValues.IndexStream | src/CompressedValueStore.h:113-115 | the index stream is as long as the code stream and holds one one per value |
| CompressedValues.CodewordAt | src/CompressedValueStore.h:107-116 | the i-th codeword and marker occupy the same bits [start_i, start_(i+1)) of the two streams |
| CompressedValues.SelectMarker | src/CompressedValueStore.h:142-145 | the i-th one of the index stream is the start of codeword i |
| CompressedValues.CodeLenOne | src/CompressedValueStore.h:109 | the code is one bit long exactly for values 0 and 1 |
| CompressedValues.CodeStreamLength | src/CompressedValueStore.h:107-116 | the code stream has between n and 30n bits, and exactly n iff every value is at most 1 |
| CompressedValues.PutBit | src/CompressedValueStore.h:172-176 | appending one bit at `len` writes it to bit len & 7 of byte len >> 3 and keeps the bits before |
| CompressedValues.AddToCodeVector | src/CompressedValueStore.h:166-178 | `addToCodeVector` appends exactly len bits, most significant first, into bytes filled least significant first, and advances the length by len |
| CompressedValues.WriteBit | src/CompressedValueStore.h:171-177 | one iteration writes the next bit of the field |
| CompressedValues.Encode | src/CompressedValueStore.h:105-116 | the encode loop writes the code stream and the index stream of the first n values |
| CompressedValues.EncodeValue | src/CompressedValueStore.h:108-115 | one value appends its codeword to one stream and its marker to the other |
| CompressedValues.AddMarker | src/CompressedValueStore.h:114-115 | the marker is written as a 1 then code_len - 1 zeros |
| CompressedValues.PadToWords | src/CompressedValueStore.h:126 | the index bytes are zero-padded to a multiple of 64 bytes |
| CompressedValues.PaddedIndex | src/CompressedValueStore.h:126-131 | the padded vector still indexes the same codewords |
| CompressedValues.IndexSelect | src/CompressedValueStore.h:131 | a stream with one one per codeword start has its i-th one at start_i |
| CompressedValues.NarrowLowParts | src/CompressedValueStore.h:131 | the `SArray` low width over the index stream stays below 10 |
| CompressedValues.IndexVector | src/CompressedValueStore.h:126-131 | the padded index vector meets every requirement of the `SArray` constructor, and is all ones only in the degenerate case |
| CompressedValues.IndexSizes | src/CompressedValueStore.h:126-131 | the padded vector's size bounds and its all-ones case |
| CompressedValues.CompressedValueStore.constructor | src/CompressedValueStore.h:92-137 | the store holds the first n values |
| CompressedValues.CompressedValueStore.At | src/CompressedValueStore.h:139-164 | `at(i) == value_array[i]` for every i < n; other indexes answer -1 as an unsigned word (the corrected guard, see Findings) |
| CompressedValues.CompressedValueStore.Bounds | src/CompressedValueStore.h:142-145 | the two selects return codeword i's start and end |
| CompressedValues.Fetch | src/CompressedValueStore.h:146-163 | reading [index1, index2) and decoding returns value i |
| CompressedValues.DecodeAt | src/CompressedValueStore.h:146-163 | the slice between two consecutive starts is value i's codeword, 1 to 30 bits long |
| CompressedValues.ReadCode | src/CompressedValueStore.h:149-161 | the read loop accumulates the slice's bits most significant first |
| CompressedValues.EndPassesGuard | src/CompressedValueStore.h:140-144 | as written, index n passes the guard, while the index holds exactly n ones, each of rank below n, so `select(n)` asks for a one that is not there |
| Codewords.CodewordAt | src/CompressedValueStoreFibonacci.h:112-140 | in a concatenation of codewords, codeword i occupies [start_i, start_(i+1)) |
| Codewords.OnesConcat | src/CompressedValueStoreFibonacci.h:145 | a concatenation of one-mark words has one mark per value |
| Codewords.SelectCodeword | src/CompressedValueStoreFibonacci.h:154-157 | the i-th mark of such a concatenation lies inside codeword i at its own mark |
| Codewords.OnesBefore | src/CompressedValueStoreFibonacci.h:154-157 | exactly i marks precede codeword i |
| Codewords.RankInside | src/CompressedValueStoreFibonacci.h:154-157 | rank across a concatenation adds the rank inside the last piece |
| Zeckendorf.FibRecurrence | src/CompressedValueStoreFibonacci.h:76-81 | the table's numbers 1, 2, 3, 5, ... each sum the previous two |
| Zeckendorf.FibGrows | src/CompressedValueStoreFibonacci.h:76-81 | the table's numbers are positive and strictly increasing |
| Zeckendorf.Top | src/CompressedValueStoreFibonacci.h:118-121 | pos is the index of the largest table number <= v |
| Zeckendorf.TopUnique | src/CompressedValueStoreFibonacci.h:118-121 | that index is the only one with F(k) <= v < F(k+1) |
| Zeckendorf.GreedyWeight | src/CompressedValueStoreFibonacci.h:126-132 | the greedy loop's digits sum to v and no two adjacent digits are set |
| Zeckendorf.ZeckRepresents | src/CompressedValueStoreFibonacci.h:126-132 | every v >= 1 has a Zeckendorf representation whose top digit is set |
| Zeckendorf.WeightBelow | src/CompressedValueStoreFibonacci.h:126-132 | a representation without adjacent digits over k positions sums below F(k) |
| Zeckendorf.GreedyRecovers | src/CompressedValueStoreFibonacci.h:126-132 | the greedy loop applied to the sum of a representation without adjacent digits returns it |
| Zeckendorf.ZeckUnique | src/CompressedValueStoreFibonacci.h:126-132 | the Zeckendorf representation is unique |
| FibonacciValues.FibsFromAre | src/CompressedValueStoreFibonacci.h:76-81 | the table loop lists the Fibonacci numbers up to max_value and stops at the first one above it |
| FibonacciValues.TableIs | src/CompressedValueStoreFibonacci.h:76-81 | the table is 1, 2, 3, 5, ..., with every entry <= max_value |
| FibonacciValues.BuildTable | src/CompressedValueStoreFibonacci.h:76-81 | the loop builds that table and ends with b the next Fibonacci number |
| FibonacciValues.TableRejects | src/CompressedValueStoreFibonacci.h:76-81 | the table as written has no entry above its own last entry, so that value minus one cannot be encoded |
| FibonacciValues.ZeroRejected | src/CompressedValueStoreFibonacci.h:115-119 | with max_value 1 the table is just 1 and storing 0 exits |
| FibonacciValues.CoveringTableIs | src/CompressedValueStoreFibonacci.h:76-81 | the corrected table has an entry above every v + 1 with v <= max_value |
| FibonacciValues.BuildCoveringTable | src/CompressedValueStoreFibonacci.h:76-81 | the corrected loop builds the covering table |
| FibonacciValues.UpperBound | src/CompressedValueStoreFibonacci.h:118 | `upper_bound` is the first entry above v, with every entry before it <= v |
| FibonacciValues.CodableTop | src/CompressedValueStoreFibonacci.h:118-121 | when an entry exceeds v, the step back gives the index of the largest entry <= v |
| FibonacciValues.Codeword | src/CompressedValueStoreFibonacci.h:123-139 | a value's codeword is at least two bits long and ends in the terminator 1 |
| FibonacciValues.FibEncode | src/CompressedValueStoreFibonacci.h:118-133 | the encode loop returns the Zeckendorf digits of v + 1, lowest first, then a 1, with `code_len = pos + 2` |
| FibonacciValues.SetDigit | src/CompressedValueStoreFibonacci.h:128-131 | `code_value \|= 1 << (pos - j + 1)` sets the digit of F(j) |
| FibonacciValues.CacheAgrees | src/CompressedValueStoreFibonacci.h:117-137 | two correct encodings of the same value agree, so a cached pair equals a fresh one |
| FibonacciValues.CachedCode | src/CompressedValueStoreFibonacci.h:117-137 | the cache lookup yields the encoding of v and keeps every cached entry correct |
| FibonacciValues.PutBit | src/CompressedValueStoreFibonacci.h:193-198 | appending one bit at `len` writes it to bit len & 63 of word len >> 6 and keeps the bits before |
| FibonacciValues.AddToCodeVector | src/CompressedValueStoreFibonacci.h:189-204 | `addToCodeVector` appends len bits, most significant first, into words filled least significant first |
| FibonacciValues.WriteBit | src/CompressedValueStoreFibonacci.h:193-199 | one iteration writes the next bit |
| FibonacciValues.Encode | src/CompressedValueStoreFibonacci.h:112-140 | the encode loop writes the concatenated codewords of the first n values |
| FibonacciValues.EncodeValue | src/CompressedValueStoreFibonacci.h:115-139 | one value appends its codeword through the cache |
| FibonacciValues.StreamLength | src/CompressedValueStoreFibonacci.h:112-140 | the code stream has between 2n and 30n bits |
| FibonacciValues.CodewordPairs | src/CompressedValueStoreFibonacci.h:123-139 | inside a codeword, a bit is paired exactly when the bit before it is set |
| FibonacciValues.CodewordMarks | src/CompressedValueStoreFibonacci.h:123-139 | a codeword's only counted "11" pair ends at its last bit, and it ends unpaired |
| FibonacciValues.MarksConcat | src/CompressedValueStoreFibonacci.h:112-140 | the pairs of a concatenation are those of its parts when the first ends unpaired |
| FibonacciValues.StreamMarks | src/CompressedValueStoreFibonacci.h:112-145 | the pairs of the code stream are exactly the codewords' last bits |
| FibonacciValues.SelectIsStart | src/CompressedValueStoreFibonacci.h:154-157 | `select11(i)` is the start of codeword i |
| FibonacciValues.StoreAdmissible | src/CompressedValueStoreFibonacci.h:145 | the code vector and count meet the `simple_select11` constructor's requirements |
| FibonacciValues.DenseEnough | src/CompressedValueStoreFibonacci.h:145 | with at most 30 bits per pair, the pair density gives an inventory spacing of at least 2 |
| FibonacciValues.DecodeCodeword | src/CompressedValueStoreFibonacci.h:165-182 | summing F(pos) over a codeword's set bits except the last gives the value plus 1 |
| FibonacciValues.SumDigits | src/CompressedValueStoreFibonacci.h:165-181 | the read loop sums the table entries of the set digits of the slice |
| FibonacciValues.SumAll | src/CompressedValueStoreFibonacci.h:165-181 | at the end of the slice the running sum is the digits' weight |
| FibonacciValues.Located | src/CompressedValueStoreFibonacci.h:154-182 | the slice between two selects weighs value i + 1; at i = n the slice is empty |
| FibonacciValues.FibonacciValueStore.constructor | src/CompressedValueStoreFibonacci.h:71-148 | the store holds the first n values over the covering table |
| FibonacciValues.FibonacciValueStore.At | src/CompressedValueStoreFibonacci.h:151-185 | `at(i) == value_array[i]` for every i < n; `at(n)` and larger indexes answer -1 as an unsigned word |
| FibonacciValues.FibonacciValueStore.Bounds | src/CompressedValueStoreFibonacci.h:154-157 | the selects return codeword i's start and end, or the end of the stream for the last one |
| FingerPrints.Murmur2 | src/FingerPrintStore.h:176-224 | MurmurHash2 over the key bytes is a 32-bit value |
| FingerPrints.MixBlock | src/FingerPrintStore.h:191-204 | one 4-byte block is mixed with m = 0x5bd1e995 and r = 24, staying within 32 bits |
| FingerPrints.MixTail | src/FingerPrintStore.h:208-214 | the tail bytes are folded in, staying within 32 bits |
| FingerPrints.Finalize | src/FingerPrintStore.h:219-221 | the final mix stays within 32 bits |
| FingerPrints.MurmurHash2 | src/FingerPrintStore.h:176-224 | the hashing loop computes the specified hash |
| FingerPrints.FpMaskBits | src/FingerPrintStore.h:115 | the intended mask selects exactly the top w bits of the 32-bit hash |
| FingerPrints.TopBits | src/FingerPrintStore.h:115-118 | masking the top w bits and shifting them down equals h / 2^(32-w), which is below 2^w |
| FingerPrints.FingerprintIsTopBits | src/FingerPrintStore.h:113-122 | `fp(key)` is the top w bits of the key's hash, below 2^w |
| FingerPrints.AsWrittenAgrees | src/FingerPrintStore.h:115 | for widths 1 to 31 the `int` mask as written gives the intended fingerprint |
| FingerPrints.Width32Collapses | src/FingerPrintStore.h:115 | at width 32 the mask as written is 0 and every fingerprint is 0, where the whole hash was intended |
| FingerPrints.PutThenGet | src/FingerPrintStore.h:146-163 | a slot written with a value below 2^w reads back as that value |
| FingerPrints.PutKeepsOthers | src/FingerPrintStore.h:146-151 | writing one slot leaves every other slot unchanged |
| FingerPrints.FingerPrintStore.constructor | src/FingerPrintStore.h:126-137 | the store has width·n cleared bits |
| FingerPrints.FingerPrintStore.Fp | src/FingerPrintStore.h:113-122 | `fp(key)` is the key's fingerprint at the store's width, below 2^w (with the corrected mask, see Findings) |
| FingerPrints.FingerPrintStore.StoreFP | src/FingerPrintStore.h:146-151 | after `storeFP(i, key)` the slot matches the key, so `checkFP(i, key)` holds, and every other slot is unchanged (with the corrected mask, see Findings) |
| FingerPrints.FingerPrintStore.CheckFP | src/FingerPrintStore.h:153-163 | `checkFP(i, key)` is false for i >= n and otherwise tells whether slot i holds the key's fingerprint (with the corrected mask, see Findings) |
| FingerPrints.FingerPrintValueStore.constructor | src/FingerPrintValueStore.h:48-51 | the store keeps the fingerprint store, the rank store and the value table |
| FingerPrints.FingerPrintValueStore.Query | src/FingerPrintValueStore.h:72-87 | `query` is 0 when the fingerprint check fails, including out of range; otherwise `val_store[rank]` when the decoded rank is in the table, and 0 when it is not (with the corrected mask, see Findings) |
| Mphr.FindTab | src/MPHR.h:200 | `find('\t')` is the first tab at or after `from`, or the end of the line |
| Mphr.ParseCases | src/MPHR.h:198-208 | a line is skipped exactly when it has no tab or its count is 0; an accepted line's key is the text before its first tab |
| Mphr.EntriesCounted | src/MPHR.h:205-207 | every accepted entry has a non-zero count |
| Mphr.Values | src/MPHR.h:209-212 | the value table gets a new entry only when the count differs from its last entry |
| Mphr.ValuesDistinct | src/MPHR.h:209-212 | adjacent entries of the value table are distinct |
| Mphr.AscendingValues | src/MPHR.h:209-212 | for count-ascending input the value table is strictly increasing |
| Mphr.RankFindsCount | src/MPHR.h:209-212 | every accepted key's rank is an index of the value table holding its count |
| Mphr.Slots | src/MPHR.h:213 | each accepted key goes to slot `search(key)` |
| Mphr.FpsAt | src/MPHR.h:242-243 | the fingerprint written for entry i is its key's fingerprint (with the corrected mask, see Findings) |
| Mphr.LastWriteWins | src/MPHR.h:213-214 | after the writes in order, a slot holds the value of the last entry sent there |
| Mphr.RankLine | src/MPHR.h:198-215 | one line of the rank pass keeps the value table and rank store equal to those of the lines read |
| Mphr.PutRank | src/MPHR.h:214 | `ranks_compact_store.set(index, rank)` writes one slot |
| Mphr.StoreRanks | src/MPHR.h:198-216 | the rank pass builds the value table from the accepted lines and stores each rank at its key's slot |
| Mphr.StoreFingerprints | src/MPHR.h:234-245 | the fingerprint pass stores each accepted key's fingerprint at its key's slot, the same slot as its rank (with the corrected mask, see Findings) |
| Mphr.QueryFindsCount | src/MPHR.h:198-282 | a key of the file is answered with its count when no later line reuses its slot and the ranks fit their width |
| Mphr.MPHR.constructor | src/MPHR.h:198-249 | the built stores are exactly the value table, rank slots and fingerprint slots of the accepted lines |
| Mphr.MPHR.Query | src/MPHR.h:278-282 | `query(key)` is the fingerprint-value store's answer at slot `search(key)` (with the corrected mask, see Findings) |

## Left out

- The classes `CompressedBlock` and `ShefCompressedBitArray` are left out: zlib compression and block paging are outside the bit-level core.
- The cmph minimal perfect hash is the function parameter `search` into [0, n). Its build, load and dump are left out.
- File, gzip and Boost iostream reading is left out. A file is a sequence of lines of bytes.
- The `stringstream` count parse is the function parameter `count`.
- The source's `exit` paths become preconditions or an `Option` result: `SArrays.Build`, and the Fibonacci table's "max value too small" exit.
- `CompressedValues.CompressedValueStore.constructor` requires that the index vector is not all ones (`CompressedValues.AllOnesIndex`), where the `SArray` it builds exits.
- `SimpleSelect.FillParts`: `simple_select.cpp` allocates `subinventory` and `exact_spill` with a plain `new`, which leaves them uninitialised; the model (`SimpleSelect.Zeroed`) zeroes them. The debug `assert( exact_spill[ spilled ] == 0 )` therefore reads uninitialised memory in the source. Queries read only units and spill entries the fill has written, so answers do not depend on the initial contents. `simple_select11` and `simple_select_zero_half` allocate with `resize`, which does zero.
- The class `CompressedValueStoreElias` (used by `FingerPrintValueStore` and `MPHR`) is not part of this model. Its role, the rank codec `at`, is modelled by the `CompactStore` of ranks it compresses.
- `simple_select_half.cpp`, `rank9.h` and `popcount.h` are not part of this model. `elias_fano`'s `select_upper` is modelled by `Streams.Select` on the upper stream.
- `elias_fano`'s `rank` is commented out and left out. So are `ones_step_l`, `msbs_step_l` and `compressor`, which feed only that rank.
- The broadword macro arithmetic (`LEQ_STEP_8`, `ZCOMPARE_STEP_8`, `ONES_STEP_*`) is specified by its result: popcount, floor log2 and the k-th set bit.
- `Broadword.Msb`: the final 16-bit broadword step is specified by its result; the two halving steps are modelled.
- Floating-point `log2` (`CompressedValueStore.h:109`, `SArray.h:300`) is modelled as the integer floor log2.
- `bit_count`, `size_in_bits`, Boost `serialize`, destructors and stderr logging are left out.
- The `KneserNeyWrapper` class, `main.cpp` and the test programs are left out.
- `SimpleSelect.SimpleSelect.constructor`: the `ones_per_sub64 == 1` branch is left out. With spills the derived geometry never reaches it (`Inventories.SubSamplesShared`).
- `SimpleSelect.SimpleSelect.constructor`: the debug `rank`/`select` checks are proved as lemmas (`SimpleSelect.SelectOfRank`, `ZeroHalf.ZeroAt`), not run.
- `SimpleSelect.Query`: `-1ULL << start` with start >= 64 is undefined in C++. It is modelled as a shift by start % 64, the x86 behaviour.
- `SArrays.SArray.constructor` requires at least one set bit, because the width computation divides by `num_ones`. It requires a low width of at most 30, because the low mask is built from an `int` shift.
- `CompressedValues.CompressedValueStore.constructor` requires values of at most `MaxValue`, so that code lengths stay at most 30 inside the `int` shifts.
- `FibonacciValues.FibonacciValueStore.constructor` requires `max_value + 1 < F(29)`, so that codes fit the 32-bit `unsigned` and `short` locals.
- `FibonacciValues.FibonacciValueStore.constructor` requires every value to be at most `max_value`. The source exits past it.
- `FingerPrints.Murmur2` reads each 4-byte block little-endian, as on the x86 the code targets.
- `FingerPrints.FingerPrintStore.constructor` requires `bits_per_fingerprint <= 32`, where the source exits.
- `FingerPrints.FingerPrintStore.constructor` does not model overflow of width·n.
- `CompactStores.StoredFieldAsWritten`: the `int` masks assume two's complement and sign extension when widened.
- `ShefBitArrays.ShefBitArray.constructor`: new arrays are modelled zero-initialised.
- `CompactStores.CompactStore.constructor` requires an element width of at most 64, which the source does not check; every caller in the modelled core passes a width of at most 64.
- `FingerPrints.FingerPrintStore.Fp`: at width 32 the source's mask is 0, so every fingerprint is 0 and `checkFP` accepts any key at any slot in range (`FingerPrints.Width32Collapses`). The model uses the corrected mask and compares the whole 32-bit hash there. `StoreFP`, `CheckFP`, `FingerPrintValueStore.Query`, `Mphr.FpsAt`, `Mphr.StoreFingerprints` and `Mphr.MPHR.Query` inherit this; below width 32 the two agree (`FingerPrints.AsWrittenAgrees`).
- `ShefBitArrays.BitMask`: the shift by 64 at the first position of a word is undefined in C++. It is modelled as a shift by 0, the x86 behaviour, as for every other over-wide shift in this model. Under it every position keeps a bit of its own (`ShefBitArrays.SlotsDistinct`).
- `ShefBitArrays.RangeRoundTrip`: holds for the corrected 64-bit mask. As written, the round trip holds only for lengths 1 to 31 (`ShefBitArrays.RangeRoundTripAsWritten`) and fails from length 32 (see Findings).
- `ShefBitArrays.ShefBitArray.SetRangeAsWritten`: the shift count `length - 1` is taken modulo 32, the x86 behaviour for an `int` shift; at length 0 the count wraps to 2^64 - 1 and the loop writes nothing.
- `SimpleSelect.MaxBits`: streams are limited to fewer than 2^50 bits, so that `c * MAX_ONES_PER_INVENTORY + num_bits - 1` in the ratio computation does not wrap 64 bits; the source does not check this. The same bound applies to `Select11.Admissible`.
- `SimpleSelect.Admissible`: requires at least one set bit. With none, `msb` of the zero ratio is -1 and the source's shift by it is undefined.
- `ZeroHalf.Admissible`: requires fewer than 2^63 bits, so that positions fit the `int64_t` inventory entries.
- `CompressedValues.MaxElements`: stores hold fewer than 2^56 values, so that their bit counts stay inside 64 bits; the source does not check this.
- `FibonacciValues.MaxElements`: stores hold fewer than 2^44 values, so that their bit counts stay inside the range `simple_select11` accepts; the source does not check this.
- `CompressedValues.CompressedValueStore.constructor` and `FibonacciValues.FibonacciValueStore.constructor` require at least one value: an empty store leaves its select index without a one to count, where the `SArray` divides by `num_ones` and `simple_select11` shifts by `msb(0)`.
- `ZeroHalf.SimpleSelectZeroHalf.constructor`, `SimpleSelect.SimpleSelect.constructor` and `EliasFano.EliasFano.constructor` require the padding bits past `num_bits` in the last word to be zero, as the counting assumes.
- `Mphr.MPHR.constructor`: keys are at most 2^31 bytes, matching the `cmph_uint32` length cast. Exceptions and memory exhaustion are left out.

## Findings

| source | as written | input that shows it | evidently intended | confidence | as-written member | corrected member |
|---|---|---|---|---|---|---|
| src/ShefBitArray.h:84 | `MASK` of `set_range` is the `int` `1 << (length - 1)` widened to 64 bits | length 32, value 2^31: the mask sign-extends, the element is written as 32 ones and `get_range` reads back 2^32 - 1 | a 64-bit mask `size_t(1) << (length - 1)` | not executed | ShefBitArrays.RangeWidth32Counterexample | ShefBitArrays.ShefBitArray.SetRange |
| src/CompactStore.h:77 | `MASK` is built from the `int` `1 << (width - 1)` and widened to 64 bits | width 32, value 2^31: the mask sign-extends and the field is stored as 32 ones, so it reads back as 2^32 - 1; from width 33 the count wraps modulo 32 (width 33, value 2^32: stored as zeros) | a 64-bit mask `1ULL << (width - 1)` | not executed | CompactStores.Width32Counterexample | CompactStores.CompactStore.Set |
| src/simple_select_zero_half.cpp:63 | the inventory is resized to `inventory_size` entries, then `inventory[inventory_size]` is written | any stream with a zero: the sentinel is written one past the end | resize to `inventory_size + 1` | not executed | ZeroHalf.SentinelPastEnd | ZeroHalf.SimpleSelectZeroHalf.constructor |
| src/simple_select_zero_half.cpp:99 | a block is flagged when span > 2^16 but stored in 16 bits only when span < 2^16 | a block whose span is exactly 65536 and more than 256 zeros: its 64-bit offsets are read back as 16-bit ones, and the query for its 257th zero starts from the block's first zero | flag when span >= 2^16 | not executed | ZeroHalf.ExactSpanAnswer | ZeroHalf.EntrySign |
| src/simple_select_zero_half.cpp:116 | `p64[offset] = ...` without `offset++` | a long block with two or more 256-zero samples: word 0 holds the last sample, so its first zero is answered too far right | advance `offset` after each store | not executed | ZeroHalf.FirstZeroMisplaced | ZeroHalf.LongOf |
| src/simple_select_zero_half.cpp:52 | `num_ones` is copied before the padding is subtracted, and `select_zero` asserts `rank < num_ones` | num_bits = 1 with bit 0 clear: 64 zeros are counted, the stream has 1, and ranks 1 to 63 pass the assert | compare with the corrected zero count | not executed | ZeroHalf.PaddingRanksAdmitted | ZeroHalf.SimpleSelectZeroHalf.SelectZero |
| src/CompressedValueStore.h:140 | `at` rejects `index > num_elements_stored` | index == n passes and calls `select(n)`, asking the index for an (n+1)-th one it does not hold | reject `index >= num_elements_stored` | not executed | CompressedValues.EndPassesGuard | CompressedValues.CompressedValueStore.At |
| src/CompressedValueStoreFibonacci.h:76 | the table lists the Fibonacci numbers up to `max_value` only | max_value 1: the table is [1], `upper_bound` finds no entry above 1 and storing 0 exits | include the first Fibonacci number above max_value + 1 | not executed | FibonacciValues.ZeroRejected | FibonacciValues.CoveringTableIs |
| src/FingerPrintStore.h:115 | the mask is `((1 << width) - 1) << (32 - width)` in `int` | bits_per_fingerprint 32: `1 << 32` overflows, the mask is 0 and every fingerprint is 0 | a 64-bit mask, giving the whole 32-bit hash | not executed | FingerPrints.Width32Collapses | FingerPrints.FingerprintIsTopBits |
