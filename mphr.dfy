/**
 * `MPHR`: the store built from an n-gram file of `key<TAB>count` lines.
 *
 * A minimal perfect hash (`cmph_search`) sends every key to a slot below
 * n.  The first pass gives each accepted line a rank into a table of
 * distinct counts and writes that rank into the key's slot of a compact
 * store; the second pass writes the key's fingerprint into the same slot
 * of a `FingerPrintStore`.  A query hashes the key and asks the
 * `FingerPrintValueStore` for that slot.
 *
 * The hash itself, the files and the parsing of the count are not part of
 * this model: `search` and `count` are given functions.
 */
module Mphr {
  import opened Bits
  import opened CompactStores
  import opened FingerPrints

  /** The separator between an n-gram and its count. */
  const Tab: Byte := 9

  /** A line of the n-gram file, without its newline. */
  type Line = s: seq<Byte> | |s| < MaxKeyLength

  /** An accepted line: the n-gram before the first tab and its count. */
  datatype Entry = Entry(key: Key, count: nat)

  /** What a pass makes of one line. */
  datatype Parsed = Skip | Accept(entry: Entry)

  /** `text.find('\t', from)`: the first tab at or after from, or |text| when there is none. */
  function FindTab(text: seq<Byte>, from: nat): (r: nat)
    requires from <= |text|
    ensures from <= r <= |text|
    ensures r < |text| ==> text[r] == Tab
    ensures forall j | from <= j < r :: text[j] != Tab
    decreases |text| - from
  {
    if from == |text| || text[from] == Tab then from else FindTab(text, from + 1)
  }

  /**
   * One line of either pass: skipped when it has no tab, or when the count
   * after its first tab is 0; otherwise the key is the text before that tab.
   */
  function Parse(text: Line, count: seq<Byte> -> nat): Parsed
  {
    var loc := FindTab(text, 0);
    if loc == |text| then Skip
    else
      var value := count(text[loc + 1..]);
      if value == 0 then Skip else Accept(Entry(text[..loc], value))
  }

  /**
   * A line is skipped exactly when it has no tab or its count is 0; an
   * accepted line's key is the text before its first tab, and its count is
   * what the text after that tab parses to.
   */
  lemma ParseCases(text: Line, count: seq<Byte> -> nat)
    ensures var r := Parse(text, count);
            r.Skip? <==> Tab !in text || count(text[FindTab(text, 0) + 1..]) == 0
    ensures var r := Parse(text, count);
            r.Accept? ==>
              var k := |r.entry.key|;
              k < |text| && text[k] == Tab && text[..k] == r.entry.key && Tab !in r.entry.key
              && r.entry.count == count(text[k + 1..]) && r.entry.count != 0
  {
  }

  /** The accepted lines of a file, in order. */
  function Entries(lines: seq<Line>, count: seq<Byte> -> nat): (es: seq<Entry>)
    ensures |es| <= |lines|
  {
    if |lines| == 0 then []
    else
      var es := Entries(lines[..|lines| - 1], count);
      match Parse(lines[|lines| - 1], count)
      case Skip => es
      case Accept(e) => es + [e]
  }

  /** No accepted line carries a count of 0. */
  lemma {:induction false} EntriesCounted(lines: seq<Line>, count: seq<Byte> -> nat)
    ensures forall e | e in Entries(lines, count) :: e.count != 0
  {
    if |lines| > 0 {
      EntriesCounted(lines[..|lines| - 1], count);
    }
  }

  /** `value_array`: a count is appended when it differs from the last one appended. */
  function Values(es: seq<Entry>): (vs: seq<nat>)
    ensures |vs| <= |es| && (|es| > 0 ==> |vs| > 0)
    ensures |es| > 0 ==> vs[|vs| - 1] == es[|es| - 1].count
  {
    if |es| == 0 then []
    else
      var vs := Values(es[..|es| - 1]);
      var c := es[|es| - 1].count;
      if |vs| == 0 || vs[|vs| - 1] != c then vs + [c] else vs
  }

  /** The rank each entry receives: the position of the last value after its line. */
  function Ranks(es: seq<Entry>): (rs: seq<nat>)
    ensures |rs| == |es|
  {
    if |es| == 0 then [] else Ranks(es[..|es| - 1]) + [|Values(es)| - 1]
  }

  /** The slot of each entry. */
  function Slots(es: seq<Entry>, search: Key -> nat): (r: seq<nat>)
    ensures |r| == |es|
    ensures forall i | 0 <= i < |es| :: r[i] == search(es[i].key)
  {
    if |es| == 0 then [] else Slots(es[..|es| - 1], search) + [search(es[|es| - 1].key)]
  }

  /** The fingerprint of each entry. */
  function Fps(es: seq<Entry>, w: nat): (r: seq<nat>)
    requires w <= HashBits
    ensures |r| == |es|
  {
    if |es| == 0 then [] else Fps(es[..|es| - 1], w) + [Fingerprint(es[|es| - 1].key, w)]
  }

  /** Entry i of the fingerprints is the fingerprint of entry i's key. */
  lemma {:induction false} FpsAt(es: seq<Entry>, w: nat, i: nat)
    requires w <= HashBits && i < |es|
    ensures Fps(es, w)[i] == Fingerprint(es[i].key, w)
  {
    if i < |es| - 1 {
      FpsAt(es[..|es| - 1], w, i);
    }
  }

  /** n cleared slots of width w. */
  function Zeros(n: nat, w: nat): (r: seq<bool>)
    ensures |r| == w * n
  {
    seq(w * n, _ => false)
  }

  /** n slots of width w over base after vals[j] is put into slots[j] for each j in turn. */
  function Fill(base: seq<bool>, n: nat, w: nat, slots: seq<nat>, vals: seq<nat>): (r: seq<bool>)
    requires |base| == w * n && |vals| == |slots|
    requires forall j | 0 <= j < |slots| :: slots[j] < n
    ensures |r| == |base|
  {
    if |slots| == 0 then base
    else
      var k := |slots| - 1;
      PutSlot(Fill(base, n, w, slots[..k], vals[..k]), n, w, slots[k], vals[k])
  }

  /** The entries after one more line. */
  lemma EntriesStep(lines: seq<Line>, count: seq<Byte> -> nat, i: nat)
    requires i < |lines|
    ensures Parse(lines[i], count).Skip? ==> Entries(lines[..i + 1], count) == Entries(lines[..i], count)
    ensures Parse(lines[i], count).Accept? ==>
              Entries(lines[..i + 1], count) == Entries(lines[..i], count) + [Parse(lines[i], count).entry]
  {
    assert lines[..i + 1][..i] == lines[..i];
  }

  /** Appending one entry appends its slot. */
  lemma SlotsSnoc(es: seq<Entry>, e: Entry, search: Key -> nat)
    ensures Slots(es + [e], search) == Slots(es, search) + [search(e.key)]
  {
    assert (es + [e])[..|es|] == es;
  }

  /**
   * Appending one entry extends `value_array` when its count differs from
   * the last one, and the entry's rank is the last position of the result.
   */
  lemma RankSnoc(es: seq<Entry>, e: Entry, valueArray: seq<nat>, rank: nat)
    requires valueArray == Values(es) && (|valueArray| > 0 ==> rank == |valueArray| - 1)
    ensures var isNew := |valueArray| == 0 || valueArray[|valueArray| - 1] != e.count;
            var valueArray' := if isNew then valueArray + [e.count] else valueArray;
            var rank' := if isNew then |valueArray| else rank;
            Values(es + [e]) == valueArray' && rank' == |valueArray'| - 1
            && Ranks(es + [e]) == Ranks(es) + [rank']
  {
    assert (es + [e])[..|es|] == es;
  }

  /** Appending one entry appends its fingerprint. */
  lemma FpsSnoc(es: seq<Entry>, e: Entry, w: nat)
    requires w <= HashBits
    ensures Fps(es + [e], w) == Fps(es, w) + [Fingerprint(e.key, w)]
  {
    assert (es + [e])[..|es|] == es;
  }

  /** One more put at the end of a fill. */
  lemma FillSnoc(base: seq<bool>, n: nat, w: nat, slots: seq<nat>, vals: seq<nat>, s: nat, v: nat)
    requires |base| == w * n && |vals| == |slots| && s < n
    requires forall j | 0 <= j < |slots| :: slots[j] < n
    ensures Fill(base, n, w, slots + [s], vals + [v]) == PutSlot(Fill(base, n, w, slots, vals), n, w, s, v)
  {
    assert (slots + [s])[..|slots|] == slots;
    assert (vals + [v])[..|vals|] == vals;
  }

  /**
   * The last write to a slot wins: a value of fewer than w bits put into a
   * slot no later put touches is what the slot holds at the end.
   */
  lemma {:induction false} LastWriteWins(base: seq<bool>, n: nat, w: nat, slots: seq<nat>, vals: seq<nat>, i: nat)
    requires |base| == w * n && |vals| == |slots|
    requires forall j | 0 <= j < |slots| :: slots[j] < n
    requires i < |slots| && vals[i] < Pow2(w)
    requires forall j | i < j < |slots| :: slots[j] != slots[i]
    ensures SlotOf(Fill(base, n, w, slots, vals), n, w, slots[i]) == vals[i]
  {
    var k := |slots| - 1;
    var prev := Fill(base, n, w, slots[..k], vals[..k]);
    if i == k {
      PutThenGet(prev, n, w, slots[k], vals[k]);
    } else {
      LastWriteWins(base, n, w, slots[..k], vals[..k], i);
      PutKeepsOthers(prev, n, w, slots[k], slots[i], vals[k]);
    }
  }

  /** Neighbouring entries of `value_array` differ. */
  lemma {:induction false} ValuesDistinct(es: seq<Entry>)
    ensures forall j | 0 < j < |Values(es)| :: Values(es)[j - 1] != Values(es)[j]
  {
    if |es| > 0 {
      ValuesDistinct(es[..|es| - 1]);
    }
  }

  /** The value table of a prefix of the entries is a prefix of the value table. */
  lemma {:induction false} ValuesPrefix(es: seq<Entry>, m: nat)
    requires m <= |es|
    ensures Values(es[..m]) <= Values(es)
  {
    if m < |es| {
      var init := es[..|es| - 1];
      assert init[..m] == es[..m];
      ValuesPrefix(init, m);
    } else {
      assert es[..m] == es;
    }
  }

  /** The ranks of a prefix of the entries are a prefix of the ranks. */
  lemma {:induction false} RanksPrefix(es: seq<Entry>, m: nat)
    requires m <= |es|
    ensures Ranks(es[..m]) == Ranks(es)[..m]
  {
    if m < |es| {
      var init := es[..|es| - 1];
      assert init[..m] == es[..m];
      RanksPrefix(init, m);
    } else {
      assert es[..m] == es;
    }
  }

  /** Every entry's rank points into `value_array` at its own count. */
  lemma RankFindsCount(es: seq<Entry>, i: nat)
    requires i < |es|
    ensures Ranks(es)[i] < |Values(es)|
    ensures Values(es)[Ranks(es)[i]] == es[i].count
  {
    var pre := es[..i + 1];
    RanksPrefix(es, i + 1);
    ValuesPrefix(es, i + 1);
    assert Ranks(es)[i] == Ranks(pre)[i] == |Values(pre)| - 1;
    assert pre[|pre| - 1] == es[i];
  }

  /** A file sorted by ascending count gives a strictly increasing `value_array`. */
  lemma {:induction false} AscendingValues(es: seq<Entry>)
    requires forall j | 0 < j < |es| :: es[j - 1].count <= es[j].count
    ensures forall j | 0 < j < |Values(es)| :: Values(es)[j - 1] < Values(es)[j]
  {
    if |es| > 0 {
      var init := es[..|es| - 1];
      AscendingValues(init);
      if |init| > 0 {
        assert init[|init| - 1] == es[|es| - 2];
      }
    }
  }

  /**
   * The state of the rank pass after the entries es: `value_array`, the
   * last rank handed out, and the rank store's bits.
   */
  ghost predicate RankState(es: seq<Entry>, search: Key -> nat, n: nat, w: nat,
                            valueArray: seq<nat>, rank: nat, bits: seq<bool>)
    requires forall k: Key :: search(k) < n
  {
    valueArray == Values(es) && (|valueArray| > 0 ==> rank == |valueArray| - 1)
    && bits == Fill(Zeros(n, w), n, w, Slots(es, search), Ranks(es))
  }

  /**
   * An accepted entry appends its count to `value_array` when it differs
   * from the last, and puts the resulting rank into the key's slot.
   */
  lemma RankAccept(es: seq<Entry>, e: Entry, search: Key -> nat, n: nat, w: nat,
                   valueArray: seq<nat>, rank: nat, bits: seq<bool>)
    requires forall k: Key :: search(k) < n
    requires RankState(es, search, n, w, valueArray, rank, bits)
    ensures var isNew := |valueArray| == 0 || valueArray[|valueArray| - 1] != e.count;
            var rank' := if isNew then |valueArray| else rank;
            RankState(es + [e], search, n, w,
                      if isNew then valueArray + [e.count] else valueArray,
                      rank', PutSlot(bits, n, w, search(e.key), rank'))
  {
    var isNew := |valueArray| == 0 || valueArray[|valueArray| - 1] != e.count;
    var rank' := if isNew then |valueArray| else rank;
    RankSnoc(es, e, valueArray, rank);
    SlotsSnoc(es, e, search);
    FillSnoc(Zeros(n, w), n, w, Slots(es, search), Ranks(es), search(e.key), rank');
  }

  /** Every value handed out so far came from an earlier line. */
  lemma RankBound(lines: seq<Line>, count: seq<Byte> -> nat, i: nat)
    requires i <= |lines|
    ensures |Values(Entries(lines[..i], count))| <= i
  {
  }

  /** A skipped line leaves the rank pass as it was. */
  lemma RankSkip(lines: seq<Line>, count: seq<Byte> -> nat, search: Key -> nat, n: nat, w: nat,
                 i: nat, valueArray: seq<nat>, rank: nat, bits: seq<bool>)
    requires i < |lines| && forall k: Key :: search(k) < n
    requires RankState(Entries(lines[..i], count), search, n, w, valueArray, rank, bits)
    requires Parse(lines[i], count).Skip?
    ensures RankState(Entries(lines[..i + 1], count), search, n, w, valueArray, rank, bits)
  {
    EntriesStep(lines, count, i);
  }

  /** An accepted line takes the rank pass one entry further. */
  lemma RankTake(lines: seq<Line>, count: seq<Byte> -> nat, search: Key -> nat, n: nat, w: nat,
                 i: nat, valueArray: seq<nat>, rank: nat, bits: seq<bool>, e: Entry,
                 valueArray': seq<nat>, rank': nat, bits': seq<bool>)
    requires i < |lines| && forall k: Key :: search(k) < n
    requires RankState(Entries(lines[..i], count), search, n, w, valueArray, rank, bits)
    requires Parse(lines[i], count) == Accept(e)
    requires |valueArray| == 0 || valueArray[|valueArray| - 1] != e.count ==>
               valueArray' == valueArray + [e.count] && rank' == |valueArray|
    requires |valueArray| > 0 && valueArray[|valueArray| - 1] == e.count ==>
               valueArray' == valueArray && rank' == rank
    requires |bits| == w * n && bits' == PutSlot(bits, n, w, search(e.key), rank')
    ensures RankState(Entries(lines[..i + 1], count), search, n, w, valueArray', rank', bits')
  {
    EntriesStep(lines, count, i);
    RankAccept(Entries(lines[..i], count), e, search, n, w, valueArray, rank, bits);
  }

  /** `ranks.set(index, rank)` on a store of n slots. */
  method PutRank(ranks: CompactStore, n: nat, index: nat, rank: nat)
    requires ranks.Valid() && |ranks.bitArray.bits| == ranks.width * n && index < n && IsWord(rank)
    modifies ranks.bitArray
    ensures ranks.bitArray.bits == PutSlot(old(ranks.bitArray.bits), n, ranks.width, index, rank)
  {
    MulLe(index + 1, n, ranks.width);
    ranks.Set(index, rank);
  }

  /**
   * One accepted line of the rank pass: its count is appended to
   * `value_array` when it differs from the last one, and the resulting rank
   * is written into the key's slot.
   */
  method RankLine(lines: seq<Line>, count: seq<Byte> -> nat, search: Key -> nat, n: nat, i: nat,
                  ranks: CompactStore, valueArray: seq<nat>, rank: nat)
    returns (valueArray': seq<nat>, rank': nat)
    requires i < |lines| < WordMod && forall k: Key :: search(k) < n
    requires ranks.Valid() && |ranks.bitArray.bits| == ranks.width * n
    requires Parse(lines[i], count).Accept? && rank <= i
    requires RankState(Entries(lines[..i], count), search, n, ranks.width, valueArray, rank, ranks.bitArray.bits)
    modifies ranks.bitArray
    ensures rank' <= i + 1
    ensures RankState(Entries(lines[..i + 1], count), search, n, ranks.width, valueArray', rank', ranks.bitArray.bits)
  {
    RankBound(lines, count, i);
    var e := Parse(lines[i], count).entry;
    valueArray', rank' := valueArray, rank;
    if |valueArray| == 0 || valueArray[|valueArray| - 1] != e.count {
      rank' := |valueArray|;
      valueArray' := valueArray + [e.count];
    }
    ghost var before := ranks.bitArray.bits;
    var index := search(e.key);
    PutRank(ranks, n, index, rank');
    RankTake(lines, count, search, n, ranks.width, i, valueArray, rank, before, e, valueArray', rank', ranks.bitArray.bits);
  }

  /**
   * The rank pass, the first of the build: each accepted line's count
   * extends `value_array` when it differs from the last entry, and the
   * line's rank is written into slot `search(key)` of a store of
   * bitsPerRank-bit ranks.
   */
  method StoreRanks(lines: seq<Line>, count: seq<Byte> -> nat, search: Key -> nat, n: nat, bitsPerRank: nat)
    returns (valueArray: seq<nat>, ranks: CompactStore)
    requires bitsPerRank <= W && |lines| < WordMod
    requires forall k: Key :: search(k) < n
    ensures fresh(ranks) && fresh(ranks.bitArray) && ranks.Valid() && ranks.width == bitsPerRank
    ensures valueArray == Values(Entries(lines, count))
    ensures ranks.bitArray.bits
            == Fill(Zeros(n, bitsPerRank), n, bitsPerRank, Slots(Entries(lines, count), search), Ranks(Entries(lines, count)))
  {
    var bitset := new DynamicBitset(bitsPerRank * n);
    ranks := new CompactStore(bitset, bitsPerRank);
    valueArray := [];
    var rank: nat := 0;
    var i: nat := 0;
    while i < |lines|
      invariant i <= |lines|
      invariant ranks.bitArray == bitset && ranks.Valid() && ranks.width == bitsPerRank
      invariant RankState(Entries(lines[..i], count), search, n, bitsPerRank, valueArray, rank, bitset.bits)
      invariant rank <= i
    {
      if Parse(lines[i], count).Accept? {
        valueArray, rank := RankLine(lines, count, search, n, i, ranks, valueArray, rank);
      } else {
        RankSkip(lines, count, search, n, bitsPerRank, i, valueArray, rank, bitset.bits);
      }
      i := i + 1;
    }
    assert lines[..i] == lines;
  }

  /** The state of the fingerprint pass after the first i lines. */
  ghost predicate FpPass(lines: seq<Line>, count: seq<Byte> -> nat, search: Key -> nat, base: seq<bool>,
                         n: nat, w: nat, i: nat, bits: seq<bool>)
    requires i <= |lines| && forall k: Key :: search(k) < n
    requires w <= HashBits && |base| == w * n
  {
    var es := Entries(lines[..i], count);
    bits == Fill(base, n, w, Slots(es, search), Fps(es, w))
  }

  /** A skipped line leaves the fingerprint pass as it was; an accepted one puts its key's fingerprint into its slot. */
  lemma FpStep(lines: seq<Line>, count: seq<Byte> -> nat, search: Key -> nat, base: seq<bool>,
               n: nat, w: nat, i: nat, bits: seq<bool>)
    requires i < |lines| && forall k: Key :: search(k) < n
    requires w <= HashBits && |base| == w * n
    requires FpPass(lines, count, search, base, n, w, i, bits)
    ensures Parse(lines[i], count).Skip? ==> FpPass(lines, count, search, base, n, w, i + 1, bits)
    ensures Parse(lines[i], count).Accept? ==>
              var key := Parse(lines[i], count).entry.key;
              FpPass(lines, count, search, base, n, w, i + 1, PutSlot(bits, n, w, search(key), Fingerprint(key, w)))
  {
    var es := Entries(lines[..i], count);
    EntriesStep(lines, count, i);
    if Parse(lines[i], count).Accept? {
      var e := Parse(lines[i], count).entry;
      SlotsSnoc(es, e, search);
      FpsSnoc(es, e, w);
      FillSnoc(base, n, w, Slots(es, search), Fps(es, w), search(e.key), Fingerprint(e.key, w));
    }
  }

  /**
   * The fingerprint pass, the second of the build: each accepted line's
   * fingerprint is written into slot `search(key)`, the slot its rank went to.
   */
  method StoreFingerprints(lines: seq<Line>, count: seq<Byte> -> nat, search: Key -> nat, fpStore: FingerPrintStore)
    requires fpStore.Valid()
    requires forall k: Key :: search(k) < fpStore.totalNumberOfElements
    modifies fpStore.store.bitArray
    ensures fpStore.Valid()
    ensures fpStore.store.bitArray.bits
            == Fill(old(fpStore.store.bitArray.bits), fpStore.totalNumberOfElements, fpStore.fingerPrintSize,
                    Slots(Entries(lines, count), search), Fps(Entries(lines, count), fpStore.fingerPrintSize))
  {
    ghost var base := fpStore.store.bitArray.bits;
    ghost var n := fpStore.totalNumberOfElements;
    ghost var w := fpStore.fingerPrintSize;
    var i: nat := 0;
    while i < |lines|
      invariant i <= |lines|
      invariant fpStore.Valid()
      invariant FpPass(lines, count, search, base, n, w, i, fpStore.store.bitArray.bits)
    {
      FpStep(lines, count, search, base, n, w, i, fpStore.store.bitArray.bits);
      var parsed := Parse(lines[i], count);
      if parsed.Accept? {
        var index := search(parsed.entry.key);
        fpStore.StoreFP(index, parsed.entry.key);
      }
      i := i + 1;
    }
    assert lines[..i] == lines;
  }

  /**
   * Every accepted line's key is answered with its count, provided its
   * slot is not reused by a later line (a minimal perfect hash over the
   * distinct keys of the file guarantees this) and the ranks fit in
   * their width.
   */
  lemma QueryFindsCount(es: seq<Entry>, search: Key -> nat, n: nat, wf: nat, wr: nat, i: nat)
    requires wf <= HashBits && forall k: Key :: search(k) < n
    requires i < |es| && |Values(es)| <= Pow2(wr)
    requires forall j | i < j < |es| :: search(es[j].key) != search(es[i].key)
    ensures Answer(Fill(Zeros(n, wf), n, wf, Slots(es, search), Fps(es, wf)), wf,
                   Fill(Zeros(n, wr), n, wr, Slots(es, search), Ranks(es)), wr, n,
                   Values(es), search(es[i].key), es[i].key)
            == es[i].count
  {
    var slots := Slots(es, search);
    RankFindsCount(es, i);
    FingerprintIsTopBits(es[i].key, wf);
    FpsAt(es, wf, i);
    LastWriteWins(Zeros(n, wf), n, wf, slots, Fps(es, wf), i);
    LastWriteWins(Zeros(n, wr), n, wr, slots, Ranks(es), i);
  }

  class MPHR {
    /** `minimal_hash`, as the function `cmph_search` computes with it. */
    const search: Key -> nat
    /** `fp_value_store` */
    const fpValueStore: FingerPrintValueStore

    predicate Valid()
      reads fpValueStore.fpStore.store.bitArray, fpValueStore.rankStore.bitArray
    {
      fpValueStore.Valid()
    }

    /**
     * The build from an n-gram file when no saved hash or store exists:
     * the rank pass, the compressed rank store over its result, the
     * fingerprint pass, and the fingerprint-value store over all three.
     */
    constructor (lines: seq<Line>, count: seq<Byte> -> nat, search: Key -> nat, n: nat,
                 bitsPerFingerprint: nat, bitsPerRank: nat)
      requires bitsPerFingerprint <= HashBits && bitsPerRank <= W && |lines| < WordMod
      requires forall k: Key :: search(k) < n
      ensures Valid() && this.search == search
      ensures fpValueStore.values == Values(Entries(lines, count))
      ensures fpValueStore.fpStore.fingerPrintSize == bitsPerFingerprint
      ensures fpValueStore.fpStore.totalNumberOfElements == n
      ensures fpValueStore.rankStore.width == bitsPerRank
      ensures fpValueStore.fpStore.store.bitArray.bits
              == Fill(Zeros(n, bitsPerFingerprint), n, bitsPerFingerprint,
                      Slots(Entries(lines, count), search), Fps(Entries(lines, count), bitsPerFingerprint))
      ensures fpValueStore.rankStore.bitArray.bits
              == Fill(Zeros(n, bitsPerRank), n, bitsPerRank,
                      Slots(Entries(lines, count), search), Ranks(Entries(lines, count)))
    {
      var valueArray, ranks := StoreRanks(lines, count, search, n, bitsPerRank);
      var fpStore := new FingerPrintStore(n, bitsPerFingerprint);
      StoreFingerprints(lines, count, search, fpStore);
      this.search := search;
      fpValueStore := new FingerPrintValueStore(fpStore, ranks, valueArray);
    }

    /** `query(key)`: the fingerprint-value store's answer for the key's slot. */
    method Query(key: Key) returns (r: nat)
      requires Valid()
      ensures r == Answer(fpValueStore.fpStore.store.bitArray.bits, fpValueStore.fpStore.fingerPrintSize,
                          fpValueStore.rankStore.bitArray.bits, fpValueStore.rankStore.width,
                          fpValueStore.fpStore.totalNumberOfElements, fpValueStore.values, search(key), key)
    {
      var index := search(key);
      r := fpValueStore.Query(index, key);
    }
  }
}
