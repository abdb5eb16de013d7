/**
 * Streams made of one codeword per value, written one after another: where
 * each codeword starts, and how selecting in a stream that holds one mark
 * per codeword finds those places.
 */
module Codewords {
  import opened Streams

  /** The codewords of `vs` under the code `f`, one after another. */
  function Concat(f: nat -> seq<bool>, vs: seq<nat>): (r: seq<bool>)
  {
    if |vs| == 0 then [] else Concat(f, vs[..|vs| - 1]) + f(vs[|vs| - 1])
  }

  /** Where codeword i starts: the length of the codewords before it. */
  function Start(f: nat -> seq<bool>, vs: seq<nat>, i: nat): nat
    requires i <= |vs|
  {
    |Concat(f, vs[..i])|
  }

  /** The stream of one value more. */
  lemma ConcatStep(f: nat -> seq<bool>, vs: seq<nat>, i: nat)
    requires i < |vs|
    ensures Concat(f, vs[..i + 1]) == Concat(f, vs[..i]) + f(vs[i])
  {
    assert vs[..i + 1][..i] == vs[..i];
  }

  /** The stream of a prefix of the values is a prefix of the stream. */
  lemma {:induction false} ConcatPrefix(f: nat -> seq<bool>, vs: seq<nat>, i: nat)
    requires i <= |vs|
    ensures Start(f, vs, i) <= |Concat(f, vs)|
    ensures Concat(f, vs)[..Start(f, vs, i)] == Concat(f, vs[..i])
  {
    if i < |vs| {
      var init := vs[..|vs| - 1];
      assert init[..i] == vs[..i];
      ConcatPrefix(f, init, i);
    } else {
      assert vs[..i] == vs;
    }
  }

  /** The last start is the end of the stream. */
  lemma StartAll(f: nat -> seq<bool>, vs: seq<nat>)
    ensures Start(f, vs, |vs|) == |Concat(f, vs)|
  {
    assert vs[..|vs|] == vs;
  }

  /** Codeword i lies between the starts of values i and i + 1. */
  lemma CodewordAt(f: nat -> seq<bool>, vs: seq<nat>, i: nat)
    requires i < |vs|
    ensures Start(f, vs, i + 1) == Start(f, vs, i) + |f(vs[i])| <= |Concat(f, vs)|
    ensures Concat(f, vs)[Start(f, vs, i)..Start(f, vs, i + 1)] == f(vs[i])
  {
    ConcatStep(f, vs, i);
    ConcatPrefix(f, vs, i + 1);
    var c := Concat(f, vs);
    assert c[Start(f, vs, i)..Start(f, vs, i + 1)] == c[..Start(f, vs, i + 1)][Start(f, vs, i)..];
  }

  /** Codeword i, as a piece of the stream at its start. */
  lemma CodewordPlaced(f: nat -> seq<bool>, vs: seq<nat>, i: nat)
    requires i < |vs|
    ensures Start(f, vs, i) + |f(vs[i])| <= |Concat(f, vs)|
    ensures Concat(f, vs)[Start(f, vs, i)..Start(f, vs, i) + |f(vs[i])|] == f(vs[i])
  {
    CodewordAt(f, vs, i);
  }

  /** Two codes whose codewords are equally long lay their codewords out at the same places. */
  lemma {:induction false} SameLayout(f: nat -> seq<bool>, g: nat -> seq<bool>, vs: seq<nat>)
    requires forall v: nat :: |f(v)| == |g(v)|
    ensures |Concat(f, vs)| == |Concat(g, vs)|
  {
    if |vs| > 0 {
      SameLayout(f, g, vs[..|vs| - 1]);
    }
  }

  /** Every codeword of g holds exactly one mark. */
  ghost predicate OneMark(g: nat -> seq<bool>)
  {
    forall v: nat :: Ones(g(v)) == 1
  }

  /** A code of one mark per codeword puts one mark per value in the stream. */
  lemma {:induction false} OnesConcat(g: nat -> seq<bool>, vs: seq<nat>)
    requires OneMark(g)
    ensures Ones(Concat(g, vs)) == |vs|
  {
    if |vs| > 0 {
      OnesConcat(g, vs[..|vs| - 1]);
      OnesAppend(Concat(g, vs[..|vs| - 1]), g(vs[|vs| - 1]));
    }
  }

  /**
   * With one mark per codeword, mark i is the mark of codeword i: selecting
   * it finds where codeword i starts plus where the mark sits in it.
   */
  lemma SelectCodeword(g: nat -> seq<bool>, vs: seq<nat>, i: nat)
    requires OneMark(g)
    requires i < |vs|
    ensures i < Ones(Concat(g, vs))
    ensures Select(Concat(g, vs), i) == Start(g, vs, i) + Select(g(vs[i]), 0)
  {
    assert OneMark(g);
    assert Ones(g(vs[i])) == 1;
    OnesBefore(g, vs, i);
    CodewordPlaced(g, vs, i);
    MarkInside(Concat(g, vs), Start(g, vs, i), g(vs[i]), i);
  }

  /** The stream before codeword i holds i marks. */
  lemma OnesBefore(g: nat -> seq<bool>, vs: seq<nat>, i: nat)
    requires OneMark(g)
    requires i <= |vs|
    ensures Start(g, vs, i) <= |Concat(g, vs)| && Ones(Concat(g, vs)[..Start(g, vs, i)]) == i
  {
    OnesConcat(g, vs[..i]);
    ConcatPrefix(g, vs, i);
    assert |vs[..i]| == i;
  }

  /**
   * A piece with one mark, placed where the stream has i marks before it:
   * its mark is mark i of the stream.
   */
  lemma MarkInside(x: seq<bool>, p: nat, w: seq<bool>, i: nat)
    requires p + |w| <= |x| && x[p..p + |w|] == w && Ones(w) == 1
    requires Ones(x[..p]) == i
    ensures i < Ones(x) && Select(x, i) == p + Select(w, 0)
  {
    var q := Select(w, 0);
    RankIsOnes(x, p);
    RankInside(x, p, w, q);
    assert x[p + q] == w[q];
    SelectUnique(x, i, p + q);
  }

  /** Ranks inside a piece of a stream are the stream's ranks counted from the piece's start. */
  lemma {:induction false} RankInside(x: seq<bool>, p: nat, w: seq<bool>, q: nat)
    requires p + |w| <= |x| && x[p..p + |w|] == w && q <= |w|
    ensures Rank(x, p + q) == Rank(x, p) + Rank(w, q)
  {
    if q > 0 {
      RankInside(x, p, w, q - 1);
      assert x[p + q - 1] == w[q - 1];
    }
  }
}
