/**
 * The Fibonacci numbers as `CompressedValueStoreFibonacci` tabulates them
 * (1, 2, 3, 5, 8, ...) and Zeckendorf representations over them: digit j
 * of a representation stands for Fib(j), no two neighbouring digits are
 * set, and choosing greedily from the top finds the one representation of
 * every positive number.
 */
module Zeckendorf {

  /** Fib(k) and Fib(k + 1), computed together. */
  function FibPair(k: nat): (nat, nat)
  {
    if k == 0 then (1, 2) else var p := FibPair(k - 1); (p.1, p.0 + p.1)
  }

  /** Entry k of the table: 1, 2, 3, 5, 8, ... */
  function Fib(k: nat): nat
  {
    FibPair(k).0
  }

  /** The table starts with 1 and 2, and each later entry is the sum of the two before it. */
  lemma FibRecurrence(k: nat)
    ensures Fib(0) == 1 && Fib(1) == 2
    ensures Fib(k + 2) == Fib(k + 1) + Fib(k)
  {
  }

  /** The entries are positive and strictly increasing. */
  lemma {:induction false} FibGrows(k: nat)
    ensures 1 <= Fib(k) < Fib(k + 1)
  {
    FibRecurrence(0);
    if k > 0 {
      FibGrows(k - 1);
      FibRecurrence(k - 1);
    }
  }

  lemma {:induction false} FibLess(i: nat, j: nat)
    requires i < j
    ensures Fib(i) < Fib(j)
  {
    FibGrows(j - 1);
    if i < j - 1 {
      FibLess(i, j - 1);
    }
  }

  /** The number a digit string stands for: Fib(j) summed over its set digits j. */
  function Weight(ds: seq<bool>): nat
  {
    if |ds| == 0 then 0 else Weight(ds[..|ds| - 1]) + (if ds[|ds| - 1] then Fib(|ds| - 1) else 0)
  }

  /** No two neighbouring digits set. */
  ghost predicate NoAdjacent(ds: seq<bool>)
  {
    forall j | 0 < j < |ds| :: !(ds[j - 1] && ds[j])
  }

  /** ds is a Zeckendorf representation of v: top digit set, no neighbours set, standing for v. */
  ghost predicate Represents(v: nat, ds: seq<bool>)
  {
    |ds| >= 1 && ds[|ds| - 1] && NoAdjacent(ds) && Weight(ds) == v
  }

  /**
   * The greedy digits below j for val: digit j - 1 is set when Fib(j - 1)
   * fits, and the digits below it are chosen for what is left.
   */
  function Greedy(val: nat, j: nat): (ds: seq<bool>)
    ensures |ds| == j
  {
    if j == 0 then []
    else if Fib(j - 1) <= val then Greedy(val - Fib(j - 1), j - 1) + [true]
    else Greedy(val, j - 1) + [false]
  }

  /** The index of the largest entry not above v, searching up from k. */
  function TopFrom(v: nat, k: nat): (r: nat)
    requires Fib(k) <= v
    ensures k <= r && Fib(r) <= v < Fib(r + 1)
    decreases v - Fib(k)
  {
    FibGrows(k);
    if v < Fib(k + 1) then k else TopFrom(v, k + 1)
  }

  /** The index of the largest entry not above a positive v. */
  function Top(v: nat): (r: nat)
    requires 1 <= v
    ensures Fib(r) <= v < Fib(r + 1)
  {
    FibRecurrence(0);
    TopFrom(v, 0)
  }

  /** An entry not above v whose successor is above v is the largest such entry. */
  lemma TopUnique(v: nat, k: nat)
    requires Fib(k) <= v < Fib(k + 1)
    ensures 1 <= v && Top(v) == k
  {
    FibGrows(k);
    var t := Top(v);
    if t < k {
      if t + 1 < k {
        FibLess(t + 1, k);
      }
    } else if k < t {
      if k + 1 < t {
        FibLess(k + 1, t);
      }
    }
  }

  /** The Zeckendorf representation of a positive v: greedy from the largest entry not above it. */
  function Zeck(v: nat): (ds: seq<bool>)
    requires 1 <= v
    ensures |ds| == Top(v) + 1
  {
    Greedy(v, Top(v) + 1)
  }

  /** The greedy digits below j stand for any val below Fib(j), with no two neighbours set. */
  lemma {:induction false} GreedyWeight(val: nat, j: nat)
    requires val < Fib(j)
    ensures Weight(Greedy(val, j)) == val && NoAdjacent(Greedy(val, j))
  {
    if j == 0 {
      FibRecurrence(0);
    } else if Fib(j - 1) <= val {
      Remainder(val, j);
      GreedyWeight(val - Fib(j - 1), j - 1);
      Take(val, j);
    } else {
      GreedyWeight(val, j - 1);
      Skip(val, j);
    }
  }

  /** Taking Fib(j - 1) on top of the greedy digits of what is left. */
  lemma Take(val: nat, j: nat)
    requires 1 <= j && Fib(j - 1) <= val
    requires j >= 2 ==> val - Fib(j - 1) < Fib(j - 2)
    requires Weight(Greedy(val - Fib(j - 1), j - 1)) == val - Fib(j - 1)
    requires NoAdjacent(Greedy(val - Fib(j - 1), j - 1))
    ensures Weight(Greedy(val, j)) == val && NoAdjacent(Greedy(val, j))
  {
    var rest := Greedy(val - Fib(j - 1), j - 1);
    assert Greedy(val, j) == rest + [true];
    if j >= 2 {
      GreedyTop(val - Fib(j - 1), j - 1);
    }
    Snoc(rest, true);
  }

  /** Leaving digit j - 1 clear on top of the greedy digits below it. */
  lemma Skip(val: nat, j: nat)
    requires 1 <= j && val < Fib(j - 1)
    requires Weight(Greedy(val, j - 1)) == val && NoAdjacent(Greedy(val, j - 1))
    ensures Weight(Greedy(val, j)) == val && NoAdjacent(Greedy(val, j))
  {
    assert Greedy(val, j) == Greedy(val, j - 1) + [false];
    Snoc(Greedy(val, j - 1), false);
  }

  /** What is left once Fib(j - 1) is taken from a val below Fib(j) is below Fib(j - 2), and so below Fib(j - 1). */
  lemma Remainder(val: nat, j: nat)
    requires 1 <= j && Fib(j - 1) <= val < Fib(j)
    ensures val - Fib(j - 1) < Fib(j - 1)
    ensures j >= 2 ==> val - Fib(j - 1) < Fib(j - 2)
  {
    FibRecurrence(0);
    if j >= 2 {
      FibRecurrence(j - 2);
      FibGrows(j - 2);
    }
  }

  /** The top greedy digit is set exactly when its entry fits. */
  lemma GreedyTop(val: nat, j: nat)
    requires 1 <= j
    ensures Greedy(val, j)[j - 1] == (Fib(j - 1) <= val)
  {
  }

  /** One digit more on top. */
  lemma Snoc(ds: seq<bool>, b: bool)
    ensures Weight(ds + [b]) == Weight(ds) + (if b then Fib(|ds|) else 0)
    ensures NoAdjacent(ds) && !(b && |ds| > 0 && ds[|ds| - 1]) ==> NoAdjacent(ds + [b])
  {
    assert (ds + [b])[..|ds|] == ds;
  }

  /** Existence: the greedy digits are a Zeckendorf representation. */
  lemma ZeckRepresents(v: nat)
    requires 1 <= v
    ensures Represents(v, Zeck(v))
  {
    GreedyWeight(v, Top(v) + 1);
  }

  /** The digits before the top digit of a string without neighbours set, in a string of their own. */
  lemma NoAdjacentPrefix(ds: seq<bool>, n: nat)
    requires NoAdjacent(ds) && n <= |ds|
    ensures NoAdjacent(ds[..n])
  {
  }

  /** A string without neighbours set stands for less than the entry past its top digit. */
  lemma {:induction false} WeightBelow(ds: seq<bool>)
    requires NoAdjacent(ds)
    ensures Weight(ds) < Fib(|ds|)
  {
    FibRecurrence(0);
    var n := |ds|;
    if n > 0 {
      var init := ds[..n - 1];
      NoAdjacentPrefix(ds, n - 1);
      WeightBelow(init);
      if ds[n - 1] && n >= 2 {
        var init2 := ds[..n - 2];
        assert init[..n - 2] == init2;
        NoAdjacentPrefix(ds, n - 2);
        WeightBelow(init2);
        FibRecurrence(n - 2);
      } else if !ds[n - 1] {
        FibGrows(n - 1);
      }
    }
  }

  /** The greedy digits of what a string without neighbours set stands for are that string. */
  lemma {:induction false} GreedyRecovers(ds: seq<bool>)
    requires NoAdjacent(ds)
    ensures Greedy(Weight(ds), |ds|) == ds
  {
    var n := |ds|;
    if n > 0 {
      var init := ds[..n - 1];
      NoAdjacentPrefix(ds, n - 1);
      WeightBelow(init);
      GreedyRecovers(init);
      assert ds == init + [ds[n - 1]];
    }
  }

  /** Uniqueness (Zeckendorf's theorem): a positive number has no representation but the greedy one. */
  lemma ZeckUnique(v: nat, ds: seq<bool>)
    requires Represents(v, ds)
    ensures 1 <= v && ds == Zeck(v)
  {
    var n := |ds|;
    WeightBelow(ds);
    assert Fib(n - 1) <= v;
    TopUnique(v, n - 1);
    GreedyRecovers(ds);
  }
}
