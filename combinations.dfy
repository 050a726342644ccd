/** The enumeration behind `get_subsensor_signatures`: `itertools.combinations` over
    positions, taken for every size from the largest down to one. Combinations are
    represented by the strictly increasing positions they pick. */
module Combinations {

  /** `c` picks positions in `[lo, n)` in strictly increasing order: an order-preserving
      selection without repetition. */
  predicate Selection(c: seq<nat>, lo: nat, n: nat)
  {
    (forall k :: 0 <= k < |c| ==> lo <= c[k] < n) &&
    (forall j, k :: 0 <= j < k < |c| ==> c[j] < c[k])
  }

  /** Lexicographic order on position lists, as `itertools.combinations` emits them. */
  predicate LexLess(a: seq<nat>, b: seq<nat>)
  {
    |a| > 0 && |b| > 0 && (a[0] < b[0] || (a[0] == b[0] && LexLess(a[1..], b[1..])))
  }

  /** `[[x] + c for c in cs]`. */
  function Prepend(x: nat, cs: seq<seq<nat>>): (r: seq<seq<nat>>)
    ensures |r| == |cs|
    ensures forall i :: 0 <= i < |cs| ==> r[i] == [x] + cs[i]
  {
    if |cs| == 0 then [] else [[x] + cs[0]] + Prepend(x, cs[1..])
  }

  /** `itertools.combinations(range(lo, n), r)`, in the order it yields them. */
  function Combs(lo: nat, n: nat, r: nat): (cs: seq<seq<nat>>)
    ensures forall i :: 0 <= i < |cs| ==> |cs[i]| == r && Selection(cs[i], lo, n)
    decreases n - lo
  {
    if r == 0 then [[]]
    else if lo >= n then []
    else
      var first := Prepend(lo, Combs(lo + 1, n, r - 1));
      var rest := Combs(lo + 1, n, r);
      assert forall i :: 0 <= i < |first| ==> |first[i]| == r && Selection(first[i], lo, n) by {
        forall i | 0 <= i < |first| ensures |first[i]| == r && Selection(first[i], lo, n) {
          var c := Combs(lo + 1, n, r - 1)[i];
          assert first[i] == [lo] + c;
          assert forall k :: 0 < k < |first[i]| ==> first[i][k] == c[k - 1];
        }
      }
      first + rest
  }

  /** The number of `r`-element subsets of an `m`-element set. */
  function Binomial(m: nat, r: nat): nat
  {
    if r == 0 then 1
    else if m == 0 then 0
    else Binomial(m - 1, r - 1) + Binomial(m - 1, r)
  }

  function Pow2(n: nat): nat
  {
    if n == 0 then 1 else 2 * Pow2(n - 1)
  }

  /** `C(m, 0) + C(m, 1) + ... + C(m, r)`. */
  function BinomialSum(m: nat, r: nat): nat
  {
    Binomial(m, r) + (if r == 0 then 0 else BinomialSum(m, r - 1))
  }

  /** There are `C(n - lo, r)` combinations. */
  lemma {:induction false} CombsCount(lo: nat, n: nat, r: nat)
    requires lo <= n
    ensures |Combs(lo, n, r)| == Binomial(n - lo, r)
    decreases n - lo
  {
    if r > 0 && lo < n {
      CombsCount(lo + 1, n, r - 1);
      CombsCount(lo + 1, n, r);
    }
  }

  /** Combinations come out in strictly increasing lexicographic order, so none repeats. */
  lemma {:induction false} CombsOrdered(lo: nat, n: nat, r: nat)
    ensures forall i, j :: 0 <= i < j < |Combs(lo, n, r)| ==> LexLess(Combs(lo, n, r)[i], Combs(lo, n, r)[j])
    decreases n - lo
  {
    if r > 0 && lo < n {
      var tail := Combs(lo + 1, n, r - 1);
      var first := Prepend(lo, tail);
      var rest := Combs(lo + 1, n, r);
      var cs := Combs(lo, n, r);
      assert cs == first + rest;
      CombsOrdered(lo + 1, n, r - 1);
      CombsOrdered(lo + 1, n, r);
      forall i, j | 0 <= i < j < |cs| ensures LexLess(cs[i], cs[j]) {
        if j < |first| {
          assert cs[i] == [lo] + tail[i] && cs[j] == [lo] + tail[j];
          assert LexLess(tail[i], tail[j]);
          assert cs[i][1..] == tail[i] && cs[j][1..] == tail[j];
        } else if i < |first| {
          assert cs[i] == [lo] + tail[i];
          assert cs[j] == rest[j - |first|];
          assert Selection(rest[j - |first|], lo + 1, n) && |rest[j - |first|]| == r;
        } else {
          assert cs[i] == rest[i - |first|] && cs[j] == rest[j - |first|];
        }
      }
    }
  }

  /** Dropping the first pick of a selection leaves a selection above that pick. */
  lemma SelectionTail(c: seq<nat>, lo: nat, n: nat)
    requires |c| > 0 && Selection(c, lo, n)
    ensures lo <= c[0] < n && Selection(c[1..], c[0] + 1, n)
  {
    var t := c[1..];
    forall k | 0 <= k < |t| ensures c[0] + 1 <= t[k] < n {
      assert t[k] == c[k + 1];
    }
    forall j, k | 0 <= j < k < |t| ensures t[j] < t[k] {
      assert t[j] == c[j + 1] && t[k] == c[k + 1];
    }
  }

  /** A selection whose first pick is above `lo` picks only above `lo`. */
  lemma SelectionRaise(c: seq<nat>, lo: nat, n: nat)
    requires |c| > 0 && Selection(c, lo, n) && c[0] > lo
    ensures Selection(c, lo + 1, n)
  {
    forall k | 0 <= k < |c| ensures lo + 1 <= c[k] {
      if k > 0 { assert c[0] < c[k]; }
    }
  }

  lemma CombsUnfold(lo: nat, n: nat, r: nat)
    requires r > 0 && lo < n
    ensures Combs(lo, n, r) == Prepend(lo, Combs(lo + 1, n, r - 1)) + Combs(lo + 1, n, r)
  {
  }

  lemma PrependMember(x: nat, cs: seq<seq<nat>>, t: seq<nat>)
    requires t in cs
    ensures [x] + t in Prepend(x, cs)
  {
    var i :| 0 <= i < |cs| && cs[i] == t;
    assert Prepend(x, cs)[i] == [x] + t;
  }

  lemma AppendMember(xs: seq<seq<nat>>, ys: seq<seq<nat>>, c: seq<nat>)
    requires c in ys
    ensures c in xs + ys
  {
    var i :| 0 <= i < |ys| && ys[i] == c;
    assert (xs + ys)[|xs| + i] == c;
  }

  /** Every selection of `r` positions in `[lo, n)` is among the combinations. */
  lemma {:induction false} CombsComplete(lo: nat, n: nat, r: nat, c: seq<nat>)
    requires |c| == r && Selection(c, lo, n)
    ensures c in Combs(lo, n, r)
    decreases n - lo
  {
    if r > 0 {
      SelectionTail(c, lo, n);
      CombsUnfold(lo, n, r);
      if c[0] == lo {
        CombsComplete(lo + 1, n, r - 1, c[1..]);
        PrependMember(lo, Combs(lo + 1, n, r - 1), c[1..]);
        assert c == [lo] + c[1..];
      } else {
        SelectionRaise(c, lo, n);
        CombsComplete(lo + 1, n, r, c);
        AppendMember(Prepend(lo, Combs(lo + 1, n, r - 1)), Combs(lo + 1, n, r), c);
      }
    } else {
      assert c == [];
    }
  }

  /** The combinations of every size from `r` down to 1, largest first: the two nested
      loops of `get_subsensor_signatures` over positions `0 .. n-1`. */
  function BySize(n: nat, r: nat): (cs: seq<seq<nat>>)
    ensures forall i :: 0 <= i < |cs| ==> 1 <= |cs[i]| <= r && Selection(cs[i], 0, n)
  {
    if r == 0 then [] else Combs(0, n, r) + BySize(n, r - 1)
  }

  /** Every non-empty selection of positions `0 .. n-1`, largest first. */
  function Subsets(n: nat): seq<seq<nat>>
  {
    BySize(n, n)
  }

  lemma {:induction false} BySizeCount(n: nat, r: nat)
    ensures |BySize(n, r)| + 1 == BinomialSum(n, r)
  {
    CombsCount(0, n, r);
    if r > 0 {
      BySizeCount(n, r - 1);
    }
  }

  lemma {:induction false} BinomialAbove(m: nat, r: nat)
    requires r > m
    ensures Binomial(m, r) == 0
  {
    if m > 0 {
      BinomialAbove(m - 1, r - 1);
      BinomialAbove(m - 1, r);
    }
  }

  lemma {:induction false} BinomialSumStep(m: nat, r: nat)
    requires r >= 1
    ensures BinomialSum(m + 1, r) == BinomialSum(m, r) + BinomialSum(m, r - 1)
  {
    if r > 1 {
      BinomialSumStep(m, r - 1);
    }
  }

  lemma {:induction false} BinomialSumAll(m: nat)
    ensures BinomialSum(m, m) == Pow2(m)
  {
    if m > 0 {
      BinomialSumAll(m - 1);
      BinomialSumStep(m - 1, m);
      BinomialAbove(m - 1, m);
    }
  }

  /** A set of `n` positions has `2^n - 1` non-empty subsets, and each is listed once. */
  lemma SubsetsCount(n: nat)
    ensures |Subsets(n)| == Pow2(n) - 1
  {
    BySizeCount(n, n);
    BinomialSumAll(n);
  }

  /** Sizes never increase along the list, and within one size the order is lexicographic. */
  lemma {:induction false} BySizeOrdered(n: nat, r: nat)
    ensures forall i, j :: 0 <= i < j < |BySize(n, r)| ==>
      |BySize(n, r)[i]| > |BySize(n, r)[j]| ||
      (|BySize(n, r)[i]| == |BySize(n, r)[j]| && LexLess(BySize(n, r)[i], BySize(n, r)[j]))
  {
    if r > 0 {
      var head := Combs(0, n, r);
      var tail := BySize(n, r - 1);
      var cs := BySize(n, r);
      assert cs == head + tail;
      CombsOrdered(0, n, r);
      BySizeOrdered(n, r - 1);
      forall i, j | 0 <= i < j < |cs|
        ensures |cs[i]| > |cs[j]| || (|cs[i]| == |cs[j]| && LexLess(cs[i], cs[j]))
      {
        if j < |head| {
          assert cs[i] == head[i] && cs[j] == head[j];
        } else if i < |head| {
          assert cs[i] == head[i] && cs[j] == tail[j - |head|];
        } else {
          assert cs[i] == tail[i - |head|] && cs[j] == tail[j - |head|];
        }
      }
    }
  }

  lemma SubsetsOrdered(n: nat)
    ensures forall i, j :: 0 <= i < j < |Subsets(n)| ==>
      |Subsets(n)[i]| > |Subsets(n)[j]| ||
      (|Subsets(n)[i]| == |Subsets(n)[j]| && LexLess(Subsets(n)[i], Subsets(n)[j]))
  {
    BySizeOrdered(n, n);
  }

  /** `LexLess` is irreflexive, so an ordered list has no repeats. */
  lemma {:induction false} LexLessIrreflexive(a: seq<nat>)
    ensures !LexLess(a, a)
  {
    if |a| > 0 {
      LexLessIrreflexive(a[1..]);
    }
  }

  lemma {:induction false} BySizeComplete(n: nat, r: nat, c: seq<nat>)
    requires 1 <= |c| <= r && Selection(c, 0, n)
    ensures c in BySize(n, r)
  {
    if |c| == r {
      CombsComplete(0, n, r, c);
    } else {
      BySizeComplete(n, r - 1, c);
    }
  }

  /** The subsets are exactly the non-empty selections: each listed one is a selection,
      every selection is listed, and none is listed twice. */
  lemma SubsetsExact(n: nat)
    ensures forall c :: c in Subsets(n) <==> |c| >= 1 && Selection(c, 0, n)
    ensures forall i, j :: 0 <= i < j < |Subsets(n)| ==> Subsets(n)[i] != Subsets(n)[j]
  {
    forall c | |c| >= 1 && Selection(c, 0, n) ensures c in Subsets(n) {
      assert |c| <= n by { SelectionBound(c, 0, n); }
      BySizeComplete(n, n, c);
    }
    SubsetsOrdered(n);
    forall i, j | 0 <= i < j < |Subsets(n)| ensures Subsets(n)[i] != Subsets(n)[j] {
      LexLessIrreflexive(Subsets(n)[i]);
    }
  }

  /** Every non-empty selection is listed. */
  lemma SubsetsListed(n: nat, c: seq<nat>)
    requires |c| >= 1 && Selection(c, 0, n)
    ensures c in Subsets(n)
  {
    SubsetsExact(n);
  }

  /** Every listed subset is a non-empty selection. */
  lemma SubsetIsSelection(n: nat, i: nat)
    requires i < |Subsets(n)|
    ensures |Subsets(n)[i]| >= 1 && Selection(Subsets(n)[i], 0, n)
  {
    SubsetsExact(n);
    assert Subsets(n)[i] in Subsets(n);
  }

  /** A strictly increasing list of positions in `[lo, n)` has at most `n - lo` entries. */
  lemma {:induction false} SelectionBound(c: seq<nat>, lo: nat, n: nat)
    requires lo <= n && Selection(c, lo, n)
    ensures |c| + lo <= n
    decreases |c|
  {
    if |c| > 0 {
      SelectionTail(c, lo, n);
      SelectionBound(c[1..], c[0] + 1, n);
    }
  }

  /** `[xs[i] for i in c]`: the elements a selection picks. */
  function Pick<T>(xs: seq<T>, c: seq<nat>): (r: seq<T>)
    requires forall k :: 0 <= k < |c| ==> c[k] < |xs|
    ensures |r| == |c|
    ensures forall k :: 0 <= k < |c| ==> r[k] == xs[c[k]]
  {
    if |c| == 0 then [] else [xs[c[0]]] + Pick(xs, c[1..])
  }
}
