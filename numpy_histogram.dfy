/**
 * The part of `numpy.histogram` the scripts rely on, with integer samples and explicit
 * bin edges: bin i holds the samples v with edges[i] <= v < edges[i+1], the last bin
 * also holding v == its right edge, and samples outside all bins are dropped.
 * Sums and prefix sums of the resulting counts live here too.
 */
module NumpyHistogram {

  /** v falls into bin i of the given edges. */
  predicate InBin(v: int, edges: seq<real>, i: nat)
    requires i + 1 < |edges|
  {
    edges[i] <= v as real && (v as real < edges[i + 1] || (i + 2 == |edges| && v as real == edges[i + 1]))
  }

  /** The number of samples that fall into bin i. */
  function BinCount(values: seq<int>, edges: seq<real>, i: nat): nat
    requires i + 1 < |edges|
  {
    if values == [] then 0
    else BinCount(values[..|values| - 1], edges, i) + (if InBin(values[|values| - 1], edges, i) then 1 else 0)
  }

  /** The counts `numpy.histogram(values, bins=edges, density=False)` returns. */
  function Histogram(values: seq<int>, edges: seq<real>): (counts: seq<nat>)
    requires |edges| >= 1
    ensures |counts| == |edges| - 1
  {
    seq(|edges| - 1, i requires 0 <= i < |edges| - 1 => BinCount(values, edges, i))
  }

  /** The edges lo - 0.5, lo + 0.5, ..., lo + bins - 0.5: `bins` unit bins centred on lo .. lo + bins - 1. */
  function UnitEdges(lo: int, bins: nat): (edges: seq<real>)
    ensures |edges| == bins + 1
  {
    seq(bins + 1, k => (lo + k) as real - 0.5)
  }

  /** The number of samples equal to v. */
  function CountOf(values: seq<int>, v: int): nat
  {
    if values == [] then 0
    else CountOf(values[..|values| - 1], v) + (if values[|values| - 1] == v then 1 else 0)
  }

  /** The number of samples in lo .. hi - 1. */
  function CountInRange(values: seq<int>, lo: int, hi: int): nat
  {
    if values == [] then 0
    else CountInRange(values[..|values| - 1], lo, hi) + (if lo <= values[|values| - 1] < hi then 1 else 0)
  }

  function Sum(xs: seq<int>): int
  {
    if xs == [] then 0 else Sum(xs[..|xs| - 1]) + xs[|xs| - 1]
  }

  /** `[sum(xs[:i+1]) for i in range(len(xs))]` */
  function PrefixSums(xs: seq<int>): (ps: seq<int>)
    ensures |ps| == |xs|
  {
    seq(|xs|, i requires 0 <= i < |xs| => Sum(xs[..i + 1]))
  }

  predicate NonNegative(xs: seq<int>)
  {
    forall i :: 0 <= i < |xs| ==> xs[i] >= 0
  }

  predicate NonDecreasing(xs: seq<int>)
  {
    forall i, j :: 0 <= i <= j < |xs| ==> xs[i] <= xs[j]
  }

  // ---------------------------------------------------------------- lemmas

  /** An integer lies in a unit bin exactly when it is the bin's centre. */
  lemma UnitBinHoldsCentre(v: int, lo: int, bins: nat, i: nat)
    requires i < bins
    ensures InBin(v, UnitEdges(lo, bins), i) <==> v == lo + i
  {
    var e := UnitEdges(lo, bins);
    assert e[i] == (lo + i) as real - 0.5 && e[i + 1] == (lo + i + 1) as real - 0.5;
    if InBin(v, e, i) {
      assert (lo + i) as real - 0.5 <= v as real;
      assert v as real <= (lo + i + 1) as real - 0.5;
    }
  }

  lemma {:induction false} UnitBinCount(values: seq<int>, lo: int, bins: nat, i: nat)
    requires i < bins
    ensures BinCount(values, UnitEdges(lo, bins), i) == CountOf(values, lo + i)
    decreases |values|
  {
    if values != [] {
      UnitBinCount(values[..|values| - 1], lo, bins, i);
      UnitBinHoldsCentre(values[|values| - 1], lo, bins, i);
    }
  }

  /** With unit bins centred on integers, bin i counts the samples equal to lo + i. */
  lemma UnitHistogram(values: seq<int>, lo: int, bins: nat)
    ensures forall i :: 0 <= i < bins ==> Histogram(values, UnitEdges(lo, bins))[i] == CountOf(values, lo + i)
  {
    forall i | 0 <= i < bins
      ensures Histogram(values, UnitEdges(lo, bins))[i] == CountOf(values, lo + i)
    {
      UnitBinCount(values, lo, bins, i);
    }
  }

  lemma {:induction false} CountInRangeSplit(values: seq<int>, lo: int, hi: int)
    requires lo < hi
    ensures CountInRange(values, lo, hi) == CountInRange(values, lo, hi - 1) + CountOf(values, hi - 1)
    decreases |values|
  {
    if values != [] {
      CountInRangeSplit(values[..|values| - 1], lo, hi);
    }
  }

  lemma {:induction false} CountInEmptyRange(values: seq<int>, lo: int)
    ensures CountInRange(values, lo, lo) == 0
    decreases |values|
  {
    if values != [] {
      CountInEmptyRange(values[..|values| - 1], lo);
    }
  }

  /** The unit-bin counts add up to the number of samples in range; the others are dropped. */
  lemma {:induction false} UnitHistogramTotal(values: seq<int>, lo: int, bins: nat)
    ensures Sum(Histogram(values, UnitEdges(lo, bins))) == CountInRange(values, lo, lo + bins)
    decreases bins
  {
    var h := Histogram(values, UnitEdges(lo, bins));
    if bins == 0 {
      CountInEmptyRange(values, lo);
    } else {
      var h' := Histogram(values, UnitEdges(lo, bins - 1));
      UnitHistogram(values, lo, bins);
      UnitHistogram(values, lo, bins - 1);
      assert h[..bins - 1] == h';
      UnitHistogramTotal(values, lo, bins - 1);
      CountInRangeSplit(values, lo, lo + bins);
    }
  }

  lemma {:induction false} SumNonNegative(xs: seq<int>)
    requires NonNegative(xs)
    ensures Sum(xs) >= 0
    decreases |xs|
  {
    if xs != [] {
      SumNonNegative(xs[..|xs| - 1]);
    }
  }

  /** Prefix sums of non-negative numbers never decrease. */
  lemma PrefixSumsNonDecreasing(xs: seq<int>)
    requires NonNegative(xs)
    ensures NonDecreasing(PrefixSums(xs))
  {
    forall i, j | 0 <= i <= j < |xs|
      ensures PrefixSums(xs)[i] <= PrefixSums(xs)[j]
    {
      PrefixSumGrows(xs, i, j);
    }
  }

  /** Each prefix sum of non-negative numbers is at least its own element. */
  lemma PrefixSumsDominate(xs: seq<int>)
    requires NonNegative(xs)
    ensures forall i :: 0 <= i < |xs| ==> PrefixSums(xs)[i] >= xs[i]
  {
    forall i | 0 <= i < |xs|
      ensures PrefixSums(xs)[i] >= xs[i]
    {
      assert xs[..i + 1][..i] == xs[..i];
      assert NonNegative(xs[..i]);
      SumNonNegative(xs[..i]);
    }
  }

  /** The last prefix sum is the sum of everything. */
  lemma PrefixSumsLast(xs: seq<int>)
    requires xs != []
    ensures PrefixSums(xs)[|xs| - 1] == Sum(xs)
  {
    assert xs[..|xs|] == xs;
  }

  lemma {:induction false} PrefixSumGrows(xs: seq<int>, i: nat, j: nat)
    requires NonNegative(xs)
    requires i <= j < |xs|
    ensures Sum(xs[..i + 1]) <= Sum(xs[..j + 1])
    decreases j - i
  {
    if i < j {
      PrefixSumGrows(xs, i, j - 1);
      assert xs[..j + 1][..j] == xs[..j];
      assert xs[j] >= 0;
    }
  }
}
