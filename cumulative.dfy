/**
 * The cumulative transform `values_xy_for_graph_type`: a distribution, in
 * outcome order, is shown as is (NORMAL), as "at most" values, i.e. inclusive
 * prefix sums (AT_MOST), or as "at least" values, i.e. one minus the exclusive
 * prefix sums (AT_LEAST). Probabilities are exact reals here; the source
 * accumulates floating-point numbers.
 */
module Cumulative {

  import opened Histograms

  datatype GraphType = Normal | AtMost | AtLeast

  function Add(x: real, y: real): real { x + y }

  function Sub(x: real, y: real): real { x - y }

  /**
   * Python's `accumulate(p, op, initial=init)`: `init` followed by the running
   * results of folding `op` over `p`.
   */
  function Accumulate(p: seq<real>, op: (real, real) -> real, init: real): (r: seq<real>)
    ensures |r| == |p| + 1 && r[0] == init
  {
    [init] + (if p == [] then [] else Accumulate(p[1..], op, op(init, p[0])))
  }

  lemma {:induction false} AccumulateStep(p: seq<real>, op: (real, real) -> real, init: real, i: nat)
    requires i < |p|
    ensures Accumulate(p, op, init)[i + 1] == op(Accumulate(p, op, init)[i], p[i])
  {
    if i > 0 {
      AccumulateStep(p[1..], op, op(init, p[0]), i - 1);
    }
  }

  /** Accumulating with + from `init` gives `init` plus the exclusive prefix sums. */
  lemma {:induction false} AccumulateAdd(p: seq<real>, init: real, i: nat)
    requires i <= |p|
    ensures Accumulate(p, Add, init)[i] == init + Sum(p[..i])
  {
    if i > 0 {
      AccumulateAdd(p, init, i - 1);
      AccumulateStep(p, Add, init, i - 1);
      SumPrefixStep(p, i - 1);
    }
  }

  /** Accumulating with - from `init` gives `init` minus the exclusive prefix sums. */
  lemma {:induction false} AccumulateSub(p: seq<real>, init: real, i: nat)
    requires i <= |p|
    ensures Accumulate(p, Sub, init)[i] == init - Sum(p[..i])
  {
    if i > 0 {
      AccumulateSub(p, init, i - 1);
      AccumulateStep(p, Sub, init, i - 1);
      SumPrefixStep(p, i - 1);
    }
  }

  /** The (outcomes, values) pair plotted for distribution `d` under graph type `g`. */
  function ValuesXY(d: seq<Point>, g: GraphType): (r: (seq<int>, seq<real>))
    ensures r.0 == OutcomesOf(d)
    ensures |r.1| == |d|
    ensures g == Normal ==> r.1 == ProbabilitiesOf(d)
  {
    var outcomes, probabilities := OutcomesOf(d), ProbabilitiesOf(d);
    match g
    case AtLeast => (outcomes, Accumulate(probabilities, Sub, 1.0)[..|probabilities|])
    case AtMost => (outcomes, Accumulate(probabilities, Add, 0.0)[1..])
    case Normal => (outcomes, probabilities)
  }

  /** AT_MOST at index i is the sum of the probabilities at indices 0..i. */
  lemma AtMostIsInclusivePrefixSum(d: seq<Point>, i: nat)
    requires i < |d|
    ensures ValuesXY(d, AtMost).1[i] == Sum(ProbabilitiesOf(d)[..i + 1])
  {
    AccumulateAdd(ProbabilitiesOf(d), 0.0, i + 1);
  }

  /** AT_LEAST at index i is one minus the sum of the probabilities before i. */
  lemma AtLeastIsOneMinusExclusivePrefixSum(d: seq<Point>, i: nat)
    requires i < |d|
    ensures ValuesXY(d, AtLeast).1[i] == 1.0 - Sum(ProbabilitiesOf(d)[..i])
  {
    AccumulateSub(ProbabilitiesOf(d), 1.0, i);
  }

  /**
   * When the probabilities sum to one, the first AT_LEAST value and the last
   * AT_MOST value are both one.
   */
  lemma CumulativeBoundaries(d: seq<Point>)
    requires d != [] && Sum(ProbabilitiesOf(d)) == 1.0
    ensures ValuesXY(d, AtLeast).1[0] == 1.0
    ensures ValuesXY(d, AtMost).1[|d| - 1] == 1.0
  {
    AtLeastIsOneMinusExclusivePrefixSum(d, 0);
    AtMostIsInclusivePrefixSum(d, |d| - 1);
    assert ProbabilitiesOf(d)[..|d|] == ProbabilitiesOf(d);
  }

  /** A histogram's distribution meets the boundaries above. */
  lemma HistogramCumulativeBoundaries(h: Histogram)
    requires h != [] && Total(h) > 0
    ensures ValuesXY(Distribution(h), AtLeast).1[0] == 1.0
    ensures ValuesXY(Distribution(h), AtMost).1[|h| - 1] == 1.0
  {
    DistributionSumsToOne(h);
    CumulativeBoundaries(Distribution(h));
  }

  /**
   * When the probabilities sum to one, AT_LEAST at index i is the sum of the
   * probabilities at indices i and later.
   */
  lemma AtLeastIsSuffixSum(d: seq<Point>, i: nat)
    requires i < |d| && Sum(ProbabilitiesOf(d)) == 1.0
    ensures ValuesXY(d, AtLeast).1[i] == Sum(ProbabilitiesOf(d)[i..])
  {
    var p := ProbabilitiesOf(d);
    AtLeastIsOneMinusExclusivePrefixSum(d, i);
    assert p == p[..i] + p[i..];
    SumAppend(p[..i], p[i..]);
  }

  function Reverse<T>(s: seq<T>): (r: seq<T>)
    ensures |r| == |s| && forall i :: 0 <= i < |s| ==> r[i] == s[|s| - 1 - i]
  {
    seq(|s|, i requires 0 <= i < |s| => s[|s| - 1 - i])
  }

  lemma {:induction false} SumReverse(p: seq<real>)
    ensures Sum(Reverse(p)) == Sum(p)
  {
    if p != [] {
      SumReverse(p[1..]);
      assert Reverse(p) == Reverse(p[1..]) + [p[0]];
      SumAppend(Reverse(p[1..]), [p[0]]);
    }
  }

  /**
   * The duality of the two cumulative modes: for probabilities summing to one,
   * AT_MOST of a distribution is the reverse of AT_LEAST of the reversed
   * distribution.
   */
  lemma AtMostIsReversedAtLeastOfReversed(d: seq<Point>)
    requires Sum(ProbabilitiesOf(d)) == 1.0
    ensures ValuesXY(d, AtMost).1 == Reverse(ValuesXY(Reverse(d), AtLeast).1)
  {
    var lhs, rhs := ValuesXY(d, AtMost).1, Reverse(ValuesXY(Reverse(d), AtLeast).1);
    forall i | 0 <= i < |d|
      ensures lhs[i] == rhs[i]
    {
      DualityAt(d, i);
    }
  }

  lemma DualityAt(d: seq<Point>, i: nat)
    requires Sum(ProbabilitiesOf(d)) == 1.0 && i < |d|
    ensures ValuesXY(d, AtMost).1[i] == ValuesXY(Reverse(d), AtLeast).1[|d| - 1 - i]
  {
    var p, rd := ProbabilitiesOf(d), Reverse(d);
    var q := p[i + 1..];
    AtMostIsInclusivePrefixSum(d, i);
    AtLeastIsOneMinusExclusivePrefixSum(rd, |d| - 1 - i);
    ReversedPrefix(d, i);
    assert Sum(ProbabilitiesOf(rd)[..|d| - 1 - i]) == Sum(Reverse(q));
    SumReverse(q);
    SumSplit(p, i + 1);
  }

  /** The first probabilities of the reversed distribution are the last ones, reversed. */
  lemma ReversedPrefix(d: seq<Point>, i: nat)
    requires i < |d|
    ensures ProbabilitiesOf(Reverse(d))[..|d| - 1 - i] == Reverse(ProbabilitiesOf(d)[i + 1..])
  {
    var n, rd, q := |d|, Reverse(d), ProbabilitiesOf(d)[i + 1..];
    var a, b := ProbabilitiesOf(rd)[..n - 1 - i], Reverse(q);
    assert |a| == |b|;
    forall k | 0 <= k < |a|
      ensures a[k] == b[k]
    {
      assert a[k] == rd[k].probability == d[n - 1 - k].probability;
      assert b[k] == q[n - 2 - i - k];
    }
  }

  lemma SumSplit(p: seq<real>, i: nat)
    requires i <= |p|
    ensures Sum(p) == Sum(p[..i]) + Sum(p[i..])
  {
    assert p == p[..i] + p[i..];
    SumAppend(p[..i], p[i..]);
  }
}
