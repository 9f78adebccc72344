/**
 * The histogram abstraction that the visualizer consumes. The library that
 * provides histograms is not part of this model: a histogram is the sequence of
 * its (outcome, count) items in iteration order, and its distribution is the
 * sequence of (outcome, count / total) points in that order.
 */
module Histograms {

  /** One item of a histogram: an outcome and its (non-negative) count. */
  datatype Entry = Entry(outcome: int, count: nat)

  /** A histogram as its items in iteration order. */
  type Histogram = seq<Entry>

  /** One point of a distribution: an outcome and its probability. */
  datatype Point = Point(outcome: int, probability: real)

  /** The histogram's total count: the sum of its counts. */
  function Total(h: Histogram): nat {
    if h == [] then 0 else h[0].count + Total(h[1..])
  }

  /**
   * No single count exceeds the total, and the total is zero exactly when every
   * count is zero.
   */
  lemma {:induction false} TotalBoundsCounts(h: Histogram)
    ensures forall i :: 0 <= i < |h| ==> h[i].count <= Total(h)
    ensures Total(h) == 0 <==> forall i :: 0 <= i < |h| ==> h[i].count == 0
  {
    if h != [] {
      TotalBoundsCounts(h[1..]);
      assert forall i :: 1 <= i < |h| ==> h[i] == h[1..][i - 1];
    }
  }

  lemma {:induction false} TotalAppend(a: Histogram, b: Histogram)
    ensures Total(a + b) == Total(a) + Total(b)
  {
    if a == [] {
      assert a + b == b;
    } else {
      assert (a + b)[1..] == a[1..] + b;
      TotalAppend(a[1..], b);
    }
  }

  lemma TotalPrefixStep(s: Histogram, i: nat)
    requires i < |s|
    ensures Total(s[..i + 1]) == Total(s[..i]) + s[i].count
  {
    assert s[..i + 1] == s[..i] + [s[i]];
    TotalAppend(s[..i], [s[i]]);
  }

  /** Running totals over a prefix only grow, and never exceed the total. */
  lemma TotalPrefixMonotone(s: Histogram, i: nat, j: nat)
    requires i <= j <= |s|
    ensures Total(s[..i]) <= Total(s[..j]) <= Total(s)
  {
    assert s[..j] == s[..i] + s[i..j];
    TotalAppend(s[..i], s[i..j]);
    assert s == s[..j] + s[j..];
    TotalAppend(s[..j], s[j..]);
  }

  /** The sum of a sequence of probabilities. */
  function Sum(p: seq<real>): real {
    if p == [] then 0.0 else p[0] + Sum(p[1..])
  }

  lemma {:induction false} SumAppend(a: seq<real>, b: seq<real>)
    ensures Sum(a + b) == Sum(a) + Sum(b)
  {
    if a == [] {
      assert a + b == b;
    } else {
      assert (a + b)[1..] == a[1..] + b;
      SumAppend(a[1..], b);
    }
  }

  lemma SumPrefixStep(p: seq<real>, i: nat)
    requires i < |p|
    ensures Sum(p[..i + 1]) == Sum(p[..i]) + p[i]
  {
    assert p[..i + 1] == p[..i] + [p[i]];
    SumAppend(p[..i], [p[i]]);
  }

  function ProbabilitiesOf(d: seq<Point>): (p: seq<real>)
    ensures |p| == |d|
    ensures forall i :: 0 <= i < |d| ==> p[i] == d[i].probability
  {
    seq(|d|, i requires 0 <= i < |d| => d[i].probability)
  }

  function OutcomesOf(d: seq<Point>): (o: seq<int>)
    ensures |o| == |d|
    ensures forall i :: 0 <= i < |d| ==> o[i] == d[i].outcome
  {
    seq(|d|, i requires 0 <= i < |d| => d[i].outcome)
  }

  /** Each item's count divided by `denominator`, in order. */
  function Scaled(h: Histogram, denominator: real): (d: seq<Point>)
    requires denominator > 0.0
    ensures |d| == |h|
    ensures forall i :: 0 <= i < |h| ==>
      d[i] == Point(h[i].outcome, h[i].count as real / denominator)
  {
    if h == [] then [] else [Point(h[0].outcome, h[0].count as real / denominator)] + Scaled(h[1..], denominator)
  }

  /**
   * The histogram's distribution: each outcome with probability count / total.
   * The empty histogram has the empty distribution; a non-empty one whose counts
   * are all zero has none (its probabilities would divide by zero).
   */
  function Distribution(h: Histogram): (d: seq<Point>)
    requires h == [] || Total(h) > 0
    ensures |d| == |h|
    ensures forall i :: 0 <= i < |h| ==>
      d[i] == Point(h[i].outcome, h[i].count as real / Total(h) as real)
  {
    if h == [] then [] else Scaled(h, Total(h) as real)
  }

  lemma DivAdd(a: real, b: real, c: real)
    requires c > 0.0
    ensures a / c + b / c == (a + b) / c
  {
  }

  lemma {:induction false} ScaledSum(h: Histogram, denominator: real)
    requires denominator > 0.0
    ensures Sum(ProbabilitiesOf(Scaled(h, denominator))) == Total(h) as real / denominator
  {
    if h != [] {
      var p := ProbabilitiesOf(Scaled(h, denominator));
      assert p[1..] == ProbabilitiesOf(Scaled(h[1..], denominator));
      ScaledSum(h[1..], denominator);
      DivAdd(h[0].count as real, Total(h[1..]) as real, denominator);
    }
  }

  lemma DistributionIsScaled(h: Histogram)
    requires h != [] && Total(h) > 0
    ensures Distribution(h) == Scaled(h, Total(h) as real)
  {
  }

  lemma DivSelf(t: real)
    requires t > 0.0
    ensures t / t == 1.0
  {
  }

  /** The probabilities of a histogram with a positive total sum to one. */
  lemma DistributionSumsToOne(h: Histogram)
    requires Total(h) > 0
    ensures Sum(ProbabilitiesOf(Distribution(h))) == 1.0
  {
    var t := Total(h) as real;
    DistributionIsScaled(h);
    ScaledSum(h, t);
    DivSelf(t);
  }

  /** The sum of two six-sided dice (2 @ H(6)), used by the examples. */
  function TwoD6(): Histogram {
    [Entry(2, 1), Entry(3, 2), Entry(4, 3), Entry(5, 4), Entry(6, 5), Entry(7, 6),
     Entry(8, 5), Entry(9, 4), Entry(10, 3), Entry(11, 2), Entry(12, 1)]
  }

  /** The distribution of TwoD6, written out. */
  function TwoD6Points(): seq<Point> {
    [Point(2, 1.0 / 36.0), Point(3, 2.0 / 36.0), Point(4, 3.0 / 36.0), Point(5, 4.0 / 36.0),
     Point(6, 5.0 / 36.0), Point(7, 6.0 / 36.0), Point(8, 5.0 / 36.0), Point(9, 4.0 / 36.0),
     Point(10, 3.0 / 36.0), Point(11, 2.0 / 36.0), Point(12, 1.0 / 36.0)]
  }

  /*
   * The examples are proved about any sequence with the items of TwoD6 or
   * TwoD6Points: the solver then reasons one item at a time instead of about
   * the whole literal.
   */

  predicate IsTwoD6(h: Histogram) {
    |h| == 11 &&
    h[0] == Entry(2, 1) && h[1] == Entry(3, 2) && h[2] == Entry(4, 3) && h[3] == Entry(5, 4) &&
    h[4] == Entry(6, 5) && h[5] == Entry(7, 6) && h[6] == Entry(8, 5) && h[7] == Entry(9, 4) &&
    h[8] == Entry(10, 3) && h[9] == Entry(11, 2) && h[10] == Entry(12, 1)
  }

  predicate IsTwoD6Points(d: seq<Point>) {
    |d| == 11 &&
    d[0] == Point(2, 1.0 / 36.0) && d[1] == Point(3, 2.0 / 36.0) && d[2] == Point(4, 3.0 / 36.0) && d[3] == Point(5, 4.0 / 36.0) &&
    d[4] == Point(6, 5.0 / 36.0) && d[5] == Point(7, 6.0 / 36.0) && d[6] == Point(8, 5.0 / 36.0) && d[7] == Point(9, 4.0 / 36.0) &&
    d[8] == Point(10, 3.0 / 36.0) && d[9] == Point(11, 2.0 / 36.0) && d[10] == Point(12, 1.0 / 36.0)
  }

  lemma TwoD6Shapes()
    ensures IsTwoD6(TwoD6()) && IsTwoD6Points(TwoD6Points())
  {
  }

  lemma TotalOfTwoD6(h: Histogram)
    requires IsTwoD6(h)
    ensures Total(h) == 36
  {
    assert Total(h[10..]) == 1;
    assert Total(h[9..]) == 3;
    assert Total(h[8..]) == 6;
    assert Total(h[7..]) == 10;
    assert Total(h[6..]) == 15;
    assert Total(h[5..]) == 21;
    assert Total(h[4..]) == 26;
    assert Total(h[3..]) == 30;
    assert Total(h[2..]) == 33;
    assert Total(h[1..]) == 35;
  }

  /** The point at index i of a distribution, given the histogram's total. */
  lemma DistributionAt(h: Histogram, i: nat, t: nat, p: real)
    requires Total(h) == t > 0 && i < |h| && p == h[i].count as real / t as real
    ensures Distribution(h)[i] == Point(h[i].outcome, p)
  {
  }

  lemma DistributionOfTwoD6(h: Histogram)
    requires IsTwoD6(h)
    ensures IsTwoD6Points(Distribution(h))
  {
    TotalOfTwoD6(h);
    DistributionAt(h, 0, 36, 1.0 / 36.0);
    DistributionAt(h, 1, 36, 2.0 / 36.0);
    DistributionAt(h, 2, 36, 3.0 / 36.0);
    DistributionAt(h, 3, 36, 4.0 / 36.0);
    DistributionAt(h, 4, 36, 5.0 / 36.0);
    DistributionAt(h, 5, 36, 6.0 / 36.0);
    DistributionAt(h, 6, 36, 5.0 / 36.0);
    DistributionAt(h, 7, 36, 4.0 / 36.0);
    DistributionAt(h, 8, 36, 3.0 / 36.0);
    DistributionAt(h, 9, 36, 2.0 / 36.0);
    DistributionAt(h, 10, 36, 1.0 / 36.0);
  }

  /** Two sequences with the points of TwoD6Points are equal. */
  lemma TwoD6PointsUnique(d: seq<Point>, e: seq<Point>)
    requires IsTwoD6Points(d) && IsTwoD6Points(e)
    ensures d == e
  {
    assert forall i | 0 <= i < 11 :: d[i] == e[i];
  }

  /** The distribution of two six-sided dice: 1/36, 2/36, ..., 6/36, ..., 1/36. */
  lemma TwoD6Distribution()
    ensures Distribution(TwoD6()) == TwoD6Points()
  {
    TwoD6Shapes();
    DistributionOfTwoD6(TwoD6());
    TwoD6PointsUnique(Distribution(TwoD6()), TwoD6Points());
  }
}
