/**
 * The numeric part of `cumulative_probability_formatter`: a linear scan of a
 * distribution with exact (Fraction) accumulators le_total, starting at 0, and
 * ge_total, starting at 1. The rendered text is not modelled; a label keeps the
 * values it shows and where it shows them.
 */
module Formatter {

  import opened Histograms
  import opened Cumulative

  /**
   * `Short` is "outcome probability". `WithCumulative` is
   * "outcome probability; ≥afterGe; ≤afterLe": the source shows le_total after
   * "≥" and ge_total after "≤", and this model keeps that placement.
   */
  datatype Label =
    | Short(outcome: int, probability: real)
    | WithCumulative(outcome: int, probability: real, afterGe: real, afterLe: real)

  /** The first index of `x` among the outcomes of `d`, or |d| when absent. */
  function IndexOf(d: seq<Point>, x: int): (k: nat)
    ensures k <= |d|
    ensures k < |d| ==> d[k].outcome == x
    ensures forall j :: 0 <= j < k ==> d[j].outcome != x
  {
    if d == [] then 0
    else if d[0].outcome == x then 0
    else 1 + IndexOf(d[1..], x)
  }

  /**
   * The label the formatter produces, stated through the cumulative transform:
   * for an outcome found at index k it shows AT_MOST[k] after "≥" and
   * AT_LEAST[k] after "≤"; an outcome not found gets the short label.
   */
  function CumulativeLabel(outcome: int, probability: real, d: seq<Point>): (r: Label)
    ensures r.WithCumulative? <==> IndexOf(d, outcome) < |d|
    ensures r.outcome == outcome && r.probability == probability
    ensures var k, p := IndexOf(d, outcome), ProbabilitiesOf(d);
      k < |d| ==> r.afterGe == Sum(p[..k + 1]) && r.afterLe == 1.0 - Sum(p[..k])
  {
    var k := IndexOf(d, outcome);
    if k < |d| then
      AtMostIsInclusivePrefixSum(d, k);
      AtLeastIsOneMinusExclusivePrefixSum(d, k);
      WithCumulative(outcome, probability, ValuesXY(d, AtMost).1[k], ValuesXY(d, AtLeast).1[k])
    else
      Short(outcome, probability)
  }

  /** `cumulative_probability_formatter` with the source's scan and early return. */
  method CumulativeProbabilityFormatter(outcome: int, probability: real, d: seq<Point>) returns (shown: Label)
    ensures shown == CumulativeLabel(outcome, probability, d)
  {
    ghost var p := ProbabilitiesOf(d);
    var leTotal, geTotal := 0.0, 1.0;
    for i := 0 to |d|
      invariant leTotal == Sum(p[..i])
      invariant geTotal == 1.0 - Sum(p[..i])
      invariant forall j :: 0 <= j < i ==> d[j].outcome != outcome
    {
      SumPrefixStep(p, i);
      leTotal := leTotal + d[i].probability;
      if d[i].outcome == outcome {
        return WithCumulative(outcome, probability, leTotal, geTotal);
      }
      geTotal := geTotal - d[i].probability;
    }
    return Short(outcome, probability);
  }

  lemma TwoD6SevenSums(p: seq<real>)
    requires p == [1.0 / 36.0, 2.0 / 36.0, 3.0 / 36.0, 4.0 / 36.0, 5.0 / 36.0, 6.0 / 36.0]
    ensures Sum(p) == 7.0 / 12.0 && 1.0 - Sum(p[..5]) == 7.0 / 12.0
  {
    assert Sum(p[5..]) == 6.0 / 36.0;
    assert Sum(p[4..]) == 11.0 / 36.0;
    assert Sum(p[3..]) == 15.0 / 36.0;
    assert Sum(p[2..]) == 18.0 / 36.0;
    assert Sum(p[1..]) == 20.0 / 36.0;
    var q := p[..5];
    assert Sum(q[4..]) == 5.0 / 36.0;
    assert Sum(q[3..]) == 9.0 / 36.0;
    assert Sum(q[2..]) == 12.0 / 36.0;
    assert Sum(q[1..]) == 14.0 / 36.0;
  }

  lemma TwoD6SevenIndex(d: seq<Point>)
    requires IsTwoD6Points(d)
    ensures IndexOf(d, 7) == 5
    ensures ProbabilitiesOf(d)[..6] == [1.0 / 36.0, 2.0 / 36.0, 3.0 / 36.0, 4.0 / 36.0, 5.0 / 36.0, 6.0 / 36.0]
  {
    assert IndexOf(d[5..], 7) == 0;
    assert IndexOf(d[4..], 7) == 1;
    assert IndexOf(d[3..], 7) == 2;
    assert IndexOf(d[2..], 7) == 3;
    assert IndexOf(d[1..], 7) == 4;
  }

  lemma SevenOfTwoD6Points(d: seq<Point>)
    requires IsTwoD6Points(d)
    ensures CumulativeLabel(7, 1.0 / 6.0, d) == WithCumulative(7, 1.0 / 6.0, 7.0 / 12.0, 7.0 / 12.0)
  {
    var p := ProbabilitiesOf(d);
    TwoD6SevenIndex(d);
    assert p[..6][..5] == p[..5];
    TwoD6SevenSums(p[..6]);
  }

  /**
   * For two six-sided dice and outcome 7 (probability 1/6) both shown values
   * are 7/12.
   */
  lemma TwoD6Seven()
    ensures CumulativeLabel(7, 1.0 / 6.0, TwoD6Points()) == WithCumulative(7, 1.0 / 6.0, 7.0 / 12.0, 7.0 / 12.0)
  {
    TwoD6Shapes();
    SevenOfTwoD6Points(TwoD6Points());
  }

  /**
   * When the probabilities sum to one, the first outcome shows one after "≤"
   * and the last shows one after "≥" (the 100.00% entries of the two-dice
   * labels).
   */
  lemma FirstAndLastLabels(d: seq<Point>)
    requires d != [] && Sum(ProbabilitiesOf(d)) == 1.0
    requires forall j :: 0 <= j < |d| - 1 ==> d[j].outcome != d[|d| - 1].outcome
    ensures CumulativeLabel(d[0].outcome, d[0].probability, d).afterLe == 1.0
    ensures CumulativeLabel(d[|d| - 1].outcome, d[|d| - 1].probability, d).afterGe == 1.0
  {
    var n := |d|;
    assert IndexOf(d, d[0].outcome) == 0;
    var k := IndexOf(d, d[n - 1].outcome);
    assert k == n - 1;
    assert ProbabilitiesOf(d)[..n] == ProbabilitiesOf(d);
  }
}
