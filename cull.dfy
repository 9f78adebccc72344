/**
 * The display-cutoff culler `limit_for_display`: it discards the items with
 * the smallest counts, in stable ascending-count order, for as long as the
 * running total of discarded counts stays within the integer budget
 * floor(cutoff * total).
 */
module Cull {

  import opened Wrappers
  import opened Histograms
  import opened StableSort

  /** The error raised for a cutoff outside [0, 1]. */
  datatype Error = CutoffOutOfRange(cutoff: real)

  /** The default cutoff, 1 / 2^13. */
  const DefaultCutoff: real := 1.0 / 8192.0

  lemma MulNonneg(x: real, y: real)
    requires x >= 0.0 && y >= 0.0
    ensures x * y >= 0.0
  {
  }

  lemma MulMonotone(x: real, y: real, t: real)
    requires x <= y && t >= 0.0
    ensures x * t <= y * t
  {
    MulNonneg(y - x, t);
    assert (y - x) * t == y * t - x * t;
  }

  /**
   * The integer budget int(cutoff * total). Python's int() truncates toward
   * zero, which is the floor here because the product is never negative.
   */
  function CutoffCount(h: Histogram, cutoff: real): (n: nat)
    requires 0.0 <= cutoff <= 1.0
    ensures n <= Total(h)
    ensures n as real <= cutoff * Total(h) as real < n as real + 1.0
  {
    var t := Total(h) as real;
    MulNonneg(cutoff, t);
    MulMonotone(cutoff, 1.0, t);
    assert cutoff * t <= t;
    (cutoff * t).Floor
  }

  lemma FloorMonotone(x: real, y: real)
    requires x <= y
    ensures x.Floor <= y.Floor
  {
  }

  lemma CutoffCountMonotone(h: Histogram, c1: real, c2: real)
    requires 0.0 <= c1 <= c2 <= 1.0
    ensures CutoffCount(h, c1) <= CutoffCount(h, c2)
  {
    var t := Total(h) as real;
    MulMonotone(c1, c2, t);
    FloorMonotone(c1 * t, c2 * t);
  }

  /**
   * The number of leading items of `s` that the running sum has not yet pushed
   * past `budget`.
   */
  function DropCount(s: Histogram, budget: nat): (k: nat)
    ensures k <= |s|
    ensures k == |s| <==> Total(s) <= budget
  {
    if s == [] || budget < s[0].count then 0
    else 1 + DropCount(s[1..], budget - s[0].count)
  }

  /**
   * DropCount is the length of the longest prefix of `s` whose total stays
   * within `budget`: that prefix's total is within it, and one more item
   * would exceed it.
   */
  lemma {:induction false} DropCountIsLongestPrefix(s: Histogram, budget: nat)
    ensures Total(s[..DropCount(s, budget)]) <= budget
    ensures DropCount(s, budget) < |s| ==> budget < Total(s[..DropCount(s, budget) + 1])
  {
    if s == [] {
    } else if budget < s[0].count {
      assert s[..1] == [s[0]];
    } else {
      var t := s[1..];
      var b := budget - s[0].count;
      var k := DropCount(t, b);
      DropCountIsLongestPrefix(t, b);
      assert s[..k + 1] == [s[0]] + t[..k];
      assert ([s[0]] + t[..k])[1..] == t[..k];
      if k < |t| {
        assert s[..k + 2] == [s[0]] + t[..k + 1];
        assert ([s[0]] + t[..k + 1])[1..] == t[..k + 1];
      }
    }
  }

  /**
   * Whether the running sum after the item at index i exceeds the budget,
   * which is the source's per-item test, is decided by i's position relative
   * to DropCount.
   */
  lemma PastBudget(s: Histogram, budget: nat, i: nat)
    requires i < |s|
    ensures budget < Total(s[..i + 1]) <==> DropCount(s, budget) <= i
  {
    var k := DropCount(s, budget);
    DropCountIsLongestPrefix(s, budget);
    if k <= i {
      TotalPrefixMonotone(s, k + 1, i + 1);
    } else {
      TotalPrefixMonotone(s, i + 1, k);
    }
  }

  /** The reference definition of `limit_for_display`'s outcome. */
  function Limited(h: Histogram, cutoff: real): (r: Result<Histogram, Error>)
    ensures r.Err? <==> cutoff < 0.0 || cutoff > 1.0
    ensures r.Err? ==> r.error == CutoffOutOfRange(cutoff)
    ensures r.Ok? && CutoffCount(h, cutoff) == 0 ==> r.value == h
    ensures r.Ok? ==> forall e :: e in r.value ==> e in h
  {
    if cutoff < 0.0 || cutoff > 1.0 then Err(CutoffOutOfRange(cutoff))
    else
      var budget := CutoffCount(h, cutoff);
      if budget == 0 then Ok(h)
      else
        var s := SortByCount(h);
        var k := DropCount(s, budget);
        assert forall e :: e in s[k..] ==> e in multiset(s);
        Ok(s[k..])
  }

  /**
   * The inner generator `_cull`: walks the sorted items with the running sum
   * `so_far` and keeps each item once the sum exceeds the budget.
   */
  method CullSorted(sorted: Histogram, cutoffCount: nat) returns (kept: Histogram)
    ensures kept == sorted[DropCount(sorted, cutoffCount)..]
  {
    ghost var k := DropCount(sorted, cutoffCount);
    var soFar := 0;
    kept := [];
    for i := 0 to |sorted|
      invariant soFar == Total(sorted[..i])
      invariant kept == sorted[if i < k then i else k..i]
    {
      TotalPrefixStep(sorted, i);
      PastBudget(sorted, cutoffCount, i);
      soFar := soFar + sorted[i].count;
      if soFar > cutoffCount {
        assert sorted[k..i + 1] == sorted[k..i] + [sorted[i]];
        kept := kept + [sorted[i]];
      }
    }
  }

  /** `limit_for_display`: validation, the budget, the identity case, then the cull. */
  method LimitForDisplay(h: Histogram, cutoff: real) returns (r: Result<Histogram, Error>)
    ensures r == Limited(h, cutoff)
  {
    if cutoff < 0.0 || cutoff > 1.0 {
      return Err(CutoffOutOfRange(cutoff));
    }
    var cutoffCount := CutoffCount(h, cutoff);
    if cutoffCount == 0 {
      return Ok(h);
    }
    var kept := CullSorted(SortByCount(h), cutoffCount);
    return Ok(kept);
  }

  /** A zero cutoff, and any valid cutoff of the empty histogram, return `h` itself. */
  lemma ZeroBudgetIsIdentity(h: Histogram, cutoff: real)
    requires 0.0 <= cutoff <= 1.0
    requires cutoff == 0.0 || h == []
    ensures Limited(h, cutoff) == Ok(h)
  {
  }

  /**
   * When something is culled, the discarded items are a prefix of the stable
   * ascending-count order, their total is within the budget, and the first
   * retained item is the one whose count carries the running sum past it, so
   * that item and every later one are kept.
   */
  lemma CulledIsGreedyPrefix(h: Histogram, cutoff: real)
    requires 0.0 <= cutoff <= 1.0 && CutoffCount(h, cutoff) > 0
    ensures var s, v, b := SortByCount(h), Limited(h, cutoff).value, CutoffCount(h, cutoff);
      var k := |s| - |v|;
      && |v| <= |s|
      && v == s[k..]
      && Total(s[..k]) <= b
      && (k < |s| ==> b < Total(s[..k + 1]))
  {
    var s, b := SortByCount(h), CutoffCount(h, cutoff);
    KeptAfterDropped(h, cutoff);
    var v := Limited(h, cutoff).value;
    assert v == s[DropCount(s, b)..];
    KeptSuffix(s, b, v);
    assert |s| - |v| == DropCount(s, b);
  }

  /** With a positive budget, the result is what follows the dropped prefix. */
  lemma KeptAfterDropped(h: Histogram, cutoff: real)
    requires 0.0 <= cutoff <= 1.0 && CutoffCount(h, cutoff) > 0
    ensures var s := SortByCount(h);
      Limited(h, cutoff) == Ok(s[DropCount(s, CutoffCount(h, cutoff))..])
  {
  }

  lemma KeptSuffix(s: Histogram, b: nat, v: Histogram)
    requires v == s[DropCount(s, b)..]
    ensures var k := |s| - |v|;
      && |v| <= |s|
      && v == s[k..]
      && Total(s[..k]) <= b
      && (k < |s| ==> b < Total(s[..k + 1]))
  {
    var k := DropCount(s, b);
    DropCountIsLongestPrefix(s, b);
    assert |v| == |s| - k;
  }

  lemma AtMostBudgetIsWithinCutoff(h: Histogram, cutoff: real, n: int)
    requires 0.0 <= cutoff <= 1.0 && n <= CutoffCount(h, cutoff)
    ensures n as real <= cutoff * Total(h) as real
  {
  }

  /** The discarded mass, as a fraction of the total, never exceeds `cutoff`. */
  lemma DiscardedWithinCutoff(h: Histogram, cutoff: real)
    requires 0.0 <= cutoff <= 1.0
    ensures var v := Limited(h, cutoff).value;
      && Total(v) <= Total(h)
      && Total(h) - Total(v) <= CutoffCount(h, cutoff)
      && (Total(h) - Total(v)) as real <= cutoff * Total(h) as real
  {
    var v := Limited(h, cutoff).value;
    var budget := CutoffCount(h, cutoff);
    if budget > 0 {
      var s := SortByCount(h);
      var k := DropCount(s, budget);
      DropCountIsLongestPrefix(s, budget);
      assert v == s[k..];
      assert s == s[..k] + s[k..];
      TotalAppend(s[..k], s[k..]);
    }
    var discarded: int := Total(h) - Total(v);
    assert discarded <= budget;
    AtMostBudgetIsWithinCutoff(h, cutoff, discarded);
  }

  /** With cutoff 1, a histogram with a positive total is culled entirely. */
  lemma CutoffOneCullsAll(h: Histogram)
    requires Total(h) > 0
    ensures Limited(h, 1.0) == Ok([])
  {
    var s := SortByCount(h);
    var t := Total(h);
    assert 1.0 * t as real == t as real;
    assert CutoffCount(h, 1.0) == t;
    var k := DropCount(s, t);
    assert Total(s) == t;
    assert k == |s|;
    assert s[k..] == [];
  }

  lemma {:induction false} DropCountMonotone(s: Histogram, b1: nat, b2: nat)
    requires b1 <= b2
    ensures DropCount(s, b1) <= DropCount(s, b2)
  {
    if s != [] && s[0].count <= b1 {
      DropCountMonotone(s[1..], b1 - s[0].count, b2 - s[0].count);
    }
  }

  /**
   * A larger cutoff retains a subset of what a smaller one retains; when both
   * cull, the larger one's result is a suffix of the smaller one's.
   */
  lemma CullMonotone(h: Histogram, c1: real, c2: real)
    requires 0.0 <= c1 <= c2 <= 1.0
    ensures forall e :: e in Limited(h, c2).value ==> e in Limited(h, c1).value
    ensures CutoffCount(h, c1) > 0 ==>
      var v1, v2 := Limited(h, c1).value, Limited(h, c2).value;
      |v2| <= |v1| && v2 == v1[|v1| - |v2|..]
  {
    var b1, b2 := CutoffCount(h, c1), CutoffCount(h, c2);
    CutoffCountMonotone(h, c1, c2);
    if b1 > 0 {
      var s := SortByCount(h);
      var k1, k2 := DropCount(s, b1), DropCount(s, b2);
      DropCountMonotone(s, b1, b2);
      KeptAfterDropped(h, c1);
      KeptAfterDropped(h, c2);
      var v1, v2 := Limited(h, c1).value, Limited(h, c2).value;
      assert v1 == s[k1..] && v2 == s[k2..];
      SuffixOfSuffix(s, k1, k2);
    }
  }

  lemma SuffixOfSuffix(s: Histogram, k1: nat, k2: nat)
    requires k1 <= k2 <= |s|
    ensures s[k2..] == s[k1..][k2 - k1..]
    ensures forall e :: e in s[k2..] ==> e in s[k1..]
  {
  }

  /**
   * With the default cutoff of 1/8192, a histogram whose total is below 8192
   * has a zero budget and is returned unchanged.
   */
  lemma DefaultCutoffKeepsSmallHistograms(h: Histogram)
    requires Total(h) < 8192
    ensures Limited(h, DefaultCutoff) == Ok(h)
  {
    var t := Total(h) as real;
    assert DefaultCutoff * t < 1.0;
    assert CutoffCount(h, DefaultCutoff) == 0;
  }

  /** The example of the source's documentation: H({1: 1, ..., 6: 6}). */
  function OneToSix(): Histogram {
    [Entry(1, 1), Entry(2, 2), Entry(3, 3), Entry(4, 4), Entry(5, 5), Entry(6, 6)]
  }

  /*
   * As with the two-dice examples, the facts are proved about any histogram
   * with the items of OneToSix, one item at a time.
   */

  predicate IsOneToSix(h: Histogram) {
    |h| == 6 &&
    h[0] == Entry(1, 1) && h[1] == Entry(2, 2) && h[2] == Entry(3, 3) &&
    h[3] == Entry(4, 4) && h[4] == Entry(5, 5) && h[5] == Entry(6, 6)
  }

  lemma OneToSixFacts(h: Histogram)
    requires IsOneToSix(h)
    ensures Total(h) == 21
    ensures SortByCount(h) == h
  {
    assert Total(h[5..]) == 6;
    assert Total(h[4..]) == 11;
    assert Total(h[3..]) == 15;
    assert Total(h[2..]) == 18;
    assert Total(h[1..]) == 20;
    SortByCountIsTheStableSort(h, h);
  }

  lemma OneToSixBudgets(h: Histogram)
    requires Total(h) == 21
    ensures CutoffCount(h, 5.0 / 21.0) == 5
    ensures CutoffCount(h, 6.0 / 21.0) == 6
  {
    assert 5.0 / 21.0 * 21.0 == 5.0;
    assert 6.0 / 21.0 * 21.0 == 6.0;
  }

  lemma OneToSixDropCounts(h: Histogram)
    requires IsOneToSix(h)
    ensures DropCount(h, 5) == 2
    ensures DropCount(h, 6) == 3
  {
    assert DropCount(h[2..], 2) == 0;
    assert DropCount(h[1..], 4) == 1;
    assert DropCount(h[3..], 0) == 0;
    assert DropCount(h[2..], 3) == 1;
    assert DropCount(h[1..], 5) == 2;
  }

  lemma OneToSixCulls(h: Histogram)
    requires IsOneToSix(h)
    ensures Limited(h, 5.0 / 21.0) == Ok(h[2..])
    ensures Limited(h, 6.0 / 21.0) == Ok(h[3..])
  {
    OneToSixFacts(h);
    OneToSixBudgets(h);
    OneToSixDropCounts(h);
  }

  /** Cutoff 5/21 keeps the outcomes 3 to 6, and cutoff 6/21 keeps 4 to 6. */
  lemma OneToSixExamples()
    ensures Limited(OneToSix(), 5.0 / 21.0) == Ok([Entry(3, 3), Entry(4, 4), Entry(5, 5), Entry(6, 6)])
    ensures Limited(OneToSix(), 6.0 / 21.0) == Ok([Entry(4, 4), Entry(5, 5), Entry(6, 6)])
  {
    OneToSixCulls(OneToSix());
  }
}
