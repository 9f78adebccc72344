/**
 * The layout arithmetic of the break-out plots: which burst wedges get a
 * label, the burst subplot grid, and the stacking of BARH subplots.
 */
module Layout {

  import opened Histograms

  /** Wedges with a probability below 1/32 get a blank label. */
  const LabelLim: real := 1.0 / 32.0

  /** Burst subplots are laid out three per row. */
  const BurstCols: nat := 3

  /** A wedge's label: blank, or the formatter's text for this point. */
  datatype WedgeLabel = Blank | Formatted(outcome: int, probability: real)

  /** The labels of a burst ring, one per point of its distribution. */
  function WedgeLabels(d: seq<Point>): (r: seq<WedgeLabel>)
    ensures |r| == |d|
    ensures forall i :: 0 <= i < |d| ==>
      (r[i] == Blank <==> d[i].probability < LabelLim) &&
      (r[i] != Blank ==> r[i] == Formatted(d[i].outcome, d[i].probability))
  {
    seq(|d|, i requires 0 <= i < |d| =>
      if d[i].probability >= LabelLim then Formatted(d[i].outcome, d[i].probability) else Blank)
  }

  /** For two six-sided dice exactly the wedges of 2 and 12 are blank. */
  lemma TwoD6BlankWedges()
    ensures forall i :: 0 <= i < 11 ==> (WedgeLabels(TwoD6Points())[i] == Blank <==> i == 0 || i == 10)
  {
  }

  /** The number of grid rows for n burst subplots: n // 3 + (n % 3 != 0). */
  function BurstRows(n: nat): (rows: nat)
    ensures rows * BurstCols >= n
    ensures rows > 0 ==> (rows - 1) * BurstCols < n
  {
    n / BurstCols + (if n % BurstCols != 0 then 1 else 0)
  }

  /** The (row, column) grid cell of the i-th burst subplot. */
  function BurstCell(i: nat): (cell: (nat, nat))
    ensures cell.1 < BurstCols
    ensures cell.0 * BurstCols + cell.1 == i
  {
    (i / BurstCols, i % BurstCols)
  }

  /** Every one of n subplots lands inside the grid. */
  lemma BurstCellInGrid(n: nat, i: nat)
    requires i < n
    ensures BurstCell(i).0 < BurstRows(n)
  {
    var c := BurstCell(i);
    assert c.0 * BurstCols <= i < n <= BurstRows(n) * BurstCols;
  }

  /** Different subplots land in different cells. */
  lemma BurstCellInjective(i: nat, j: nat)
    requires BurstCell(i) == BurstCell(j)
    ensures i == j
  {
  }

  /** The sum of the numbers of outcomes of `hs`. */
  function OutcomeRows(hs: seq<Histogram>): nat {
    if hs == [] then 0 else |hs[0]| + OutcomeRows(hs[1..])
  }

  lemma {:induction false} OutcomeRowsAppend(a: seq<Histogram>, b: seq<Histogram>)
    ensures OutcomeRows(a + b) == OutcomeRows(a) + OutcomeRows(b)
  {
    if a == [] {
      assert a + b == b;
    } else {
      assert (a + b)[1..] == a[1..] + b;
      OutcomeRowsAppend(a[1..], b);
    }
  }

  /**
   * The grid height of the BARH break-out: one row per histogram plus one per
   * outcome, so at least one row per histogram.
   */
  function TotalHeight(hs: seq<Histogram>): (n: nat)
    ensures n >= |hs|
  {
    |hs| + OutcomeRows(hs)
  }

  /** The heights of two runs of histograms add up. */
  lemma TotalHeightAppend(a: seq<Histogram>, b: seq<Histogram>)
    ensures TotalHeight(a + b) == TotalHeight(a) + TotalHeight(b)
  {
    OutcomeRowsAppend(a, b);
  }

  /**
   * The BARH stacking loop: each histogram's subplot starts at the running
   * offset `top` and spans one row plus one per outcome. The subplots tile the
   * grid: the first starts at row 0, each starts where the previous ends, and
   * the last ends at TotalHeight.
   */
  method BarhLayout(hs: seq<Histogram>) returns (locs: seq<nat>, rowspans: seq<nat>, top: nat)
    ensures |locs| == |rowspans| == |hs|
    ensures forall i :: 0 <= i < |hs| ==> rowspans[i] == 1 + |hs[i]|
    ensures forall i :: 0 <= i < |hs| ==> locs[i] == TotalHeight(hs[..i])
    ensures |hs| > 0 ==> locs[0] == 0
    ensures forall i :: 0 <= i < |hs| - 1 ==> locs[i + 1] == locs[i] + rowspans[i]
    ensures top == TotalHeight(hs)
    ensures |hs| > 0 ==> locs[|hs| - 1] + rowspans[|hs| - 1] == top
  {
    top := 0;
    locs, rowspans := [], [];
    for i := 0 to |hs|
      invariant |locs| == |rowspans| == i
      invariant top == TotalHeight(hs[..i])
      invariant forall j :: 0 <= j < i ==> rowspans[j] == 1 + |hs[j]|
      invariant forall j :: 0 <= j < i ==> locs[j] == TotalHeight(hs[..j])
      invariant forall j :: 0 <= j < i - 1 ==> locs[j + 1] == locs[j] + rowspans[j]
      invariant i > 0 ==> locs[i - 1] + rowspans[i - 1] == top
    {
      var rowspan := 1 + |hs[i]|;
      assert hs[..i + 1] == hs[..i] + [hs[i]];
      OutcomeRowsAppend(hs[..i], [hs[i]]);
      locs, rowspans := locs + [top], rowspans + [rowspan];
      top := top + rowspan;
    }
    assert hs[..|hs|] == hs;
  }
}
