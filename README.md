# anydyce visualisation helpers, modelled in Dafny

anydyce draws dice-probability histograms from the `dyce` library in Jupyter
notebooks. Most of `anydyce/viz.py` is plotting and widget glue. This project
models the parts of it that compute something exactly and proves their
properties:

- **`limit_for_display`** (module `Cull`). It checks that the cutoff lies in
  [0, 1] and computes the integer budget `int(cutoff * total)`. A zero budget
  returns the histogram itself. Otherwise it walks the items in stable
  ascending-count order and keeps each one once the running sum of counts
  exceeds the budget. `LimitForDisplay` and `CullSorted` keep the source's
  loop. They are proved equal to the reference function `Limited`, which drops
  the longest prefix of the ascending order whose total stays within the
  budget.
- **Python's stable `sorted(..., key=count)`** (module `StableSort`). It is
  modelled as a stable insertion sort. The sort is proved ordered by count, a
  permutation with the same total, and stable: the items sharing a count keep
  their order. A uniqueness lemma shows those facts determine the result.
- **`values_xy_for_graph_type`** (module `Cumulative`). NORMAL, AT_MOST and
  AT_LEAST are built from a generic model of `itertools.accumulate` and
  related to prefix and suffix sums.
- **The numeric part of `cumulative_probability_formatter`** (module
  `Formatter`). Its scan with an early return is modelled as a method and
  proved equal to a label defined through the cumulative transform.
- **`alphasize`** (module `Colors`). A color is a sequence of components.
  Replacing the alpha unpacks each color as exactly (r, g, b, alpha), so a
  color of any other length is an error, modelled as a `Result`.
- **The burst label threshold, the burst subplot grid and the BARH stacking
  of subplots** (module `Layout`).

A `dyce.H` histogram is modelled as a sequence of `Entry(outcome, count)` in
iteration order (module `Histograms`). Its distribution is modelled as a
sequence of `Point(outcome, probability)` with exact `real` probabilities,
matching the `Fraction`s of the source.

Cutoff 1 does not empty a non-empty histogram whose counts are all zero: its
budget `int(1 * 0)` is 0, so `limit_for_display` returns it unchanged
(anydyce/viz.py:289-292). `Cull.CutoffOneCullsAll` therefore requires a
positive total.

## Model

| member | source | states |
|---|---|---|
| Cull.LimitForDisplay | anydyce/viz.py:286-303 | the source's validation, budget, identity case and cull produce exactly the reference result `Limited` |
| Cull.Limited | anydyce/viz.py:286-303 | an error exactly when the cutoff is outside [0, 1], carrying that cutoff; the histogram itself when the budget is zero; otherwise only items of the input |
| Cull.CullSorted | anydyce/viz.py:294-301 | the loop with the running sum `so_far` keeps exactly the items after the longest prefix whose total is within the budget |
| Histograms.Total | anydyce/viz.py:289 | `h.total`, the sum of the counts in iteration order |
| Histograms.TotalBoundsCounts | anydyce/viz.py:289 | no single count exceeds the total, and the total is zero exactly when every count is zero |
| Cull.CutoffCount | anydyce/viz.py:289 | the budget is the floor of cutoff × total: never above the total, and within one below the exact product |
| Cull.CutoffCountMonotone | anydyce/viz.py:289 | a larger cutoff never gives a smaller budget |
| Cull.DropCount | anydyce/viz.py:294-301 | the number of sorted items `_cull` skips: at most all of them, and all of them exactly when their total is within the budget |
| Cull.DropCountIsLongestPrefix | anydyce/viz.py:294-301 | the dropped prefix has total within the budget, and one more item would exceed it |
| Cull.PastBudget | anydyce/viz.py:297-300 | the per-item test `so_far > cutoff_count` holds exactly from the first retained index onward, so once an item is kept every later item is kept |
| Cull.ZeroBudgetIsIdentity | anydyce/viz.py:289-292 | cutoff 0, and any valid cutoff on the empty histogram, return the histogram unchanged |
| Cull.CulledIsGreedyPrefix | anydyce/viz.py:267-270 | when the budget is positive, the result is a suffix of the stable ascending-count order; the discarded prefix totals at most the budget; the first kept item is the one that carries the running sum past it |
| Cull.DiscardedWithinCutoff | anydyce/viz.py:267-270 | the discarded total is at most the budget and, as a fraction of the total, at most the cutoff; the kept total never exceeds the input's |
| Cull.CutoffOneCullsAll | anydyce/viz.py:297-301 | cutoff 1 discards every item of a histogram with a positive total |
| Cull.DropCountMonotone | anydyce/viz.py:294-301 | a larger budget drops at least as long a prefix |
| Cull.CullMonotone | anydyce/viz.py:286-303 | a larger cutoff keeps a subset of what a smaller one keeps, and a suffix of it when the smaller one culls |
| Cull.DefaultCutoffKeepsSmallHistograms | anydyce/viz.py:138 | with the default cutoff 1/8192, a histogram whose total is below 8192 has a zero budget and is returned unchanged |
| Cull.OneToSixExamples | anydyce/viz.py:276-282 | for H({1: 1, …, 6: 6}), cutoff 5/21 keeps {3..6} and cutoff 6/21 keeps {4, 5, 6} |
| StableSort.SortByCount | anydyce/viz.py:297 | the result is ordered by count, has the same length, multiset and total, and, for every count, the same subsequence of items with that count (stability) |
| StableSort.InsertSorted | anydyce/viz.py:297 | inserting into an ordered sequence keeps it ordered |
| StableSort.InsertWithCountAll | anydyce/viz.py:297 | insertion places the new item ahead of every item with its count and changes no other count's subsequence |
| StableSort.StableOrderUnique | anydyce/viz.py:297 | two count-ordered sequences with the same per-count subsequences are equal |
| StableSort.SortByCountIsTheStableSort | anydyce/viz.py:297 | any count-ordered sequence with the same per-count subsequences as the input is the sort's result |
| Histograms.Distribution | anydyce/viz.py:222 | each outcome is paired, in order, with its count divided by the total |
| Histograms.DistributionSumsToOne | anydyce/viz.py:311 | the probabilities of a histogram with a positive total sum to one |
| Histograms.TotalPrefixMonotone | anydyce/viz.py:297-298 | the running sum of counts never decreases along the sequence |
| Histograms.TwoD6Distribution | tests/test_viz.py:36 | the distribution of two six-sided dice is 1/36, 2/36, …, 6/36, …, 1/36 over outcomes 2..12 |
| Cumulative.Accumulate | anydyce/viz.py:314-316 | `accumulate` yields one more value than its input, starting with the initial value |
| Cumulative.AccumulateStep | anydyce/viz.py:314-316 | each accumulated value is the operator applied to the previous one and the next input |
| Cumulative.AccumulateAdd | anydyce/viz.py:316 | accumulating with + gives the initial value plus the exclusive prefix sums |
| Cumulative.AccumulateSub | anydyce/viz.py:314 | accumulating with − gives the initial value minus the exclusive prefix sums |
| Cumulative.ValuesXY | anydyce/viz.py:311-320 | the outcomes are unchanged, the values have one entry per outcome, and NORMAL leaves the probabilities unchanged |
| Cumulative.AtMostIsInclusivePrefixSum | anydyce/viz.py:315-316 | AT_MOST at index i is the sum of the probabilities at 0..i |
| Cumulative.AtLeastIsOneMinusExclusivePrefixSum | anydyce/viz.py:313-314 | AT_LEAST at index i is one minus the sum of the probabilities before i |
| Cumulative.CumulativeBoundaries | anydyce/viz.py:313-316 | for probabilities summing to one, AT_LEAST starts at one and AT_MOST ends at one |
| Cumulative.HistogramCumulativeBoundaries | anydyce/viz.py:311-316 | every histogram with a positive total meets those boundaries |
| Cumulative.AtLeastIsSuffixSum | anydyce/viz.py:313-314 | for probabilities summing to one, AT_LEAST at index i is the sum of the probabilities from i on |
| Cumulative.AtMostIsReversedAtLeastOfReversed | anydyce/viz.py:313-316 | AT_MOST of a distribution is the reversal of AT_LEAST of the reversed distribution |
| Formatter.CumulativeProbabilityFormatter | anydyce/viz.py:220-230 | the scan with early return produces exactly `CumulativeLabel` |
| Formatter.CumulativeLabel | anydyce/viz.py:220-230 | the long form exactly when the outcome occurs; for the first occurrence at index k it shows Σ p[0..k] after "≥" and 1 − Σ p[0..k−1] after "≤"; otherwise the short form; outcome and probability are passed through |
| Formatter.IndexOf | anydyce/viz.py:222-225 | the first index where the outcome matches, or the length when none does |
| Formatter.TwoD6Seven | tests/test_viz.py:47 | for two six-sided dice, outcome 7 (probability 1/6) shows 7/12 after both "≥" and "≤" |
| Formatter.FirstAndLastLabels | tests/test_viz.py:42-52 | for probabilities summing to one, the first outcome shows one after "≤" and the last shows one after "≥" |
| Colors.Alphasize | anydyce/viz.py:187-200 | a negative alpha returns the colors unchanged, whatever their lengths; otherwise an error exactly when some color does not have four components, naming the first such color; otherwise the same number of colors, each keeping its r, g, b and taking alpha as its alpha |
| Colors.FirstMalformed | anydyce/viz.py:200 | the index of the first color that does not unpack into four components, or the number of colors when all do |
| Colors.AlphasizeLastWins | anydyce/viz.py:197-200 | after a non-negative alpha, any earlier alphasize that succeeded has no effect |
| Colors.AlphasizeIdempotent | anydyce/viz.py:197-200 | alphasizing twice with the same alpha equals once |
| Colors.AlphasizeOwnAlpha | anydyce/viz.py:197-200 | four-component colors that already carry the alpha are unchanged |
| Layout.WedgeLabels | anydyce/viz.py:492-500 | a wedge label is blank exactly when its probability is below 1/32, and otherwise formats that wedge's point |
| Layout.TwoD6BlankWedges | tests/test_viz.py:67-90 | for two six-sided dice exactly the wedges of 2 and 12 are blank |
| Layout.BurstRows | anydyce/viz.py:835-836 | the rows are the ceiling of n/3: they hold n subplots, and one row fewer would not |
| Layout.BurstCell | anydyce/viz.py:868 | the i-th subplot's cell has column below 3 and row × 3 + column = i |
| Layout.BurstCellInGrid | anydyce/viz.py:835-836 | every one of the n subplots lands in a row of the grid |
| Layout.BurstCellInjective | anydyce/viz.py:868 | different subplots land in different cells |
| Layout.OutcomeRowsAppend | anydyce/viz.py:780-783 | the outcome rows of two runs of histograms add up |
| Layout.TotalHeight | anydyce/viz.py:778-783 | the BARH grid height: one row per histogram plus one per outcome, so at least one row per histogram |
| Layout.TotalHeightAppend | anydyce/viz.py:780-783 | the heights of two runs of histograms add up |
| Layout.BarhLayout | anydyce/viz.py:778-809 | each subplot spans one row plus one per outcome and starts at the height of those before it; the first starts at 0, each starts where the previous ends, and the last ends at the total height |

## Left out

- Plotting and widgets: the matplotlib drawing calls, the ipywidgets controls, `interactive_output`, `display` and `tight_layout` are foreign calls.
- `graph_colors` and the bar offset `adj` of `plot_bar`: floating-point values fed to a third-party colormap and axes.
- The CSV download link: I/O through the `csv`, `io` and `base64` libraries.
- Text rendering: the `:.2%` percent formatting of the labels. `Formatter.Label` and `Layout.WedgeLabel` keep the values shown, not the strings.
- `dyce.H` itself: a histogram is a sequence of entries, and its distribution is defined here from counts and total. Rebuilding an `H` from the culled pairs is not modelled, so `Cull.Limited` returns the kept items in ascending-count order rather than in the order an `H` would present them.
- Cull.Limited: `return h` (anydyce/viz.py:292) returns the same object; the model returns an equal value, and object identity is not modelled.
- Cull.Limited: the cutoff is an exact `real`. Turning the widget's float into a `Fraction` with `limit_denominator` is not modelled.
- Cumulative.ValuesXY: probabilities are exact reals. The source accumulates floats from `1.0` and `0.0`, and their rounding is not modelled.
- Colors.Alphasize: `return colors` (anydyce/viz.py:198) returns the same object for a negative alpha; the model returns an equal value, and object identity is not modelled. The `ValueError` raised by unpacking is modelled as an error result naming the first malformed color, not as its exception message.
- Formatter.CumulativeProbabilityFormatter: outcomes are integers and matched by equality rather than `math.isclose`.
- Histograms.Distribution: a non-empty histogram whose counts are all zero has no distribution here (its probabilities would divide by zero), so the function requires a positive total for non-empty input.
- The burst break-out's choice of inner and outer histogram (the swap control) and the defaulting of `outer_formatter` in `plot_burst` are widget plumbing and are not modelled.
- The `Layout` grid arithmetic models figure sizes only as rows and offsets; inch scaling is float arithmetic for matplotlib.
