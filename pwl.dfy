/**
  The piecewise-linear view of a one-hidden-layer ReLU network. A query
  (not part of this model) returns the breakpoints of the network's output
  function as rows (x, y, slope), slope being the slope towards the next
  breakpoint. Two consumers are modelled: the loop that rebuilds the plotted
  polyline from those columns, and the windowed SUM that integrates it.
*/
module Pwl {
  import opened Common
  import opened Sorting

  // ---------------------------------------------------------------------------
  // Reconstruction of the polyline
  // ---------------------------------------------------------------------------

  /**
    The number of plotted points: the first breakpoint plus one per pass of
    `range(len(slopes) - 1)`, a range that is empty when there are no slopes.
  */
  function PlotLength(numSlopes: nat): (n: nat)
    ensures n >= 1 && (numSlopes > 0 ==> n == numSlopes)
  {
    if numSlopes == 0 then 1 else numSlopes
  }

  /**
    The i-th plotted y: the first breakpoint's y, then each step adds the
    slope times the distance to the next breakpoint.
  */
  function PlotY(xs: seq<real>, ys: seq<real>, slopes: seq<real>, i: nat): real
    requires |xs| > 0 && |ys| > 0 && |slopes| <= |xs| && i < PlotLength(|slopes|)
  {
    if i == 0 then ys[0] else PlotY(xs, ys, slopes, i - 1) + slopes[i - 1] * (xs[i] - xs[i - 1])
  }

  /** In closed form, the i-th plotted y is the first y plus the rises of the first i segments. */
  lemma {:induction false} PlotYAccumulates(xs: seq<real>, ys: seq<real>, slopes: seq<real>, i: nat)
    requires |xs| > 0 && |ys| > 0 && |slopes| <= |xs| && i < PlotLength(|slopes|)
    ensures PlotY(xs, ys, slopes, i) == ys[0] + SumReal(Rises(xs, slopes, i))
    decreases i
  {
    if i > 0 {
      PlotYAccumulates(xs, ys, slopes, i - 1);
      RisesStep(xs, slopes, i);
      SumRealAppend(Rises(xs, slopes, i - 1), slopes[i - 1] * (xs[i] - xs[i - 1]));
    }
  }

  lemma RisesStep(xs: seq<real>, slopes: seq<real>, n: nat)
    requires 0 < n <= |slopes| && n < |xs|
    ensures Rises(xs, slopes, n) == Rises(xs, slopes, n - 1) + [slopes[n - 1] * (xs[n] - xs[n - 1])]
  {
    var a, b := Rises(xs, slopes, n), Rises(xs, slopes, n - 1) + [slopes[n - 1] * (xs[n] - xs[n - 1])];
    assert |a| == |b|;
    forall j | 0 <= j < n ensures a[j] == b[j] {
    }
  }

  /** The rises slope * run of the first n segments. */
  function Rises(xs: seq<real>, slopes: seq<real>, n: nat): (rs: seq<real>)
    requires n <= |slopes| && (n == 0 || n < |xs|)
  {
    seq(n, j requires 0 <= j < n => slopes[j] * (xs[j + 1] - xs[j]))
  }

  /**
    The loop of the reconstruction. `x_values[0]` and `y_values[0]` need
    non-empty columns, and `x_values[i + 1]` needs as many x values as slopes.
  */
  method Reconstruct(xs: seq<real>, ys: seq<real>, slopes: seq<real>) returns (xPlot: seq<real>, yPlot: seq<real>)
    requires |xs| > 0 && |ys| > 0 && |slopes| <= |xs|
    ensures |xPlot| == |yPlot| == PlotLength(|slopes|)
    ensures xPlot == xs[..PlotLength(|slopes|)]
    ensures forall i | 0 <= i < |yPlot| :: yPlot[i] == PlotY(xs, ys, slopes, i)
  {
    xPlot := [xs[0]];
    yPlot := [ys[0]];
    var passes := if |slopes| > 0 then |slopes| - 1 else 0;
    for i := 0 to passes
      invariant |xPlot| == |yPlot| == i + 1
      invariant xPlot == xs[..i + 1]
      invariant forall j | 0 <= j <= i :: yPlot[j] == PlotY(xs, ys, slopes, j)
    {
      var nextX := xs[i + 1];
      var deltaX := nextX - xPlot[|xPlot| - 1];
      var deltaY := slopes[i] * deltaX;
      var yNext := yPlot[|yPlot| - 1] + deltaY;
      xPlot := xPlot + [nextX];
      yPlot := yPlot + [yNext];
      assert xs[..i + 2] == xs[..i + 1] + [xs[i + 1]];
    }
  }

  /**
    When the returned y values lie on the polyline through the breakpoints
    (each next y is the previous plus slope times run), the rebuilt y values
    are exactly the query's.
  */
  lemma {:induction false} PlotYMatchesBreakpoints(xs: seq<real>, ys: seq<real>, slopes: seq<real>, i: nat)
    requires |xs| > 0 && |ys| >= |xs| && |slopes| <= |xs| && i < PlotLength(|slopes|)
    requires forall j | 0 <= j < i :: ys[j + 1] == ys[j] + slopes[j] * (xs[j + 1] - xs[j])
    ensures PlotY(xs, ys, slopes, i) == ys[i]
  {
    if i > 0 {
      PlotYMatchesBreakpoints(xs, ys, slopes, i - 1);
    }
  }

  /** Consecutive plotted points are joined by a segment of the recorded slope. */
  lemma PlotSegments(xs: seq<real>, ys: seq<real>, slopes: seq<real>, i: nat)
    requires |xs| > 0 && |ys| > 0 && |slopes| <= |xs| && i + 1 < PlotLength(|slopes|)
    ensures PlotY(xs, ys, slopes, i + 1) - PlotY(xs, ys, slopes, i) == slopes[i] * (xs[i + 1] - xs[i])
  {
  }

  // ---------------------------------------------------------------------------
  // The integral query
  // ---------------------------------------------------------------------------

  datatype PointSlope = PointSlope(x: real, y: real, slope: real)

  /**
    `((y + (y + slope * d)) / 2) * d`: the trapezoid under one segment of
    run d, which is the exact area under the line of that slope through
    (0, y), over [0, d].
  */
  function Trapezoid(y: real, slope: real, d: real): (area: real)
    ensures area == y * d + slope * d * d / 2.0
  {
    ((y + (y + slope * d)) / 2.0) * d
  }

  function SumReal(xs: seq<real>): real
  {
    if xs == [] then 0.0 else SumReal(xs[..|xs| - 1]) + xs[|xs| - 1]
  }

  /**
    The summed terms over rows in x order: row i contributes when it has a
    successor (`next_x IS NOT NULL`) and its own x lies in [start, end];
    the segment it contributes runs to its successor's x, wherever that is.
  */
  function WindowTerms(sorted: seq<PointSlope>, start: real, end: real): (terms: seq<real>)
    ensures |terms| < |sorted| || sorted == []
  {
    if |sorted| < 2 then []
    else
      var p, q := sorted[|sorted| - 2], sorted[|sorted| - 1];
      WindowTerms(sorted[..|sorted| - 1], start, end)
        + (if start <= p.x <= end then [Trapezoid(p.y, p.slope, q.x - p.x)] else [])
  }

  /** Row i of the x-ordered rows qualifies for the SUM. */
  predicate Counted(sorted: seq<PointSlope>, start: real, end: real, i: int)
  {
    0 <= i < |sorted| - 1 && start <= sorted[i].x <= end
  }

  /** No term exactly when no row is counted. */
  lemma {:induction false} WindowTermsEmpty(sorted: seq<PointSlope>, start: real, end: real)
    ensures WindowTerms(sorted, start, end) == [] <==> forall i :: !Counted(sorted, start, end, i)
    decreases |sorted|
  {
    if |sorted| >= 2 {
      var init := sorted[..|sorted| - 1];
      WindowTermsEmpty(init, start, end);
      var last := |sorted| - 2;
      forall i | Counted(init, start, end, i) ensures Counted(sorted, start, end, i) {
      }
      forall i | Counted(sorted, start, end, i) && i != last ensures Counted(init, start, end, i) {
      }
      if Counted(sorted, start, end, last) {
        assert |WindowTerms(sorted, start, end)| > 0;
      } else {
        assert WindowTerms(sorted, start, end) == WindowTerms(init, start, end);
      }
    }
  }

  function XKey(p: PointSlope): real
  {
    p.x
  }

  /** The rows in `ORDER BY x` order. */
  function ByX(rows: seq<PointSlope>): (sorted: seq<PointSlope>)
    ensures multiset(sorted) == multiset(rows)
  {
    SortByKey(rows, XKey)
  }

  /**
    The integral query: SQL's SUM over no row is NULL, modelled as None. It
    is NULL exactly when no row with a successor in x order has its x in
    [start, end]; otherwise it is the sum of the exact areas under the
    counted segments.
  */
  function Integral(rows: seq<PointSlope>, start: real, end: real): (r: Option<real>)
    ensures r.None? <==> forall i :: !Counted(ByX(rows), start, end, i)
    ensures r.Some? ==> r.value == SumReal(SegmentAreas(ByX(rows), start, end))
  {
    var terms := WindowTerms(ByX(rows), start, end);
    WindowTermsEmpty(ByX(rows), start, end);
    WindowTermsAreSegmentAreas(ByX(rows), start, end);
    if terms == [] then None else Some(SumReal(terms))
  }

  /** An empty window (start after end) always gives NULL. */
  lemma IntegralEmptyWindow(rows: seq<PointSlope>, start: real, end: real)
    requires start > end
    ensures Integral(rows, start, end) == None
  {
  }

  /** The last breakpoint in x order contributes nothing, whatever its y and slope. */
  lemma LastRowAddsNothing(sorted: seq<PointSlope>, start: real, end: real, y: real, slope: real)
    requires sorted != []
    ensures WindowTerms(sorted[..|sorted| - 1] + [PointSlope(sorted[|sorted| - 1].x, y, slope)], start, end)
         == WindowTerms(sorted, start, end)
  {
    var n := |sorted|;
    var other := sorted[..n - 1] + [PointSlope(sorted[n - 1].x, y, slope)];
    assert other[..n - 1] == sorted[..n - 1];
  }

  /**
    A row counts by its own x alone: of two breakpoints p before q, the
    window [p.x, end] with end short of q.x still integrates the whole
    segment from p.x to q.x.
  */
  lemma SegmentMayPassEnd(p: PointSlope, q: PointSlope, end: real)
    requires p.x <= end < q.x
    ensures Integral([p, q], p.x, end) == Some(Trapezoid(p.y, p.slope, q.x - p.x))
  {
    var rows := [p, q];
    SortByKeyKeepsSorted(rows, XKey);
    assert ByX(rows) == rows;
    assert rows[..1] == [p];
    var t := Trapezoid(p.y, p.slope, q.x - p.x);
    assert WindowTerms(rows, p.x, end) == [t];
    assert [t][..0] == [];
    assert SumReal([t]) == t;
  }

  /**
    Over any rows and any window, the summed trapezoids equal the summed
    exact areas y*d + slope*d*d/2 of the counted segments, each running
    from a counted row to its successor.
  */
  lemma {:induction false} WindowTermsAreSegmentAreas(sorted: seq<PointSlope>, start: real, end: real)
    ensures |WindowTerms(sorted, start, end)| <= |sorted|
    ensures SumReal(WindowTerms(sorted, start, end)) == SumReal(SegmentAreas(sorted, start, end))
    decreases |sorted|
  {
    if |sorted| >= 2 {
      var p, q := sorted[|sorted| - 2], sorted[|sorted| - 1];
      WindowTermsAreSegmentAreas(sorted[..|sorted| - 1], start, end);
      var a, b := WindowTerms(sorted[..|sorted| - 1], start, end), SegmentAreas(sorted[..|sorted| - 1], start, end);
      if start <= p.x <= end {
        SumRealAppend(a, Trapezoid(p.y, p.slope, q.x - p.x));
        SumRealAppend(b, p.y * (q.x - p.x) + p.slope * (q.x - p.x) * (q.x - p.x) / 2.0);
      } else {
        assert a + [] == a && b + [] == b;
      }
    }
  }

  /** The exact area under each counted segment. */
  function SegmentAreas(sorted: seq<PointSlope>, start: real, end: real): seq<real>
  {
    if |sorted| < 2 then []
    else
      var p, q := sorted[|sorted| - 2], sorted[|sorted| - 1];
      var d := q.x - p.x;
      SegmentAreas(sorted[..|sorted| - 1], start, end)
        + (if start <= p.x <= end then [p.y * d + p.slope * d * d / 2.0] else [])
  }

  lemma {:induction false} SumRealAppend(xs: seq<real>, x: real)
    ensures SumReal(xs + [x]) == SumReal(xs) + x
  {
    assert (xs + [x])[..|xs + [x]| - 1] == xs;
  }
}
