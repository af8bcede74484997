/**
 * The pull-request funnel: four stages (Created, Reviewed, Approved, Merged)
 * counted and averaged over the rows of `prs.csv`, the unit chosen for an
 * average's label, and the trapezoids the chart stacks.
 */
module Funnel {
  import opened Options
  import opened Text
  import opened Seqs

  /** One row of `prs.csv` as `d3.csv` hands it over: a missing column is `None`. */
  datatype PrRow = PrRow(
    prNumber: Option<string>,
    timeToFirstReview: Option<string>,
    timeToApproval: Option<string>,
    timeToMerge: Option<string>,
    wasMerged: Option<string>)

  /** One stage object: its name is fixed, its count and average are assigned after it is made. */
  class FunnelStage {
    const stage: string
    var count: int
    var avgTimeSec: Option<real>

    /** `{ stage, count: 0, avgTimeSec: null }`. */
    constructor(name: string)
      ensures stage == name && count == 0 && avgTimeSec == None
    {
      stage := name;
      count := 0;
      avgTimeSec := None;
    }
  }

  predicate IsReviewed(d: PrRow) {
    Truthy(d.timeToFirstReview)
  }

  predicate IsApproved(d: PrRow) {
    Truthy(d.timeToApproval)
  }

  /** Cells are text, so of the three accepted values only `'1'` and `'true'` can match. */
  predicate IsMerged(d: PrRow) {
    d.wasMerged == Some("1") || d.wasMerged == Some("true")
  }

  function SumOf(vals: seq<Option<int>>): int {
    if vals == [] then 0 else SumOf(vals[..|vals| - 1]) + vals[|vals| - 1].GetOr(0)
  }

  function CountOf(vals: seq<Option<int>>): nat {
    if vals == [] then 0 else CountOf(vals[..|vals| - 1]) + (if vals[|vals| - 1].Some? then 1 else 0)
  }

  lemma {:induction false} CountOfZero(vals: seq<Option<int>>)
    ensures CountOf(vals) == 0 <==> forall i :: 0 <= i < |vals| ==> vals[i].None?
    decreases |vals|
  {
    if vals != [] {
      CountOfZero(vals[..|vals| - 1]);
      assert forall i :: 0 <= i < |vals| - 1 ==> vals[..|vals| - 1][i] == vals[i];
    }
  }

  /** `d3.mean`: the mean of the numeric values, ignoring NaN; `undefined` when there are none. */
  function Mean(vals: seq<Option<int>>): (r: Option<real>)
    ensures r.None? <==> forall i :: 0 <= i < |vals| ==> vals[i].None?
  {
    CountOfZero(vals);
    if CountOf(vals) == 0 then None else Some(SumOf(vals) as real / CountOf(vals) as real)
  }

  /** The numeric values of one column over a subset, read with `+`. */
  function Column(rows: seq<PrRow>, cell: PrRow -> Option<string>): (r: seq<Option<int>>)
    ensures |r| == |rows| && forall i :: 0 <= i < |rows| ==> r[i] == CellNumber(cell(rows[i]))
  {
    seq(|rows|, i requires 0 <= i < |rows| => CellNumber(cell(rows[i])))
  }

  /** `subset.length > 0 ? d3.mean(subset, d => +d.column) : null`. */
  function StageAverage(subset: seq<PrRow>, cell: PrRow -> Option<string>): (r: Option<real>)
    ensures subset == [] ==> r.None?
    ensures r.None? <==> forall i :: 0 <= i < |subset| ==> CellNumber(cell(subset[i])).None?
  {
    if |subset| > 0 then Mean(Column(subset, cell)) else None
  }

  function TimeToFirstReview(d: PrRow): Option<string> { d.timeToFirstReview }
  function TimeToApproval(d: PrRow): Option<string> { d.timeToApproval }
  function TimeToMerge(d: PrRow): Option<string> { d.timeToMerge }

  /**
   * The aggregation: the four stage objects, Created counting every row and
   * the other three counting their subsets and averaging their column.
   */
  method AggregateFunnel(rows: seq<PrRow>) returns (stages: seq<FunnelStage>)
    ensures |stages| == 4
    ensures fresh(stages[0]) && fresh(stages[1]) && fresh(stages[2]) && fresh(stages[3])
    ensures stages[0] != stages[1] && stages[0] != stages[2] && stages[0] != stages[3]
    ensures stages[1] != stages[2] && stages[1] != stages[3] && stages[2] != stages[3]
    ensures stages[0].stage == "Created" && stages[1].stage == "Reviewed"
    ensures stages[2].stage == "Approved" && stages[3].stage == "Merged"
    ensures stages[0].count == |rows| && stages[0].avgTimeSec == None
    ensures stages[1].count == |Filter(rows, IsReviewed)|
    ensures stages[1].avgTimeSec == StageAverage(Filter(rows, IsReviewed), TimeToFirstReview)
    ensures stages[2].count == |Filter(rows, IsApproved)|
    ensures stages[2].avgTimeSec == StageAverage(Filter(rows, IsApproved), TimeToApproval)
    ensures stages[3].count == |Filter(rows, IsMerged)|
    ensures stages[3].avgTimeSec == StageAverage(Filter(rows, IsMerged), TimeToMerge)
  {
    var created := new FunnelStage("Created");
    var reviewedStage := new FunnelStage("Reviewed");
    var approvedStage := new FunnelStage("Approved");
    var mergedStage := new FunnelStage("Merged");
    created.count := |rows|;
    FillStage(reviewedStage, Filter(rows, IsReviewed), TimeToFirstReview);
    FillStage(approvedStage, Filter(rows, IsApproved), TimeToApproval);
    FillStage(mergedStage, Filter(rows, IsMerged), TimeToMerge);
    stages := [created, reviewedStage, approvedStage, mergedStage];
  }

  /** `stage.count = subset.length; stage.avgTimeSec = subset.length > 0 ? d3.mean(...) : null`. */
  method FillStage(st: FunnelStage, subset: seq<PrRow>, cell: PrRow -> Option<string>)
    modifies st
    ensures st.count == |subset| && st.avgTimeSec == StageAverage(subset, cell)
  {
    st.count := |subset|;
    st.avgTimeSec := if |subset| > 0 then Mean(Column(subset, cell)) else None;
  }

  // ---------------------------------------------------------------------------
  // properties of the stages

  /** A row is in the Reviewed stage exactly when its review cell is non-empty, whatever it says: `"0"` counts. */
  lemma ReviewedExactly(rows: seq<PrRow>, j: int)
    requires 0 <= j < |rows|
    ensures rows[j] in Filter(rows, IsReviewed) <==> Truthy(rows[j].timeToFirstReview)
  {
    FilterSpec(rows, IsReviewed);
  }

  lemma ZeroTextIsReviewed(d: PrRow)
    requires d.timeToFirstReview == Some("0")
    ensures IsReviewed(d)
  {}

  /** The numeric values sum to between `lo` and `hi` times their number. */
  lemma {:induction false} SumBounds(vals: seq<Option<int>>, lo: int, hi: int)
    requires forall i :: 0 <= i < |vals| && vals[i].Some? ==> lo <= vals[i].value <= hi
    ensures CountOf(vals) * lo <= SumOf(vals) <= CountOf(vals) * hi
    decreases |vals|
  {
    if vals != [] {
      var init, last := vals[..|vals| - 1], vals[|vals| - 1];
      assert forall i :: 0 <= i < |init| ==> init[i] == vals[i];
      SumBounds(init, lo, hi);
      var c, t := CountOf(init), SumOf(init);
      if last.Some? {
        BoundsStep(c, t, last.value, lo, hi);
      }
    }
  }

  /** One more value within the bounds keeps the sum within the bounds times the count. */
  lemma BoundsStep(c: int, t: int, v: int, lo: int, hi: int)
    requires c * lo <= t <= c * hi && lo <= v <= hi
    ensures (c + 1) * lo <= t + v <= (c + 1) * hi
  {
    assert (c + 1) * lo == c * lo + lo && (c + 1) * hi == c * hi + hi;
  }

  /** The mean lies between the smallest and the largest numeric value. */
  lemma MeanBounds(vals: seq<Option<int>>, lo: int, hi: int)
    requires forall i :: 0 <= i < |vals| && vals[i].Some? ==> lo <= vals[i].value <= hi
    ensures Mean(vals).Some? ==> lo as real <= Mean(vals).value <= hi as real
  {
    SumBounds(vals, lo, hi);
    var c, t := CountOf(vals), SumOf(vals);
    if c > 0 {
      RealBounds(c, t, lo, hi);
      DivisionBounds(t as real, c as real, lo as real, hi as real);
    }
  }

  /** Integer bounds carry over to the reals. */
  lemma RealBounds(c: int, t: int, lo: int, hi: int)
    requires c * lo <= t <= c * hi
    ensures c as real * lo as real <= t as real <= c as real * hi as real
  {
    assert (c * lo) as real == c as real * lo as real;
    assert (c * hi) as real == c as real * hi as real;
  }

  lemma DivisionBounds(s: real, n: real, lo: real, hi: real)
    requires n > 0.0 && n * lo <= s <= n * hi
    ensures lo <= s / n <= hi
  {
    assert s / n * n == s;
  }

  /**
   * The Merged average does not look at whether the merge time is there: an
   * empty cell reads as 0, so merged rows with `""` and `"100"` average 50.
   */
  lemma MergedAverageCountsEmpty(a: PrRow, b: PrRow)
    requires a.wasMerged == Some("1") && b.wasMerged == Some("true")
    requires a.timeToMerge == Some("") && b.timeToMerge == Some("100")
    ensures StageAverage(Filter([a, b], IsMerged), TimeToMerge) == Some(50.0)
  {
    assert Filter([a, b], IsMerged) == [a, b] by {
      FilterKeepsAll([a, b], IsMerged);
    }
    assert ToNumber("") == Some(0);
    assert DigitsValue("100") == 100 by {
      assert "100"[..2] == "10" && "10"[..1] == "1";
    }
    var col := Column([a, b], TimeToMerge);
    assert col == [Some(0), Some(100)];
    assert col[..1] == [Some(0)] && col[..1][..0] == [];
    assert SumOf(col[..1]) == 0 && CountOf(col[..1]) == 1;
    assert SumOf(col) == 100 && CountOf(col) == 2;
  }

  // ---------------------------------------------------------------------------
  // the label of an average

  /** The unit `formatTime` picks, with the amount it prints in that unit. */
  datatype TimeLabel = NotAvailable | Seconds(amount: real) | Minutes(amount: real) | Hours(amount: real) | Days(amount: real)

  /** `formatTime`: seconds below a minute, minutes below an hour, hours below a day, days otherwise; `N/A` for null. */
  function FormatTime(sec: Option<real>): (r: TimeLabel)
    ensures r.NotAvailable? <==> sec.None?
    ensures r.Seconds? <==> sec.Some? && sec.value < 60.0
    ensures r.Minutes? <==> sec.Some? && 60.0 <= sec.value < 3600.0
    ensures r.Hours? <==> sec.Some? && 3600.0 <= sec.value < 86400.0
    ensures r.Days? <==> sec.Some? && 86400.0 <= sec.value
    ensures r.Minutes? || r.Hours? ==> 1.0 <= r.amount < 60.0
    ensures r.Hours? ==> r.amount < 24.0
    ensures r.Days? ==> 1.0 <= r.amount
    ensures !r.NotAvailable? ==> r.amount * Scale(r) == sec.value
  {
    if sec.None? then NotAvailable
    else if sec.value < 60.0 then Seconds(sec.value)
    else if sec.value < 3600.0 then Minutes(sec.value / 60.0)
    else if sec.value < 86400.0 then Hours(sec.value / 3600.0)
    else Days(sec.value / 86400.0)
  }

  /** Seconds per unit of a label. */
  function Scale(t: TimeLabel): real {
    match t
    case NotAvailable => 0.0
    case Seconds(_) => 1.0
    case Minutes(_) => 60.0
    case Hours(_) => 3600.0
    case Days(_) => 86400.0
  }

  // ---------------------------------------------------------------------------
  // the trapezoids

  const ChartWidth: real := 600.0
  const StageHeight: real := 80.0
  const Margin: real := 40.0

  datatype Point = Point(x: real, y: real)

  /** `widthScale(c)`: a linear scale from [0, maxCount] onto [0, width - 2 * margin]. */
  function ScaledWidth(c: int, maxCount: int): real
    requires maxCount > 0
  {
    c as real * (ChartWidth - 2.0 * Margin) / maxCount as real
  }

  /** The closed outline of segment `i`: top-left, top-right, bottom-right, bottom-left and back to top-left. */
  function SegmentAt(counts: seq<int>, i: int): (r: seq<Point>)
    requires 0 <= i < |counts| && counts[0] > 0
    ensures |r| == 5
  {
    var topWidth := ScaledWidth(counts[i], counts[0]);
    var botWidth := if i < |counts| - 1 then ScaledWidth(counts[i + 1], counts[0]) else topWidth;
    var x0 := (ChartWidth - topWidth) / 2.0;
    var x1 := (ChartWidth - botWidth) / 2.0;
    var y0 := i as real * StageHeight + Margin;
    var y1 := (i + 1) as real * StageHeight + Margin;
    var points := [Point(x0, y0), Point(x0 + topWidth, y0), Point(x1 + botWidth, y1), Point(x1, y1)];
    points + [points[0]]
  }

  /** The loop over the stages, building one outline per stage. */
  method FunnelSegments(counts: seq<int>) returns (segments: seq<seq<Point>>)
    requires |counts| >= 1 && counts[0] > 0
    ensures |segments| == |counts|
    ensures forall i :: 0 <= i < |counts| ==> segments[i] == SegmentAt(counts, i)
  {
    segments := [];
    var maxCount := counts[0];
    var i := 0;
    while i < |counts|
      invariant 0 <= i <= |counts|
      invariant |segments| == i
      invariant forall k :: 0 <= k < i ==> segments[k] == SegmentAt(counts, k)
    {
      var topWidth := ScaledWidth(counts[i], maxCount);
      var botWidth := if i < |counts| - 1 then ScaledWidth(counts[i + 1], maxCount) else topWidth;
      var x0 := (ChartWidth - topWidth) / 2.0;
      var x1 := (ChartWidth - botWidth) / 2.0;
      var y0 := i as real * StageHeight + Margin;
      var y1 := (i + 1) as real * StageHeight + Margin;
      var points := [Point(x0, y0), Point(x0 + topWidth, y0), Point(x1 + botWidth, y1), Point(x1, y1)];
      segments := segments + [points + [points[0]]];
      i := i + 1;
    }
  }

  /** Both edges of every segment are centred on the middle of the chart, and the outline is closed. */
  lemma SegmentCentred(counts: seq<int>, i: int)
    requires 0 <= i < |counts| && counts[0] > 0
    ensures var p := SegmentAt(counts, i);
      && (p[0].x + p[1].x) / 2.0 == ChartWidth / 2.0
      && (p[2].x + p[3].x) / 2.0 == ChartWidth / 2.0
      && p[0].y == p[1].y && p[2].y == p[3].y && p[2].y - p[0].y == StageHeight
      && p[4] == p[0]
  {}

  /** The bottom edge of a segment is the top edge of the next one. */
  lemma SegmentsJoin(counts: seq<int>, i: int)
    requires 0 <= i < |counts| - 1 && counts[0] > 0
    ensures SegmentAt(counts, i)[3] == SegmentAt(counts, i + 1)[0]
    ensures SegmentAt(counts, i)[2] == SegmentAt(counts, i + 1)[1]
  {}

  /** The last segment is a rectangle; the first one is the full width between the margins. */
  lemma EndSegments(counts: seq<int>)
    requires |counts| >= 1 && counts[0] > 0
    ensures var p := SegmentAt(counts, |counts| - 1); p[3].x == p[0].x && p[2].x == p[1].x
    ensures SegmentAt(counts, 0)[0].x == Margin && SegmentAt(counts, 0)[1].x == ChartWidth - Margin
  {}

  /** A stage with a smaller count gets a narrower top edge. */
  lemma WidthMonotone(counts: seq<int>, i: int, j: int)
    requires 0 <= i < |counts| && 0 <= j < |counts| && counts[0] > 0
    requires counts[i] <= counts[j]
    ensures SegmentAt(counts, i)[1].x - SegmentAt(counts, i)[0].x <= SegmentAt(counts, j)[1].x - SegmentAt(counts, j)[0].x
  {
    var m := counts[0] as real;
    assert counts[i] as real * 520.0 <= counts[j] as real * 520.0;
    DivideMonotone(counts[i] as real * 520.0, counts[j] as real * 520.0, m);
  }

  lemma DivideMonotone(a: real, b: real, m: real)
    requires m > 0.0 && a <= b
    ensures a / m <= b / m
  {}
}
