/**
 * The Gantt chart's data rules: the four filter inputs, the stable sort by
 * start date, the chart height and the minimum bar width.  The filter inputs
 * are the raw text of the two search boxes and the two date pickers already
 * read as instants (`None` when a picker is empty).
 */
module Gantt {
  import opened Options
  import opened Text
  import opened Seqs
  import opened StableSort
  import opened Issues

  datatype GanttFilter = GanttFilter(developer: string, task: string, startBound: Option<int>, endBound: Option<int>)

  /** The filter needs the title only when the task box is not empty; `undefined.toLowerCase()` would throw. */
  predicate TitleReadable(f: GanttFilter, d: Issue) {
    f.task == "" || d.title.Some?
  }

  /** The developer text, lower-cased, occurs in some lower-cased contributor; an empty text matches everything. */
  predicate DeveloperMatches(developer: string, d: Issue) {
    var needle := Lower(developer);
    needle == "" || exists i | 0 <= i < |d.contributors| :: Includes(Lower(d.contributors[i]), needle)
  }

  /** The task text, lower-cased, occurs in the lower-cased title; an empty text matches everything. */
  predicate TaskMatches(task: string, d: Issue)
    requires task == "" || d.title.Some?
  {
    var needle := Lower(task);
    needle == "" || Includes(Lower(d.title.value), needle)
  }

  /** Both date bounds are inclusive and both are compared with the start date. */
  predicate WithinBounds(f: GanttFilter, d: Issue) {
    && (f.startBound.None? || d.startDate >= f.startBound.value)
    && (f.endBound.None? || d.startDate <= f.endBound.value)
  }

  predicate Matches(f: GanttFilter, d: Issue)
    requires TitleReadable(f, d)
  {
    DeveloperMatches(f.developer, d) && TaskMatches(f.task, d) && WithinBounds(f, d)
  }

  /** The filter callback: the four tests, on an issue whose title the task test can read. */
  predicate Keeps(f: GanttFilter, d: Issue) {
    TitleReadable(f, d) && Matches(f, d)
  }

  /** `data.filter(...)` with the four tests: the matching issues, in order, each as often as it occurs. */
  function FilterIssues(f: GanttFilter, data: seq<Issue>): (r: seq<Issue>)
    requires forall i :: 0 <= i < |data| ==> TitleReadable(f, data[i])
    ensures IsSubsequence(r, data)
    ensures forall i :: 0 <= i < |r| ==> r[i] in data && TitleReadable(f, r[i]) && Matches(f, r[i])
    ensures forall j :: 0 <= j < |data| && Matches(f, data[j]) ==> data[j] in r
    ensures forall x :: multiset(r)[x] == if Keeps(f, x) then multiset(data)[x] else 0
  {
    FilterSpec(data, d => Keeps(f, d));
    Filter(data, d => Keeps(f, d))
  }

  function StartOf(d: Issue): int {
    d.startDate
  }

  /**
   * The rows the chart draws: the filtered issues copied to an array and
   * sorted in place by start date (the comparator `a.startDate - b.startDate`).
   */
  method GanttRows(data: seq<Issue>, f: GanttFilter) returns (rows: seq<Issue>)
    requires forall i :: 0 <= i < |data| ==> TitleReadable(f, data[i])
    ensures rows == SortByKey(FilterIssues(f, data), StartOf)
    ensures SortedBy(rows, StartOf)
    ensures multiset(rows) == multiset(FilterIssues(f, data))
    ensures forall k :: WithKey(rows, StartOf, k) == WithKey(FilterIssues(f, data), StartOf, k)
  {
    rows := SortedCopy(FilterIssues(f, data), StartOf);
  }

  /** `Math.max(400, n * 25)`: 25 pixels per row, never less than 400. */
  function GanttHeight(n: nat): (h: int)
    ensures h >= 400 && h >= 25 * n
    ensures h == 400 || h == 25 * n
  {
    if 25 * n > 400 then 25 * n else 400
  }

  /** `Math.max(1, x(end) - x(start))`: every bar is at least one pixel wide. */
  function BarWidth(xStart: real, xEnd: real): (w: real)
    ensures w >= 1.0 && w >= xEnd - xStart
    ensures w == 1.0 || w == xEnd - xStart
  {
    if xEnd - xStart > 1.0 then xEnd - xStart else 1.0
  }

  // ---------------------------------------------------------------------------
  // properties of the filter

  /** With every input empty, the filter keeps every issue. */
  lemma EmptyFilterKeepsAll(data: seq<Issue>)
    ensures FilterIssues(GanttFilter("", "", None, None), data) == data
  {
    var f := GanttFilter("", "", None, None);
    assert Lower("") == "";
    FilterKeepsAll(data, d => Keeps(f, d));
  }

  /** The end bound is compared with the start date: the end date of an issue never affects the filter. */
  lemma EndDateIgnored(f: GanttFilter, d: Issue, e: Option<int>)
    requires TitleReadable(f, d)
    ensures Matches(f, d) == Matches(f, d.(endDate := e))
  {}

  /** An issue starting exactly on a bound passes that bound. */
  lemma BoundsInclusive(f: GanttFilter, d: Issue)
    requires f.startBound == Some(d.startDate) || f.startBound.None?
    requires f.endBound == Some(d.startDate) || f.endBound.None?
    ensures WithinBounds(f, d)
  {}

  /** The developer search ignores ASCII case: `ALI` finds the contributor `Alice`. */
  lemma DeveloperSearchIgnoresCase(d: Issue)
    requires |d.contributors| > 0 && d.contributors[0] == "Alice"
    ensures DeveloperMatches("ALI", d)
  {
    assert Lower("ALI") == "ali";
    assert Lower("Alice") == "alice";
    assert OccursAt(Lower(d.contributors[0]), Lower("ALI"), 0);
  }

  /** The height grows by 25 pixels per row once there are more than 16 rows. */
  lemma HeightOfManyRows(n: nat)
    requires n > 16
    ensures GanttHeight(n) == 25 * n
  {}
}
