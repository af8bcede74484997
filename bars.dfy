/**
 * The bar chart: the month-filtered commits rolled up by author (the number of
 * commits, or the sum of their line changes), sorted by value from largest to
 * smallest with ties in first-appearance order, and the y-axis label.
 */
module Bars {
  import opened Options
  import opened Seqs
  import opened StableSort
  import opened Commits
  import opened Months

  /** One bar: an author (`undefined` when the column is missing) and its value. */
  datatype Bar = Bar(author: Option<string>, value: int)

  /** What one commit adds to its author's bar: 1 when counting commits, else its diff (`d3.sum` skips NaN). */
  function Weight(c: Commit, metric: string): int {
    if metric == "commits" then 1 else c.diff.GetOr(0)
  }

  predicate Distinct<T(==)>(s: seq<T>) {
    forall i, j :: 0 <= i < j < |s| ==> s[i] != s[j]
  }

  /** Some commit of `cs` has the author `a`. */
  predicate HasAuthor(cs: seq<Commit>, a: Option<string>) {
    exists j :: 0 <= j < |cs| && cs[j].author == a
  }

  /** The position of the first commit of `a`, or `|cs|` when `a` has none. */
  function FirstIndex(cs: seq<Commit>, a: Option<string>): (k: nat)
    ensures k <= |cs|
    ensures k < |cs| <==> HasAuthor(cs, a)
    ensures k < |cs| ==> cs[k].author == a
  {
    if cs == [] then 0
    else if cs[0].author == a then 0
    else
      var k := FirstIndex(cs[1..], a);
      assert forall j :: 0 < j < |cs| ==> cs[j] == cs[1..][j - 1];
      assert HasAuthor(cs, a) <==> HasAuthor(cs[1..], a) by {
        if HasAuthor(cs, a) {
          var j :| 0 <= j < |cs| && cs[j].author == a;
          assert cs[1..][j - 1] == cs[j];
        }
      }
      1 + k
  }

  /** No commit before `FirstIndex(cs, a)` is by `a`. */
  lemma {:induction false} FirstIndexIsFirst(cs: seq<Commit>, a: Option<string>)
    ensures forall j :: 0 <= j < FirstIndex(cs, a) && j < |cs| ==> cs[j].author != a
    decreases |cs|
  {
    if cs != [] && cs[0].author != a {
      FirstIndexIsFirst(cs[1..], a);
      assert forall j :: 0 < j < |cs| ==> cs[j] == cs[1..][j - 1];
    }
  }

  /** The first commit of an author of the shorter list is also the first in the longer one. */
  lemma FirstIndexOfInit(cs: seq<Commit>, a: Option<string>)
    requires cs != [] && HasAuthor(Init(cs), a)
    ensures FirstIndex(cs, a) == FirstIndex(Init(cs), a)
  {
    var k, k' := FirstIndex(Init(cs), a), FirstIndex(cs, a);
    FirstIndexIsFirst(cs, a);
    FirstIndexIsFirst(Init(cs), a);
    assert Init(cs)[k] == cs[k];
  }

  /** The keys of `d3.rollup(..., d => d.author)`: each author once, in the order of its first commit. */
  function Authors(cs: seq<Commit>): (r: seq<Option<string>>)
    ensures Distinct(r)
    ensures forall a :: a in r <==> HasAuthor(cs, a)
  {
    if cs == [] then []
    else
      var rest := Authors(Init(cs));
      assert forall j :: 0 <= j < |cs| - 1 ==> Init(cs)[j] == cs[j];
      assert forall a :: HasAuthor(cs, a) <==> HasAuthor(Init(cs), a) || Last(cs).author == a;
      if Last(cs).author in rest then rest else rest + [Last(cs).author]
  }

  /** The rollup's keys are in the order of their authors' first commits. */
  lemma {:induction false} AuthorsInFirstAppearance(cs: seq<Commit>)
    ensures forall i, j :: 0 <= i < j < |Authors(cs)| ==> FirstIndex(cs, Authors(cs)[i]) < FirstIndex(cs, Authors(cs)[j])
    decreases |cs|
  {
    if cs != [] {
      var r, rest := Authors(cs), Authors(Init(cs));
      AuthorsInFirstAppearance(Init(cs));
      AuthorsSnoc(cs);
      forall i | 0 <= i < |rest| ensures FirstIndex(cs, rest[i]) == FirstIndex(Init(cs), rest[i]) < |cs| - 1 {
        assert rest[i] in rest;
        FirstIndexOfInit(cs, rest[i]);
      }
      if Last(cs).author !in rest {
        assert !HasAuthor(Init(cs), Last(cs).author);
        assert FirstIndex(cs, Last(cs).author) == |cs| - 1;
        assert forall i :: 0 <= i < |rest| ==> r[i] == rest[i];
      }
    }
  }

  /** The value of the bar of `a`: the summed weight of `a`'s commits. */
  function GroupTotal(cs: seq<Commit>, a: Option<string>, metric: string): int {
    if cs == [] then 0
    else GroupTotal(Init(cs), a, metric) + (if Last(cs).author == a then Weight(Last(cs), metric) else 0)
  }

  /** The summed weight of all commits. */
  function Total(cs: seq<Commit>, metric: string): int {
    if cs == [] then 0 else Total(Init(cs), metric) + Weight(Last(cs), metric)
  }

  function SumValues(bars: seq<Bar>): int {
    if bars == [] then 0 else SumValues(Init(bars)) + Last(bars).value
  }

  /** The bars of the authors `names`, in that order. */
  function BarsOf(names: seq<Option<string>>, cs: seq<Commit>, metric: string): (r: seq<Bar>)
    ensures |r| == |names|
  {
    if names == [] then [] else BarsOf(Init(names), cs, metric) + [Bar(Last(names), GroupTotal(cs, Last(names), metric))]
  }

  /** The bar at position `i` is that of the `i`-th author, with that author's total. */
  lemma {:induction false} BarsOfEntries(names: seq<Option<string>>, cs: seq<Commit>, metric: string)
    ensures forall i :: 0 <= i < |names| ==>
      BarsOf(names, cs, metric)[i].author == names[i] && BarsOf(names, cs, metric)[i].value == GroupTotal(cs, names[i], metric)
    decreases |names|
  {
    if names != [] {
      BarsOfEntries(Init(names), cs, metric);
    }
  }

  /**
   * `Array.from(d3.rollup(...), ([author, value]) => ({author, value}))`:
   * one bar per author, in first-appearance order, whose value is that
   * author's total.
   */
  function Rollup(cs: seq<Commit>, metric: string): (r: seq<Bar>)
    ensures forall i, j :: 0 <= i < j < |r| ==> r[i].author != r[j].author
    ensures forall i :: 0 <= i < |r| ==> HasAuthor(cs, r[i].author)
    ensures forall j :: 0 <= j < |cs| ==> exists i :: 0 <= i < |r| && r[i].author == cs[j].author
    ensures forall i :: 0 <= i < |r| ==> r[i].value == GroupTotal(cs, r[i].author, metric)
    ensures forall i, j :: 0 <= i < j < |r| ==> FirstIndex(cs, r[i].author) < FirstIndex(cs, r[j].author)
  {
    BarsOfAuthorsOrder(cs, metric);
    BarsOfAuthorsCover(cs, metric);
    BarsOf(Authors(cs), cs, metric)
  }

  /** The bars of the rollup's keys are of distinct authors, in the order of their first commits. */
  lemma BarsOfAuthorsOrder(cs: seq<Commit>, metric: string)
    ensures var r := BarsOf(Authors(cs), cs, metric);
      && (forall i, j :: 0 <= i < j < |r| ==> r[i].author != r[j].author)
      && (forall i, j :: 0 <= i < j < |r| ==> FirstIndex(cs, r[i].author) < FirstIndex(cs, r[j].author))
  {
    BarsOfEntries(Authors(cs), cs, metric);
    AuthorsInFirstAppearance(cs);
  }

  /** The bars of the rollup's keys cover exactly the authors of `cs`, each with its total. */
  lemma BarsOfAuthorsCover(cs: seq<Commit>, metric: string)
    ensures var r := BarsOf(Authors(cs), cs, metric);
      && (forall i :: 0 <= i < |r| ==> HasAuthor(cs, r[i].author))
      && (forall j :: 0 <= j < |cs| ==> exists i :: 0 <= i < |r| && r[i].author == cs[j].author)
      && (forall i :: 0 <= i < |r| ==> r[i].value == GroupTotal(cs, r[i].author, metric))
  {
    var names := Authors(cs);
    var r := BarsOf(names, cs, metric);
    BarsOfEntries(names, cs, metric);
    forall i | 0 <= i < |r| ensures HasAuthor(cs, r[i].author) {
      assert names[i] in names;
    }
    forall j | 0 <= j < |cs| ensures exists i :: 0 <= i < |r| && r[i].author == cs[j].author {
      assert HasAuthor(cs, cs[j].author);
      var i :| 0 <= i < |names| && names[i] == cs[j].author;
      assert r[i].author == cs[j].author;
    }
  }

  // ---------------------------------------------------------------------------
  // the rollup loses nothing

  /** An author without commits has an empty bar. */
  lemma {:induction false} AbsentAuthorTotal(cs: seq<Commit>, a: Option<string>, metric: string)
    requires !HasAuthor(cs, a)
    ensures GroupTotal(cs, a, metric) == 0
    decreases |cs|
  {
    if cs != [] {
      assert Last(cs).author != a by {
        if Last(cs).author == a {
          assert HasAuthor(cs, a);
        }
      }
      forall j | 0 <= j < |Init(cs)| ensures Init(cs)[j].author != a {
        assert Init(cs)[j] == cs[j];
      }
      AbsentAuthorTotal(Init(cs), a, metric);
    }
  }

  /** The last commit adds its weight to the bar of its author when that author is listed, and to no other bar. */
  lemma {:induction false} BarsOfLastCommit(names: seq<Option<string>>, cs: seq<Commit>, metric: string)
    requires Distinct(names) && cs != []
    ensures SumValues(BarsOf(names, cs, metric)) ==
            SumValues(BarsOf(names, Init(cs), metric)) + (if Last(cs).author in names then Weight(Last(cs), metric) else 0)
    decreases |names|
  {
    if names != [] {
      assert Last(cs).author in names <==> Last(cs).author in Init(names) || Last(cs).author == Last(names);
      BarsOfLastCommit(Init(names), cs, metric);
    }
  }

  /** The bars of a list with one more author add that author's total. */
  lemma BarsOfSnoc(names: seq<Option<string>>, a: Option<string>, cs: seq<Commit>, metric: string)
    ensures SumValues(BarsOf(names + [a], cs, metric)) == SumValues(BarsOf(names, cs, metric)) + GroupTotal(cs, a, metric)
  {
    assert Init(names + [a]) == names;
  }

  /** The author list grows by the last commit's author when that author is new. */
  lemma AuthorsSnoc(cs: seq<Commit>)
    requires cs != []
    ensures Authors(cs) == if Last(cs).author in Authors(Init(cs)) then Authors(Init(cs)) else Authors(Init(cs)) + [Last(cs).author]
  {}

  /** The bars of all authors hold exactly the summed weight of all commits. */
  lemma {:induction false} BarsConserve(cs: seq<Commit>, metric: string)
    ensures SumValues(BarsOf(Authors(cs), cs, metric)) == Total(cs, metric)
    decreases |cs|
  {
    if cs != [] {
      var init, c := Init(cs), Last(cs);
      var names := Authors(init);
      AuthorsSnoc(cs);
      BarsConserve(init, metric);
      BarsOfLastCommit(names, cs, metric);
      assert Total(cs, metric) == Total(init, metric) + Weight(c, metric);
      if c.author !in names {
        BarsOfSnoc(names, c.author, cs, metric);
        AbsentAuthorTotal(init, c.author, metric);
        assert GroupTotal(cs, c.author, metric) == Weight(c, metric);
        assert SumValues(BarsOf(names, cs, metric)) == Total(init, metric);
      }
    }
  }

  /** The bars together hold exactly the summed weight of all commits: no commit is lost or counted twice. */
  lemma RollupConserves(cs: seq<Commit>, metric: string)
    ensures SumValues(Rollup(cs, metric)) == Total(cs, metric)
  {
    BarsConserve(cs, metric);
  }

  /** Counting commits, the totals add up to the number of commits. */
  lemma {:induction false} CommitsTotal(cs: seq<Commit>)
    ensures Total(cs, "commits") == |cs|
    decreases |cs|
  {
    if cs != [] {
      CommitsTotal(Init(cs));
    }
  }

  // ---------------------------------------------------------------------------
  // the chart data

  /** The sort key of `(a, b) => b.value - a.value`: larger values first. */
  function NegValue(b: Bar): int {
    -b.value
  }

  /**
   * The bars the chart draws: the commits of the chosen month (or all),
   * rolled up by author, copied to an array and sorted in place from the
   * largest value to the smallest; bars of equal value keep their order.
   */
  method BarChartData(commits: seq<Commit>, monthFilter: string, metric: string) returns (bars: seq<Bar>)
    ensures bars == SortByKey(Rollup(FilterByMonth(monthFilter, commits), metric), NegValue)
    ensures forall i, j :: 0 <= i < j < |bars| ==> bars[i].value >= bars[j].value
    ensures multiset(bars) == multiset(Rollup(FilterByMonth(monthFilter, commits), metric))
    ensures forall k :: WithKey(bars, NegValue, k) == WithKey(Rollup(FilterByMonth(monthFilter, commits), metric), NegValue, k)
    ensures forall i, j :: 0 <= i < j < |bars| && bars[i].value == bars[j].value ==>
      FirstIndex(FilterByMonth(monthFilter, commits), bars[i].author) < FirstIndex(FilterByMonth(monthFilter, commits), bars[j].author)
  {
    var filtered := FilterByMonth(monthFilter, commits);
    var rolled := Rollup(filtered, metric);
    bars := SortedCopy(rolled, NegValue);
    assert forall i, j :: 0 <= i < j < |bars| ==> NegValue(bars[i]) <= NegValue(bars[j]);
    TiesInFirstAppearance(filtered, metric, bars);
  }

  /** A stable reordering of the rollup by value leaves bars of equal value in the order of their authors' first commits. */
  lemma TiesInFirstAppearance(cs: seq<Commit>, metric: string, bars: seq<Bar>)
    requires forall k :: WithKey(bars, NegValue, k) == WithKey(Rollup(cs, metric), NegValue, k)
    ensures forall i, j :: 0 <= i < j < |bars| && bars[i].value == bars[j].value ==>
      FirstIndex(cs, bars[i].author) < FirstIndex(cs, bars[j].author)
  {
    var rolled := Rollup(cs, metric);
    var rank := (b: Bar) => FirstIndex(cs, b.author);
    forall i, j | 0 <= i < j < |rolled| ensures rank(rolled[i]) < rank(rolled[j]) {
      assert rank(rolled[i]) == FirstIndex(cs, rolled[i].author) && rank(rolled[j]) == FirstIndex(cs, rolled[j].author);
    }
    TiesKeepRank(rolled, bars, NegValue, rank);
    forall i, j | 0 <= i < j < |bars| && bars[i].value == bars[j].value
      ensures FirstIndex(cs, bars[i].author) < FirstIndex(cs, bars[j].author)
    {
      assert NegValue(bars[i]) == NegValue(bars[j]);
      assert rank(bars[i]) == FirstIndex(cs, bars[i].author) && rank(bars[j]) == FirstIndex(cs, bars[j].author);
    }
  }

  /** The y-axis title. */
  function AxisLabel(metric: string): (r: string)
    ensures r == "Number of Commits" <==> metric == "commits"
    ensures metric != "commits" ==> r == "Lines Changed"
  {
    if metric == "commits" then "Number of Commits" else "Lines Changed"
  }

  /**
   * Worked case: one author whose diffs are -50, 20 and 30 has a bar of 0 by
   * lines changed, and of 3 by commits.
   */
  lemma NetZeroAuthor(c1: Commit, c2: Commit, c3: Commit)
    requires c1.author == Some("alice") && c2.author == Some("alice") && c3.author == Some("alice")
    requires c1.diff == Some(-50) && c2.diff == Some(20) && c3.diff == Some(30)
    ensures Rollup([c1, c2, c3], "lines") == [Bar(Some("alice"), 0)]
    ensures Rollup([c1, c2, c3], "commits") == [Bar(Some("alice"), 3)]
  {
    var cs := [c1, c2, c3];
    assert Init(cs) == [c1, c2] && Init([c1, c2]) == [c1] && Init([c1]) == [];
    assert Authors([c1]) == [Some("alice")];
    assert Authors([c1, c2]) == [Some("alice")];
    assert Authors(cs) == [Some("alice")];
    assert |"lines"| != |"commits"|;
    assert Weight(c1, "lines") == -50 && Weight(c2, "lines") == 20 && Weight(c3, "lines") == 30;
    assert GroupTotal([c1], Some("alice"), "lines") == -50;
    assert GroupTotal([c1, c2], Some("alice"), "lines") == -30;
    assert GroupTotal([c1], Some("alice"), "commits") == 1;
    assert GroupTotal([c1, c2], Some("alice"), "commits") == 2;
  }
}
