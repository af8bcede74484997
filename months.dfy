/**
 * The month list of the scatter and bar charts and the month filter that
 * reads a chosen entry back: keys are `YYYY-MM` built from a commit's year and
 * zero-based month, labels are `<month name> <year>`, and the filter value
 * `all` keeps everything.
 */
module Months {
  import opened Options
  import opened Text
  import opened Seqs
  import opened Commits
  import Calendar

  const MonthNames: seq<string> := ["January", "February", "March", "April", "May", "June", "July",
                                    "August", "September", "October", "November", "December"]

  /** `${year}-${String(month + 1).padStart(2, '0')}`. */
  function MonthKey(year: int, month: int): string {
    IntToString(year) + "-" + PadStart(IntToString(month + 1), 2, '0')
  }

  function KeyOf(c: Commit): string {
    MonthKey(c.year, c.month)
  }

  /** `months[i]`, which is `undefined` outside 0..11 (and for NaN). */
  function MonthName(i: Option<int>): string {
    if i.Some? && 0 <= i.value < 12 then MonthNames[i.value] else "undefined"
  }

  /** The label of a key: `${months[parseInt(month) - 1]} ${year}` after `const [year, month] = ym.split('-')`. */
  function MonthLabel(key: string): string {
    var parts := Split(key, '-');
    var index := if |parts| >= 2 && ParseInt(parts[1]).Some? then Some(ParseInt(parts[1]).value - 1) else None;
    MonthName(index) + " " + parts[0]
  }

  datatype MonthOption = MonthOption(value: string, text: string)

  /** The option is the key of some commit, labelled with that commit's month name and year. */
  predicate LabelledByCommit(o: MonthOption, commits: seq<Commit>) {
    exists j :: 0 <= j < |commits| && o.value == KeyOf(commits[j]) && 0 <= commits[j].month < 12 &&
                o.text == MonthNames[commits[j].month] + " " + IntToString(commits[j].year)
  }

  /** The key of every commit, in order. */
  function MonthKeys(commits: seq<Commit>): (keys: seq<string>)
    ensures |keys| == |commits|
    ensures forall j :: 0 <= j < |commits| ==> keys[j] == KeyOf(commits[j])
  {
    seq(|commits|, j requires 0 <= j < |commits| => KeyOf(commits[j]))
  }

  /** Some option has the value `k`. */
  predicate Offered(k: string, r: seq<MonthOption>) {
    exists i :: 0 <= i < |r| && r[i].value == k
  }

  /** `k` is the key of some commit. */
  predicate KeyOfSome(k: string, commits: seq<Commit>) {
    exists j :: 0 <= j < |commits| && k == KeyOf(commits[j])
  }

  /** `[...new Set(keys)].sort().map(...)` over any list of keys: one option per distinct key, in code-point order. */
  function OptionsOf(keys: seq<string>): (r: seq<MonthOption>)
    ensures forall i, j :: 0 <= i < j < |r| ==> LexLess(r[i].value, r[j].value)
    ensures forall i :: 0 <= i < |r| ==> r[i].value in keys
    ensures forall k :: k in keys ==> Offered(k, r)
    ensures forall i :: 0 <= i < |r| ==> r[i].text == MonthLabel(r[i].value)
  {
    var sorted := SortDistinct(keys);
    var r := seq(|sorted|, i requires 0 <= i < |sorted| => MonthOption(sorted[i], MonthLabel(sorted[i])));
    forall k | k in keys ensures Offered(k, r) {
      var i :| 0 <= i < |sorted| && sorted[i] == k;
      assert r[i].value == k;
    }
    r
  }

  /** The month options of the charts: one per distinct key of a commit, in code-point order. */
  function MonthOptions(commits: seq<Commit>): (r: seq<MonthOption>)
    ensures forall i, j :: 0 <= i < j < |r| ==> LexLess(r[i].value, r[j].value)
    ensures forall i :: 0 <= i < |r| ==> KeyOfSome(r[i].value, commits)
    ensures forall j :: 0 <= j < |commits| ==> Offered(KeyOf(commits[j]), r)
    ensures forall i :: 0 <= i < |r| ==> r[i].text == MonthLabel(r[i].value)
  {
    var keys := MonthKeys(commits);
    var r := OptionsOf(keys);
    forall i | 0 <= i < |r| ensures KeyOfSome(r[i].value, commits) {
      var j :| 0 <= j < |keys| && keys[j] == r[i].value;
    }
    forall j | 0 <= j < |commits| ensures Offered(KeyOf(commits[j]), r) {
      assert keys[j] in keys;
    }
    r
  }

  /** The month filter: `all` keeps everything; otherwise the two leading `-` pieces, read by `Number`, must be the year and month + 1. */
  predicate MonthMatches(filter: string, c: Commit) {
    filter == "all" ||
    (var parts := Split(filter, '-');
     |parts| >= 2 && ToNumber(parts[0]) == Some(c.year) && ToNumber(parts[1]) == Some(c.month + 1))
  }

  /** `filteredData = commits.filter(...)`: the matching commits, in order, each as often as it occurs. */
  function FilterByMonth(filter: string, commits: seq<Commit>): (r: seq<Commit>)
    ensures IsSubsequence(r, commits)
    ensures forall i :: 0 <= i < |r| ==> r[i] in commits && MonthMatches(filter, r[i])
    ensures forall j :: 0 <= j < |commits| && MonthMatches(filter, commits[j]) ==> commits[j] in r
    ensures forall c :: multiset(r)[c] == if MonthMatches(filter, c) then multiset(commits)[c] else 0
  {
    FilterSpec(commits, c => MonthMatches(filter, c));
    Filter(commits, c => MonthMatches(filter, c))
  }

  // ---------------------------------------------------------------------------
  // keys, labels and the filter agree

  lemma DigitsHaveNoDash(s: string)
    requires AllDigits(s)
    ensures '-' !in s
  {
    assert forall i :: 0 <= i < |s| ==> s[i] != '-';
  }

  /** A text with no `-` on either side of one `-` splits into the two sides. */
  lemma SplitAround(y: string, m: string)
    requires '-' !in y && '-' !in m
    ensures Split(y + "-" + m, '-') == [y, m]
  {
    SplitAfterPiece(y, '-', m);
    SplitWithoutSeparator(m, '-');
  }

  /** A key of a non-negative year splits back into the year text and the padded month. */
  lemma SplitKey(year: int, month: int)
    requires 0 <= year && 0 <= month
    ensures Split(MonthKey(year, month), '-') == [IntToString(year), PadStart(IntToString(month + 1), 2, '0')]
  {
    var y := IntToString(year);
    var m := PadStart(IntToString(month + 1), 2, '0');
    NumberOfPadded(month + 1, 2);
    DigitsHaveNoDash(y);
    DigitsHaveNoDash(m);
    SplitAround(y, m);
  }

  /** A key is never the text `all`: it holds a `-`. */
  lemma KeyIsNotAll(year: int, month: int)
    ensures MonthKey(year, month) != "all"
  {
    var y := IntToString(year);
    var key := MonthKey(year, month);
    assert key[|y|] == '-';
    assert "all" == ['a', 'l', 'l'];
  }

  lemma LabelOfParts(key: string, y: string, m: string, month: int)
    requires Split(key, '-') == [y, m] && ParseInt(m) == Some(month + 1) && 0 <= month <= 11
    ensures MonthLabel(key) == MonthNames[month] + " " + y
  {}

  /** The label of the key of (year, month) is the month's name and the year. */
  lemma LabelOfKey(year: int, month: int)
    requires 0 <= year && 0 <= month <= 11
    ensures MonthLabel(MonthKey(year, month)) == MonthNames[month] + " " + IntToString(year)
  {
    var m := PadStart(IntToString(month + 1), 2, '0');
    SplitKey(year, month);
    NumberOfPadded(month + 1, 2);
    ParseIntOfDigits(m);
    LabelOfParts(MonthKey(year, month), IntToString(year), m, month);
  }

  lemma MatchesOfParts(key: string, y: string, m: string, year: int, month: int, c: Commit)
    requires key != "all" && Split(key, '-') == [y, m]
    requires ToNumber(y) == Some(year) && ToNumber(m) == Some(month + 1)
    ensures MonthMatches(key, c) <==> c.year == year && c.month == month
  {}

  /** Round trip: choosing the key of (year, month) keeps exactly the commits of that year and month. */
  lemma KeySelectsMonth(year: int, month: int, c: Commit)
    requires 0 <= year && 0 <= month
    ensures MonthMatches(MonthKey(year, month), c) <==> c.year == year && c.month == month
  {
    var m := PadStart(IntToString(month + 1), 2, '0');
    SplitKey(year, month);
    KeyIsNotAll(year, month);
    NumberOfIntString(year);
    NumberOfPadded(month + 1, 2);
    MatchesOfParts(MonthKey(year, month), IntToString(year), m, year, month, c);
  }

  /**
   * Choosing the key of (year, month) keeps a row's commit exactly when the
   * row's parsed date falls in that year and month.
   */
  lemma KeySelectsParsedDate(d: RawCommit, year: int, month: int)
    requires 0 <= year && 0 <= month
    requires d.createdDate.Some? && Calendar.ParseFields(d.createdDate.value).Some?
    ensures var f := Calendar.ParseFields(d.createdDate.value).value;
      MonthMatches(MonthKey(year, month), MapCommit(d)) <==> f.year == year && f.month == month + 1
  {
    KeySelectsMonth(year, month, MapCommit(d));
  }

  /** `all` keeps every commit. */
  lemma AllKeepsEverything(commits: seq<Commit>)
    ensures FilterByMonth("all", commits) == commits
  {
    FilterKeepsAll(commits, c => MonthMatches("all", c));
  }

  /** The filter for the key of (year, month) keeps the commits of that month and only those, in order. */
  lemma FilterByKey(year: int, month: int, commits: seq<Commit>)
    requires 0 <= year && 0 <= month
    ensures forall i :: 0 <= i < |FilterByMonth(MonthKey(year, month), commits)| ==>
      FilterByMonth(MonthKey(year, month), commits)[i].year == year &&
      FilterByMonth(MonthKey(year, month), commits)[i].month == month
    ensures forall j :: 0 <= j < |commits| && commits[j].year == year && commits[j].month == month ==>
      commits[j] in FilterByMonth(MonthKey(year, month), commits)
  {
    var r := FilterByMonth(MonthKey(year, month), commits);
    forall i | 0 <= i < |r| ensures r[i].year == year && r[i].month == month {
      KeySelectsMonth(year, month, r[i]);
    }
    forall j | 0 <= j < |commits| && commits[j].year == year && commits[j].month == month
      ensures commits[j] in r
    {
      KeySelectsMonth(year, month, commits[j]);
    }
  }

  /** The label of an option for a parsed commit's key, and what choosing it keeps. */
  lemma OptionOfParsedCommit(commits: seq<Commit>, j: int, o: MonthOption)
    requires 0 <= j < |commits| && HasCalendar(commits[j])
    requires o.value == KeyOf(commits[j]) && o.text == MonthLabel(o.value)
    ensures LabelledByCommit(o, commits)
    ensures |FilterByMonth(o.value, commits)| > 0
  {
    LabelOfKey(commits[j].year, commits[j].month);
    KeySelectsMonth(commits[j].year, commits[j].month, commits[j]);
    assert commits[j] in FilterByMonth(o.value, commits);
  }

  /**
   * Every option offered for parsed commits is labelled with the month name
   * and year of a commit it came from, and choosing it keeps at least one commit.
   */
  lemma OptionsOfParsedCommits(commits: seq<Commit>)
    requires forall j :: 0 <= j < |commits| ==> HasCalendar(commits[j])
    ensures forall i :: 0 <= i < |MonthOptions(commits)| ==> LabelledByCommit(MonthOptions(commits)[i], commits)
    ensures forall i :: 0 <= i < |MonthOptions(commits)| ==> |FilterByMonth(MonthOptions(commits)[i].value, commits)| > 0
  {
    var r := MonthOptions(commits);
    forall i | 0 <= i < |r|
      ensures LabelledByCommit(r[i], commits)
      ensures |FilterByMonth(r[i].value, commits)| > 0
    {
      assert KeyOfSome(r[i].value, commits);
      var j :| 0 <= j < |commits| && r[i].value == KeyOf(commits[j]);
      OptionOfParsedCommit(commits, j, r[i]);
    }
  }
}
