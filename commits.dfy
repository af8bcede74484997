/**
 * The dashboard's commit records: each row of `commits.csv` gets its parsed
 * date and the calendar fields the scatter and bar charts group by; rows whose
 * date does not parse are dropped.
 */
module Commits {
  import opened Options
  import opened Text
  import opened Calendar
  import opened Seqs

  /** One row of `commits.csv` as `d3.csv` hands it over: a missing column is `None`. */
  datatype RawCommit = RawCommit(
    sha: Option<string>,
    message: Option<string>,
    createdDate: Option<string>,
    numberOfFilesUpdated: Option<string>,
    diff: Option<string>,
    author: Option<string>,
    repoOwner: Option<string>,
    repoName: Option<string>)

  /**
   * A mapped commit.  Numbers that are NaN are `None`; the calendar fields are
   * -1 when the date is `null`.  `month` counts from 0 (January), like `getMonth()`.
   */
  datatype Commit = Commit(
    sha: Option<string>,
    message: Option<string>,
    date: Option<int>,
    filesChanged: Option<int>,
    diff: Option<int>,
    author: Option<string>,
    weekday: int,
    hour: int,
    month: int,
    year: int,
    repoOwner: Option<string>,
    repoName: Option<string>)

  /** The `map` callback: parse the date once and read the weekday, hour, month and year from it. */
  function MapCommit(d: RawCommit): (c: Commit)
    ensures c.date == ParseCell(d.createdDate)
    ensures c.date.Some? ==> 0 <= c.weekday <= 6 && 0 <= c.hour <= 23 && 0 <= c.month <= 11 && 0 <= c.year <= 9999
    ensures c.date.None? ==> c.weekday == -1 && c.hour == -1 && c.month == -1 && c.year == -1
    ensures c.date.Some? ==> c.weekday == Weekday(c.date.value) && c.hour == HourOf(c.date.value)
    ensures c.date.Some? ==>
      var f := ParseFields(d.createdDate.value).value;
      c.month == f.month - 1 && c.year == f.year && c.date.value == ToSeconds(f)
  {
    var fields := if d.createdDate.Some? then ParseFields(d.createdDate.value) else None;
    var date := ParseCell(d.createdDate);
    Commit(
      d.sha, d.message, date, CellNumber(d.numberOfFilesUpdated), CellNumber(d.diff), d.author,
      if date.Some? then Weekday(date.value) else -1,
      if date.Some? then HourOf(date.value) else -1,
      if fields.Some? then fields.value.month - 1 else -1,
      if fields.Some? then fields.value.year else -1,
      d.repoOwner, d.repoName)
  }

  /** The `filter` test: a date, and a weekday and hour that are not the -1 placeholder. */
  predicate Kept(c: Commit) {
    c.date.Some? && c.weekday != -1 && c.hour != -1
  }

  /** A commit whose calendar fields are those of a parsed date. */
  predicate HasCalendar(c: Commit) {
    c.date.Some? && 0 <= c.weekday <= 6 && 0 <= c.hour <= 23 && 0 <= c.month <= 11 && 0 <= c.year <= 9999
  }

  /** `commitData.map(...)`. */
  function MappedCommits(rows: seq<RawCommit>): (r: seq<Commit>)
    ensures |r| == |rows| && forall j :: 0 <= j < |rows| ==> r[j] == MapCommit(rows[j])
  {
    seq(|rows|, i requires 0 <= i < |rows| => MapCommit(rows[i]))
  }

  /** `commitData.map(...).filter(...)`. */
  function NormaliseCommits(rows: seq<RawCommit>): (r: seq<Commit>)
    ensures |r| <= |rows|
  {
    Filter(MappedCommits(rows), Kept)
  }

  /**
   * The kept commits have calendar fields, each comes from a row, and every
   * row whose date parses is kept; they follow the row order, and each occurs
   * as often as rows map to it.
   */
  lemma NormaliseCommitsSpec(rows: seq<RawCommit>)
    ensures forall i :: 0 <= i < |NormaliseCommits(rows)| ==> HasCalendar(NormaliseCommits(rows)[i])
    ensures forall i :: 0 <= i < |NormaliseCommits(rows)| ==>
      exists j :: 0 <= j < |rows| && NormaliseCommits(rows)[i] == MapCommit(rows[j])
    ensures forall j :: 0 <= j < |rows| && ParseCell(rows[j].createdDate).Some? ==> MapCommit(rows[j]) in NormaliseCommits(rows)
    ensures IsSubsequence(NormaliseCommits(rows), MappedCommits(rows))
    ensures forall c :: multiset(NormaliseCommits(rows))[c] == if Kept(c) then multiset(MappedCommits(rows))[c] else 0
  {
    var mapped := MappedCommits(rows);
    var r := Filter(mapped, Kept);
    assert r == NormaliseCommits(rows);
    FilterSpec(mapped, Kept);
    forall j | 0 <= j < |rows| && ParseCell(rows[j].createdDate).Some? ensures MapCommit(rows[j]) in r {
      KeptIffParsed(rows[j]);
      assert mapped[j] == MapCommit(rows[j]);
    }
    forall i | 0 <= i < |r| ensures HasCalendar(r[i]) && exists j :: 0 <= j < |rows| && r[i] == MapCommit(rows[j]) {
      KeptFromRow(rows, r[i]);
    }
  }

  /** A kept commit of the mapped rows comes from a row and has calendar fields. */
  lemma KeptFromRow(rows: seq<RawCommit>, c: Commit)
    requires c in MappedCommits(rows) && Kept(c)
    ensures HasCalendar(c) && exists j :: 0 <= j < |rows| && c == MapCommit(rows[j])
  {
    var j :| 0 <= j < |rows| && MappedCommits(rows)[j] == c;
    assert c == MapCommit(rows[j]);
  }

  /** A commit is dropped exactly when its date does not parse. */
  lemma KeptIffParsed(d: RawCommit)
    ensures Kept(MapCommit(d)) <==> ParseCell(d.createdDate).Some?
  {}

  /**
   * The month and year are read from the parsed fields, the weekday and hour
   * from the instant; they always agree, because two dates naming the same
   * instant have the same fields.
   */
  lemma CalendarOfInstant(d: RawCommit, e: RawCommit)
    requires Kept(MapCommit(d)) && Kept(MapCommit(e))
    requires MapCommit(d).date == MapCommit(e).date
    ensures MapCommit(d).year == MapCommit(e).year && MapCommit(d).month == MapCommit(e).month
    ensures MapCommit(d).weekday == MapCommit(e).weekday && MapCommit(d).hour == MapCommit(e).hour
  {
    var a := ParseFields(d.createdDate.value).value;
    var b := ParseFields(e.createdDate.value).value;
    ToSecondsInjective(a, b);
  }
}
