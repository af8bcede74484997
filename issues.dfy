/**
 * The dashboard's issue records: each row of `issues.csv` becomes an issue
 * with a parsed start, a corrected end, a default state, its contributor list
 * and a whole-day duration; rows whose creation date does not parse are
 * dropped.  "Now" is a parameter.
 */
module Issues {
  import opened Options
  import opened Text
  import opened Calendar
  import opened Seqs

  /** One row of `issues.csv` as `d3.csv` hands it over: a missing column is `None`. */
  datatype RawIssue = RawIssue(
    issueId: Option<string>,
    issueNumber: Option<string>,
    title: Option<string>,
    state: Option<string>,
    createdDate: Option<string>,
    closedDate: Option<string>,
    contributors: Option<string>,
    repoOwner: Option<string>,
    repoName: Option<string>)

  /** A normalised issue; `number` is `None` when `+issue_number` is NaN, `endDate` is `None` when it is `null`. */
  datatype Issue = Issue(
    id: Option<string>,
    number: Option<int>,
    title: Option<string>,
    state: string,
    startDate: int,
    endDate: Option<int>,
    contributors: seq<string>,
    duration: int,
    repoOwner: Option<string>,
    repoName: Option<string>)

  /** The close instant before correction: the parsed close date, or now when the cell is empty or missing. */
  function ClosedCandidate(closedDate: Option<string>, now: int): Option<int> {
    if Truthy(closedDate) then ParseTime(closedDate.value) else Some(now)
  }

  /**
   * The end of the bar.  A close earlier than the start is replaced by the
   * start plus one day when the raw state is exactly `CLOSED`, and by now
   * otherwise.
   */
  function EndDate(created: int, closedDate: Option<string>, state: Option<string>, now: int): (r: Option<int>)
    ensures r.None? <==> Truthy(closedDate) && ParseTime(closedDate.value).None?
    ensures r.Some? ==> r.value >= created || r.value == now
    ensures r.Some? && now >= created ==> r.value >= created
  {
    var closed := ClosedCandidate(closedDate, now);
    if closed.Some? && closed.value < created then
      if state == Some("CLOSED") then Some(AddDays(created, 1)) else Some(now)
    else closed
  }

  /** `d3.timeDay.count(created, closed)`, or 0 when there is no end. */
  function Duration(created: int, endDate: Option<int>): (d: int)
    ensures endDate.None? ==> d == 0
    ensures endDate.Some? && endDate.value >= created ==> d >= 0
  {
    if endDate.Some? then DayCount(created, endDate.value) else 0
  }

  /** `d.state?.toUpperCase() || 'OPEN'`. */
  function NormaliseState(state: Option<string>): (r: string)
    ensures !Truthy(state) ==> r == "OPEN"
    ensures r != ""
    ensures forall i :: 0 <= i < |r| ==> !('a' <= r[i] <= 'z')
    ensures Truthy(state) ==> |r| == |state.value| && forall i :: 0 <= i < |r| ==> LowerChar(r[i]) == LowerChar(state.value[i])
  {
    if Truthy(state) then Upper(state.value) else "OPEN"
  }

  predicate NonBlank(s: string) {
    !IsBlank(s)
  }

  /** `d.contributors ? d.contributors.split(';').filter(c => c.trim() !== '') : []`; kept pieces are not trimmed. */
  function Contributors(cell: Option<string>): (r: seq<string>)
    ensures !Truthy(cell) ==> r == []
    ensures forall i :: 0 <= i < |r| ==> NonBlank(r[i]) && ';' !in r[i]
    ensures Truthy(cell) ==> IsSubsequence(r, Split(cell.value, ';'))
    ensures Truthy(cell) ==>
      forall x :: multiset(r)[x] == if NonBlank(x) then multiset(Split(cell.value, ';'))[x] else 0
  {
    if Truthy(cell) then
      var pieces := Split(cell.value, ';');
      var r := Filter(pieces, NonBlank);
      FilterSpec(pieces, NonBlank);
      assert forall i :: 0 <= i < |r| ==> r[i] in pieces;
      r
    else []
  }

  /** One row through the `map` callback and the `filter(d => d.startDate)` test: `None` when the row is dropped. */
  function NormaliseIssue(d: RawIssue, now: int): (r: Option<Issue>)
    ensures r.None? <==> ParseCell(d.createdDate).None?
    ensures r.Some? ==> r.value.startDate == ParseCell(d.createdDate).value
    ensures r.Some? ==> r.value.endDate == EndDate(r.value.startDate, d.closedDate, d.state, now)
    ensures r.Some? && now >= r.value.startDate && r.value.endDate.Some? ==> r.value.endDate.value >= r.value.startDate
    ensures r.Some? && r.value.endDate.None? ==> r.value.duration == 0
    ensures r.Some? && now >= r.value.startDate ==> r.value.duration >= 0
    ensures r.Some? ==> r.value.state == NormaliseState(d.state) && r.value.contributors == Contributors(d.contributors)
    ensures r.Some? ==> r.value.number == CellNumber(d.issueNumber) && r.value.id == d.issueId && r.value.title == d.title
    ensures r.Some? ==> r.value.repoOwner == d.repoOwner && r.value.repoName == d.repoName
  {
    match ParseCell(d.createdDate)
    case None => None
    case Some(created) =>
      var closed := EndDate(created, d.closedDate, d.state, now);
      Some(Issue(
        d.issueId, CellNumber(d.issueNumber), d.title, NormaliseState(d.state),
        created, closed, Contributors(d.contributors), Duration(created, closed),
        d.repoOwner, d.repoName))
  }

  /** `issueData.map(...).filter(d => d.startDate)`: the rows that have a start, normalised, in their original order. */
  function NormaliseIssues(rows: seq<RawIssue>, now: int): (r: seq<Issue>)
    ensures |r| <= |rows|
  {
    FilterMap(rows, d => NormaliseIssue(d, now))
  }

  /** `issueData.map(...)` before the filter: each row normalised, `None` where it has no start. */
  function Normalised(rows: seq<RawIssue>, now: int): (r: seq<Option<Issue>>)
    ensures |r| == |rows| && forall j :: 0 <= j < |rows| ==> r[j] == NormaliseIssue(rows[j], now)
  {
    seq(|rows|, j requires 0 <= j < |rows| => NormaliseIssue(rows[j], now))
  }

  /**
   * Every kept issue comes from a row, and every row that has a start is
   * kept; the kept issues follow the row order, and each occurs as often as
   * rows normalise to it.
   */
  lemma NormaliseIssuesSpec(rows: seq<RawIssue>, now: int)
    ensures forall i :: 0 <= i < |NormaliseIssues(rows, now)| ==>
      exists j :: 0 <= j < |rows| && NormaliseIssue(rows[j], now) == Some(NormaliseIssues(rows, now)[i])
    ensures forall j :: 0 <= j < |rows| && NormaliseIssue(rows[j], now).Some? ==>
      NormaliseIssue(rows[j], now).value in NormaliseIssues(rows, now)
    ensures IsSubsequence(Wrapped(NormaliseIssues(rows, now)), Normalised(rows, now))
    ensures forall x :: multiset(NormaliseIssues(rows, now))[x] == multiset(Normalised(rows, now))[Some(x)]
  {
    var f := d => NormaliseIssue(d, now);
    assert NormaliseIssues(rows, now) == FilterMap(rows, f);
    assert Mapped(rows, f) == Normalised(rows, now);
    FilterMapSpec(rows, f);
    forall j | 0 <= j < |rows| && NormaliseIssue(rows[j], now).Some?
      ensures NormaliseIssue(rows[j], now).value in NormaliseIssues(rows, now)
    {
      assert f(rows[j]) == NormaliseIssue(rows[j], now);
    }
    forall i | 0 <= i < |NormaliseIssues(rows, now)|
      ensures exists j :: 0 <= j < |rows| && NormaliseIssue(rows[j], now) == Some(NormaliseIssues(rows, now)[i])
    {
      assert MapsTo(rows, f, NormaliseIssues(rows, now)[i]);
      var j :| 0 <= j < |rows| && f(rows[j]) == Some(NormaliseIssues(rows, now)[i]);
    }
  }

  // ---------------------------------------------------------------------------
  // properties of the normalisation

  /** An empty or missing close date gives now as the end, whenever the issue did not start in the future. */
  lemma OpenIssueEndsNow(created: int, closedDate: Option<string>, state: Option<string>, now: int)
    requires !Truthy(closedDate) && now >= created
    ensures EndDate(created, closedDate, state, now) == Some(now)
  {}

  /** A close date that does not parse gives no end and a zero duration. */
  lemma UnparseableCloseGivesNoEnd(d: RawIssue, now: int)
    requires ParseCell(d.createdDate).Some?
    requires Truthy(d.closedDate) && ParseTime(d.closedDate.value).None?
    ensures NormaliseIssue(d, now).Some?
    ensures NormaliseIssue(d, now).value.endDate.None? && NormaliseIssue(d, now).value.duration == 0
  {}

  /** A close before the start: one day after the start for a `CLOSED` row, now otherwise. */
  lemma EarlyCloseCorrected(created: int, closedDate: Option<string>, state: Option<string>, now: int, t: int)
    requires Truthy(closedDate) && ParseTime(closedDate.value) == Some(t) && t < created
    ensures state == Some("CLOSED") ==> EndDate(created, closedDate, state, now) == Some(created + SecondsPerDay)
    ensures state != Some("CLOSED") ==> EndDate(created, closedDate, state, now) == Some(now)
  {}

  /** The state test is on the raw cell: a lower-case `closed` is not corrected to the start plus one day. */
  lemma LowerCaseClosedEndsNow(created: int, closedDate: Option<string>, now: int, t: int)
    requires Truthy(closedDate) && ParseTime(closedDate.value) == Some(t) && t < created
    ensures EndDate(created, closedDate, Some("closed"), now) == Some(now)
    ensures NormaliseState(Some("closed")) == "CLOSED"
  {
    assert Some("closed") != Some("CLOSED") by {
      assert "closed"[0] != "CLOSED"[0];
    }
  }

  /** A close at or after the start is kept as it is. */
  lemma LateCloseKept(created: int, closedDate: Option<string>, state: Option<string>, now: int, t: int)
    requires Truthy(closedDate) && ParseTime(closedDate.value) == Some(t) && t >= created
    ensures EndDate(created, closedDate, state, now) == Some(t)
  {}

  /** One day after any instant is one midnight later. */
  lemma OneDayLater(t: int)
    ensures DayCount(t, AddDays(t, 1)) == 1
  {}

  /** A `CLOSED` row whose close date names an earlier calendar instant than its creation date ends one day after its start. */
  lemma ClosedBeforeCreated(d: RawIssue, now: int, created: DateTime, closed: DateTime)
    requires d.createdDate.Some? && ParseFields(d.createdDate.value) == Some(created)
    requires Truthy(d.closedDate) && ParseFields(d.closedDate.value) == Some(closed)
    requires Before(closed, created) && d.state == Some("CLOSED")
    ensures NormaliseIssue(d, now).Some?
    ensures NormaliseIssue(d, now).value.startDate == ToSeconds(created)
    ensures NormaliseIssue(d, now).value.endDate == Some(AddDays(ToSeconds(created), 1))
    ensures NormaliseIssue(d, now).value.duration == 1
  {
    ToSecondsMonotone(closed, created);
    OneDayLater(ToSeconds(created));
  }

  lemma ParseStart()
    ensures ParseFields("2024-01-01T00:00:00Z") == Some(DateTime(2024, 1, 1, 0, 0, 0))
  {
    var dt := DateTime(2024, 1, 1, 0, 0, 0);
    ParseOfFormat(dt);
    assert Pad4(2024) == "2024" && Pad2(1) == "01" && Pad2(0) == "00";
    assert Format(dt) == "2024-01-01T00:00:00Z";
  }

  lemma ParseEarlyClose()
    ensures ParseFields("2023-12-30T00:00:00Z") == Some(DateTime(2023, 12, 30, 0, 0, 0))
  {
    var dt := DateTime(2023, 12, 30, 0, 0, 0);
    ParseOfFormat(dt);
    assert Pad4(2023) == "2023" && Pad2(12) == "12" && Pad2(30) == "30" && Pad2(0) == "00";
    assert Format(dt) == "2023-12-30T00:00:00Z";
  }

  /**
   * Worked case: created 2024-01-01, closed 2023-12-30, state `CLOSED`: the
   * end is one day after the start, 2024-01-02, and the duration one day.
   */
  lemma WorkedEarlyClose(now: int)
    ensures
      var d := RawIssue(Some("7"), Some("42"), Some("t"), Some("CLOSED"),
                        Some("2024-01-01T00:00:00Z"), Some("2023-12-30T00:00:00Z"), Some("alice"), None, None);
      var r := NormaliseIssue(d, now);
      && r.Some?
      && r.value.startDate == ToSeconds(DateTime(2024, 1, 1, 0, 0, 0))
      && r.value.endDate == Some(AddDays(r.value.startDate, 1))
      && r.value.duration == 1
  {
    var d := RawIssue(Some("7"), Some("42"), Some("t"), Some("CLOSED"),
                      Some("2024-01-01T00:00:00Z"), Some("2023-12-30T00:00:00Z"), Some("alice"), None, None);
    ParseStart();
    ParseEarlyClose();
    ClosedBeforeCreated(d, now, DateTime(2024, 1, 1, 0, 0, 0), DateTime(2023, 12, 30, 0, 0, 0));
  }
}
