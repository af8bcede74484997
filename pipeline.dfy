/**
 * The scripts and the dashboard together: what a row written by a fetch
 * script becomes once the dashboard reads it back from the CSV file.  A
 * `csv.writer` field is read by `d3.csv` as the same text; `None` is written
 * as the empty field.
 */
module Pipeline {
  import opened Options
  import opened Text
  import opened Seqs
  import FetchPrs
  import Funnel
  import FetchIssues
  import Issues
  import FetchCommits
  import Commits
  import Links

  // ---------------------------------------------------------------------------
  // prs.csv into the funnel

  /** A row of `prs.csv` as the dashboard reads it. */
  function PrCsvRow(r: FetchPrs.PrRecord): Funnel.PrRow {
    Funnel.PrRow(Some(IntToString(r.prNumber)), Some(NumberCell(r.timeToFirstReview)),
                 Some(NumberCell(r.timeToApproval)), Some(NumberCell(r.timeToMerge)),
                 Some(IntToString(r.wasMerged)))
  }

  lemma MergedFlagText(r: FetchPrs.PrRecord)
    requires r.wasMerged == 0 || r.wasMerged == 1
    ensures Funnel.IsMerged(PrCsvRow(r)) <==> r.wasMerged == 1
  {
    assert IntToString(1) == "1" && IntToString(0) == "0";
    assert "0" != "true";
  }

  /**
   * The funnel stages of a pull request agree with the script's scan: it is
   * reviewed exactly when a qualifying review was found, approved only when
   * also reviewed, and merged exactly when its state is `MERGED`.
   */
  lemma FunnelStagesOfPr(pr: FetchPrs.Pr)
    ensures Funnel.IsReviewed(PrCsvRow(FetchPrs.RecordOf(pr))) <==> FetchPrs.FirstReviewAt(pr.nodes, pr.author).Some?
    ensures Funnel.IsApproved(PrCsvRow(FetchPrs.RecordOf(pr))) ==> Funnel.IsReviewed(PrCsvRow(FetchPrs.RecordOf(pr)))
    ensures Funnel.IsMerged(PrCsvRow(FetchPrs.RecordOf(pr))) <==> pr.state == "MERGED"
  {
    FetchPrs.EmptinessChain(pr);
    FetchPrs.MergedFlag(pr, pr.mergedAt);
    MergedFlagText(FetchPrs.RecordOf(pr));
  }

  /** Filtering by a weaker test keeps at least as much. */
  lemma {:induction false} FilterMonotone<T>(s: seq<T>, p: T -> bool, q: T -> bool)
    requires forall i :: 0 <= i < |s| && p(s[i]) ==> q(s[i])
    ensures |Filter(s, p)| <= |Filter(s, q)|
    decreases |s|
  {
    if s != [] {
      FilterMonotone(s[1..], p, q);
    }
  }

  /**
   * For the rows the script writes, the funnel never widens: no more pull
   * requests are approved than reviewed.
   */
  lemma {:induction false} ApprovedWithinReviewed(prs: seq<FetchPrs.Pr>)
    ensures var rows := seq(|prs|, i requires 0 <= i < |prs| => PrCsvRow(FetchPrs.RecordOf(prs[i])));
      |Filter(rows, Funnel.IsApproved)| <= |Filter(rows, Funnel.IsReviewed)|
  {
    var rows := seq(|prs|, i requires 0 <= i < |prs| => PrCsvRow(FetchPrs.RecordOf(prs[i])));
    forall i | 0 <= i < |rows| && Funnel.IsApproved(rows[i]) ensures Funnel.IsReviewed(rows[i]) {
      FunnelStagesOfPr(prs[i]);
    }
    FilterMonotone(rows, Funnel.IsApproved, Funnel.IsReviewed);
  }

  // ---------------------------------------------------------------------------
  // issues.csv into the Gantt chart

  /** Reads a row of `issues.csv` the way `d3.csv` hands it over; the file has no repository columns. */
  function IssueCsvRow(cells: seq<string>): Issues.RawIssue
    requires |cells| == 7
  {
    Issues.RawIssue(Some(cells[0]), Some(cells[1]), Some(cells[2]), Some(cells[3]), Some(cells[4]), Some(cells[5]),
                    Some(cells[6]), None, None)
  }

  /**
   * Round trip of the contributors field: the dashboard's split of the
   * sorted `;`-join gives back the sorted names, as long as no name is blank
   * or holds a `;`.
   */
  lemma ContributorsRoundTrip(names: seq<string>)
    requires forall i :: 0 <= i < |names| ==> Issues.NonBlank(names[i]) && ';' !in names[i]
    ensures Issues.Contributors(Some(Join(names, ';'))) == names
  {
    if names == [] {
      assert Join(names, ';') == "";
    } else {
      assert Issues.NonBlank(names[0]) && names[0] != "";
      assert Join(names, ';') != "" by {
        if |names| > 1 {
          assert Join(names, ';') == names[0] + [';'] + Join(names[1..], ';');
        }
      }
      SplitJoin(names, ';');
      FilterKeepsAll(names, Issues.NonBlank);
    }
  }

  /**
   * An issue row of the script, read by the dashboard: the contributors are
   * the sorted names of the linked pull requests' authors, and an issue
   * without a close date ends now.
   */
  lemma IssueRowReadBack(d: FetchIssues.IssueDetails, s: set<string>, now: int)
    requires forall a :: a in s ==> Issues.NonBlank(a) && ';' !in a
    ensures Issues.Contributors(IssueCsvRow(FetchIssues.IssueRow(d, FetchIssues.SortedOf(s))).contributors) == FetchIssues.SortedOf(s)
    ensures d.closedAt.None? ==>
      var n := Issues.NormaliseIssue(IssueCsvRow(FetchIssues.IssueRow(d, FetchIssues.SortedOf(s))), now);
      n.Some? && now >= n.value.startDate ==> n.value.endDate == Some(now)
  {
    var names := FetchIssues.SortedOf(s);
    assert forall i :: 0 <= i < |names| ==> names[i] in s;
    ContributorsRoundTrip(names);
  }

  /** A `null` issue number is written as the empty field, which `+""` reads as 0: the bar opens no link. */
  lemma MissingNumberOpensNothing(d: FetchIssues.IssueDetails, names: seq<string>, now: int)
    requires d.number.None?
    ensures CellNumber(Some(FetchIssues.IssueRow(d, names)[1])) == Some(0)
    ensures var issue := Issues.NormaliseIssue(IssueCsvRow(FetchIssues.IssueRow(d, names)), now);
      issue.Some? ==> Links.IssueUrl(issue.value).None?
  {}

  // ---------------------------------------------------------------------------
  // commits.csv into the scatter and bar charts

  /** Reads a row of `commits.csv`; the file has no repository columns. */
  function CommitCsvRow(r: FetchCommits.CommitRow): Commits.RawCommit {
    var cells := FetchCommits.Cells(r);
    Commits.RawCommit(Some(cells[0]), Some(cells[1]), Some(cells[2]), Some(cells[3]), Some(cells[4]), Some(cells[5]), None, None)
  }

  /**
   * A commit row read back: the diff and author are the script's, a `null`
   * file count (written empty) reads as 0, and links name the owner and
   * repository `undefined`.
   */
  lemma CommitRowReadBack(r: FetchCommits.CommitRow)
    ensures Commits.MapCommit(CommitCsvRow(r)).diff == Some(r.diff)
    ensures Commits.MapCommit(CommitCsvRow(r)).author == Some(r.author)
    ensures r.filesUpdated.None? ==> Commits.MapCommit(CommitCsvRow(r)).filesChanged == Some(0)
    ensures r.filesUpdated.Some? ==> Commits.MapCommit(CommitCsvRow(r)).filesChanged == r.filesUpdated
    ensures Commits.MapCommit(CommitCsvRow(r)).repoOwner.None? && Commits.MapCommit(CommitCsvRow(r)).repoName.None?
  {
    NumberOfIntString(r.diff);
    if r.filesUpdated.Some? {
      NumberOfIntString(r.filesUpdated.value);
    }
  }

  /** The link of a read-back commit names the owner and repository `undefined`. */
  lemma CommitLinkOfReadBack(r: FetchCommits.CommitRow)
    requires Truthy(r.sha) && '/' !in r.sha.value
    ensures Links.CommitUrl(Commits.MapCommit(CommitCsvRow(r))).Some?
    ensures var url := Links.CommitUrl(Commits.MapCommit(CommitCsvRow(r))).value;
      |Split(url, '/')| == 7 && Split(url, '/')[3] == "undefined" && Split(url, '/')[4] == "undefined"
  {
    CommitRowReadBack(r);
    Links.MissingRepositoryColumns(Commits.MapCommit(CommitCsvRow(r)));
  }
}
