/**
 * The PR timing table: for each pull request, the first review and the first
 * approval by someone other than its author are found in one scan over its
 * timeline, and three intervals are derived from them.  Instants are integer
 * seconds.
 */
module FetchPrs {
  import opened Options
  import opened Text

  /** A timeline node: a review (with its reviewer's login, `None` when the author object is null), a reviewed event, or anything else. */
  datatype TimelineNode =
    | PullRequestReview(author: Option<string>, state: string, submittedAt: int)
    | ReviewedEvent(actor: Option<string>, createdAt: int)
    | OtherNode

  /** The fields of one search result that the row is built from; `mergedAt` is `None` when it is null or empty. */
  datatype Pr = Pr(number: int, createdAt: int, mergedAt: Option<int>, author: Option<string>, state: string, nodes: seq<TimelineNode>)

  /** One row of `prs.csv`; an interval that is `None` is written as an empty cell, `wasMerged` is 1 or 0. */
  datatype PrRecord = PrRecord(prNumber: int, timeToFirstReview: Option<int>, timeToApproval: Option<int>, timeToMerge: Option<int>, wasMerged: int)

  const Header: seq<string> := ["pr_number", "time_to_first_review_sec", "time_to_approval_sec", "time_to_merge_sec", "was_merged"]

  /** `int(x / 60)` for an integer number of seconds: division truncated toward zero. */
  function TruncDiv60(d: int): (q: int)
    ensures d >= 0 ==> 0 <= q && q * 60 <= d < q * 60 + 60
    ensures d < 0 ==> q <= 0 && q * 60 - 60 < d <= q * 60
  {
    if d >= 0 then d / 60 else -((-d) / 60)
  }

  /** `hours_between`: `None` when either instant is missing, otherwise the whole minutes from `d1` to `d2`. */
  function HoursBetween(d1: Option<int>, d2: Option<int>): (r: Option<int>)
    ensures r.Some? <==> d1.Some? && d2.Some?
    ensures r.Some? ==> r.value == TruncDiv60(d2.value - d1.value)
  {
    if d1.None? || d2.None? then None else Some(TruncDiv60(d2.value - d1.value))
  }

  /** `reviewer and reviewer != author`: a non-empty login other than the PR author's; with no author, any login. */
  predicate Qualifies(reviewer: Option<string>, author: Option<string>) {
    Truthy(reviewer) && reviewer != author
  }

  /** The instant a node contributes as a review, if it counts as one. */
  function ReviewTime(n: TimelineNode, author: Option<string>): Option<int> {
    match n
    case PullRequestReview(r, _, t) => if Qualifies(r, author) then Some(t) else None
    case ReviewedEvent(r, t) => if Qualifies(r, author) then Some(t) else None
    case OtherNode => None
  }

  /** The instant a node contributes as an approval: only a qualifying review in state `APPROVED`. */
  function ApprovalTime(n: TimelineNode, author: Option<string>): Option<int> {
    match n
    case PullRequestReview(r, s, t) => if Qualifies(r, author) && s == "APPROVED" then Some(t) else None
    case _ => None
  }

  /** The first value present, in list order. */
  function FirstSome(s: seq<Option<int>>): Option<int> {
    if s == [] then None else if s[0].Some? then s[0] else FirstSome(s[1..])
  }

  function ReviewTimes(nodes: seq<TimelineNode>, author: Option<string>): (r: seq<Option<int>>)
    ensures |r| == |nodes| && forall i :: 0 <= i < |nodes| ==> r[i] == ReviewTime(nodes[i], author)
  {
    seq(|nodes|, i requires 0 <= i < |nodes| => ReviewTime(nodes[i], author))
  }

  function ApprovalTimes(nodes: seq<TimelineNode>, author: Option<string>): (r: seq<Option<int>>)
    ensures |r| == |nodes| && forall i :: 0 <= i < |nodes| ==> r[i] == ApprovalTime(nodes[i], author)
  {
    seq(|nodes|, i requires 0 <= i < |nodes| => ApprovalTime(nodes[i], author))
  }

  /** `first_review_at` over the whole timeline. */
  function FirstReviewAt(nodes: seq<TimelineNode>, author: Option<string>): Option<int> {
    FirstSome(ReviewTimes(nodes, author))
  }

  /** `first_approval_at` over the whole timeline. */
  function FirstApprovalAt(nodes: seq<TimelineNode>, author: Option<string>): Option<int> {
    FirstSome(ApprovalTimes(nodes, author))
  }

  // ---------------------------------------------------------------------------
  // the first value present

  /** The first value of a concatenation is that of the front part when it has one. */
  lemma {:induction false} FirstSomeAppend(a: seq<Option<int>>, b: seq<Option<int>>)
    ensures FirstSome(a + b) == if FirstSome(a).Some? then FirstSome(a) else FirstSome(b)
    decreases |a|
  {
    if a == [] {
      assert a + b == b;
    } else {
      assert (a + b)[0] == a[0] && (a + b)[1..] == a[1..] + b;
      FirstSomeAppend(a[1..], b);
    }
  }

  /** The first value is the value at some index, and everything before it is absent. */
  lemma {:induction false} FirstSomeIndex(s: seq<Option<int>>)
    ensures FirstSome(s).None? <==> forall i :: 0 <= i < |s| ==> s[i].None?
    ensures FirstSome(s).Some? ==> exists k :: 0 <= k < |s| && s[k] == FirstSome(s) && forall i :: 0 <= i < k ==> s[i].None?
    decreases |s|
  {
    if s != [] {
      FirstSomeIndex(s[1..]);
      if s[0].None? && FirstSome(s[1..]).Some? {
        var k :| 0 <= k < |s[1..]| && s[1..][k] == FirstSome(s[1..]) && forall i :: 0 <= i < k ==> s[1..][i].None?;
        assert s[k + 1] == FirstSome(s);
        assert forall i :: 0 <= i < k + 1 ==> s[i].None?;
      }
    }
  }

  lemma ReviewTimesSnoc(nodes: seq<TimelineNode>, i: int, author: Option<string>)
    requires 0 <= i < |nodes|
    ensures ReviewTimes(nodes[..i + 1], author) == ReviewTimes(nodes[..i], author) + [ReviewTime(nodes[i], author)]
    ensures ApprovalTimes(nodes[..i + 1], author) == ApprovalTimes(nodes[..i], author) + [ApprovalTime(nodes[i], author)]
  {}

  lemma ReviewTimesAppend(a: seq<TimelineNode>, b: seq<TimelineNode>, author: Option<string>)
    ensures ReviewTimes(a + b, author) == ReviewTimes(a, author) + ReviewTimes(b, author)
  {
    assert forall i :: 0 <= i < |a + b| ==> ReviewTimes(a + b, author)[i] == (ReviewTimes(a, author) + ReviewTimes(b, author))[i];
  }

  lemma ApprovalTimesAppend(a: seq<TimelineNode>, b: seq<TimelineNode>, author: Option<string>)
    ensures ApprovalTimes(a + b, author) == ApprovalTimes(a, author) + ApprovalTimes(b, author)
  {
    assert forall i :: 0 <= i < |a + b| ==> ApprovalTimes(a + b, author)[i] == (ApprovalTimes(a, author) + ApprovalTimes(b, author))[i];
  }

  /** Once a prefix has yielded a value, the rest of the timeline cannot change it. */
  lemma FirstOfPrefix(nodes: seq<TimelineNode>, i: int, author: Option<string>)
    requires 0 <= i <= |nodes|
    ensures FirstReviewAt(nodes[..i], author).Some? ==> FirstReviewAt(nodes, author) == FirstReviewAt(nodes[..i], author)
    ensures FirstApprovalAt(nodes[..i], author).Some? ==> FirstApprovalAt(nodes, author) == FirstApprovalAt(nodes[..i], author)
  {
    assert nodes == nodes[..i] + nodes[i..];
    ReviewTimesAppend(nodes[..i], nodes[i..], author);
    ApprovalTimesAppend(nodes[..i], nodes[i..], author);
    FirstSomeAppend(ReviewTimes(nodes[..i], author), ReviewTimes(nodes[i..], author));
    FirstSomeAppend(ApprovalTimes(nodes[..i], author), ApprovalTimes(nodes[i..], author));
  }

  /**
   * The scan of `process_pr`: the first qualifying review and the first
   * qualifying approval, stopping as soon as both are known.  The early stop
   * changes nothing: the result is that of the whole timeline.
   */
  method ScanTimeline(nodes: seq<TimelineNode>, author: Option<string>) returns (review: Option<int>, approval: Option<int>)
    ensures review == FirstReviewAt(nodes, author)
    ensures approval == FirstApprovalAt(nodes, author)
  {
    review := None;
    approval := None;
    var i := 0;
    while i < |nodes|
      invariant 0 <= i <= |nodes|
      invariant review == FirstReviewAt(nodes[..i], author)
      invariant approval == FirstApprovalAt(nodes[..i], author)
    {
      var node := nodes[i];
      match node {
        case PullRequestReview(reviewer, state, submittedAt) =>
          if Truthy(reviewer) && reviewer != author {
            if review.None? {
              review := Some(submittedAt);
            }
            if state == "APPROVED" && approval.None? {
              approval := Some(submittedAt);
            }
          }
        case ReviewedEvent(reviewer, createdAt) =>
          if Truthy(reviewer) && reviewer != author && review.None? {
            review := Some(createdAt);
          }
        case OtherNode =>
      }
      ReviewTimesSnoc(nodes, i, author);
      FirstSomeAppend(ReviewTimes(nodes[..i], author), [ReviewTime(nodes[i], author)]);
      FirstSomeAppend(ApprovalTimes(nodes[..i], author), [ApprovalTime(nodes[i], author)]);
      i := i + 1;
      if review.Some? && approval.Some? {
        FirstOfPrefix(nodes, i, author);
        return;
      }
    }
    assert nodes[..i] == nodes;
  }

  /** The row of one pull request. */
  function RecordOf(pr: Pr): PrRecord {
    var review := FirstReviewAt(pr.nodes, pr.author);
    var approval := FirstApprovalAt(pr.nodes, pr.author);
    PrRecord(
      pr.number,
      HoursBetween(Some(pr.createdAt), review),
      HoursBetween(review, approval),
      HoursBetween(approval, pr.mergedAt),
      if pr.state == "MERGED" then 1 else 0)
  }

  /** `process_pr`: the scan, then the three intervals and the merge flag. */
  method ProcessPr(pr: Pr) returns (row: PrRecord)
    ensures row == RecordOf(pr)
  {
    var review, approval := ScanTimeline(pr.nodes, pr.author);
    var t1 := HoursBetween(Some(pr.createdAt), review);
    var t2 := HoursBetween(review, approval);
    var t3 := HoursBetween(approval, pr.mergedAt);
    var wasMerged := if pr.state == "MERGED" then 1 else 0;
    row := PrRecord(pr.number, t1, t2, t3, wasMerged);
  }

  /** The row list of `main`: one row per fetched pull request, in fetch order. */
  method BuildRows(prs: seq<Pr>) returns (rows: seq<PrRecord>)
    ensures |rows| == |prs|
    ensures forall i :: 0 <= i < |prs| ==> rows[i] == RecordOf(prs[i])
  {
    rows := [];
    var i := 0;
    while i < |prs|
      invariant 0 <= i <= |prs|
      invariant |rows| == i
      invariant forall k :: 0 <= k < i ==> rows[k] == RecordOf(prs[k])
    {
      var row := ProcessPr(prs[i]);
      rows := rows + [row];
      i := i + 1;
    }
  }

  // ---------------------------------------------------------------------------
  // properties of the scan and the row

  /** Every approval is a review, so a timeline with an approval has a review. */
  lemma {:induction false} ApprovalNeedsReview(s: seq<TimelineNode>, author: Option<string>)
    ensures FirstApprovalAt(s, author).Some? ==> FirstReviewAt(s, author).Some?
  {
    FirstSomeIndex(ApprovalTimes(s, author));
    FirstSomeIndex(ReviewTimes(s, author));
    if FirstApprovalAt(s, author).Some? {
      var k :| 0 <= k < |s| && ApprovalTimes(s, author)[k].Some?;
      assert ReviewTimes(s, author)[k].Some?;
    }
  }

  /** A reviewed event is never an approval: inserting one anywhere leaves the first approval unchanged. */
  lemma ReviewedEventNeverApproves(a: seq<TimelineNode>, b: seq<TimelineNode>, actor: Option<string>, t: int, author: Option<string>)
    ensures FirstApprovalAt(a + [ReviewedEvent(actor, t)] + b, author) == FirstApprovalAt(a + b, author)
  {
    var e := ReviewedEvent(actor, t);
    assert ApprovalTimes(a + [e] + b, author) == ApprovalTimes(a, author) + [None] + ApprovalTimes(b, author);
    assert ApprovalTimes(a + b, author) == ApprovalTimes(a, author) + ApprovalTimes(b, author);
    FirstSomeAppend(ApprovalTimes(a, author) + [None], ApprovalTimes(b, author));
    FirstSomeAppend(ApprovalTimes(a, author), [None]);
    FirstSomeAppend(ApprovalTimes(a, author), ApprovalTimes(b, author));
  }

  /** Without a PR author, any review with a non-empty login qualifies. */
  lemma AuthorlessReviewQualifies(reviewer: Option<string>)
    ensures Qualifies(reviewer, None) <==> Truthy(reviewer)
  {}

  /**
   * Non-empty merge time implies non-empty approval time implies non-empty
   * review time; the merge time is measured from the approval and the first
   * interval from creation.
   */
  lemma EmptinessChain(pr: Pr)
    ensures RecordOf(pr).timeToMerge.Some? ==> RecordOf(pr).timeToApproval.Some?
    ensures RecordOf(pr).timeToApproval.Some? ==> RecordOf(pr).timeToFirstReview.Some?
    ensures RecordOf(pr).timeToMerge.Some? ==>
      RecordOf(pr).timeToMerge.value == TruncDiv60(pr.mergedAt.value - FirstApprovalAt(pr.nodes, pr.author).value)
    ensures RecordOf(pr).timeToFirstReview.Some? <==> FirstReviewAt(pr.nodes, pr.author).Some?
  {
    ApprovalNeedsReview(pr.nodes, pr.author);
  }

  /** The merge flag follows the state alone, whatever `mergedAt` says. */
  lemma MergedFlag(pr: Pr, m: Option<int>)
    ensures RecordOf(pr).wasMerged == 1 <==> pr.state == "MERGED"
    ensures RecordOf(pr).wasMerged == 0 <==> pr.state != "MERGED"
    ensures RecordOf(pr.(mergedAt := m)).wasMerged == RecordOf(pr).wasMerged
  {}

  /** An interval is the length in whole minutes, so an hour-long wait is 60, not 1 or 3600. */
  lemma OneHourIsSixty(t: int)
    ensures HoursBetween(Some(t), Some(t + 3600)) == Some(60)
  {}
}
