# repodata: the data pipeline behind the repository dashboard

Three Python scripts turn a GitHub repository into three CSV tables:

- `scripts/fetch_prs.py` writes `prs.csv`: for every pull request, the minutes to the first review, the minutes between that review and the first approval, the minutes from that approval to the merge, and a merged flag.
- `scripts/fetch_issues.py` writes `issues.csv`. Each issue carries the sorted, `;`-joined names of the commit authors of the pull requests its timeline links to.
- `scripts/fetch_commits.py` writes `commits.csv`: one row per commit of the default branch.

The dashboard, `js/script.js`, reads the tables back. It turns them into typed records and into the data of four charts:

- a Gantt chart of issues;
- a scatter plot and a bar chart of commits, both filtered by month;
- a pull-request funnel.

This project models that pipeline in Dafny and proves what each step promises.

**What the model represents, and how:**
- A CSV cell is `Option<string>`, where `None` is a missing column.
- An instant is an integer number of seconds in UTC.
- "Now" is a parameter.
- JavaScript truthiness is spelled out as `Truthy`.
- `+x` and `Number(x)` of a cell are `ToNumber`, whose result is `None` for NaN.
- The GraphQL responses the scripts receive are passed in as sequences, one element per request, in request order.

**What takes the source's imperative form:**
- The in-place objects and loops are modelled as methods proved against specification functions: the funnel stage objects, the in-place sorts, the scan over a pull request's timeline, the page loops and the set-building loops.
- The `map`/`filter`/`Set`/`sort` chains of the dashboard are modelled as functions.

**Modules:**

| module | contents |
|---|---|
| `Options` | `Option`, and `Lookup` (a key that is absent, `null`, or present) |
| `Text` | split and join, ASCII case, `trim`, decimal text, `padStart`, code-point order |
| `Seqs` | filtering, and some small sequence lemmas |
| `Calendar` | the fixed timestamp format and UTC calendar arithmetic |
| `StableSort` | the stable sort behind `Array.prototype.sort`, run in place on an array |
| `Issues` | the issue maps of the dashboard |
| `Commits` | the commit maps of the dashboard |
| `Gantt` | the Gantt chart's filter and sort, its height and its minimum bar width |
| `Months` | the month list and the month filter |
| `Bars` | the bar chart's rollup and descending sort |
| `Funnel` | the funnel stages, `formatTime` and the trapezoid geometry |
| `Links` | the issue and commit URLs |
| `FetchPrs` | `scripts/fetch_prs.py` |
| `FetchIssues` | `scripts/fetch_issues.py` |
| `FetchCommits` | `scripts/fetch_commits.py` |
| `Pipeline` | what a row written by a script becomes once the dashboard reads it |

## Model

| member | source | states |
|---|---|---|
| Calendar.ParseFields | js/script.js:37 | a timestamp that parses names fields in range for a four-digit year and its calendar month |
| Calendar.ParseOfFormat | js/script.js:37 | parsing the formatted text of valid fields gives those fields back |
| Calendar.FormatOfParse | js/script.js:37 | a string that parses is exactly the formatting of its fields |
| Calendar.ToSecondsMonotone | js/script.js:44 | a field-wise earlier timestamp denotes an earlier instant, so `closed < created` compares calendar order |
| Calendar.ToSecondsInjective | js/script.js:77-80 | two valid field sets that name the same instant are the same fields |
| Calendar.HourAndDayOfInstant | js/script.js:78 | the instant of a timestamp falls on its day number, and `getHours` of it is the timestamp's hour |
| Calendar.Weekday | js/script.js:77 | `getDay` of any instant lies in 0..6 |
| Calendar.HourOf | js/script.js:78 | `getHours` of any instant lies in 0..23 |
| Calendar.DayCountNonNegative | js/script.js:58 | the day count from an earlier instant to a later one is never negative |
| Text.SplitJoin | js/script.js:57 | splitting a join of separator-free pieces gives the pieces back |
| Text.JoinSplit | scripts/fetch_issues.py:201 | joining the pieces of a split gives the text back |
| Text.NumberCell | scripts/fetch_prs.py:116-118 | a written optional number is the empty field exactly when it is absent |
| Text.NumberOfIntString | js/script.js:52 | `Number` of the decimal text of an integer is that integer |
| Text.NumberOfPadded | js/script.js:147 | a zero-padded decimal is digits, and reads back as its value |
| Text.SortDistinct | js/script.js:147-148 | `[...new Set(xs)].sort()` is strictly ascending in code-point order, which is the UTF-16 code-unit order of `sort()` for the ASCII `YYYY-MM` keys, and holds exactly the elements of `xs` |
| Text.SortedUnique | scripts/fetch_issues.py:296 | two strictly sorted sequences with the same elements are equal, so the order a set is listed in does not matter |
| Seqs.FilterSpec | js/script.js:62 | a filtered list is an order-preserving subsequence, every kept element passes, and every passing element is kept as many times as it occurs |
| Seqs.FilterMapIsFilter | js/script.js:40-62 | a map-then-filter is the filter of the present mapped values, unwrapped |
| Seqs.FilterMapSpec | js/script.js:40-62 | a map-then-filter keeps exactly the mapped values that are present, each from some input element, in input order and as often as elements map to it |
| StableSort.SortByKeyPermutes | js/script.js:188 | the sort is a permutation of its input |
| StableSort.SortByKeySorted | js/script.js:188 | the sort's output is ascending by key |
| StableSort.SortByKeyStable | js/script.js:188 | elements of equal key keep their relative order |
| StableSort.TiesKeepRank | js/script.js:394 | when the input is strictly ranked, elements of equal key in the stably sorted copy keep that rank order |
| StableSort.SortInPlace | js/script.js:188 | sorting the array in place leaves it holding the stable sort of its old contents |
| StableSort.SortedCopy | js/script.js:393-394 | the sorted copy is ascending by key, a permutation of the input, and stable |
| Issues.EndDate | js/script.js:41-49 | the end is missing exactly when a non-empty close date does not parse; otherwise it is at least the start or is now, and at least the start whenever now is |
| Issues.Duration | js/script.js:58 | the duration is 0 without an end, and non-negative when the end is not before the start |
| Issues.NormaliseState | js/script.js:54 | a missing or empty raw state gives `OPEN`; a non-empty one is kept letter for letter up to case; the state is never empty and has no lower-case letter |
| Issues.Contributors | js/script.js:57 | no cell gives no contributors; otherwise they are the non-blank `;`-pieces of the cell, in order, each as often as it occurs |
| Issues.NormaliseIssue | js/script.js:40-62 | a row is dropped exactly when its creation date does not parse; a kept row starts at that date, ends at the corrected close (at or after the start whenever now is), has duration 0 without an end and a non-negative one when now is not before the start, and carries the normalised state, the split contributors, the number and the row's other cells |
| Issues.NormaliseIssuesSpec | js/script.js:40-62 | every kept issue comes from a row, every row with a start is kept, in row order, each issue as often as rows normalise to it |
| Issues.OpenIssueEndsNow | js/script.js:42 | an empty or missing close date ends the bar now |
| Issues.UnparseableCloseGivesNoEnd | js/script.js:41-58 | a close date that does not parse gives no end and a zero duration |
| Issues.EarlyCloseCorrected | js/script.js:44-49 | a close before the start becomes the start plus one day for the raw state `CLOSED`, and now for any other state |
| Issues.LowerCaseClosedEndsNow | js/script.js:46-54 | the state test is case-sensitive: `closed` ends now, though its shown state is `CLOSED` |
| Issues.LateCloseKept | js/script.js:44 | a close at or after the start is kept |
| Issues.OneDayLater | js/script.js:46 | the start plus one day is one day-count later |
| Issues.ClosedBeforeCreated | js/script.js:44-58 | a `CLOSED` row whose close is calendar-earlier than its creation ends one day after its start, with duration 1 |
| Issues.WorkedEarlyClose | js/script.js:40-62 | the case created 2024-01-01, closed 2023-12-30, `CLOSED` ends 2024-01-02 with duration 1 |
| Commits.MapCommit | js/script.js:68-82 | a mapped commit's date is the parsed cell; with a date its weekday and hour are the instant's, its month and year are the parsed date's (month counted from 0), and all are in range; without one they are all -1 |
| Commits.NormaliseCommitsSpec | js/script.js:68-84 | every kept commit has calendar fields and comes from a row, every row whose date parses is kept, in row order, each commit as often as rows map to it |
| Commits.KeptIffParsed | js/script.js:84 | a commit is dropped exactly when its date does not parse |
| Commits.CalendarOfInstant | js/script.js:77-80 | two rows with the same instant get the same weekday, hour, month and year |
| Months.MonthKeys | js/script.js:147 | one key per commit, in order, each the commit's `YYYY-MM` |
| Months.OptionsOf | js/script.js:147-152 | the options are strictly ascending, each value is one of the keys and every key is offered, and each is labelled from its key |
| Months.MonthOptions | js/script.js:145-152 | the month options are strictly ascending, each is the key of some commit, every commit's key is offered, and each carries its key's label |
| Months.FilterByMonth | js/script.js:375-379 | the month filter keeps an order-preserving subsequence of the commits that match, and every match as many times as it occurs |
| Months.SplitKey | js/script.js:150 | a key splits at `-` into the year text and the zero-padded month |
| Months.KeyIsNotAll | js/script.js:274 | no key is the text `all` |
| Months.LabelOfKey | js/script.js:150-151 | the label of the key of (year, month) is the month's name followed by the year |
| Months.KeySelectsMonth | js/script.js:273-277 | the filter for the key of (year, month) accepts a commit exactly when it has that year and month |
| Months.AllKeepsEverything | js/script.js:274 | `all` keeps every commit, in order |
| Months.FilterByKey | js/script.js:375-379 | choosing a key keeps the commits of that month and only those |
| Months.KeySelectsParsedDate | js/script.js:68-82 | choosing a key keeps a row's commit exactly when the row's parsed date is in that year and month |
| Months.OptionOfParsedCommit | js/script.js:145-152 | the option for a parsed commit's key is labelled with that commit's month name and year, and choosing it keeps at least one commit |
| Months.OptionsOfParsedCommits | js/script.js:145-152 | every option offered for parsed commits is labelled from a commit it came from and keeps at least one commit |
| Gantt.FilterIssues | js/script.js:174-180 | the filter keeps an order-preserving subsequence of issues that match all four tests, and every issue that matches as many times as it occurs |
| Gantt.GanttRows | js/script.js:174-188 | the drawn rows are the filtered issues stably sorted by start date: ascending, a permutation, ties in input order |
| Gantt.GanttHeight | js/script.js:192 | the height is the larger of 400 and 25 per row |
| Gantt.BarWidth | js/script.js:238 | a bar is at least one pixel wide and at least its span |
| Gantt.EmptyFilterKeepsAll | js/script.js:174-180 | with every input empty all issues are kept |
| Gantt.EndDateIgnored | js/script.js:178 | the end bound is compared with the start date, so an issue's end never affects the filter |
| Gantt.BoundsInclusive | js/script.js:177-178 | an issue starting exactly on a bound passes it |
| Gantt.DeveloperSearchIgnoresCase | js/script.js:175 | `ALI` finds the contributor `Alice` |
| Gantt.HeightOfManyRows | js/script.js:192 | above 16 rows the height is 25 pixels per row |
| Bars.FirstIndex | js/script.js:388-391 | the position of an author's commit, and `|cs|` exactly when the author has none |
| Bars.FirstIndexIsFirst | js/script.js:388-391 | no earlier commit is by that author |
| Bars.Authors | js/script.js:388-391 | the rollup keys are distinct and are exactly the authors of the commits |
| Bars.AuthorsInFirstAppearance | js/script.js:388-391 | the rollup keys are in the order of their authors' first commits, as a `Map` keeps insertion order |
| Bars.BarsOfEntries | js/script.js:393 | bar `i` belongs to author `i` and holds that author's total |
| Bars.Rollup | js/script.js:388-393 | one bar per distinct author, every commit's author has a bar, each bar's value is its author's total, and the bars are in first-appearance order |
| Bars.AbsentAuthorTotal | js/script.js:388-391 | an author without commits totals 0 |
| Bars.BarsConserve | js/script.js:388-391 | the bars of all authors sum to the total weight of all commits |
| Bars.RollupConserves | js/script.js:388-393 | the rollup loses nothing and counts nothing twice: its values sum to the total |
| Bars.CommitsTotal | js/script.js:390 | counting commits, the total is the number of commits |
| Bars.BarChartData | js/script.js:375-394 | the drawn bars are the month's rollup sorted by descending value, a permutation of it, and bars of equal value are in the order of their authors' first commits in the month |
| Bars.TiesInFirstAppearance | js/script.js:393-394 | a stable reordering of the rollup leaves bars of equal value in first-appearance order |
| Bars.AxisLabel | js/script.js:450 | the label is `Number of Commits` exactly when the metric is `commits`, else `Lines Changed` |
| Bars.NetZeroAuthor | js/script.js:388-391 | alice with diffs -50, 20 and 30 has a bar of 0 lines and of 3 commits |
| Funnel.FunnelStage.constructor | js/script.js:116-121 | a new stage has its name, count 0 and no average |
| Funnel.Mean | js/script.js:125 | `d3.mean` is undefined exactly when no value is numeric |
| Funnel.Column | js/script.js:125 | the column holds `+cell` of every row, in order |
| Funnel.StageAverage | js/script.js:124-125 | the average is null for an empty subset, and null exactly when no row's cell is numeric |
| Funnel.AggregateFunnel | js/script.js:116-131 | four fresh, distinct stages: Created counts every row, and Reviewed, Approved and Merged count their subsets and average their columns |
| Funnel.FillStage | js/script.js:124-125 | the stage's count becomes the subset's size and its average the subset's average |
| Funnel.ReviewedExactly | js/script.js:123 | a row is in the Reviewed subset exactly when its review cell is non-empty |
| Funnel.ZeroTextIsReviewed | js/script.js:123 | a review cell `"0"` counts as reviewed |
| Funnel.SumBounds | js/script.js:125 | the numeric values sum to between the count times the smallest and the count times the largest |
| Funnel.MeanBounds | js/script.js:125 | an average lies between the smallest and the largest value |
| Funnel.MergedAverageCountsEmpty | js/script.js:129-131 | the Merged average reads an empty merge time as 0: `""` and `"100"` average 50 |
| Funnel.FormatTime | js/script.js:485-492 | `N/A` for null; otherwise seconds below 60, minutes below 3600, hours below 86400 and days beyond, with the amount in that unit times the unit equal to the input |
| Funnel.SegmentAt | js/script.js:493-507 | the outline of a stage has five points |
| Funnel.FunnelSegments | js/script.js:493-507 | the loop builds one outline per stage, in order, each the stage's four corners closed back to the first |
| Funnel.SegmentCentred | js/script.js:495-498 | both edges of every segment are centred on x = 300, one stage high, and the outline is closed |
| Funnel.SegmentsJoin | js/script.js:494-501 | the bottom edge of a segment is the top edge of the next |
| Funnel.EndSegments | js/script.js:494-505 | the last segment is a rectangle and the first spans the full width between the margins |
| Funnel.WidthMonotone | js/script.js:483-494 | a smaller count gives a narrower top edge |
| Links.IssueUrl | js/script.js:241-242 | an issue opens a page exactly when its number is neither NaN nor 0 |
| Links.CommitUrl | js/script.js:358-359 | a commit opens a page exactly when its sha is non-empty |
| Links.GitHubUrlSplits | js/script.js:242 | a URL built from slash-free parts splits back into exactly those parts |
| Links.IssueUrlAddressesIssue | js/script.js:241-242 | the issue link names the owner, repository and number, and its last piece reads back as the number |
| Links.CommitUrlAddressesCommit | js/script.js:358-359 | the commit link names the owner, repository and sha |
| Links.MissingRepositoryColumns | js/script.js:359 | without repository columns, the owner and repository pieces of a link are `undefined` |
| FetchPrs.TruncDiv60 | scripts/fetch_prs.py:63 | the quotient is truncated toward zero: within one minute of the seconds, on the side of zero |
| FetchPrs.HoursBetween | scripts/fetch_prs.py:60-63 | the interval is present exactly when both instants are, and is then the truncated minutes from the first to the second |
| FetchPrs.FirstOfPrefix | scripts/fetch_prs.py:107-108 | once a prefix of the timeline yields a first review or approval, the rest cannot change it |
| FetchPrs.ScanTimeline | scripts/fetch_prs.py:95-108 | the scan with its early exit returns the first qualifying review and the first qualifying approval of the whole timeline |
| FetchPrs.ProcessPr | scripts/fetch_prs.py:88-120 | the row is the three intervals of the first review and approval, and the merge flag |
| FetchPrs.BuildRows | scripts/fetch_prs.py:122-127 | one row per pull request, in fetch order |
| FetchPrs.ApprovalNeedsReview | scripts/fetch_prs.py:96-102 | a timeline with a qualifying approval has a qualifying review |
| FetchPrs.ReviewedEventNeverApproves | scripts/fetch_prs.py:103-106 | inserting a reviewed event anywhere leaves the first approval unchanged |
| FetchPrs.AuthorlessReviewQualifies | scripts/fetch_prs.py:91-98 | with no PR author, any non-empty reviewer login qualifies |
| FetchPrs.EmptinessChain | scripts/fetch_prs.py:110-118 | a merge time implies an approval time, which implies a review time; the merge time is measured from the approval |
| FetchPrs.MergedFlag | scripts/fetch_prs.py:113 | the merge flag is 1 exactly when the state is `MERGED`, else 0, whatever `mergedAt` says |
| FetchPrs.OneHourIsSixty | scripts/fetch_prs.py:60-63 | an hour-long interval is 60 |
| FetchIssues.AuthorName | scripts/fetch_issues.py:54-62 | the name is the truthy login, else the truthy name, else none; never empty |
| FetchIssues.PrOf | scripts/fetch_issues.py:186-194 | an item points at a pull request exactly when it is a closed event with a `PullRequest` closer or a cross-reference with a `PullRequest` source |
| FetchIssues.ItemKey | scripts/fetch_issues.py:186-206 | a key comes only from such a pull request with a non-zero number and a repository `owner/name` of two slash-free parts |
| FetchIssues.ItemKeyOfPullRequest | scripts/fetch_issues.py:197-204 | conversely, such a pull request gives exactly its key |
| FetchIssues.MalformedRepositoryGivesNoKey | scripts/fetch_issues.py:201-206 | a repository name that does not split in two gives no key |
| FetchIssues.KeysOfMembers | scripts/fetch_issues.py:183-206 | an issue's linked keys are exactly the keys its items give |
| FetchIssues.UnionKeysMembers | scripts/fetch_issues.py:179-212 | the distinct keys are exactly those held by some issue's record |
| FetchIssues.ScanTimeline | scripts/fetch_issues.py:183-206 | the item loop collects the timeline's keys and adds them to the distinct keys |
| FetchIssues.ScanPage | scripts/fetch_issues.py:178-212 | the issue loop appends one record per non-null issue, in order, and keeps the distinct keys equal to the union of the records' keys |
| FetchIssues.IdentifyPrs | scripts/fetch_issues.py:143-219 | the page loop accumulates exactly the records of the walk, with the distinct keys their union |
| FetchIssues.HarvestStep | scripts/fetch_issues.py:151-216 | a page contributes its records and the walk continues only with a next page; a failed response ends it |
| FetchIssues.NamesOfMembers | scripts/fetch_issues.py:258-263 | the names of a commits page are exactly those its nodes give |
| FetchIssues.AuthorsOfPages | scripts/fetch_issues.py:234-263 | no collected author name is empty |
| FetchIssues.ScanCommits | scripts/fetch_issues.py:258-263 | the node loop adds the page's names to the set |
| FetchIssues.PrAuthors | scripts/fetch_issues.py:234-263 | the commits loop collects the names of the pages it walks |
| FetchIssues.FetchAuthors | scripts/fetch_issues.py:222-273 | every key gets an entry, each the names of its responses (empty when the first fails), none of them empty |
| FetchIssues.CollectContributors | scripts/fetch_issues.py:285-287 | the contributors are the union of the author sets of the issue's keys, and a key without an entry adds nothing |
| FetchIssues.SortedOf | scripts/fetch_issues.py:296 | `sorted` of a set is the strictly ascending sequence of exactly its elements |
| FetchIssues.SortedNames | scripts/fetch_issues.py:296 | sorting the set listed in any order gives that one sequence |
| FetchIssues.IssueRow | scripts/fetch_issues.py:289-297 | the row has the header's 7 fields in its order, a null close date is empty, and the last field joins the names with `;` |
| FetchIssues.Aggregate | scripts/fetch_issues.py:276-297 | one row per issue, in order, whose contributors are the sorted union of its pull requests' authors |
| FetchIssues.ContributorsOfAllKeys | scripts/fetch_issues.py:222-287 | with the map built from all keys, every linked pull request of an issue has an entry, so none of its authors is lost, and no contributor is empty |
| FetchCommits.DefaultBranch | scripts/fetch_commits.py:18-34 | `main` on errors or a broken path, otherwise the name; none only for a null name |
| FetchCommits.AuthorName | scripts/fetch_commits.py:77-85 | the truthy login, else name, else email, else `Unknown`; never empty |
| FetchCommits.AuthorNameIsAField | scripts/fetch_commits.py:77-85 | the name is one of the author's fields or `Unknown` |
| FetchCommits.GetOrZero | scripts/fetch_commits.py:133-138 | a missing count is 0, a present one is its value, and a null one is none (a failure in the diff, an empty field as the file count) |
| FetchCommits.AuthorOf | scripts/fetch_commits.py:131-132 | a missing author is `Unknown`, a null one fails, a present one is named by the fallback chain |
| FetchCommits.RowOf | scripts/fetch_commits.py:130-141 | a node gives a row exactly when neither it, its author nor its counts is null; the row holds its fields, additions plus deletions and a non-empty author |
| FetchCommits.DiffCountsLinesTouched | scripts/fetch_commits.py:133 | with non-negative counts the diff is at least each count |
| FetchCommits.Cells | scripts/fetch_commits.py:134-141 | a row has the 6 header fields in the header's order |
| FetchCommits.RowsUntilFailureRows | scripts/fetch_commits.py:130-155 | the rows of a page are those of its first nodes, and the node after them fails |
| FetchCommits.CompletesIffNoNodeRaises | scripts/fetch_commits.py:130-141 | a page converts fully exactly when no node fails |
| FetchCommits.HarvestStep | scripts/fetch_commits.py:102-155 | a page contributes its rows, and the walk goes on only when all converted and there is a next page |
| FetchCommits.RowsUntilFailureStep | scripts/fetch_commits.py:130-141 | at each node the loop either stops or appends that node's row |
| FetchCommits.AppendPage | scripts/fetch_commits.py:130-141 | the node loop appends the page's rows up to the first failure, and reports whether the page converted fully |
| FetchCommits.FetchAllCommits | scripts/fetch_commits.py:102-155 | the paged loop accumulates exactly the rows of the walk |
| FetchCommits.HarvestFollowsNodes | scripts/fetch_commits.py:102-155 | the rows are the rows of the first nodes of the walk, in page and node order, none reordered, skipped or merged |
| FetchCommits.CompleteWalk | scripts/fetch_commits.py:102-155 | a walk whose pages all arrive, are non-empty, convert and chain keeps a row for every node |
| FetchCommits.EmptyFirstPage | scripts/fetch_commits.py:120-127 | an empty first page ends the walk with no rows |
| FetchCommits.RowsMatchHeader | scripts/fetch_commits.py:134-162 | every row of the walk has as many fields as the header and a non-empty author |
| Pipeline.MergedFlagText | js/script.js:129 | the dashboard counts a written merge flag as merged exactly when it is 1 |
| Pipeline.FunnelStagesOfPr | js/script.js:123-129 | a written row is reviewed exactly when the scan found a review, approved only if reviewed, and merged exactly when its state is `MERGED` |
| Pipeline.ApprovedWithinReviewed | js/script.js:123-127 | over the written rows, no more pull requests are approved than reviewed |
| Pipeline.ContributorsRoundTrip | js/script.js:57 | the dashboard's split of the `;`-joined names gives them back when none is blank or holds `;` |
| Pipeline.IssueRowReadBack | scripts/fetch_issues.py:289-297 | a written issue row reads back with the sorted contributor names, and a row written without a close date, once normalised by the dashboard, ends now whenever now is not before its start |
| Pipeline.MissingNumberOpensNothing | js/script.js:241 | a null issue number is written empty, read as 0, and opens no link |
| Pipeline.CommitRowReadBack | js/script.js:68-76 | a written commit row reads back with its diff and author, a null file count as 0, and no repository columns |
| Pipeline.CommitLinkOfReadBack | js/script.js:359 | the link of a read-back commit names the owner and repository `undefined` |

## Left out

- Code followed over the intent: the funnel's Merged average reads an empty `time_to_merge_sec` as 0, because `+""` is 0 and the filter does not look at the cell (`Funnel.MergedAverageCountsEmpty`).
- Code followed over the intent: the `*_sec` columns hold whole minutes, because `hours_between` divides by 60 (`FetchPrs.HoursBetween`).
- Code followed over the intent: `get_default_branch` gives `main` on errors or a missing key, but passes a `null` name through as `None` (`FetchCommits.DefaultBranch`).
- Funnel.IsMerged: the third accepted value, the number `1`, never matches, because every CSV cell is text.
- Issues.EndDate: the assignment `closed = created` is not modelled, because the `if`/`else` that follows always overwrites it.
- Calendar.ParseFields: only the exact pattern `%Y-%m-%dT%H:%M:%SZ` with a four-digit year is accepted. The model does not capture d3's leniency beyond it (for example, fields out of range that it rolls over).
- Calendar: time zones are not modelled. `getDay`, `getHours`, `getMonth`, `getFullYear` and `d3.timeDay` are taken in UTC.
- Text.Lower, Text.Upper: case mapping covers ASCII letters only.
- Text.SortDistinct: JavaScript's `sort()` compares UTF-16 code units, and the model compares code points. The two orders differ only on characters above U+FFFF, which the `YYYY-MM` keys never hold.
- Text.ToNumber: `Number`/`+` is modelled on optionally signed decimal integers and the empty text. Decimals, exponents, hexadecimal, surrounding white space and `Infinity` read as NaN here.
- Funnel.Mean: the average is an exact `real`, where the source uses floating point.
- Funnel.FormatTime: the label is the chosen unit and the exact amount. `toFixed(1)` and the label text are not modelled.
- Funnel.FunnelSegments: requires a non-zero Created count. A zero count gives a degenerate `scaleLinear` domain, which is not modelled.
- Gantt.FilterIssues: requires a title whenever the task box is not empty, because `undefined.toLowerCase()` would throw. The date-picker text is taken as already parsed to an instant.
- The DOM, jQuery, SVG, tooltips, `window.open`, `alert` and `console` output are not modelled. The URL and label strings they consume are.
- The d3 scales, axes and ticks are not modelled (only the funnel width scale is), nor are the scatter jitter (`Math.random`), `toLocaleString` or the `Promise.all` loading.
- HTTP, GraphQL queries, environment variables, `sys.exit`, `raise_for_status` and CSV quoting are not modelled. Each response is passed in as a value, and a CSV row is a sequence of fields.
- `fetch_all_prs` and `fetch_commits_page` are not modelled. The cursor is carried but not checked against the request it is sent in, and the branch name is not used in a query.
- FetchIssues.IdentifyPrs, FetchIssues.PrAuthors, FetchCommits.FetchAllCommits: running out of supplied responses ends the walk, as a response without a next page does.
- FetchPrs: `isoparse` and float `total_seconds()` are replaced by integer seconds with truncating division.
- FetchPrs.ProcessPr: a missing field or a `null` timeline is taken to be well-formed, where the script would raise `KeyError` or `TypeError`.
- FetchIssues: a `null` timeline item is the same as an unrelated item, as the script treats it.
- FetchIssues.ItemKey: a `null` `nameWithOwner`, on which the script would raise `AttributeError`, is taken as giving no key.
- FetchIssues.FetchAuthors: a commits response whose `repository` is `null` makes the script raise `AttributeError` and stop. The model instead ends that pull request's walk quietly (`NoCommits`), keeping the names gathered so far.
- FetchIssues.IdentifyPrs: a `null` `timelineItems`, on which the script would raise, is taken as an empty timeline.
- FetchIssues.SortedNames: Python's set iteration order is left open, and the result is proved independent of it.
