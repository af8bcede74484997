/**
 * `scripts/fetch_commits.py`: the default branch lookup, the author fallback
 * and the paged walk over the branch history that builds `commits.csv`.  Each
 * GraphQL response is passed in as a value, one per request in the order the
 * script makes them.  An exception inside the loop (a `null` where a
 * dictionary or a number is used) ends the walk and keeps the rows appended so
 * far, as the `except Exception: break` of the script does.
 */
module FetchCommits {
  import opened Options
  import opened Text
  import opened Seqs

  // ---------------------------------------------------------------------------
  // default branch

  /**
   * The default-branch response: whether it has `errors`, and what the path
   * `data.repository.defaultBranchRef.name` holds — `Absent` when a key on the
   * way is missing or a dictionary on the way is `null`, `Null` when the name
   * itself is `null`.
   */
  datatype BranchResponse = BranchResponse(hasErrors: bool, name: Lookup<string>)

  /** `get_default_branch`: `"main"` on errors or a broken path, otherwise the name (`None` when it is `null`). */
  function DefaultBranch(resp: BranchResponse): (r: Option<string>)
    ensures resp.hasErrors ==> r == Some("main")
    ensures !resp.hasErrors && resp.name.Absent? ==> r == Some("main")
    ensures !resp.hasErrors && resp.name.Present? ==> r == Some(resp.name.value)
    ensures r.None? <==> !resp.hasErrors && resp.name.Null?
  {
    if resp.hasErrors then Some("main")
    else
      match resp.name
      case Absent => Some("main")
      case Null => None
      case Present(n) => Some(n)
  }

  // ---------------------------------------------------------------------------
  // the author fallback

  datatype UserInfo = UserInfo(login: Option<string>)

  /** A commit's `author {name email user {login}}`; a `null` user is `None`. */
  datatype AuthorInfo = AuthorInfo(name: Option<string>, email: Option<string>, user: Option<UserInfo>)

  predicate HasLogin(a: AuthorInfo) {
    a.user.Some? && Truthy(a.user.value.login)
  }

  /** `get_author_name`: the login, else the name, else the email, each only when truthy, else `"Unknown"`. */
  function AuthorName(a: AuthorInfo): (r: string)
    ensures r != ""
    ensures HasLogin(a) ==> r == a.user.value.login.value
    ensures !HasLogin(a) && Truthy(a.name) ==> r == a.name.value
    ensures !HasLogin(a) && !Truthy(a.name) && Truthy(a.email) ==> r == a.email.value
    ensures !HasLogin(a) && !Truthy(a.name) && !Truthy(a.email) ==> r == "Unknown"
  {
    if HasLogin(a) then a.user.value.login.value
    else if Truthy(a.name) then a.name.value
    else if Truthy(a.email) then a.email.value
    else "Unknown"
  }

  /** The name is always one of the three fields or the placeholder. */
  lemma AuthorNameIsAField(a: AuthorInfo)
    ensures AuthorName(a) == "Unknown" || Some(AuthorName(a)) in {a.name, a.email} ||
            (a.user.Some? && Some(AuthorName(a)) == a.user.value.login)
  {}

  // ---------------------------------------------------------------------------
  // one commit row

  /** A history node; each key may be missing, `null`, or hold a value. */
  datatype CommitNode = CommitNode(
    oid: Option<string>,
    messageHeadline: Option<string>,
    committedDate: Option<string>,
    changedFiles: Lookup<int>,
    additions: Lookup<int>,
    deletions: Lookup<int>,
    author: Lookup<AuthorInfo>)

  /**
   * A row of `all_commits`.  `None` is a missing or `null` value, which
   * `csv.writer` writes as the empty field.
   */
  datatype CommitRow = CommitRow(
    sha: Option<string>,
    message: Option<string>,
    createdDate: Option<string>,
    filesUpdated: Option<int>,
    diff: int,
    author: string)

  const CommitsHeader: seq<string> := ["sha", "message", "created_date", "number_of_files_updated", "diff", "author"]

  /**
   * `commit.get(key, 0)`: a missing key is 0 and a `null` is `None`.  In the
   * diff a `None` raises a `TypeError`; as the file count it is written as the
   * empty field.
   */
  function GetOrZero(l: Lookup<int>): (r: Option<int>)
    ensures l.Absent? ==> r == Some(0)
    ensures l.Null? <==> r.None?
    ensures l.Present? ==> r == Some(l.value)
  {
    match l
    case Absent => Some(0)
    case Null => None
    case Present(v) => Some(v)
  }

  /** `commit.get("author", {})`: a missing author is the empty dictionary; a `null` one raises (`None`). */
  function AuthorOf(l: Lookup<AuthorInfo>): (r: Option<string>)
    ensures l.Absent? ==> r == Some("Unknown")
    ensures l.Null? <==> r.None?
    ensures l.Present? ==> r == Some(AuthorName(l.value))
  {
    match l
    case Absent => Some(AuthorName(AuthorInfo(None, None, None)))
    case Null => None
    case Present(a) => Some(AuthorName(a))
  }

  /**
   * The body of the node loop: the row a node appends, or `None` when
   * building it raises (a `null` node, author, `additions` or `deletions`).
   */
  function RowOf(n: Option<CommitNode>): (r: Option<CommitRow>)
    ensures r.Some? <==> n.Some? && !n.value.author.Null? && !n.value.additions.Null? && !n.value.deletions.Null?
    ensures r.Some? ==> r.value.sha == n.value.oid && r.value.message == n.value.messageHeadline &&
                        r.value.createdDate == n.value.committedDate && r.value.filesUpdated == GetOrZero(n.value.changedFiles)
    ensures r.Some? ==> r.value.diff == GetOrZero(n.value.additions).value + GetOrZero(n.value.deletions).value
    ensures r.Some? ==> r.value.author != ""
  {
    if n.None? then None
    else
      var c := n.value;
      var author := AuthorOf(c.author);
      if author.None? then None
      else
        var adds, dels := GetOrZero(c.additions), GetOrZero(c.deletions);
        if adds.None? || dels.None? then None
        else Some(CommitRow(c.oid, c.messageHeadline, c.committedDate, GetOrZero(c.changedFiles), adds.value + dels.value, author.value))
  }

  /** With non-negative counts the diff is the number of lines touched, never negative and at least each count. */
  lemma DiffCountsLinesTouched(n: CommitNode, adds: int, dels: int)
    requires !n.author.Null? && n.additions == Present(adds) && n.deletions == Present(dels)
    requires adds >= 0 && dels >= 0
    ensures RowOf(Some(n)).Some?
    ensures RowOf(Some(n)).value.diff >= adds && RowOf(Some(n)).value.diff >= dels
  {}

  /** The CSV fields of a row, in the order of the header. */
  function Cells(r: CommitRow): (cells: seq<string>)
    ensures |cells| == |CommitsHeader|
    ensures cells[4] == IntToString(r.diff) && cells[5] == r.author
    ensures cells[0] == r.sha.GetOr("") && cells[1] == r.message.GetOr("") && cells[2] == r.createdDate.GetOr("")
    ensures cells[3] == NumberCell(r.filesUpdated)
  {
    [r.sha.GetOr(""), r.message.GetOr(""), r.createdDate.GetOr(""), NumberCell(r.filesUpdated), IntToString(r.diff), r.author]
  }

  // ---------------------------------------------------------------------------
  // the paged walk

  /**
   * One response to the history query: `errors`, a failed request, or a `null`
   * on the way to `history` ends the walk (`PageFailed`); otherwise the nodes,
   * `hasNextPage` (false when missing or `null`) and `endCursor`.
   */
  datatype CommitsPage =
    | PageFailed
    | Page(nodes: seq<Option<CommitNode>>, hasNext: bool, endCursor: Option<string>)

  /** The rows of a page up to the first node that raises. */
  function RowsUntilFailure(nodes: seq<Option<CommitNode>>): (r: seq<CommitRow>)
    ensures |r| <= |nodes|
  {
    if nodes == [] then []
    else
      match RowOf(nodes[0])
      case None => []
      case Some(row) => [row] + RowsUntilFailure(nodes[1..])
  }

  /** The rows before the first failure are the rows of the first nodes, and the node after them raises. */
  lemma {:induction false} RowsUntilFailureRows(nodes: seq<Option<CommitNode>>)
    ensures RowsOfNodes(RowsUntilFailure(nodes), nodes)
    ensures |RowsUntilFailure(nodes)| < |nodes| ==> RowOf(nodes[|RowsUntilFailure(nodes)|]).None?
    decreases |nodes|
  {
    if nodes != [] && RowOf(nodes[0]).Some? {
      RowsUntilFailureRows(nodes[1..]);
      var r, t := RowsUntilFailure(nodes), RowsUntilFailure(nodes[1..]);
      assert r == [RowOf(nodes[0]).value] + t;
      forall i | 0 <= i < |r| ensures RowOf(nodes[i]) == Some(r[i]) {
        if i > 0 {
          assert nodes[i] == nodes[1..][i - 1];
          assert r[i] == t[i - 1];
        }
      }
      if |r| < |nodes| {
        assert nodes[|r|] == nodes[1..][|t|];
      }
    }
  }

  /** Every node of the page is turned into a row. */
  predicate Completes(nodes: seq<Option<CommitNode>>) {
    |RowsUntilFailure(nodes)| == |nodes|
  }

  /** A page converts fully exactly when none of its nodes raises. */
  lemma CompletesIffNoNodeRaises(nodes: seq<Option<CommitNode>>)
    ensures Completes(nodes) <==> forall i :: 0 <= i < |nodes| ==> RowOf(nodes[i]).Some?
  {
    RowsUntilFailureRows(nodes);
  }

  /** The request for this page ends the walk before any row: a failed response, or an empty first page. */
  predicate StopsAt(page: CommitsPage, cursor: Option<string>) {
    page.PageFailed? || (page.nodes == [] && cursor.None?)
  }

  /** After this page the walk goes on: every node converted and `hasNextPage` holds. */
  predicate Continues(page: CommitsPage)
    requires page.Page?
  {
    Completes(page.nodes) && page.hasNext
  }

  /**
   * The rows of the walk from here on, given the cursor of the request:
   * a failed response or an empty first page ends it, a node that raises
   * ends it after the rows before it, and so does a page without a next
   * page or running out of responses.
   */
  function Harvest(pages: seq<CommitsPage>, cursor: Option<string>): seq<CommitRow>
    decreases |pages|
  {
    if pages == [] || StopsAt(pages[0], cursor) then []
    else RowsUntilFailure(pages[0].nodes) + (if Continues(pages[0]) then Harvest(pages[1..], pages[0].endCursor) else [])
  }

  /** One request of the walk: what a page contributes and whether the walk goes on. */
  lemma HarvestStep(pages: seq<CommitsPage>, cursor: Option<string>)
    requires pages != []
    ensures StopsAt(pages[0], cursor) ==> Harvest(pages, cursor) == []
    ensures !StopsAt(pages[0], cursor) ==>
      Harvest(pages, cursor) ==
        RowsUntilFailure(pages[0].nodes) + (if Continues(pages[0]) then Harvest(pages[1..], pages[0].endCursor) else [])
  {}

  /** Where the node loop stands after `j` nodes: the next node either raises or gives the next row. */
  lemma RowsUntilFailureStep(nodes: seq<Option<CommitNode>>, j: int)
    requires 0 <= j < |nodes| && j <= |RowsUntilFailure(nodes)|
    ensures RowOf(nodes[j]).None? ==> |RowsUntilFailure(nodes)| == j
    ensures RowOf(nodes[j]).Some? ==> j < |RowsUntilFailure(nodes)| && RowsUntilFailure(nodes)[j] == RowOf(nodes[j]).value
  {
    RowsUntilFailureRows(nodes);
  }

  /** The node loop of one page; `ok` is false when a node raised and the walk must end. */
  method AppendPage(nodes: seq<Option<CommitNode>>, rows0: seq<CommitRow>) returns (rows: seq<CommitRow>, ok: bool)
    ensures rows == rows0 + RowsUntilFailure(nodes)
    ensures ok <==> Completes(nodes)
  {
    rows, ok := rows0, true;
    var j := 0;
    while j < |nodes|
      invariant 0 <= j <= |nodes|
      invariant j <= |RowsUntilFailure(nodes)|
      invariant rows == rows0 + RowsUntilFailure(nodes)[..j]
    {
      RowsUntilFailureStep(nodes, j);
      var row := RowOf(nodes[j]);
      if row.None? {
        ok := false;
        assert RowsUntilFailure(nodes)[..j] == RowsUntilFailure(nodes);
        return;
      }
      assert RowsUntilFailure(nodes)[..j + 1] == RowsUntilFailure(nodes)[..j] + [row.value];
      AppendAssociates(rows0, RowsUntilFailure(nodes)[..j], [row.value]);
      rows := rows + [row.value];
      j := j + 1;
    }
    assert RowsUntilFailure(nodes)[..j] == RowsUntilFailure(nodes);
  }

  /** The `while has_next_page` loop: fetch, append the page's rows, follow the cursor. */
  method FetchAllCommits(pages: seq<CommitsPage>) returns (rows: seq<CommitRow>)
    ensures rows == Harvest(pages, None)
  {
    rows := [];
    var cursor: Option<string> := None;
    var p := 0;
    var more := true;
    ghost var goal := Harvest(pages, None);
    assert pages[0..] == pages;
    while more && p < |pages|
      invariant 0 <= p <= |pages|
      invariant goal == rows + (if more then Harvest(pages[p..], cursor) else [])
      decreases |pages| - p
    {
      var page := pages[p];
      HarvestStep(pages[p..], cursor);
      assert pages[p..][1..] == pages[p + 1..] && pages[p..][0] == page;
      if StopsAt(page, cursor) {
        more := false;
      } else {
        var ok;
        ghost var before := rows;
        ghost var tail := if Continues(page) then Harvest(pages[p + 1..], page.endCursor) else [];
        rows, ok := AppendPage(page.nodes, rows);
        more := ok && page.hasNext;
        cursor := page.endCursor;
        AppendAssociates(before, RowsUntilFailure(page.nodes), tail);
      }
      p := p + 1;
    }
  }

  // ---------------------------------------------------------------------------
  // order and completeness of the walk

  /** The nodes of every page, in request order. */
  function AllNodes(pages: seq<CommitsPage>): seq<Option<CommitNode>> {
    if pages == [] then []
    else (if pages[0].Page? then pages[0].nodes else []) + AllNodes(pages[1..])
  }

  /** The rows of each node, in order: `rows[i]` is the row of `nodes[i]`. */
  predicate RowsOfNodes(rows: seq<CommitRow>, nodes: seq<Option<CommitNode>>) {
    |rows| <= |nodes| && forall i :: 0 <= i < |rows| ==> RowOf(nodes[i]) == Some(rows[i])
  }

  /** Rows of a whole page followed by rows of what comes after it. */
  lemma RowsOfNodesAppend(rows: seq<CommitRow>, nodes: seq<Option<CommitNode>>, more: seq<CommitRow>, after: seq<Option<CommitNode>>)
    requires RowsOfNodes(rows, nodes) && |rows| == |nodes|
    requires RowsOfNodes(more, after)
    ensures RowsOfNodes(rows + more, nodes + after)
  {
    forall i | 0 <= i < |rows + more| ensures RowOf((nodes + after)[i]) == Some((rows + more)[i]) {
      if i >= |rows| {
        assert (nodes + after)[i] == after[i - |nodes|];
        assert (rows + more)[i] == more[i - |rows|];
      }
    }
  }

  /** Rows of some nodes are rows of the first nodes of a longer list. */
  lemma RowsOfNodesExtend(rows: seq<CommitRow>, nodes: seq<Option<CommitNode>>, after: seq<Option<CommitNode>>)
    requires RowsOfNodes(rows, nodes)
    ensures RowsOfNodes(rows, nodes + after)
  {
    forall i | 0 <= i < |rows| ensures RowOf((nodes + after)[i]) == Some(rows[i]) {
      assert (nodes + after)[i] == nodes[i];
    }
  }

  /**
   * The rows are the rows of the first nodes of the walk, in page and node
   * order: nothing is reordered, skipped or merged.
   */
  lemma {:induction false} HarvestFollowsNodes(pages: seq<CommitsPage>, cursor: Option<string>)
    ensures RowsOfNodes(Harvest(pages, cursor), AllNodes(pages))
    decreases |pages|
  {
    if pages != [] && !StopsAt(pages[0], cursor) {
      var nodes := pages[0].nodes;
      HarvestStep(pages, cursor);
      RowsUntilFailureRows(nodes);
      assert AllNodes(pages) == nodes + AllNodes(pages[1..]);
      if Continues(pages[0]) {
        HarvestFollowsNodes(pages[1..], pages[0].endCursor);
        RowsOfNodesAppend(RowsUntilFailure(nodes), nodes, Harvest(pages[1..], pages[0].endCursor), AllNodes(pages[1..]));
      } else {
        RowsOfNodesExtend(RowsUntilFailure(nodes), nodes, AllNodes(pages[1..]));
      }
    }
  }

  /** A walk whose pages all arrive, are non-empty, convert fully and chain to the last keeps a row for every node. */
  lemma {:induction false} CompleteWalk(pages: seq<CommitsPage>, cursor: Option<string>)
    requires forall i :: 0 <= i < |pages| ==> pages[i].Page? && pages[i].nodes != [] && Completes(pages[i].nodes)
    requires forall i :: 0 <= i < |pages| - 1 ==> pages[i].hasNext
    ensures |Harvest(pages, cursor)| == |AllNodes(pages)|
    decreases |pages|
  {
    if pages != [] {
      var nodes := pages[0].nodes;
      assert |RowsUntilFailure(nodes)| == |nodes|;
      if |pages| > 1 {
        CompleteWalk(pages[1..], pages[0].endCursor);
      } else {
        assert AllNodes(pages[1..]) == [];
      }
    }
  }

  /** An empty first page ends the walk with no rows, whatever follows. */
  lemma EmptyFirstPage(pages: seq<CommitsPage>)
    requires pages != [] && pages[0].Page? && pages[0].nodes == []
    ensures Harvest(pages, None) == []
  {}

  /** Every row has as many fields as the header and a non-empty author. */
  lemma RowsMatchHeader(pages: seq<CommitsPage>)
    ensures forall i :: 0 <= i < |Harvest(pages, None)| ==>
      |Cells(Harvest(pages, None)[i])| == |CommitsHeader| && Harvest(pages, None)[i].author != ""
  {
    HarvestFollowsNodes(pages, None);
    var h := Harvest(pages, None);
    forall i | 0 <= i < |h| ensures h[i].author != "" {
      assert RowOf(AllNodes(pages)[i]) == Some(h[i]);
    }
  }
}
