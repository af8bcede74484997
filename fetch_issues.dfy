/**
 * `scripts/fetch_issues.py`: the three stages that build `issues.csv`.
 * Stage 1 walks the pages of issues and collects, per issue, the keys of the
 * pull requests its timeline links to (a closing pull request or a
 * cross-referencing one); stage 2 collects the commit authors of every such
 * pull request; stage 3 writes one row per issue whose last field is the
 * sorted, `;`-joined set of those authors.  The GraphQL responses are passed in
 * as values, one per page in the order the script requests them.
 */
module FetchIssues {
  import opened Options
  import opened Text
  import opened Seqs

  // ---------------------------------------------------------------------------
  // commit authors

  datatype UserInfo = UserInfo(login: Option<string>)

  /** A commit author node: `{user {login}, name}`; a `null` user is `None`. */
  datatype AuthorInfo = AuthorInfo(user: Option<UserInfo>, name: Option<string>)

  /** The author's login, when the user node is there and its login is truthy. */
  predicate HasLogin(a: AuthorInfo) {
    a.user.Some? && Truthy(a.user.value.login)
  }

  /**
   * `get_author_name`: the login when it is truthy, else the name when it is
   * truthy, else `None`; a missing author node gives `None`.
   */
  function AuthorName(a: Option<AuthorInfo>): (r: Option<string>)
    ensures r.Some? ==> r.value != ""
    ensures r.Some? <==> a.Some? && (HasLogin(a.value) || Truthy(a.value.name))
    ensures a.Some? && HasLogin(a.value) ==> r == a.value.user.value.login
    ensures a.Some? && !HasLogin(a.value) && r.Some? ==> r == a.value.name
  {
    if a.None? then None
    else if HasLogin(a.value) then a.value.user.value.login
    else if Truthy(a.value.name) then a.value.name
    else None
  }

  // ---------------------------------------------------------------------------
  // pull-request keys from an issue's timeline

  /**
   * The `closer` of a closed event or the `source` of a cross-reference: its
   * `__typename`, and for a pull request its `number` and its repository's
   * `nameWithOwner` (`None` when the repository is missing).
   */
  datatype PrRef = PrRef(typename: string, number: Option<int>, nameWithOwner: Option<string>)

  /** A timeline item; any other item, and a `null` one, is `OtherItem`. */
  datatype TimelineItem =
    | ClosedEvent(closer: Option<PrRef>)
    | CrossReferencedEvent(source: Option<PrRef>)
    | OtherItem

  /** The `(owner, name, number)` tuple that identifies a pull request. */
  datatype PrKey = PrKey(owner: string, name: string, number: int)

  /** The pull request an item points at: a closer or source whose `__typename` is `PullRequest`. */
  function PrOf(item: TimelineItem): (r: Option<PrRef>)
    ensures r.Some? ==> r.value.typename == "PullRequest"
    ensures r.Some? ==> (item.ClosedEvent? && item.closer == r) || (item.CrossReferencedEvent? && item.source == r)
    ensures item.ClosedEvent? && item.closer.Some? && item.closer.value.typename == "PullRequest" ==> r == item.closer
    ensures item.CrossReferencedEvent? && item.source.Some? && item.source.value.typename == "PullRequest" ==> r == item.source
  {
    match item
    case ClosedEvent(closer) => if closer.Some? && closer.value.typename == "PullRequest" then closer else None
    case CrossReferencedEvent(source) => if source.Some? && source.value.typename == "PullRequest" then source else None
    case OtherItem => None
  }

  /**
   * The key an item adds: its pull request must have a repository and a
   * truthy (non-zero) number, and `nameWithOwner.split('/')` must give exactly
   * two pieces; otherwise the item is skipped with a warning.
   */
  function ItemKey(item: TimelineItem): (k: Option<PrKey>)
    ensures k.Some? ==> PrOf(item).Some? && PrOf(item).value.number == Some(k.value.number) && k.value.number != 0
    ensures k.Some? ==> PrOf(item).value.nameWithOwner == Some(k.value.owner + "/" + k.value.name)
    ensures k.Some? ==> '/' !in k.value.owner && '/' !in k.value.name
  {
    var pr := PrOf(item);
    if pr.Some? && pr.value.nameWithOwner.Some? && pr.value.number.Some? && pr.value.number.value != 0 then
      var parts := Split(pr.value.nameWithOwner.value, '/');
      if |parts| == 2 then
        JoinSplit(pr.value.nameWithOwner.value, '/');
        Some(PrKey(parts[0], parts[1], pr.value.number.value))
      else None
    else None
  }

  /** Converse: a pull request with a number and an `owner/name` repository gives exactly that key. */
  lemma ItemKeyOfPullRequest(item: TimelineItem, owner: string, name: string, n: int)
    requires PrOf(item).Some? && PrOf(item).value.number == Some(n) && n != 0
    requires PrOf(item).value.nameWithOwner == Some(owner + "/" + name)
    requires '/' !in owner && '/' !in name
    ensures ItemKey(item) == Some(PrKey(owner, name, n))
  {
    SplitAfterPiece(owner, '/', name);
    SplitWithoutSeparator(name, '/');
    assert owner + "/" + name == owner + ['/'] + name;
  }

  /** A repository name with no `/`, or with two, gives no key. */
  lemma MalformedRepositoryGivesNoKey(item: TimelineItem)
    requires PrOf(item).Some? && PrOf(item).value.nameWithOwner.Some?
    requires |Split(PrOf(item).value.nameWithOwner.value, '/')| != 2
    ensures ItemKey(item).None?
  {}

  /** The keys of all items of a timeline: `linked_pr_keys_for_issue` once the item loop is done. */
  function KeysOf(items: seq<TimelineItem>): set<PrKey> {
    if items == [] then {}
    else KeysOf(Init(items)) + (if ItemKey(Last(items)).Some? then {ItemKey(Last(items)).value} else {})
  }

  /** Some item of the timeline gives the key `k`. */
  predicate LinksKey(items: seq<TimelineItem>, k: PrKey) {
    exists i :: 0 <= i < |items| && ItemKey(items[i]) == Some(k)
  }

  /** The keys of a timeline are exactly the keys its items give. */
  lemma {:induction false} KeysOfMembers(items: seq<TimelineItem>)
    ensures forall k :: k in KeysOf(items) <==> LinksKey(items, k)
    decreases |items|
  {
    if items != [] {
      KeysOfMembers(Init(items));
      forall k ensures k in KeysOf(items) <==> LinksKey(items, k) {
        if LinksKey(items, k) {
          var i :| 0 <= i < |items| && ItemKey(items[i]) == Some(k);
          if i < |items| - 1 {
            assert Init(items)[i] == items[i];
          }
        }
        if LinksKey(Init(items), k) {
          var i :| 0 <= i < |Init(items)| && ItemKey(Init(items)[i]) == Some(k);
          assert items[i] == Init(items)[i];
        }
      }
    }
  }

  // ---------------------------------------------------------------------------
  // stage 1: issues and their linked pull requests

  /** The fields of an issue node the CSV keeps; `None` is a missing or `null` field. */
  datatype IssueDetails = IssueDetails(
    id: Option<string>,
    number: Option<int>,
    title: Option<string>,
    state: Option<string>,
    createdAt: Option<string>,
    closedAt: Option<string>)

  datatype IssueNode = IssueNode(details: IssueDetails, items: seq<TimelineItem>)

  /**
   * One response to the issues query: no `data` (a failed request),
   * no repository or issues in it, or a page of issue nodes (`null` nodes are
   * `None`) and its `hasNextPage`.
   */
  datatype IssuesResponse =
    | NoData
    | NoIssues
    | Issues(nodes: seq<Option<IssueNode>>, hasNext: bool)

  /** An entry of `all_issues_raw_data`: the issue and the keys its timeline links to. */
  datatype IssueRecord = IssueRecord(details: IssueDetails, keys: set<PrKey>)

  /** The records of one page: one per non-`null` issue, in page order. */
  function RecordsOf(nodes: seq<Option<IssueNode>>): (r: seq<IssueRecord>)
    ensures |r| <= |nodes|
  {
    if nodes == [] then []
    else
      RecordsOf(Init(nodes)) +
        (if Last(nodes).Some? then [IssueRecord(Last(nodes).value.details, KeysOf(Last(nodes).value.items))] else [])
  }

  /**
   * The records of the whole walk: page after page while `hasNextPage` holds;
   * a response without data or without issues ends it, and so does running
   * out of responses.
   */
  function Harvest(pages: seq<IssuesResponse>): seq<IssueRecord>
    decreases |pages|
  {
    if pages == [] then []
    else
      match pages[0]
      case Issues(nodes, hasNext) => RecordsOf(nodes) + (if hasNext then Harvest(pages[1..]) else [])
      case _ => []
  }

  /** The union of the records' key sets. */
  function UnionKeys(records: seq<IssueRecord>): set<PrKey> {
    if records == [] then {} else UnionKeys(Init(records)) + Last(records).keys
  }

  /** Some record holds the key `k`. */
  predicate RecordsLink(records: seq<IssueRecord>, k: PrKey) {
    exists i :: 0 <= i < |records| && k in records[i].keys
  }

  /** The union holds exactly the keys some record holds. */
  lemma {:induction false} UnionKeysMembers(records: seq<IssueRecord>)
    ensures forall k :: k in UnionKeys(records) <==> RecordsLink(records, k)
    decreases |records|
  {
    if records != [] {
      UnionKeysMembers(Init(records));
      forall k ensures k in UnionKeys(records) <==> RecordsLink(records, k) {
        if RecordsLink(records, k) {
          var i :| 0 <= i < |records| && k in records[i].keys;
          if i < |records| - 1 {
            assert Init(records)[i] == records[i];
          }
        }
        if RecordsLink(Init(records), k) {
          var i :| 0 <= i < |Init(records)| && k in Init(records)[i].keys;
          assert records[i] == Init(records)[i];
        }
      }
    }
  }

  /**
   * The item loop of one issue: the keys its timeline links to, each also
   * added to the running set of distinct keys.
   */
  method ScanTimeline(items: seq<TimelineItem>, unique0: set<PrKey>) returns (linked: set<PrKey>, unique: set<PrKey>)
    ensures linked == KeysOf(items)
    ensures unique == unique0 + linked
  {
    linked, unique := {}, unique0;
    var i := 0;
    while i < |items|
      invariant 0 <= i <= |items|
      invariant linked == KeysOf(items[..i])
      invariant unique == unique0 + linked
    {
      assert Init(items[..i + 1]) == items[..i] && Last(items[..i + 1]) == items[i];
      var key := ItemKey(items[i]);
      if key.Some? {
        linked := linked + {key.value};
        unique := unique + {key.value};
      }
      i := i + 1;
    }
    assert items[..|items|] == items;
  }

  /** The issue loop of one page: a record for every non-`null` issue, appended in order. */
  method ScanPage(nodes: seq<Option<IssueNode>>, records0: seq<IssueRecord>, unique0: set<PrKey>)
    returns (records: seq<IssueRecord>, unique: set<PrKey>)
    requires unique0 == UnionKeys(records0)
    ensures records == records0 + RecordsOf(nodes)
    ensures unique == UnionKeys(records)
  {
    records, unique := records0, unique0;
    var j := 0;
    while j < |nodes|
      invariant 0 <= j <= |nodes|
      invariant records == records0 + RecordsOf(nodes[..j])
      invariant unique == UnionKeys(records)
    {
      RecordsOfPrefix(nodes, j);
      if nodes[j].Some? {
        var linked;
        linked, unique := ScanTimeline(nodes[j].value.items, unique);
        var record := IssueRecord(nodes[j].value.details, linked);
        UnionKeysSnoc(records, record);
        AppendAssociates(records0, RecordsOf(nodes[..j]), [record]);
        records := records + [record];
      } else {
        assert RecordsOf(nodes[..j + 1]) == RecordsOf(nodes[..j]);
      }
      j := j + 1;
    }
    assert nodes[..|nodes|] == nodes;
  }

  /** The records of one more node: its record, when it is not `null`. */
  lemma RecordsOfPrefix(nodes: seq<Option<IssueNode>>, j: int)
    requires 0 <= j < |nodes|
    ensures RecordsOf(nodes[..j + 1]) == RecordsOf(nodes[..j]) +
      (if nodes[j].Some? then [IssueRecord(nodes[j].value.details, KeysOf(nodes[j].value.items))] else [])
  {
    assert Init(nodes[..j + 1]) == nodes[..j] && Last(nodes[..j + 1]) == nodes[j];
  }

  /** One more record adds its keys to the union. */
  lemma UnionKeysSnoc(records: seq<IssueRecord>, record: IssueRecord)
    ensures UnionKeys(records + [record]) == UnionKeys(records) + record.keys
  {
    assert Init(records + [record]) == records && Last(records + [record]) == record;
  }

  /**
   * `fetch_issues_and_identify_prs`: the records of all issues, in the order
   * they were fetched, and the set of distinct linked pull requests.
   */
  method IdentifyPrs(pages: seq<IssuesResponse>) returns (records: seq<IssueRecord>, unique: set<PrKey>)
    ensures records == Harvest(pages)
    ensures unique == UnionKeys(records)
  {
    records, unique := [], {};
    var p := 0;
    var more := true;
    ghost var goal := Harvest(pages);
    assert pages[0..] == pages;
    while more && p < |pages|
      invariant 0 <= p <= |pages|
      invariant goal == records + (if more then Harvest(pages[p..]) else [])
      invariant unique == UnionKeys(records)
      decreases |pages| - p
    {
      HarvestStep(pages[p..]);
      assert pages[p..][1..] == pages[p + 1..];
      match pages[p] {
        case Issues(nodes, hasNext) =>
          ghost var before := records;
          records, unique := ScanPage(nodes, records, unique);
          AppendAssociates(before, RecordsOf(nodes), if hasNext then Harvest(pages[p + 1..]) else []);
          more := hasNext;
        case _ =>
          more := false;
      }
      p := p + 1;
    }
  }

  /** The walk from a page: its records, then the walk from the next page when there is one. */
  lemma HarvestStep(pages: seq<IssuesResponse>)
    requires pages != []
    ensures pages[0].Issues? ==>
      Harvest(pages) == RecordsOf(pages[0].nodes) + (if pages[0].hasNext then Harvest(pages[1..]) else [])
    ensures !pages[0].Issues? ==> Harvest(pages) == []
  {}

  // ---------------------------------------------------------------------------
  // stage 2: the commit authors of each pull request

  datatype CommitInfo = CommitInfo(author: Option<AuthorInfo>)

  /** A commit node of a pull request; a `null` commit is `None`. */
  datatype CommitNode = CommitNode(commit: Option<CommitInfo>)

  /** One response to the pull-request commits query, shaped like `IssuesResponse`. */
  datatype CommitsResponse =
    | NoCommitData
    | NoCommits
    | Commits(nodes: seq<Option<CommitNode>>, hasNext: bool)

  /** The name a commit node contributes, if any. */
  function NodeAuthor(n: Option<CommitNode>): (r: Option<string>)
    ensures r.Some? ==> r.value != ""
  {
    if n.Some? && n.value.commit.Some? then AuthorName(n.value.commit.value.author) else None
  }

  /** The names of one page of commit nodes. */
  function NamesOf(nodes: seq<Option<CommitNode>>): (r: set<string>)
    ensures "" !in r
  {
    if nodes == [] then {}
    else NamesOf(Init(nodes)) + (if NodeAuthor(Last(nodes)).Some? then {NodeAuthor(Last(nodes)).value} else {})
  }

  /** Some node of the page is authored by `a`. */
  predicate AuthoredBy(nodes: seq<Option<CommitNode>>, a: string) {
    exists i :: 0 <= i < |nodes| && NodeAuthor(nodes[i]) == Some(a)
  }

  /** The names of a page are exactly the names its nodes give. */
  lemma {:induction false} NamesOfMembers(nodes: seq<Option<CommitNode>>)
    ensures forall a :: a in NamesOf(nodes) <==> AuthoredBy(nodes, a)
    decreases |nodes|
  {
    if nodes != [] {
      NamesOfMembers(Init(nodes));
      forall a ensures a in NamesOf(nodes) <==> AuthoredBy(nodes, a) {
        if AuthoredBy(nodes, a) {
          var i :| 0 <= i < |nodes| && NodeAuthor(nodes[i]) == Some(a);
          if i < |nodes| - 1 {
            assert Init(nodes)[i] == nodes[i];
          }
        }
        if AuthoredBy(Init(nodes), a) {
          var i :| 0 <= i < |Init(nodes)| && NodeAuthor(Init(nodes)[i]) == Some(a);
          assert nodes[i] == Init(nodes)[i];
        }
      }
    }
  }

  /** The names of a pull request's commits over its pages: a failed or empty response ends the walk. */
  function AuthorsOfPages(pages: seq<CommitsResponse>): (r: set<string>)
    ensures "" !in r
    decreases |pages|
  {
    if pages == [] then {}
    else
      match pages[0]
      case Commits(nodes, hasNext) => NamesOf(nodes) + (if hasNext then AuthorsOfPages(pages[1..]) else {})
      case _ => {}
  }

  /** The node loop of one commits page: the names it adds. */
  method ScanCommits(nodes: seq<Option<CommitNode>>, authors0: set<string>) returns (authors: set<string>)
    ensures authors == authors0 + NamesOf(nodes)
  {
    authors := authors0;
    var j := 0;
    while j < |nodes|
      invariant 0 <= j <= |nodes|
      invariant authors == authors0 + NamesOf(nodes[..j])
    {
      assert Init(nodes[..j + 1]) == nodes[..j] && Last(nodes[..j + 1]) == nodes[j];
      var name := NodeAuthor(nodes[j]);
      if name.Some? {
        authors := authors + {name.value};
      }
      j := j + 1;
    }
    assert nodes[..|nodes|] == nodes;
  }

  /** The `while commits_has_next_page` loop for one pull request. */
  method PrAuthors(pages: seq<CommitsResponse>) returns (authors: set<string>)
    ensures authors == AuthorsOfPages(pages)
  {
    authors := {};
    var p := 0;
    var more := true;
    while more && p < |pages|
      invariant 0 <= p <= |pages|
      invariant AuthorsOfPages(pages) == authors + (if more then AuthorsOfPages(pages[p..]) else {})
      decreases |pages| - p
    {
      assert pages[p..][1..] == pages[p + 1..];
      match pages[p] {
        case Commits(nodes, hasNext) =>
          authors := ScanCommits(nodes, authors);
          more := hasNext;
        case _ =>
          more := false;
      }
      p := p + 1;
    }
  }

  /**
   * `fetch_authors_for_prs`: every key gets an entry, the set of names its
   * responses yield (empty when the first request fails).  `responses(k)` is
   * the sequence of responses the requests for `k` receive.
   */
  method FetchAuthors(keys: set<PrKey>, responses: PrKey -> seq<CommitsResponse>) returns (m: map<PrKey, set<string>>)
    ensures m.Keys == keys
    ensures forall k :: k in m ==> m[k] == AuthorsOfPages(responses(k))
    ensures forall k :: k in m ==> "" !in m[k]
  {
    m := map[];
    var rest := keys;
    while rest != {}
      invariant rest <= keys
      invariant m.Keys == keys - rest
      invariant forall k :: k in m ==> m[k] == AuthorsOfPages(responses(k))
      decreases |rest|
    {
      var k :| k in rest;
      var authors := PrAuthors(responses(k));
      m := m[k := authors];
      rest := rest - {k};
    }
  }

  // ---------------------------------------------------------------------------
  // stage 3: the rows of issues.csv

  /** The contributors of an issue: the names of every linked pull request that has an entry. */
  ghost function IssueAuthors(keys: set<PrKey>, m: map<PrKey, set<string>>): set<string> {
    set k, a | k in keys && k in m && a in m[k] :: a
  }

  /** The `issue_contributors.update(...)` loop over an issue's keys; a key without an entry adds nothing. */
  method CollectContributors(keys: set<PrKey>, m: map<PrKey, set<string>>) returns (c: set<string>)
    ensures forall a :: a in c <==> exists k :: k in keys && k in m && a in m[k]
  {
    c := {};
    var rest := keys;
    while rest != {}
      invariant rest <= keys
      invariant forall a :: a in c <==> exists k :: k in keys - rest && k in m && a in m[k]
      decreases |rest|
    {
      var k :| k in rest;
      var authors := if k in m then m[k] else {};
      c := c + authors;
      rest := rest - {k};
    }
  }

  /** `sorted(s)` as a value: the one strictly ascending sequence of the elements of `s`. */
  ghost function SortedOf(s: set<string>): (r: seq<string>)
    ensures StrictlySorted(r)
    ensures forall y :: y in r <==> y in s
    decreases |s|
  {
    if s == {} then []
    else
      var x :| x in s;
      InsertDistinct(x, SortedOf(s - {x}))
  }

  /** `sorted(list(s))`: the list is taken in some iteration order and then sorted, so the order taken does not matter. */
  method SortedNames(s: set<string>) returns (r: seq<string>)
    ensures r == SortedOf(s)
  {
    r := [];
    var rest := s;
    while rest != {}
      invariant rest <= s
      invariant StrictlySorted(r)
      invariant forall y :: y in r <==> y in s - rest
      decreases |rest|
    {
      var x :| x in rest;
      r := InsertDistinct(x, r);
      rest := rest - {x};
    }
    SortedUnique(r, SortedOf(s));
  }

  const IssuesHeader: seq<string> := ["issue_id", "issue_number", "title", "state", "created_date", "closed_date", "contributors"]

  /** One row of `issues.csv`, given the issue's sorted contributor names. */
  function IssueRow(d: IssueDetails, names: seq<string>): (row: seq<string>)
    ensures |row| == |IssuesHeader|
    ensures row[0] == d.id.GetOr("") && row[1] == NumberCell(d.number) && row[2] == d.title.GetOr("")
    ensures row[3] == d.state.GetOr("") && row[4] == d.createdAt.GetOr("")
    ensures d.closedAt.None? ==> row[5] == ""
    ensures d.closedAt.Some? ==> row[5] == d.closedAt.value
    ensures row[6] == Join(names, ';')
  {
    [d.id.GetOr(""), NumberCell(d.number), d.title.GetOr(""), d.state.GetOr(""), d.createdAt.GetOr(""),
     d.closedAt.GetOr(""), Join(names, ';')]
  }

  /**
   * `aggregate_and_write_csv` before the writing: one row per record, in
   * order, whose last field joins the sorted contributors.
   */
  method Aggregate(records: seq<IssueRecord>, m: map<PrKey, set<string>>) returns (rows: seq<seq<string>>)
    ensures |rows| == |records|
    ensures forall i :: 0 <= i < |rows| ==> rows[i] == IssueRow(records[i].details, SortedOf(IssueAuthors(records[i].keys, m)))
  {
    rows := [];
    var i := 0;
    while i < |records|
      invariant 0 <= i <= |records|
      invariant |rows| == i
      invariant forall j :: 0 <= j < i ==> rows[j] == IssueRow(records[j].details, SortedOf(IssueAuthors(records[j].keys, m)))
    {
      var c := CollectContributors(records[i].keys, m);
      assert c == IssueAuthors(records[i].keys, m);
      var names := SortedNames(c);
      rows := rows + [IssueRow(records[i].details, names)];
      i := i + 1;
    }
  }

  // ---------------------------------------------------------------------------
  // the stages together

  /**
   * When the map comes from the keys of all records, every linked pull
   * request has an entry, so an issue's contributors are the authors of all
   * of its linked pull requests, and none is the empty name.
   */
  lemma ContributorsOfAllKeys(records: seq<IssueRecord>, m: map<PrKey, set<string>>, i: int)
    requires 0 <= i < |records|
    requires m.Keys == UnionKeys(records)
    requires forall k :: k in m ==> "" !in m[k]
    ensures records[i].keys <= m.Keys
    ensures "" !in IssueAuthors(records[i].keys, m)
  {
    UnionKeysMembers(records);
    forall k | k in records[i].keys ensures k in m {
      assert RecordsLink(records, k);
    }
  }
}
