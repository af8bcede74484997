/**
 * The pages the charts open on a click: a Gantt bar opens its issue, a
 * scatter dot its commit.  Template literals render a missing column as
 * `undefined`.
 */
module Links {
  import opened Options
  import opened Text
  import opened Issues
  import opened Commits

  /** `${x}` of a CSV cell: its text, or `undefined` when the column is missing. */
  function Interpolate(o: Option<string>): string {
    if o.Some? then o.value else "undefined"
  }

  /** The pieces of `https://github.com/<owner>/<repo>/<kind>/<id>` between its slashes. */
  function UrlPieces(owner: string, repo: string, kind: string, id: string): seq<string> {
    ["https:", "", "github.com", owner, repo, kind, id]
  }

  /** `https://github.com/${owner}/${repo}/${kind}/${id}`. */
  function GitHubUrl(owner: string, repo: string, kind: string, id: string): string {
    "https://github.com/" + owner + "/" + repo + "/" + kind + "/" + id
  }

  /** The issue page of a Gantt bar, opened only when the issue number is truthy (not NaN, not 0). */
  function IssueUrl(d: Issue): (r: Option<string>)
    ensures r.Some? <==> d.number.Some? && d.number.value != 0
  {
    if d.number.Some? && d.number.value != 0 then
      Some(GitHubUrl(Interpolate(d.repoOwner), Interpolate(d.repoName), "issues", IntToString(d.number.value)))
    else None
  }

  /** The commit page of a scatter dot, opened only when the sha is truthy. */
  function CommitUrl(c: Commit): (r: Option<string>)
    ensures r.Some? <==> Truthy(c.sha)
  {
    if Truthy(c.sha) then Some(GitHubUrl(Interpolate(c.repoOwner), Interpolate(c.repoName), "commit", c.sha.value)) else None
  }

  /** A join of two or more pieces is the first piece, the separator and the join of the rest. */
  lemma JoinUnfold(xs: seq<string>, sep: char)
    requires |xs| >= 2
    ensures Join(xs, sep) == xs[0] + [sep] + Join(xs[1..], sep)
  {}

  /** Joining seven pieces puts the separator between each neighbouring pair. */
  lemma JoinSeven(a: string, b: string, c: string, d: string, e: string, f: string, g: string, sep: char)
    ensures Join([a, b, c, d, e, f, g], sep) == a + [sep] + b + [sep] + c + [sep] + d + [sep] + e + [sep] + f + [sep] + g
  {
    var s7 := [a, b, c, d, e, f, g];
    var s6 := s7[1..];
    var s5 := s6[1..];
    var s4 := s5[1..];
    var s3 := s4[1..];
    var s2 := s3[1..];
    assert s2 == [f, g] && s2[1..] == [g];
    JoinUnfold(s2, sep);
    JoinUnfold(s3, sep);
    JoinUnfold(s4, sep);
    JoinUnfold(s5, sep);
    JoinUnfold(s6, sep);
    JoinUnfold(s7, sep);
  }

  /** The URL is its pieces joined with `/`. */
  lemma GitHubUrlIsJoin(owner: string, repo: string, kind: string, id: string)
    ensures GitHubUrl(owner, repo, kind, id) == Join(UrlPieces(owner, repo, kind, id), '/')
  {
    JoinSeven("https:", "", "github.com", owner, repo, kind, id, '/');
    assert "https:" + "/" + "" + "/" + "github.com" + "/" == "https://github.com/";
  }

  /** Round trip: a URL built from slash-free parts splits back into exactly those parts. */
  lemma GitHubUrlSplits(owner: string, repo: string, kind: string, id: string)
    requires '/' !in owner && '/' !in repo && '/' !in kind && '/' !in id
    ensures Split(GitHubUrl(owner, repo, kind, id), '/') == UrlPieces(owner, repo, kind, id)
  {
    var p := UrlPieces(owner, repo, kind, id);
    assert "https:" == ['h', 't', 't', 'p', 's', ':'];
    assert "github.com" == ['g', 'i', 't', 'h', 'u', 'b', '.', 'c', 'o', 'm'];
    assert forall i :: 0 <= i < |p| ==> '/' !in p[i];
    GitHubUrlIsJoin(owner, repo, kind, id);
    SplitJoin(p, '/');
  }

  /** The issue link addresses the issue's owner, repository and number, which reads back as that number. */
  lemma IssueUrlAddressesIssue(d: Issue)
    requires d.number.Some? && d.number.value > 0
    requires '/' !in Interpolate(d.repoOwner) && '/' !in Interpolate(d.repoName)
    ensures IssueUrl(d).Some?
    ensures Split(IssueUrl(d).value, '/') ==
      UrlPieces(Interpolate(d.repoOwner), Interpolate(d.repoName), "issues", IntToString(d.number.value))
    ensures ToNumber(Split(IssueUrl(d).value, '/')[6]) == d.number
  {
    var id := IntToString(d.number.value);
    assert id == NatToString(d.number.value);
    assert forall i :: 0 <= i < |id| ==> id[i] != '/';
    assert "issues" == ['i', 's', 's', 'u', 'e', 's'];
    GitHubUrlSplits(Interpolate(d.repoOwner), Interpolate(d.repoName), "issues", id);
    NumberOfIntString(d.number.value);
  }

  /** The commit link addresses the commit's owner, repository and sha. */
  lemma CommitUrlAddressesCommit(c: Commit)
    requires Truthy(c.sha) && '/' !in c.sha.value
    requires '/' !in Interpolate(c.repoOwner) && '/' !in Interpolate(c.repoName)
    ensures CommitUrl(c).Some?
    ensures Split(CommitUrl(c).value, '/') == UrlPieces(Interpolate(c.repoOwner), Interpolate(c.repoName), "commit", c.sha.value)
  {
    assert "commit" == ['c', 'o', 'm', 'm', 'i', 't'];
    GitHubUrlSplits(Interpolate(c.repoOwner), Interpolate(c.repoName), "commit", c.sha.value);
  }

  /** Without `repo_owner` and `repo_name` columns the owner and repository pieces of a link are `undefined`. */
  lemma MissingRepositoryColumns(c: Commit)
    requires Truthy(c.sha) && '/' !in c.sha.value
    requires c.repoOwner.None? && c.repoName.None?
    ensures CommitUrl(c).Some? && |Split(CommitUrl(c).value, '/')| == 7
    ensures Split(CommitUrl(c).value, '/')[3] == "undefined" && Split(CommitUrl(c).value, '/')[4] == "undefined"
  {
    assert "undefined" == ['u', 'n', 'd', 'e', 'f', 'i', 'n', 'e', 'd'];
    CommitUrlAddressesCommit(c);
  }
}
