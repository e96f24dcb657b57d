/** The `repo` command's GraphQL layer (src/repo.rs): the decoded shapes of
    an Issue or Pull Request and its comments, the commenter associations,
    the query text for one page, and the page walk `issues_work`.

    Timestamps are whole seconds since the epoch (`int`). */
module Repo {
  import opened Wrappers
  import opened Paging

  /** `repo::Author`: a login that still resolves. */
  datatype Author = Author(login: string)

  /** How a commenter relates to the repository (`authorAssociation`).
      `NoAssociation` is GitHub's `NONE`. */
  datatype Association = Owner | Member | Collaborator | Contributor | Author | NoAssociation
  {
    /** Owners, organisation members and invited collaborators speak officially. */
    predicate IsOfficial()
    {
      match this
      case Owner => true
      case Member => true
      case Collaborator => true
      case _ => false
    }

    /** The commenter opened the thread. */
    predicate IsAuthor()
    {
      match this
      case Author => true
      case _ => false
    }
  }

  /** Nobody comments both as the thread's opener and officially, so the
      two scans of the classifier look for different comments. */
  lemma OfficialNotAuthor(a: Association)
    ensures !(a.IsOfficial() && a.IsAuthor())
    ensures a.IsOfficial() <==> a == Owner || a == Member || a == Collaborator
    ensures a.IsAuthor() <==> a == Association.Author
  {
  }

  /** `repo::Comment`; `author` is absent for a deleted account. */
  datatype Comment = Comment(author: Option<Author>, authorAssociation: Association, createdAt: int)

  /** `repo::CommitCount`. */
  datatype CommitCount = CommitCount(totalCount: nat)

  /** `repo::Issue`: one node of an `issues` or `pullRequests` page, with the
      first (at most 100) comments. `mergedAt` and `commits` are only
      requested for Pull Requests. */
  datatype Issue = Issue(
    author: Option<Author>,
    createdAt: int,
    closedAt: Option<int>,
    mergedAt: Option<int>,
    comments: seq<Comment>,
    commits: Option<CommitCount>)

  /** The untagged `repo::Issues`: the repository answers under whichever
      field was queried. */
  datatype RepositoryPage = IssuesField(issues: Page<Issue>) | PullRequestsField(pullRequests: Page<Issue>)
  {
    /** `Issues::page`: both shapes carry the same kind of page. */
    function ToPage(): (p: Page<Issue>)
      ensures this.IssuesField? ==> p == this.issues
      ensures this.PullRequestsField? ==> p == this.pullRequests
    {
      match this
      case IssuesField(p) => p
      case PullRequestsField(p) => p
    }
  }

  /** What to fetch. */
  datatype Mode = Issues | PRs | PRsWithCommits

  /** The connection field to query. */
  function GraphCall(mode: Mode): (s: string)
    ensures s == "issues" <==> mode.Issues?
    ensures !mode.Issues? ==> s == "pullRequests"
  {
    match mode
    case Issues => "issues"
    case _ => "pullRequests"
  }

  /** The merge-timestamp field, requested for Pull Requests only. */
  function MergedField(mode: Mode): (s: string)
    ensures s == "" <==> mode.Issues?
    ensures !mode.Issues? ==> s == "mergedAt"
  {
    match mode
    case Issues => ""
    case _ => "mergedAt"
  }

  /** The commit-count sub-query, requested only when commits are counted. */
  function Commits(mode: Mode): (s: string)
    ensures s != "" <==> mode.PRsWithCommits?
    ensures mode.PRsWithCommits? ==> s == "commits { totalCount }"
  {
    match mode
    case PRsWithCommits => "commits { totalCount }"
    case _ => ""
  }

  /** The fixed text of the request body, in order around the owner, the
      repository name, the connection field and the per-Mode fields. */
  const RepositoryOwner: string := "{ \"query\": \"{ repository(owner: \\\""
  const RepositoryName: string := "\\\", name: \\\""
  const RepositoryOpen: string := "\\\") { "
  const FirstHundred: string := "(first: 100"
  const NodeFields: string := ") { pageInfo { hasNextPage endCursor } edges { node { author { login } createdAt closedAt "
  const CommentFields: string := " comments(first: 100) { edges { node { author { login } authorAssociation createdAt } } } } } } } }\" }"

  /** The request body up to the connection field. */
  function QueryOpening(mode: Mode, owner: string, repo: string): string
  {
    RepositoryOwner + owner + RepositoryName + repo + RepositoryOpen + GraphCall(mode)
  }

  /** The request body up to the page-size argument of the connection. */
  function QueryHead(mode: Mode, owner: string, repo: string): (s: string)
    ensures |s| >= 11 && s[|s| - 11..] == "(first: 100"
  {
    var opening := QueryOpening(mode, owner, repo);
    assert (opening + FirstHundred)[|opening|..] == FirstHundred;
    opening + FirstHundred
  }

  /** The rest of the request body: the selected fields of each node and
      of its first 100 comments. */
  function QueryTail(mode: Mode): string
  {
    NodeFields + MergedField(mode) + " " + Commits(mode) + CommentFields
  }

  /** `issue_query`: the JSON request body asking for one page of 100
      Issues or Pull Requests with their first 100 comments. */
  function IssueQuery(mode: Mode, owner: string, repo: string, page: Option<string>): (q: string)
    ensures var head := QueryHead(mode, owner, repo);
            |head| <= |q| && q[..|head|] == head && q[|head| - |FirstHundred|..|head|] == FirstHundred
    ensures var tail := QueryTail(mode);
            |tail| <= |q| && q[|q| - |tail|..] == tail
    ensures page.None? ==> q == QueryHead(mode, owner, repo) + QueryTail(mode)
  {
    QueryHead(mode, owner, repo) + AfterClause(page) + QueryTail(mode)
  }

  /** A continuation request is the first-page request with the cursor
      spliced in as an `after` argument right after `(first: 100`; nothing
      else in the body changes. */
  lemma ContinuationQuery(mode: Mode, owner: string, repo: string, cursor: string)
    ensures var first := IssueQuery(mode, owner, repo, None);
            var next := IssueQuery(mode, owner, repo, Some(cursor));
            exists k :: 11 <= k <= |first|
              && first[k - 11..k] == "(first: 100"
              && next == first[..k] + (", after: \\\"" + cursor + "\\\"") + first[k..]
  {
    var opening := QueryOpening(mode, owner, repo);
    var head := QueryHead(mode, owner, repo);
    assert head + AfterClause(None) == head;
    SpliceAfter(opening, FirstHundred, AfterClause(Some(cursor)), QueryTail(mode));
    var first := IssueQuery(mode, owner, repo, None);
    assert first == opening + FirstHundred + QueryTail(mode);
    var k := |opening + FirstHundred|;
    assert 11 <= k <= |first| && first[k - 11..k] == "(first: 100";
  }

  /** `stop_early`: `--end` is set and this page's last node was created
      after it. */
  predicate StopEarly(end: Option<int>, issues: seq<Issue>)
    ensures StopEarly(end, issues) <==> end.Some? && |issues| > 0 && issues[|issues| - 1].createdAt > end.value
  {
    match end
    case None => false
    case Some(e) =>
      match Last(issues)
      case None => false
      case Some(i) => i.createdAt > e
  }

  /** Whether `issues_work` asks for another page after this one. */
  predicate Continues(page: Page<Issue>, end: Option<int>)
  {
    HasNext(page.pageInfo) && !StopEarly(end, page.edges)
  }

  /** `issues_work`: walks the pages of one repository's Issues or Pull
      Requests. `server` holds the answers to successive requests; the
      request text (`IssueQuery` with the previous page's cursor) does not
      influence them in this model. A failed request aborts the whole walk. */
  function IssuesWork(server: seq<Answer<RepositoryPage>>, end: Option<int>): (r: Result<seq<Issue>, FetchError>)
    ensures r.Success? ==> |server| > 0 && server[0].Answered? && server[0].data.ToPage().edges <= r.value
    ensures r.Failure? ==> r.error == Unanswered || Failed(r.error) in server
    decreases |server|
  {
    if |server| == 0 then Failure(Unanswered)
    else
      match server[0]
      case Failed(e) => Failure(e)
      case Answered(data) =>
        var page := data.ToPage();
        if Continues(page, end) then
          match IssuesWork(server[1..], end)
          case Failure(e) => Failure(e)
          case Success(next) => Success(page.edges + next)
        else Success(page.edges)
  }

  /** The pages of the answered requests, in order. */
  function Pages(server: seq<Answer<RepositoryPage>>): seq<Page<Issue>>
  {
    if |server| == 0 then []
    else
      match server[0]
      case Failed(_) => Pages(server[1..])
      case Answered(data) => [data.ToPage()] + Pages(server[1..])
  }

  /** The walk ends with the k-th answer: every earlier answer was a page
      that continues, and the k-th failed or does not continue. */
  ghost predicate StopsAt(server: seq<Answer<RepositoryPage>>, end: Option<int>, k: nat)
  {
    && k < |server|
    && (forall i :: 0 <= i < k ==> server[i].Answered? && Continues(server[i].data.ToPage(), end))
    && (server[k].Answered? ==> !Continues(server[k].data.ToPage(), end))
  }

  /** Where the walk stops decides its outcome: the k-th answer's error, or
      every visited page's nodes in order, the last page included. */
  lemma {:induction false} IssuesWorkStopsAt(server: seq<Answer<RepositoryPage>>, end: Option<int>, k: nat)
    requires StopsAt(server, end, k)
    ensures server[k].Failed? ==> IssuesWork(server, end) == Failure(server[k].error)
    ensures server[k].Answered? ==> IssuesWork(server, end) == Success(Flatten(Pages(server[..k + 1])))
  {
    if k == 0 {
      if server[0].Answered? {
        var page := server[0].data.ToPage();
        assert server[..1][1..] == [];
        assert Pages(server[..1]) == [page] + Pages(server[..1][1..]) == [page];
        assert Flatten([page]) == page.edges + Flatten([page][1..]);
        assert [page][1..] == [];
        assert Flatten([page]) == page.edges;
        assert !Continues(page, end);
        assert IssuesWork(server, end) == Success(page.edges);
      }
    } else {
      assert StopsAt(server[1..], end, k - 1) by {
        forall i | 0 <= i < k - 1
          ensures server[1..][i].Answered? && Continues(server[1..][i].data.ToPage(), end)
        {
          assert server[1..][i] == server[i + 1];
        }
      }
      IssuesWorkStopsAt(server[1..], end, k - 1);
      assert server[..k + 1][1..] == server[1..][..k];
      assert 0 < k;
    }
  }

  /** A walk whose every answer continues runs out of answers. */
  lemma {:induction false} IssuesWorkUnanswered(server: seq<Answer<RepositoryPage>>, end: Option<int>)
    requires forall i :: 0 <= i < |server| ==> server[i].Answered? && Continues(server[i].data.ToPage(), end)
    ensures IssuesWork(server, end) == Failure(Unanswered)
  {
    if |server| > 0 {
      assert forall i :: 0 <= i < |server| - 1 ==> server[1..][i] == server[i + 1];
      IssuesWorkUnanswered(server[1..], end);
    }
  }
}
