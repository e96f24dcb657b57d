/** Threads of conversation (src/lib.rs): the uniform view of an Issue or
    Pull Request, the classifier `issue_thread` that derives it from a
    fetched node, the `--start`/`--end` date filter, and the per-repository
    fetch that yields `Postings`. */
module Threads {
  import opened Wrappers
  import opened Collections
  import opened Paging
  import Repo

  /** The sentinel identity of a deleted account. */
  const GhostLogin: string := "@ghost"

  /** `lib::Thread`. `comments` maps each commenter to a comment count. */
  datatype Thread = Thread(
    author: string,
    posted: int,
    closed: Option<int>,
    firstResponder: Option<string>,
    firstResponse: Option<int>,
    firstOfficialResponse: Option<int>,
    comments: map<string, nat>)

  /** `lib::Issue`. */
  datatype Issue = Issue(thread: Thread)

  /** `lib::PR`. */
  datatype PR = PR(thread: Thread, commits: nat, merged: Option<int>)
  {
    predicate IsMerged()
    {
      merged.Some?
    }

    predicate IsClosedNotMerged()
    {
      thread.closed.Some? && !IsMerged()
    }
  }

  /** No Pull Request is both merged and closed without merging. */
  lemma MergedExcludesClosedNotMerged(p: PR)
    ensures !(p.IsMerged() && p.IsClosedNotMerged())
    ensures p.IsClosedNotMerged() <==> p.thread.closed.Some? && p.merged.None?
  {
  }

  /** `lib::Postings`: the Issues and Pull Requests of one or more repositories. */
  datatype Postings = Postings(issues: seq<Issue>, prs: seq<PR>)
  {
    /** `combine`: the other lookup's threads follow this one's, in order. */
    function Combine(other: Postings): (r: Postings)
      ensures |r.issues| == |issues| + |other.issues| && |r.prs| == |prs| + |other.prs|
      ensures r.issues[..|issues|] == issues && r.issues[|issues|..] == other.issues
      ensures r.prs[..|prs|] == prs && r.prs[|prs|..] == other.prs
    {
      Postings(issues + other.issues, prs + other.prs)
    }
  }

  /** `ghost`: an author's login, or the sentinel when the account is gone. */
  function Ghost(author: Option<Repo.Author>): (login: string)
    ensures author.Some? ==> login == author.value.login
    ensures author.None? ==> login == GhostLogin
  {
    match author
    case Some(a) => a.login
    case None => GhostLogin
  }

  /** A comment by someone other than the thread's opener. */
  predicate NotByOpener(c: Repo.Comment)
  {
    !c.authorAssociation.IsAuthor()
  }

  /** A comment by an Owner, Member or Collaborator. */
  predicate ByOfficial(c: Repo.Comment)
  {
    c.authorAssociation.IsOfficial()
  }

  /** Each comment's author identity, in comment order. */
  function Commenters(cs: seq<Repo.Comment>): (names: seq<string>)
    ensures |names| == |cs|
    ensures forall i :: 0 <= i < |cs| ==> names[i] == Ghost(cs[i].author)
  {
    seq(|cs|, i requires 0 <= i < |cs| => Ghost(cs[i].author))
  }

  /** `i` is the position of the first comment satisfying `p`. */
  ghost predicate FirstWhere(cs: seq<Repo.Comment>, p: Repo.Comment -> bool, i: int)
  {
    0 <= i < |cs| && p(cs[i]) && forall j :: 0 <= j < i ==> !p(cs[j])
  }

  /** The first comment not by the opener is by `responder` at time `at`. */
  ghost predicate FirstResponseIs(cs: seq<Repo.Comment>, responder: string, at: int)
  {
    exists i :: FirstWhere(cs, NotByOpener, i) && responder == Ghost(cs[i].author) && at == cs[i].createdAt
  }

  /** The first comment by an official was posted at time `at`. */
  ghost predicate FirstOfficialIs(cs: seq<Repo.Comment>, at: int)
  {
    exists i :: FirstWhere(cs, ByOfficial, i) && at == cs[i].createdAt
  }

  /** The first comment not by the opener: its author and time. */
  function FirstResponse(cs: seq<Repo.Comment>): (r: Option<(string, int)>)
    ensures r.None? <==> forall i :: 0 <= i < |cs| ==> !NotByOpener(cs[i])
    ensures r.Some? ==> FirstResponseIs(cs, r.value.0, r.value.1)
  {
    match Find(cs, NotByOpener)
    case None => None
    case Some(i) =>
      assert FirstWhere(cs, NotByOpener, i);
      Some((Ghost(cs[i].author), cs[i].createdAt))
  }

  /** The time of the first comment by an official. */
  function FirstOfficialResponse(cs: seq<Repo.Comment>): (r: Option<int>)
    ensures r.None? <==> forall i :: 0 <= i < |cs| ==> !ByOfficial(cs[i])
    ensures r.Some? ==> FirstOfficialIs(cs, r.value)
  {
    match Find(cs, ByOfficial)
    case None => None
    case Some(i) =>
      assert FirstWhere(cs, ByOfficial, i);
      Some(cs[i].createdAt)
  }

  /** Comments per commenter. */
  function CommentCounts(cs: seq<Repo.Comment>): (m: map<string, nat>)
    ensures forall k :: Get(m, k) == multiset(Commenters(cs))[k]
    ensures Total(m) == |cs|
    ensures m.Keys == set i | 0 <= i < |cs| :: Ghost(cs[i].author)
  {
    var names := Commenters(cs);
    TallyTotal(names);
    CommenterSet(cs);
    Tally(names)
  }

  /** The identities in `Commenters` are those of the comments' authors. */
  lemma CommenterSet(cs: seq<Repo.Comment>)
    ensures (set x | x in Commenters(cs)) == set i | 0 <= i < |cs| :: Ghost(cs[i].author)
  {
    var names := Commenters(cs);
    forall x | x in names
      ensures x in set i | 0 <= i < |cs| :: Ghost(cs[i].author)
    {
      var i :| 0 <= i < |names| && names[i] == x;
    }
  }

  /** `issue_thread`: classifies one fetched Issue or Pull Request. The
      first response is the first comment not by the opener; the first
      official response comes from a separate scan from the start; every
      comment is counted under its author, a deleted one under `@ghost`. */
  function IssueThread(issue: Repo.Issue): (t: Thread)
    ensures t.author == Ghost(issue.author) && t.posted == issue.createdAt && t.closed == issue.closedAt
    ensures issue.author.None? ==> t.author == GhostLogin
    ensures t.firstResponder.Some? <==> t.firstResponse.Some?
    ensures t.firstResponse.None? <==> forall i :: 0 <= i < |issue.comments| ==> !NotByOpener(issue.comments[i])
    ensures t.firstResponse.Some? ==> FirstResponseIs(issue.comments, t.firstResponder.value, t.firstResponse.value)
    ensures t.firstOfficialResponse.None? <==> forall i :: 0 <= i < |issue.comments| ==> !ByOfficial(issue.comments[i])
    ensures t.firstOfficialResponse.Some? ==> FirstOfficialIs(issue.comments, t.firstOfficialResponse.value)
    ensures t.firstOfficialResponse.Some? ==> t.firstResponse.Some?
    ensures forall k :: Get(t.comments, k) == multiset(Commenters(issue.comments))[k]
    ensures Total(t.comments) == |issue.comments|
    ensures t.comments.Keys == set i | 0 <= i < |issue.comments| :: Ghost(issue.comments[i].author)
    ensures forall i :: 0 <= i < |issue.comments| && issue.comments[i].author.None? ==> GhostLogin in t.comments
  {
    var cs := issue.comments;
    var first := FirstResponse(cs);
    var official := FirstOfficialResponse(cs);
    Thread(
      Ghost(issue.author),
      issue.createdAt,
      issue.closedAt,
      if first.Some? then Some(first.value.0) else None,
      if first.Some? then Some(first.value.1) else None,
      official,
      CommentCounts(cs))
  }

  /** Comments in ascending time order, as the API returns them. */
  ghost predicate Chronological(cs: seq<Repo.Comment>)
  {
    forall i, j :: 0 <= i < j < |cs| ==> cs[i].createdAt <= cs[j].createdAt
  }

  /** An official response is also a response, so on chronological comments
      the first response comes no later than the first official one. */
  lemma ResponseBeforeOfficial(issue: Repo.Issue)
    requires Chronological(issue.comments)
    ensures var t := IssueThread(issue);
            t.firstOfficialResponse.Some? ==> t.firstResponse.Some? && t.firstResponse.value <= t.firstOfficialResponse.value
  {
    var t := IssueThread(issue);
    var cs := issue.comments;
    if t.firstOfficialResponse.Some? {
      assert FirstOfficialIs(cs, t.firstOfficialResponse.value);
      var o :| FirstWhere(cs, ByOfficial, o) && t.firstOfficialResponse.value == cs[o].createdAt;
      assert FirstResponseIs(cs, t.firstResponder.value, t.firstResponse.value);
      var f :| FirstWhere(cs, NotByOpener, f) && t.firstResponse.value == cs[f].createdAt;
      assert NotByOpener(cs[o]);
      assert f <= o;
    }
  }

  /** The `--start`/`--end` test: created no earlier than `start` and no
      later than `end`, each bound optional. */
  predicate InRange(start: Option<int>, end: Option<int>, createdAt: int)
  {
    var after := match start case None => true case Some(s) => createdAt >= s;
    var before := match end case None => true case Some(e) => createdAt <= e;
    after && before
  }

  /** The date filter of `all_issues`/`all_prs`, order kept. */
  function DateFilter(start: Option<int>, end: Option<int>, xs: seq<Repo.Issue>): (r: seq<Repo.Issue>)
    ensures |r| <= |xs|
    ensures forall i :: 0 <= i < |r| ==> InRange(start, end, r[i].createdAt)
    ensures forall x :: x in r <==> x in xs && InRange(start, end, x.createdAt)
  {
    if |xs| == 0 then []
    else
      assert xs == [xs[0]] + xs[1..];
      (if InRange(start, end, xs[0].createdAt) then [xs[0]] else []) + DateFilter(start, end, xs[1..])
  }

  lemma {:induction false} DateFilterAppend(start: Option<int>, end: Option<int>, xs: seq<Repo.Issue>, ys: seq<Repo.Issue>)
    ensures DateFilter(start, end, xs + ys) == DateFilter(start, end, xs) + DateFilter(start, end, ys)
  {
    if |xs| == 0 {
      assert xs + ys == ys;
    } else {
      assert (xs + ys)[1..] == xs[1..] + ys;
      DateFilterAppend(start, end, xs[1..], ys);
    }
  }

  /** Nothing out of range survives the filter. */
  lemma {:induction false} DateFilterNone(start: Option<int>, end: Option<int>, xs: seq<Repo.Issue>)
    requires forall i :: 0 <= i < |xs| ==> !InRange(start, end, xs[i].createdAt)
    ensures DateFilter(start, end, xs) == []
  {
    if |xs| > 0 {
      assert !InRange(start, end, xs[0].createdAt);
      DateFilterNone(start, end, xs[1..]);
    }
  }

  /** Nodes in ascending creation order. */
  ghost predicate CreatedInOrder(xs: seq<Repo.Issue>)
  {
    forall i, j :: 0 <= i < j < |xs| ==> xs[i].createdAt <= xs[j].createdAt
  }

  /** Stopping the walk early at `--end` loses nothing the date filter would
      keep: when the unbounded walk succeeds with nodes in creation order,
      the walk bounded by `end` succeeds too and filters to the same nodes. */
  lemma {:induction false} EarlyStopLosesNothing(server: seq<Answer<Repo.RepositoryPage>>, start: Option<int>, end: int)
    requires Repo.IssuesWork(server, None).Success?
    requires CreatedInOrder(Repo.IssuesWork(server, None).value)
    ensures Repo.IssuesWork(server, Some(end)).Success?
    ensures DateFilter(start, Some(end), Repo.IssuesWork(server, Some(end)).value)
         == DateFilter(start, Some(end), Repo.IssuesWork(server, None).value)
    decreases |server|
  {
    var page := server[0].data.ToPage();
    var edges := page.edges;
    var all := Repo.IssuesWork(server, None).value;
    if HasNext(page.pageInfo) {
      var rest := Repo.IssuesWork(server[1..], None).value;
      assert all == edges + rest;
      if Repo.StopEarly(Some(end), edges) {
        assert Repo.IssuesWork(server, Some(end)) == Success(edges);
        assert forall i :: 0 <= i < |rest| ==> !InRange(start, Some(end), rest[i].createdAt) by {
          forall i | 0 <= i < |rest|
            ensures rest[i].createdAt > end
          {
            assert all[|edges| - 1] == edges[|edges| - 1];
            assert all[|edges| + i] == rest[i];
          }
        }
        DateFilterNone(start, Some(end), rest);
        DateFilterAppend(start, Some(end), edges, rest);
      } else {
        assert CreatedInOrder(rest) by {
          forall i, j | 0 <= i < j < |rest|
            ensures rest[i].createdAt <= rest[j].createdAt
          {
            assert all[|edges| + i] == rest[i] && all[|edges| + j] == rest[j];
          }
        }
        EarlyStopLosesNothing(server[1..], start, end);
        var bounded := Repo.IssuesWork(server[1..], Some(end)).value;
        assert Repo.IssuesWork(server, Some(end)) == Success(edges + bounded);
        DateFilterAppend(start, Some(end), edges, rest);
        DateFilterAppend(start, Some(end), edges, bounded);
      }
    }
  }

  /** The threads of a list of fetched Issues. */
  function ToIssues(xs: seq<Repo.Issue>): (r: seq<Issue>)
    ensures |r| == |xs|
    ensures forall i :: 0 <= i < |xs| ==> r[i] == Issue(IssueThread(xs[i]))
  {
    seq(|xs|, i requires 0 <= i < |xs| => Issue(IssueThread(xs[i])))
  }

  /** A fetched Pull Request as a `PR`: its thread, merge time, and commit
      count (0 when not requested). */
  function ToPR(x: Repo.Issue): (p: PR)
    ensures p.thread == IssueThread(x) && p.merged == x.mergedAt
    ensures p.commits == (if x.commits.Some? then x.commits.value.totalCount else 0)
  {
    var commits := match x.commits case Some(cc) => cc.totalCount case None => 0;
    PR(IssueThread(x), commits, x.mergedAt)
  }

  function ToPRs(xs: seq<Repo.Issue>): (r: seq<PR>)
    ensures |r| == |xs|
    ensures forall i :: 0 <= i < |xs| ==> r[i] == ToPR(xs[i])
  {
    seq(|xs|, i requires 0 <= i < |xs| => ToPR(xs[i]))
  }

  /** The mode `all_prs` queries with: commit counts only on request. */
  function PrMode(commits: bool): (m: Repo.Mode)
    ensures !m.Issues?
    ensures Repo.Commits(m) != "" <==> commits
  {
    if commits then Repo.PRsWithCommits else Repo.PRs
  }

  /** `all_issues`: fetch, keep the Issues created in range, classify. */
  function AllIssues(server: seq<Answer<Repo.RepositoryPage>>, start: Option<int>, end: Option<int>): (r: Result<seq<Issue>, FetchError>)
    ensures r.Success? <==> Repo.IssuesWork(server, end).Success?
    ensures r.Failure? ==> r.error == Repo.IssuesWork(server, end).error
    ensures r.Success? ==> |r.value| <= |Repo.IssuesWork(server, end).value|
    ensures r.Success? ==> forall i :: 0 <= i < |r.value| ==> InRange(start, end, r.value[i].thread.posted)
  {
    match Repo.IssuesWork(server, end)
    case Failure(e) => Failure(e)
    case Success(xs) => Success(ToIssues(DateFilter(start, end, xs)))
  }

  /** `all_prs`: fetch, keep the Pull Requests created in range, classify. */
  function AllPrs(server: seq<Answer<Repo.RepositoryPage>>, start: Option<int>, end: Option<int>): (r: Result<seq<PR>, FetchError>)
    ensures r.Success? <==> Repo.IssuesWork(server, end).Success?
    ensures r.Failure? ==> r.error == Repo.IssuesWork(server, end).error
    ensures r.Success? ==> |r.value| <= |Repo.IssuesWork(server, end).value|
    ensures r.Success? ==> forall i :: 0 <= i < |r.value| ==> InRange(start, end, r.value[i].thread.posted)
  {
    match Repo.IssuesWork(server, end)
    case Failure(e) => Failure(e)
    case Success(xs) => Success(ToPRs(DateFilter(start, end, xs)))
  }

  /** `repo_threads`: one repository's Issues and Pull Requests; either
      fetch failing fails the lookup, the Issues' error reported first. */
  function RepoThreads(
    issueServer: seq<Answer<Repo.RepositoryPage>>,
    prServer: seq<Answer<Repo.RepositoryPage>>,
    start: Option<int>,
    end: Option<int>): (r: Result<Postings, FetchError>)
    ensures r.Success? <==> AllIssues(issueServer, start, end).Success? && AllPrs(prServer, start, end).Success?
    ensures AllIssues(issueServer, start, end).Failure? ==> r == Failure(AllIssues(issueServer, start, end).error)
    ensures (AllIssues(issueServer, start, end).Success? && AllPrs(prServer, start, end).Failure?)
            ==> r == Failure(AllPrs(prServer, start, end).error)
    ensures r.Success? ==> (r.value.issues == AllIssues(issueServer, start, end).value
                            && r.value.prs == AllPrs(prServer, start, end).value)
  {
    var issues := AllIssues(issueServer, start, end);
    var prs := AllPrs(prServer, start, end);
    match issues
    case Failure(e) => Failure(e)
    case Success(found) =>
      match prs
      case Failure(e) => Failure(e)
      case Success(ps) => Success(Postings(found, ps))
  }
}
