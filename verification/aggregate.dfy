/** The aggregator (src/lib.rs `Postings::statistics`, `hashmap_combine`):
    the counts, response-time summaries and per-user maps compiled from the
    threads of one or more repositories. */
module Aggregate {
  import opened Wrappers
  import opened Collections
  import opened Threads
  import opened Responses
  import Repo

  /** `hashmap_combine`: every entry of `b` is added into `a`, an absent key
      starting from `b`'s value. */
  method HashmapCombine<K(!new)>(a: map<K, nat>, b: map<K, nat>) returns (r: map<K, nat>)
    ensures r.Keys == a.Keys + b.Keys
    ensures forall k :: Get(r, k) == Get(a, k) + Get(b, k)
    ensures r == MapAdd(a, b)
  {
    r := a;
    var rest := b.Keys;
    while rest != {}
      invariant rest <= b.Keys
      invariant r.Keys == a.Keys + (b.Keys - rest)
      invariant forall k :: Get(r, k) == Get(a, k) + (if k in b && k !in rest then b[k] else 0)
      decreases rest
    {
      var k :| k in rest;
      r := AddEntry(r, k, b[k]);
      rest := rest - {k};
    }
    MapExtensionality(r, MapAdd(a, b));
  }

  /** The `hashmap_extend` test: six keys counted once each, combined with
      an equal map, are counted twice each. */
  lemma HashmapExtend()
    ensures var once := map c | c in "ABCDEF" :: 1;
            MapAdd(once, once) == map c | c in "ABCDEF" :: 2
  {
    var once: map<char, nat> := map c | c in "ABCDEF" :: 1;
    var twice: map<char, nat> := map c | c in "ABCDEF" :: 2;
    MapExtensionality(MapAdd(once, once), twice);
  }

  /** `lib::Statistics`; durations in seconds. */
  datatype Statistics = Statistics(
    commentors: map<string, nat>,
    codeContributors: map<string, nat>,
    contributorCommits: map<string, nat>,
    allIssues: nat,
    allClosedIssues: nat,
    issuesWithResponses: nat,
    issuesWithOfficialResponses: nat,
    issueFirstRespTime: Option<ResponseTimes>,
    issueOfficialFirstRespTime: Option<ResponseTimes>,
    allPrs: nat,
    prsMerged: nat,
    prsClosedWithoutMerging: nat,
    prsWithResponses: nat,
    prsWithOfficialResponses: nat,
    prFirstRespTime: Option<ResponseTimes>,
    prOfficialFirstRespTime: Option<ResponseTimes>,
    prMergeTime: Option<ResponseTimes>)

  /** The threads of the Issues, in order. */
  function IssueThreads(issues: seq<Issue>): (ts: seq<Thread>)
    ensures |ts| == |issues|
    ensures forall i :: 0 <= i < |issues| ==> ts[i] == issues[i].thread
  {
    seq(|issues|, i requires 0 <= i < |issues| => issues[i].thread)
  }

  /** The threads of the Pull Requests, in order. */
  function PrThreads(prs: seq<PR>): (ts: seq<Thread>)
    ensures |ts| == |prs|
    ensures forall i :: 0 <= i < |prs| ==> ts[i] == prs[i].thread
  {
    seq(|prs|, i requires 0 <= i < |prs| => prs[i].thread)
  }

  /** Each thread's comment counts, in order. */
  function CommentMaps(ts: seq<Thread>): (ms: seq<map<string, nat>>)
    ensures |ms| == |ts|
    ensures forall i :: 0 <= i < |ts| ==> ms[i] == ts[i].comments
  {
    seq(|ts|, i requires 0 <= i < |ts| => ts[i].comments)
  }

  predicate IsClosed(t: Thread)
  {
    t.closed.Some?
  }

  predicate Merged(p: PR)
  {
    p.IsMerged()
  }

  predicate ClosedNotMerged(p: PR)
  {
    p.IsClosedNotMerged()
  }

  /** Merged Pull Requests opened by `a`. */
  function MergedBy(a: string): PR -> bool
  {
    (p: PR) => p.IsMerged() && p.thread.author == a
  }

  /** The moment of a thread a response time is measured to. */
  datatype Moment = FirstResponse | FirstOfficialResponse

  function At(t: Thread, m: Moment): Option<int>
  {
    match m
    case FirstResponse => t.firstResponse
    case FirstOfficialResponse => t.firstOfficialResponse
  }

  /** Threads that reached the moment. */
  function Reached(m: Moment): Thread -> bool
  {
    (t: Thread) => At(t, m).Some?
  }

  /** The `filter_map` of `resp_times`: for each thread that reached the
      moment, in order, the time from posting to it. */
  function ResponseDurations(ts: seq<Thread>, m: Moment): (ds: seq<int>)
    ensures |ds| == Count(ts, Reached(m))
  {
    if |ts| == 0 then []
    else
      var here := match At(ts[0], m) case Some(at) => [at - ts[0].posted] case None => [];
      here + ResponseDurations(ts[1..], m)
  }

  /** Durations are collected thread by thread, in order. */
  lemma {:induction false} ResponseDurationsAppend(xs: seq<Thread>, ys: seq<Thread>, m: Moment)
    ensures ResponseDurations(xs + ys, m) == ResponseDurations(xs, m) + ResponseDurations(ys, m)
  {
    if |xs| == 0 {
      assert xs + ys == ys;
    } else {
      assert (xs + ys)[1..] == xs[1..] + ys;
      ResponseDurationsAppend(xs[1..], ys, m);
    }
  }

  /** One thread contributes the time from its posting to the moment, if it
      reached the moment, and nothing otherwise. */
  lemma ResponseDurationsOne(t: Thread, m: Moment)
    ensures ResponseDurations([t], m) == if At(t, m).Some? then [At(t, m).value - t.posted] else []
  {
    assert [t][1..] == [];
  }

  /** Every moment reached no earlier than its thread was posted. */
  ghost predicate Timely(ts: seq<Thread>, m: Moment)
  {
    forall i :: 0 <= i < |ts| ==> At(ts[i], m).Some? ==> At(ts[i], m).value >= ts[i].posted
  }

  lemma {:induction false} TimelyDurations(ts: seq<Thread>, m: Moment)
    requires Timely(ts, m)
    ensures forall j :: 0 <= j < |ResponseDurations(ts, m)| ==> ResponseDurations(ts, m)[j] >= 0
  {
    if |ts| > 0 {
      assert Timely(ts[1..], m) by {
        forall i | 0 <= i < |ts[1..]|
          ensures At(ts[1..][i], m).Some? ==> At(ts[1..][i], m).value >= ts[1..][i].posted
        {
          assert ts[1..][i] == ts[i + 1];
        }
      }
      TimelyDurations(ts[1..], m);
    }
  }

  /** The merge durations of `resp_times` over the merged Pull Requests. */
  function MergeDurations(prs: seq<PR>): (ds: seq<int>)
    ensures |ds| == Count(prs, Merged)
  {
    if |prs| == 0 then []
    else
      var here := match prs[0].merged case Some(at) => [at - prs[0].thread.posted] case None => [];
      here + MergeDurations(prs[1..])
  }

  /** Merge durations are collected Pull Request by Pull Request, in order. */
  lemma {:induction false} MergeDurationsAppend(xs: seq<PR>, ys: seq<PR>)
    ensures MergeDurations(xs + ys) == MergeDurations(xs) + MergeDurations(ys)
  {
    if |xs| == 0 {
      assert xs + ys == ys;
    } else {
      assert (xs + ys)[1..] == xs[1..] + ys;
      MergeDurationsAppend(xs[1..], ys);
    }
  }

  /** One Pull Request contributes the time from its opening to its merge,
      if it was merged, and nothing otherwise. */
  lemma MergeDurationsOne(p: PR)
    ensures MergeDurations([p]) == if p.merged.Some? then [p.merged.value - p.thread.posted] else []
  {
    assert [p][1..] == [];
  }

  /** The authors of the merged Pull Requests, one entry per merge. */
  function MergedAuthors(prs: seq<PR>): (r: seq<string>)
    ensures |r| == Count(prs, Merged)
    ensures forall a :: multiset(r)[a] == Count(prs, MergedBy(a))
  {
    if |prs| == 0 then []
    else (if prs[0].IsMerged() then [prs[0].thread.author] else []) + MergedAuthors(prs[1..])
  }

  lemma {:induction false} MergedAuthorsAppend(xs: seq<PR>, ys: seq<PR>)
    ensures MergedAuthors(xs + ys) == MergedAuthors(xs) + MergedAuthors(ys)
  {
    if |xs| == 0 {
      assert xs + ys == ys;
    } else {
      assert (xs + ys)[1..] == xs[1..] + ys;
      MergedAuthorsAppend(xs[1..], ys);
    }
  }

  /** An author has merged work exactly when they opened a merged Pull Request. */
  lemma {:induction false} MergedAuthorsMembers(prs: seq<PR>, a: string)
    ensures a in MergedAuthors(prs) <==> exists i :: 0 <= i < |prs| && prs[i].IsMerged() && prs[i].thread.author == a
  {
    if |prs| > 0 {
      MergedAuthorsMembers(prs[1..], a);
      if exists i :: 0 <= i < |prs| && prs[i].IsMerged() && prs[i].thread.author == a {
        var i :| 0 <= i < |prs| && prs[i].IsMerged() && prs[i].thread.author == a;
        if i > 0 {
          assert prs[1..][i - 1] == prs[i];
        }
      }
      if a in MergedAuthors(prs[1..]) {
        var i :| 0 <= i < |prs[1..]| && prs[1..][i].IsMerged() && prs[1..][i].thread.author == a;
        assert prs[i + 1] == prs[1..][i];
      }
    }
  }

  /** Σ commits of the merged Pull Requests opened by `a`. */
  function SumCommits(prs: seq<PR>, a: string): nat
  {
    if |prs| == 0 then 0
    else (if MergedBy(a)(prs[0]) then prs[0].commits else 0) + SumCommits(prs[1..], a)
  }

  lemma {:induction false} SumCommitsAppend(xs: seq<PR>, ys: seq<PR>, a: string)
    ensures SumCommits(xs + ys, a) == SumCommits(xs, a) + SumCommits(ys, a)
  {
    if |xs| == 0 {
      assert xs + ys == ys;
    } else {
      assert (xs + ys)[1..] == xs[1..] + ys;
      SumCommitsAppend(xs[1..], ys, a);
    }
  }

  /** Appending one Pull Request appends its author when it was merged. */
  lemma MergedAuthorsSnoc(init: seq<PR>, p: PR)
    ensures MergedAuthors(init + [p]) == MergedAuthors(init) + (if p.IsMerged() then [p.thread.author] else [])
  {
    MergedAuthorsAppend(init, [p]);
    assert [p][1..] == [];
  }

  /** Appending one Pull Request adds its commits to its author's sum when
      it was merged. */
  lemma SumCommitsSnoc(init: seq<PR>, p: PR)
    ensures forall a :: SumCommits(init + [p], a) == SumCommits(init, a) + (if MergedBy(a)(p) then p.commits else 0)
  {
    forall a
      ensures SumCommits(init + [p], a) == SumCommits(init, a) + (if MergedBy(a)(p) then p.commits else 0)
    {
      SumCommitsAppend(init, [p], a);
      assert [p][1..] == [];
    }
  }

  /** The entry added for the commits of a merged Pull Request. */
  function AddCommits(m: map<string, nat>, p: PR): map<string, nat>
  {
    if p.IsMerged() then AddEntry(m, p.thread.author, p.commits) else m
  }

  /** One step of the `contributor_commits` loop keeps its map the commit
      sums of the Pull Requests seen so far. */
  lemma AddCommitsStep(m: map<string, nat>, init: seq<PR>, p: PR)
    requires forall a :: a in m <==> a in MergedAuthors(init)
    requires forall a :: Get(m, a) == SumCommits(init, a)
    ensures forall a :: a in AddCommits(m, p) <==> a in MergedAuthors(init + [p])
    ensures forall a :: Get(AddCommits(m, p), a) == SumCommits(init + [p], a)
  {
    MergedAuthorsSnoc(init, p);
    SumCommitsSnoc(init, p);
  }

  /** The `contributor_commits` loop: for each merged Pull Request in turn,
      its commits are added to its author's entry, created at 0. */
  function ContributorCommits(prs: seq<PR>): (m: map<string, nat>)
    ensures forall a :: a in m <==> a in MergedAuthors(prs)
    ensures forall a :: Get(m, a) == SumCommits(prs, a)
  {
    if |prs| == 0 then map[]
    else
      var init := prs[..|prs| - 1];
      var p := prs[|prs| - 1];
      assert prs == init + [p];
      var before := ContributorCommits(init);
      AddCommitsStep(before, init, p);
      AddCommits(before, p)
  }

  /** The `code_contributors` counter: per author, the number of merged
      Pull Requests they opened; its keys are exactly those authors, and
      its counts add up to the merges. */
  function CodeContributors(prs: seq<PR>): (m: map<string, nat>)
    ensures forall a :: Get(m, a) == Count(prs, MergedBy(a))
    ensures forall a :: a in m <==> a in MergedAuthors(prs)
    ensures Total(m) == Count(prs, Merged)
  {
    var authors := MergedAuthors(prs);
    TallyTotal(authors);
    Tally(authors)
  }

  /** Some Issue or Pull Request thread counts comments by `k`. */
  ghost predicate Commented(p: Postings, k: string)
  {
    || (exists i :: 0 <= i < |p.issues| && k in p.issues[i].thread.comments)
    || (exists i :: 0 <= i < |p.prs| && k in p.prs[i].thread.comments)
  }

  /** The `commentors` map: Issue and Pull Request comment counts merged,
      so each login's count is its number of comments across all threads. */
  function Commentors(p: Postings): (m: map<string, nat>)
    ensures forall k :: Get(m, k) == Column(CommentMaps(IssueThreads(p.issues)), k) + Column(CommentMaps(PrThreads(p.prs)), k)
    ensures forall k :: k in m <==> Commented(p, k)
  {
    var issueMaps := CommentMaps(IssueThreads(p.issues));
    var prMaps := CommentMaps(PrThreads(p.prs));
    forall k
      ensures Get(SumMaps(issueMaps), k) == Column(issueMaps, k)
      ensures Get(SumMaps(prMaps), k) == Column(prMaps, k)
      ensures k in SumMaps(issueMaps) <==> exists i :: 0 <= i < |p.issues| && k in p.issues[i].thread.comments
      ensures k in SumMaps(prMaps) <==> exists i :: 0 <= i < |p.prs| && k in p.prs[i].thread.comments
    {
      SumMapsColumn(issueMaps, k);
      SumMapsColumn(prMaps, k);
    }
    MapAdd(SumMaps(issueMaps), SumMaps(prMaps))
  }

  /** Code contributors are exactly the openers of merged Pull Requests. */
  lemma CodeContributorsMembers(prs: seq<PR>)
    ensures forall a :: a in CodeContributors(prs) <==> exists i :: 0 <= i < |prs| && prs[i].IsMerged() && prs[i].thread.author == a
  {
    forall a
      ensures a in CodeContributors(prs) <==> exists i :: 0 <= i < |prs| && prs[i].IsMerged() && prs[i].thread.author == a
    {
      MergedAuthorsMembers(prs, a);
    }
  }

  /** `Postings::statistics`. */
  function StatisticsOf(p: Postings): (s: Statistics)
    ensures s.allIssues == |p.issues| && s.allPrs == |p.prs|
    ensures s.allClosedIssues == Count(IssueThreads(p.issues), IsClosed) <= s.allIssues
    ensures s.issuesWithResponses == Count(IssueThreads(p.issues), Reached(FirstResponse)) <= s.allIssues
    ensures s.issuesWithOfficialResponses == Count(IssueThreads(p.issues), Reached(FirstOfficialResponse)) <= s.allIssues
    ensures s.prsWithResponses == Count(PrThreads(p.prs), Reached(FirstResponse)) <= s.allPrs
    ensures s.prsWithOfficialResponses == Count(PrThreads(p.prs), Reached(FirstOfficialResponse)) <= s.allPrs
    ensures s.prsMerged == Count(p.prs, Merged) && s.prsClosedWithoutMerging == Count(p.prs, ClosedNotMerged)
    ensures s.prsMerged + s.prsClosedWithoutMerging <= s.allPrs
    ensures s.issueFirstRespTime == RespTimes(ResponseDurations(IssueThreads(p.issues), FirstResponse))
    ensures s.issueOfficialFirstRespTime == RespTimes(ResponseDurations(IssueThreads(p.issues), FirstOfficialResponse))
    ensures s.prFirstRespTime == RespTimes(ResponseDurations(PrThreads(p.prs), FirstResponse))
    ensures s.prOfficialFirstRespTime == RespTimes(ResponseDurations(PrThreads(p.prs), FirstOfficialResponse))
    ensures s.prMergeTime == RespTimes(MergeDurations(p.prs))
    ensures forall a :: a in s.codeContributors <==> a in MergedAuthors(p.prs)
    ensures forall a :: Get(s.codeContributors, a) == Count(p.prs, MergedBy(a))
    ensures Total(s.codeContributors) == s.prsMerged
    ensures forall a :: a in s.contributorCommits <==> a in s.codeContributors
    ensures forall a :: Get(s.contributorCommits, a) == SumCommits(p.prs, a)
    ensures forall k :: Get(s.commentors, k) == Column(CommentMaps(IssueThreads(p.issues)), k) + Column(CommentMaps(PrThreads(p.prs)), k)
    ensures forall k :: k in s.commentors <==> Commented(p, k)
    ensures s.issueFirstRespTime.Some? ==> s.issuesWithResponses > 0
    ensures s.issueOfficialFirstRespTime.Some? ==> s.issuesWithOfficialResponses > 0
    ensures s.prFirstRespTime.Some? ==> s.prsWithResponses > 0
    ensures s.prOfficialFirstRespTime.Some? ==> s.prsWithOfficialResponses > 0
    ensures s.prMergeTime.Some? ==> s.prsMerged > 0
  {
    var its := IssueThreads(p.issues);
    var pts := PrThreads(p.prs);
    CountDisjoint(p.prs, Merged, ClosedNotMerged);
    Statistics(
      Commentors(p),
      CodeContributors(p.prs),
      ContributorCommits(p.prs),
      |p.issues|,
      Count(its, IsClosed),
      Count(its, Reached(FirstResponse)),
      Count(its, Reached(FirstOfficialResponse)),
      RespTimes(ResponseDurations(its, FirstResponse)),
      RespTimes(ResponseDurations(its, FirstOfficialResponse)),
      |p.prs|,
      Count(p.prs, Merged),
      Count(p.prs, ClosedNotMerged),
      Count(pts, Reached(FirstResponse)),
      Count(pts, Reached(FirstOfficialResponse)),
      RespTimes(ResponseDurations(pts, FirstResponse)),
      RespTimes(ResponseDurations(pts, FirstOfficialResponse)),
      RespTimes(MergeDurations(p.prs)))
  }

  /** Every thread's official response is also a response, as the
      classifier guarantees. */
  ghost predicate Classified(ts: seq<Thread>)
  {
    forall i :: 0 <= i < |ts| ==> ts[i].firstOfficialResponse.Some? ==> ts[i].firstResponse.Some?
  }

  /** On classified threads, officially answered Issues and Pull Requests
      are among those answered at all. */
  lemma OfficialWithinResponses(p: Postings)
    requires Classified(IssueThreads(p.issues)) && Classified(PrThreads(p.prs))
    ensures StatisticsOf(p).issuesWithOfficialResponses <= StatisticsOf(p).issuesWithResponses
    ensures StatisticsOf(p).prsWithOfficialResponses <= StatisticsOf(p).prsWithResponses
  {
    var its := IssueThreads(p.issues);
    var pts := PrThreads(p.prs);
    CountMonotone(its, Reached(FirstOfficialResponse), Reached(FirstResponse));
    CountMonotone(pts, Reached(FirstOfficialResponse), Reached(FirstResponse));
  }

  /** Threads built by `issue_thread` are classified. */
  lemma ClassifierThreadsClassified(xs: seq<Repo.Issue>)
    ensures Classified(IssueThreads(ToIssues(xs)))
    ensures Classified(PrThreads(ToPRs(xs)))
  {
  }

  /** Merges recorded no earlier than their Pull Request was opened. */
  ghost predicate TimelyMerges(prs: seq<PR>)
  {
    forall i :: 0 <= i < |prs| ==> prs[i].merged.Some? ==> prs[i].merged.value >= prs[i].thread.posted
  }

  lemma {:induction false} TimelyMergeDurations(prs: seq<PR>)
    requires TimelyMerges(prs)
    ensures forall j :: 0 <= j < |MergeDurations(prs)| ==> MergeDurations(prs)[j] >= 0
  {
    if |prs| > 0 {
      assert TimelyMerges(prs[1..]) by {
        forall i | 0 <= i < |prs[1..]|
          ensures prs[1..][i].merged.Some? ==> prs[1..][i].merged.value >= prs[1..][i].thread.posted
        {
          assert prs[1..][i] == prs[i + 1];
        }
      }
      TimelyMergeDurations(prs[1..]);
    }
  }

  /** Durations none of which is negative always have a summary. */
  lemma SummaryExists(ds: seq<int>)
    requires |ds| > 0
    requires forall j :: 0 <= j < |ds| ==> ds[j] >= 0
    ensures RespTimes(ds).Some?
  {
    forall j | 0 <= j < |ds|
      ensures !Under(0)(ds[j])
    {
    }
    CountNone(ds, Under(0));
  }

  /** When no response or merge predates its posting, each time summary is
      present exactly when some thread reached its moment. */
  lemma SummariesExist(p: Postings)
    requires Timely(IssueThreads(p.issues), FirstResponse) && Timely(IssueThreads(p.issues), FirstOfficialResponse)
    requires Timely(PrThreads(p.prs), FirstResponse) && Timely(PrThreads(p.prs), FirstOfficialResponse)
    requires TimelyMerges(p.prs)
    ensures var s := StatisticsOf(p);
            && (s.issueFirstRespTime.Some? <==> s.issuesWithResponses > 0)
            && (s.issueOfficialFirstRespTime.Some? <==> s.issuesWithOfficialResponses > 0)
            && (s.prFirstRespTime.Some? <==> s.prsWithResponses > 0)
            && (s.prOfficialFirstRespTime.Some? <==> s.prsWithOfficialResponses > 0)
            && (s.prMergeTime.Some? <==> s.prsMerged > 0)
  {
    var its := IssueThreads(p.issues);
    var pts := PrThreads(p.prs);
    TimelyDurations(its, FirstResponse);
    TimelyDurations(its, FirstOfficialResponse);
    TimelyDurations(pts, FirstResponse);
    TimelyDurations(pts, FirstOfficialResponse);
    TimelyMergeDurations(p.prs);
    if |ResponseDurations(its, FirstResponse)| > 0 {
      SummaryExists(ResponseDurations(its, FirstResponse));
    }
    if |ResponseDurations(its, FirstOfficialResponse)| > 0 {
      SummaryExists(ResponseDurations(its, FirstOfficialResponse));
    }
    if |ResponseDurations(pts, FirstResponse)| > 0 {
      SummaryExists(ResponseDurations(pts, FirstResponse));
    }
    if |ResponseDurations(pts, FirstOfficialResponse)| > 0 {
      SummaryExists(ResponseDurations(pts, FirstOfficialResponse));
    }
    if |MergeDurations(p.prs)| > 0 {
      SummaryExists(MergeDurations(p.prs));
    }
  }

  /** The per-thread views distribute over concatenation. */
  lemma ThreadsAppend(p: Postings, q: Postings)
    ensures IssueThreads(p.issues + q.issues) == IssueThreads(p.issues) + IssueThreads(q.issues)
    ensures PrThreads(p.prs + q.prs) == PrThreads(p.prs) + PrThreads(q.prs)
    ensures CommentMaps(IssueThreads(p.issues) + IssueThreads(q.issues))
         == CommentMaps(IssueThreads(p.issues)) + CommentMaps(IssueThreads(q.issues))
    ensures CommentMaps(PrThreads(p.prs) + PrThreads(q.prs))
         == CommentMaps(PrThreads(p.prs)) + CommentMaps(PrThreads(q.prs))
  {
  }

  /** The Issue counts of combined lookups are the sums of the two lookups'. */
  lemma IssueCountsCombine(p: Postings, q: Postings)
    ensures var s := StatisticsOf(p.Combine(q));
            var a := StatisticsOf(p);
            var b := StatisticsOf(q);
            && s.allIssues == a.allIssues + b.allIssues
            && s.allClosedIssues == a.allClosedIssues + b.allClosedIssues
            && s.issuesWithResponses == a.issuesWithResponses + b.issuesWithResponses
            && s.issuesWithOfficialResponses == a.issuesWithOfficialResponses + b.issuesWithOfficialResponses
  {
    ThreadsAppend(p, q);
    var pi, qi := IssueThreads(p.issues), IssueThreads(q.issues);
    CountAppend(pi, qi, IsClosed);
    CountAppend(pi, qi, Reached(FirstResponse));
    CountAppend(pi, qi, Reached(FirstOfficialResponse));
  }

  /** The Pull Request counts of combined lookups are the sums of the two
      lookups'. */
  lemma PrCountsCombine(p: Postings, q: Postings)
    ensures var s := StatisticsOf(p.Combine(q));
            var a := StatisticsOf(p);
            var b := StatisticsOf(q);
            && s.allPrs == a.allPrs + b.allPrs
            && s.prsMerged == a.prsMerged + b.prsMerged
            && s.prsClosedWithoutMerging == a.prsClosedWithoutMerging + b.prsClosedWithoutMerging
            && s.prsWithResponses == a.prsWithResponses + b.prsWithResponses
            && s.prsWithOfficialResponses == a.prsWithOfficialResponses + b.prsWithOfficialResponses
  {
    ThreadsAppend(p, q);
    var pp, qp := PrThreads(p.prs), PrThreads(q.prs);
    CountAppend(p.prs, q.prs, Merged);
    CountAppend(p.prs, q.prs, ClosedNotMerged);
    CountAppend(pp, qp, Reached(FirstResponse));
    CountAppend(pp, qp, Reached(FirstOfficialResponse));
  }

  lemma CommentorsCombine(p: Postings, q: Postings)
    ensures Commentors(p.Combine(q)) == MapAdd(Commentors(p), Commentors(q))
  {
    ThreadsAppend(p, q);
    var pi, qi := CommentMaps(IssueThreads(p.issues)), CommentMaps(IssueThreads(q.issues));
    var pp, qp := CommentMaps(PrThreads(p.prs)), CommentMaps(PrThreads(q.prs));
    SumMapsAppend(pi, qi);
    SumMapsAppend(pp, qp);
    MapAddInterchange(SumMaps(pi), SumMaps(qi), SumMaps(pp), SumMaps(qp));
  }

  lemma CodeContributorsCombine(xs: seq<PR>, ys: seq<PR>)
    ensures CodeContributors(xs + ys) == MapAdd(CodeContributors(xs), CodeContributors(ys))
  {
    MergedAuthorsAppend(xs, ys);
    TallyAppend(MergedAuthors(xs), MergedAuthors(ys));
  }

  /** One author's commit entry after combining: present when it is in
      either, holding the sum of the two. */
  lemma CommitsCombineAt(xs: seq<PR>, ys: seq<PR>, a: string)
    ensures a in ContributorCommits(xs + ys) <==> a in ContributorCommits(xs) || a in ContributorCommits(ys)
    ensures Get(ContributorCommits(xs + ys), a) == Get(ContributorCommits(xs), a) + Get(ContributorCommits(ys), a)
  {
    var ma, mb := MergedAuthors(xs), MergedAuthors(ys);
    MergedAuthorsAppend(xs, ys);
    assert a in ma + mb <==> a in ma || a in mb;
    SumCommitsAppend(xs, ys, a);
  }

  lemma CommitsCombine(xs: seq<PR>, ys: seq<PR>)
    ensures ContributorCommits(xs + ys) == MapAdd(ContributorCommits(xs), ContributorCommits(ys))
  {
    var l, a, b := ContributorCommits(xs + ys), ContributorCommits(xs), ContributorCommits(ys);
    forall k
      ensures k in l <==> k in a || k in b
      ensures Get(l, k) == Get(a, k) + Get(b, k)
    {
      CommitsCombineAt(xs, ys, k);
    }
    IsMapAdd(l, a, b);
  }

  /** Statistics of combined lookups: every count is the sum of the two
      lookups' counts, and every per-user map is their merge. */
  lemma StatisticsOfCombine(p: Postings, q: Postings)
    ensures var s := StatisticsOf(p.Combine(q));
            var a := StatisticsOf(p);
            var b := StatisticsOf(q);
            && s.allIssues == a.allIssues + b.allIssues
            && s.allClosedIssues == a.allClosedIssues + b.allClosedIssues
            && s.issuesWithResponses == a.issuesWithResponses + b.issuesWithResponses
            && s.issuesWithOfficialResponses == a.issuesWithOfficialResponses + b.issuesWithOfficialResponses
            && s.allPrs == a.allPrs + b.allPrs
            && s.prsMerged == a.prsMerged + b.prsMerged
            && s.prsClosedWithoutMerging == a.prsClosedWithoutMerging + b.prsClosedWithoutMerging
            && s.prsWithResponses == a.prsWithResponses + b.prsWithResponses
            && s.prsWithOfficialResponses == a.prsWithOfficialResponses + b.prsWithOfficialResponses
            && s.commentors == MapAdd(a.commentors, b.commentors)
            && s.codeContributors == MapAdd(a.codeContributors, b.codeContributors)
            && s.contributorCommits == MapAdd(a.contributorCommits, b.contributorCommits)
  {
    IssueCountsCombine(p, q);
    PrCountsCombine(p, q);
    CommentorsCombine(p, q);
    CodeContributorsCombine(p.prs, q.prs);
    CommitsCombine(p.prs, q.prs);
  }
}
