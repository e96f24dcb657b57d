/** The `users` command's search (src/contribs.rs): users of a location in
    descending follower order, ten per page, at most `MaxPages` pages, with
    a failed request retried from the same cursor. */
module Contribs {
  import opened Wrappers
  import opened Paging
  import opened Text

  /** Users requested per page. */
  const PageSize: nat := 10

  /** Page budget of one search. */
  const MaxPages: nat := 10 * (100 / PageSize)

  lemma PageBudget()
    ensures PageSize == 10 && MaxPages == 100
  {
  }

  datatype Followers = Followers(totalCount: U32)

  datatype Calendar = Calendar(totalContributions: U32)

  datatype Contributions = Contributions(contributionCalendar: Calendar, restrictedContributionsCount: U32)

  /** One search result: a user with follower and contribution counts. */
  datatype UserContribs = UserContribs(
    login: string,
    name: Option<string>,
    followers: Followers,
    contributionsCollection: Contributions)
  {
    /** `contribs`: public contributions, the calendar total less the
        restricted (private) ones, as a `u32` subtraction that wraps. */
    function Contribs(): (n: U32)
      ensures var total := contributionsCollection.contributionCalendar.totalContributions;
              var restricted := contributionsCollection.restrictedContributionsCount;
              && (restricted <= total ==> n + restricted == total)
              && (restricted > total ==> n == 0x1_0000_0000 + total - restricted)
    {
      (contributionsCollection.contributionCalendar.totalContributions
        - contributionsCollection.restrictedContributionsCount) % 0x1_0000_0000
    }
  }

  /** The decoded `data` of one answer. */
  datatype SearchQuery = SearchQuery(search: Page<UserContribs>)

  /** The fixed text of the request body, around the location and the
      page size, and after the pagination argument. */
  const SearchOpen: string := "{ \"query\": \"{ search(type: USER, query: \\\"type:user location:"
  const SearchOrder: string := " sort:followers-desc\\\", "
  const UserFields: string := ") { pageInfo { hasNextPage endCursor } edges { node { ... on User { login name followers { totalCount } "
    + "contributionsCollection { contributionCalendar { totalContributions } restrictedContributionsCount } } } } } }\" }"

  /** The request body up to the page size argument. */
  function UsersQueryOpening(location: string): string
  {
    SearchOpen + location + SearchOrder
  }

  /** The page size argument of every request. */
  function FirstArgument(): string
  {
    "first: " + Decimal(PageSize)
  }

  lemma FirstArgumentText()
    ensures FirstArgument() == "first: 10"
  {
    assert Decimal(1) == "1";
  }

  /** The request body up to and including the page size. */
  function UsersQueryHead(location: string): string
  {
    UsersQueryOpening(location) + FirstArgument()
  }

  /** `users_query`: the JSON request body for one page of the search. */
  function UsersQuery(location: string, page: Option<string>): (q: string)
    ensures var head := UsersQueryHead(location);
            |head| <= |q| && q[..|head|] == head && q[|head| - |FirstArgument()|..|head|] == FirstArgument()
    ensures |UserFields| <= |q| && q[|q| - |UserFields|..] == UserFields
    ensures page.None? ==> q == UsersQueryHead(location) + UserFields
  {
    UsersQueryHead(location) + AfterClause(page) + UserFields
  }

  /** Every request carries the page size argument, and a continuation
      request is the first-page request with the cursor spliced in right
      after it. */
  lemma UsersQueryContinuation(location: string, cursor: string)
    ensures var first := UsersQuery(location, None);
            var next := UsersQuery(location, Some(cursor));
            var size := FirstArgument();
            exists k :: |size| <= k <= |first|
              && first[k - |size|..k] == size
              && next == first[..k] + (", after: \\\"" + cursor + "\\\"") + first[k..]
  {
    var opening := UsersQueryOpening(location);
    var size := FirstArgument();
    var head := UsersQueryHead(location);
    var clause := AfterClause(Some(cursor));
    assert head + AfterClause(None) == head;
    SpliceAfter(opening, size, clause, UserFields);
    var first := UsersQuery(location, None);
    assert first == opening + size + UserFields;
    var k := |opening + size|;
    assert |size| <= k <= |first| && first[k - |size|..k] == size;
  }

  /** Whether `user_contributions_work` asks for another page after this
      one, the `page_num`-th. The search is in descending follower order,
      so a last user without followers ends it. */
  predicate Continues(page: Page<UserContribs>, pageNum: nat)
  {
    && HasNext(page.pageInfo)
    && pageNum < MaxPages
    && match Last(page.edges)
       case None => false
       case Some(uc) => uc.followers.totalCount > 0
  }

  /** `user_contributions_work`: the page walk of one search. A failed
      request is retried with the same cursor and page number; in this
      model the walk fails only by running out of scripted answers. */
  function UserContributionsWork(server: seq<Answer<SearchQuery>>, pageNum: nat): (r: Result<seq<UserContribs>, FetchError>)
    ensures r.Failure? ==> r.error == Unanswered
    decreases |server|
  {
    if |server| == 0 then Failure(Unanswered)
    else
      match server[0]
      case Failed(_) => UserContributionsWork(server[1..], pageNum)
      case Answered(result) =>
        var page := result.search;
        if Continues(page, pageNum) then
          match UserContributionsWork(server[1..], pageNum + 1)
          case Failure(e) => Failure(e)
          case Success(next) => Success(page.edges + next)
        else Success(page.edges)
  }

  /** `user_contributions`: the walk starts at page 1 without a cursor. */
  function UserContributions(server: seq<Answer<SearchQuery>>): (r: Result<seq<UserContribs>, FetchError>)
    ensures r.Failure? ==> r.error == Unanswered
    ensures |server| > 0 && server[0].Answered? && !Continues(server[0].data.search, 1) ==> r == Success(server[0].data.search.edges)
  {
    UserContributionsWork(server, 1)
  }

  /** A failed request neither advances the walk nor loses anything: the
      walk goes on as if the failure had not happened. */
  lemma RetryKeepsPlace(e: FetchError, rest: seq<Answer<SearchQuery>>, pageNum: nat)
    ensures UserContributionsWork([Failed(e)] + rest, pageNum) == UserContributionsWork(rest, pageNum)
  {
    assert ([Failed(e)] + rest)[1..] == rest;
  }

  /** The pages of the answered requests, in order. */
  function Pages(server: seq<Answer<SearchQuery>>): seq<Page<UserContribs>>
  {
    if |server| == 0 then []
    else
      match server[0]
      case Failed(_) => Pages(server[1..])
      case Answered(result) => [result.search] + Pages(server[1..])
  }

  /** Among the answered pages, numbered from `pageNum`, every page before
      the k-th continues and the k-th does not. */
  ghost predicate StopsAt(pages: seq<Page<UserContribs>>, pageNum: nat, k: nat)
  {
    && k < |pages|
    && (forall i :: 0 <= i < k ==> Continues(pages[i], pageNum + i))
    && !Continues(pages[k], pageNum + k)
  }

  lemma StopsAtTail(pages: seq<Page<UserContribs>>, pageNum: nat, k: nat)
    requires 0 < k && StopsAt(pages, pageNum, k)
    ensures Continues(pages[0], pageNum)
    ensures StopsAt(pages[1..], pageNum + 1, k - 1)
  {
    assert Continues(pages[0], pageNum + 0);
    forall i | 0 <= i < k - 1
      ensures Continues(pages[1..][i], pageNum + 1 + i)
    {
      assert pages[1..][i] == pages[i + 1];
      assert Continues(pages[i + 1], pageNum + (i + 1));
    }
    assert pages[1..][k - 1] == pages[k];
    assert pageNum + 1 + (k - 1) == pageNum + k;
  }

  /** Retries are invisible: the result is the nodes of the answered pages
      up to and including the k-th, in order. */
  lemma {:induction false} UserContributionsWorkStopsAt(server: seq<Answer<SearchQuery>>, pageNum: nat, k: nat)
    requires StopsAt(Pages(server), pageNum, k)
    ensures UserContributionsWork(server, pageNum) == Success(Flatten(Pages(server)[..k + 1]))
    decreases |server|
  {
    var pages := Pages(server);
    match server[0]
    case Failed(_) =>
      assert pages == Pages(server[1..]);
      UserContributionsWorkStopsAt(server[1..], pageNum, k);
    case Answered(result) =>
      var page := result.search;
      assert pages == [page] + Pages(server[1..]);
      if k == 0 {
        assert pages[..1] == [page];
        assert Flatten([page]) == page.edges + Flatten([page][1..]);
        assert [page][1..] == [];
        assert Flatten([page]) == page.edges;
        assert UserContributionsWork(server, pageNum) == Success(page.edges);
      } else {
        StopsAtTail(pages, pageNum, k);
        assert pages[1..] == Pages(server[1..]);
        UserContributionsWorkStopsAt(server[1..], pageNum + 1, k - 1);
        assert pages[..k + 1] == [page] + Pages(server[1..])[..k];
        assert Flatten(pages[..k + 1]) == page.edges + Flatten(Pages(server[1..])[..k]);
      }
  }

  /** Only when every answered page continues does the walk run out of answers. */
  lemma {:induction false} UserContributionsWorkUnanswered(server: seq<Answer<SearchQuery>>, pageNum: nat)
    requires forall i :: 0 <= i < |Pages(server)| ==> Continues(Pages(server)[i], pageNum + i)
    ensures UserContributionsWork(server, pageNum) == Failure(Unanswered)
    decreases |server|
  {
    if |server| > 0 {
      var pages := Pages(server);
      match server[0]
      case Failed(_) =>
        UserContributionsWorkUnanswered(server[1..], pageNum);
      case Answered(result) =>
        assert pages == [result.search] + Pages(server[1..]);
        assert Continues(pages[0], pageNum + 0);
        forall i | 0 <= i < |Pages(server[1..])|
          ensures Continues(Pages(server[1..])[i], pageNum + 1 + i)
        {
          assert Pages(server[1..])[i] == pages[i + 1];
          assert Continues(pages[i + 1], pageNum + (i + 1));
        }
        UserContributionsWorkUnanswered(server[1..], pageNum + 1);
    }
  }

  /** The walk stops within the page budget: starting from `pageNum`, the
      last page fetched is numbered at most `MaxPages`. */
  lemma StopWithinBudget(pages: seq<Page<UserContribs>>, pageNum: nat, k: nat)
    requires pageNum <= MaxPages && StopsAt(pages, pageNum, k)
    ensures pageNum + k <= MaxPages
  {
    if k > 0 {
      assert Continues(pages[k - 1], pageNum + (k - 1));
    }
  }

  /** Enough answered pages always end the walk: some page stops it. */
  lemma {:induction false} BudgetForcesStop(pages: seq<Page<UserContribs>>, pageNum: nat)
    requires pageNum <= MaxPages && |pages| > MaxPages - pageNum
    ensures exists k :: StopsAt(pages, pageNum, k)
    decreases MaxPages - pageNum
  {
    if !Continues(pages[0], pageNum) {
      assert StopsAt(pages, pageNum, 0);
    } else {
      BudgetForcesStop(pages[1..], pageNum + 1);
      var k: nat :| StopsAt(pages[1..], pageNum + 1, k);
      forall i | 0 <= i < k + 1
        ensures Continues(pages[i], pageNum + i)
      {
        if i > 0 {
          assert pages[i] == pages[1..][i - 1];
          assert Continues(pages[1..][i - 1], pageNum + 1 + (i - 1));
        }
      }
      assert pages[k + 1] == pages[1..][k];
      assert StopsAt(pages, pageNum, k + 1);
    }
  }

  /** Once `MaxPages` pages have been answered, the search succeeds with the
      nodes of its first m answered pages, for some m within the budget. */
  lemma UserContributionsWithinBudget(server: seq<Answer<SearchQuery>>)
    requires |Pages(server)| >= MaxPages
    ensures UserContributions(server).Success?
    ensures exists m :: 1 <= m <= MaxPages && UserContributions(server) == Success(Flatten(Pages(server)[..m]))
  {
    BudgetForcesStop(Pages(server), 1);
    var k: nat :| StopsAt(Pages(server), 1, k);
    StopWithinBudget(Pages(server), 1, k);
    UserContributionsWorkStopsAt(server, 1, k);
    assert 1 <= k + 1 <= MaxPages;
  }
}
