/** The other variant of the user search (src/contributions.rs): five users
    per page, at most `MaxPages` pages, no follower-based stop, and a failed
    request ends the whole search. */
module Contributions {
  import opened Wrappers
  import opened Paging
  import opened Text

  /** Users requested per page. */
  const PageSize: nat := 5

  /** Page budget of one search. */
  const MaxPages: nat := 10 * (100 / PageSize)

  lemma PageBudget()
    ensures PageSize == 5 && MaxPages == 200
  {
  }

  datatype Followers = Followers(totalCount: U32)

  datatype Calendar = Calendar(totalContributions: U32)

  datatype ContributionsCollection = ContributionsCollection(contributionCalendar: Calendar, restrictedContributionsCount: U32)

  /** One search result. */
  datatype UserContributions = UserContributions(
    login: string,
    name: Option<string>,
    followers: Followers,
    contributionsCollection: ContributionsCollection)
  {
    /** `contributions`: public contributions, the calendar total less the
        restricted ones, as a `u32` subtraction that wraps. */
    function Contributions(): (n: U32)
      ensures var total := contributionsCollection.contributionCalendar.totalContributions;
              var restricted := contributionsCollection.restrictedContributionsCount;
              && (restricted <= total ==> n + restricted == total)
              && (restricted > total ==> n == 0x1_0000_0000 + total - restricted)
    {
      (contributionsCollection.contributionCalendar.totalContributions
        - contributionsCollection.restrictedContributionsCount) % 0x1_0000_0000
    }
  }

  /** The decoded `data` of one answer. */
  datatype SearchQuery = SearchQuery(search: Page<UserContributions>)

  /** The fixed text of the request body, around the location and the
      page size, and after the pagination argument. */
  const SearchOpen: string := "{ \"query\": \"{ search(type: USER, query: \\\"type:user location:"
  const SearchOrder: string := " sort:followers-desc\\\", "
  const UserFields: string := ") { pageInfo { hasNextPage endCursor } edges { node { ... on User { login name followers { totalCount } "
    + "contributionsCollection { contributionCalendar { totalContributions } restrictedContributionsCount } } } } } }\" }"

  /** The request body up to the page size argument. */
  function UsersQueryOpening(location: string): string
  {
    SearchOpen + location + SearchOrder
  }

  /** The page size argument of every request. */
  function FirstArgument(): string
  {
    "first: " + Decimal(PageSize)
  }

  lemma FirstArgumentText()
    ensures FirstArgument() == "first: 5"
  {
  }

  /** The request body up to and including the page size. */
  function UsersQueryHead(location: string): string
  {
    UsersQueryOpening(location) + FirstArgument()
  }

  /** `users_query`: the JSON request body for one page of the search. */
  function UsersQuery(location: string, page: Option<string>): (q: string)
    ensures var head := UsersQueryHead(location);
            |head| <= |q| && q[..|head|] == head && q[|head| - |FirstArgument()|..|head|] == FirstArgument()
    ensures |UserFields| <= |q| && q[|q| - |UserFields|..] == UserFields
    ensures page.None? ==> q == UsersQueryHead(location) + UserFields
  {
    UsersQueryHead(location) + AfterClause(page) + UserFields
  }

  /** Every request carries the page size argument, and a continuation
      request is the first-page request with the cursor spliced in right
      after it. */
  lemma UsersQueryContinuation(location: string, cursor: string)
    ensures var first := UsersQuery(location, None);
            var next := UsersQuery(location, Some(cursor));
            var size := FirstArgument();
            exists k :: |size| <= k <= |first|
              && first[k - |size|..k] == size
              && next == first[..k] + (", after: \\\"" + cursor + "\\\"") + first[k..]
  {
    var opening := UsersQueryOpening(location);
    var size := FirstArgument();
    var head := UsersQueryHead(location);
    var clause := AfterClause(Some(cursor));
    assert head + AfterClause(None) == head;
    SpliceAfter(opening, size, clause, UserFields);
    var first := UsersQuery(location, None);
    assert first == opening + size + UserFields;
    var k := |opening + size|;
    assert |size| <= k <= |first| && first[k - |size|..k] == size;
  }

  /** Whether `user_contributions_work` asks for another page after this
      one, the `page_num`-th. */
  predicate Continues(page: Page<UserContributions>, pageNum: nat)
  {
    HasNext(page.pageInfo) && pageNum < MaxPages
  }

  /** `user_contributions_work`: the page walk of one search; a failed
      request aborts it. */
  function UserContributionsWork(server: seq<Answer<SearchQuery>>, pageNum: nat): (r: Result<seq<UserContributions>, FetchError>)
    ensures r.Failure? ==> r.error == Unanswered || Failed(r.error) in server
    decreases |server|
  {
    if |server| == 0 then Failure(Unanswered)
    else
      match server[0]
      case Failed(e) => Failure(e)
      case Answered(result) =>
        var page := result.search;
        if Continues(page, pageNum) then
          match UserContributionsWork(server[1..], pageNum + 1)
          case Failure(e) => Failure(e)
          case Success(next) => Success(page.edges + next)
        else Success(page.edges)
  }

  /** `user_contributions`: the walk starts at page 1 without a cursor. */
  function UserContributionsSearch(server: seq<Answer<SearchQuery>>): (r: Result<seq<UserContributions>, FetchError>)
    ensures r.Failure? ==> r.error == Unanswered || Failed(r.error) in server
    ensures |server| > 0 && server[0].Failed? ==> r == Failure(server[0].error)
    ensures |server| > 0 && server[0].Answered? && !Continues(server[0].data.search, 1) ==> r == Success(server[0].data.search.edges)
  {
    UserContributionsWork(server, 1)
  }

  /** The pages of the answered requests, in order. */
  function Pages(server: seq<Answer<SearchQuery>>): seq<Page<UserContributions>>
  {
    if |server| == 0 then []
    else
      match server[0]
      case Failed(_) => Pages(server[1..])
      case Answered(result) => [result.search] + Pages(server[1..])
  }

  /** The walk ends with the k-th answer, numbered from `pageNum`: every
      earlier answer was a page that continues, and the k-th failed or does
      not continue. */
  ghost predicate StopsAt(server: seq<Answer<SearchQuery>>, pageNum: nat, k: nat)
  {
    && k < |server|
    && (forall i :: 0 <= i < k ==> server[i].Answered? && Continues(server[i].data.search, pageNum + i))
    && (server[k].Answered? ==> !Continues(server[k].data.search, pageNum + k))
  }

  /** Where the walk stops decides its outcome: the k-th answer's error
      with nothing kept, or every visited page's nodes in order. */
  lemma {:induction false} UserContributionsWorkStopsAt(server: seq<Answer<SearchQuery>>, pageNum: nat, k: nat)
    requires StopsAt(server, pageNum, k)
    ensures server[k].Failed? ==> UserContributionsWork(server, pageNum) == Failure(server[k].error)
    ensures server[k].Answered? ==> UserContributionsWork(server, pageNum) == Success(Flatten(Pages(server[..k + 1])))
  {
    if k == 0 {
      if server[0].Answered? {
        var page := server[0].data.search;
        assert server[..1][1..] == [];
        assert Pages(server[..1]) == [page] + Pages(server[..1][1..]) == [page];
        assert Flatten([page]) == page.edges + Flatten([page][1..]);
        assert [page][1..] == [];
        assert Flatten([page]) == page.edges;
        assert !Continues(page, pageNum + 0);
        assert UserContributionsWork(server, pageNum) == Success(page.edges);
      }
    } else {
      assert Continues(server[0].data.search, pageNum + 0);
      assert StopsAt(server[1..], pageNum + 1, k - 1) by {
        forall i | 0 <= i < k - 1
          ensures server[1..][i].Answered? && Continues(server[1..][i].data.search, pageNum + 1 + i)
        {
          assert server[1..][i] == server[i + 1];
          assert Continues(server[i + 1].data.search, pageNum + (i + 1));
        }
        assert server[1..][k - 1] == server[k];
        assert pageNum + 1 + (k - 1) == pageNum + k;
      }
      UserContributionsWorkStopsAt(server[1..], pageNum + 1, k - 1);
      assert server[..k + 1][1..] == server[1..][..k];
    }
  }

  /** The walk stops within the page budget: starting from `pageNum`, the
      last page requested is numbered at most `MaxPages`. */
  lemma StopWithinBudget(server: seq<Answer<SearchQuery>>, pageNum: nat, k: nat)
    requires pageNum <= MaxPages && StopsAt(server, pageNum, k)
    ensures pageNum + k <= MaxPages
  {
    if k > 0 {
      assert Continues(server[k - 1].data.search, pageNum + (k - 1));
    }
  }

  /** Answers past the budget are never requested: only the first
      `MaxPages - pageNum + 1` answers can influence the walk. */
  lemma {:induction false} NeverPastBudget(server: seq<Answer<SearchQuery>>, pageNum: nat)
    requires pageNum <= MaxPages && |server| >= MaxPages - pageNum + 1
    ensures UserContributionsWork(server, pageNum) == UserContributionsWork(server[..MaxPages - pageNum + 1], pageNum)
    decreases MaxPages - pageNum
  {
    var budget := MaxPages - pageNum + 1;
    var cut := server[..budget];
    assert cut[0] == server[0];
    match server[0]
    case Failed(_) =>
    case Answered(result) =>
      if Continues(result.search, pageNum) {
        NeverPastBudget(server[1..], pageNum + 1);
        assert cut[1..] == server[1..][..MaxPages - (pageNum + 1) + 1];
      }
  }

  /** From page 1, a search requests at most `MaxPages` pages. */
  lemma SearchWithinBudget(server: seq<Answer<SearchQuery>>)
    requires |server| >= MaxPages
    ensures UserContributionsSearch(server) == UserContributionsSearch(server[..MaxPages])
  {
    NeverPastBudget(server, 1);
  }
}
