/** The `users` report (src/lib.rs `user_contributions`, `User`): the users
    of a location ranked by public contributions, weighted by followers. */
module Ranking {
  import opened Wrappers
  import opened Sorting
  import opened Paging
  import Contribs

  /** Size of the contribution shortlist. */
  const ShortlistSize: nat := 500

  /** Size of the follower cut taken from the shortlist. */
  const PopularSize: nat := 250

  /** Size of the published ranking. */
  const RankingSize: nat := 100

  /** `lib::User`. */
  datatype User = User(login: string, name: Option<string>, publicContributions: U32)

  /** `lib::UserContribs`: the location's user count and the ranking. */
  datatype Report = Report(totalUsers: U32, contributions: seq<User>)

  /** `impl From<contribs::UserContribs> for User`. */
  function UserFrom(uc: Contribs.UserContribs): (u: User)
    ensures u.login == uc.login && u.name == uc.name
    ensures u.publicContributions == uc.Contribs()
  {
    User(uc.login, uc.name, uc.Contribs())
  }

  /** Descending public contributions as an ascending key. */
  function ByContribs(uc: Contribs.UserContribs): int
  {
    -(uc.Contribs() as int)
  }

  /** Descending follower count as an ascending key. */
  function ByFollowers(uc: Contribs.UserContribs): int
  {
    -(uc.followers.totalCount as int)
  }

  /** The 500 users with the most public contributions. */
  function Shortlist(ucs: seq<Contribs.UserContribs>): seq<Contribs.UserContribs>
  {
    TopBy(ucs, ByContribs, ShortlistSize)
  }

  /** Of those, the 250 with the most followers. */
  function Popular(ucs: seq<Contribs.UserContribs>): seq<Contribs.UserContribs>
  {
    TopBy(Shortlist(ucs), ByFollowers, PopularSize)
  }

  /** Of those, the 100 with the most public contributions, in that order. */
  function Finalists(ucs: seq<Contribs.UserContribs>): seq<Contribs.UserContribs>
  {
    TopBy(Popular(ucs), ByContribs, RankingSize)
  }

  /** Every finalist is one of the users found, and nobody is a finalist
      more often than they were found. */
  lemma FinalistsFound(ucs: seq<Contribs.UserContribs>)
    ensures multiset(Finalists(ucs)) <= multiset(ucs)
    ensures forall uc :: uc in Finalists(ucs) ==> uc in ucs
  {
    forall uc | uc in Finalists(ucs)
      ensures uc in ucs
    {
      assert uc in multiset(Finalists(ucs));
      assert uc in multiset(Popular(ucs));
      assert uc in multiset(Shortlist(ucs));
    }
  }

  /** The three cuts leave min(100, n) of n users. */
  lemma FinalistsCount(ucs: seq<Contribs.UserContribs>)
    ensures |Finalists(ucs)| == if |ucs| < RankingSize then |ucs| else RankingSize
  {
  }

  /** The finalists come in descending order of public contributions. */
  lemma FinalistsDescending(ucs: seq<Contribs.UserContribs>)
    ensures forall i, j :: 0 <= i < j < |Finalists(ucs)| ==> Finalists(ucs)[i].Contribs() >= Finalists(ucs)[j].Contribs()
  {
    var f := Finalists(ucs);
    forall i, j | 0 <= i < j < |f|
      ensures f[i].Contribs() >= f[j].Contribs()
    {
      assert ByContribs(f[i]) <= ByContribs(f[j]);
    }
  }

  /** The finalists as `User`s, in order. */
  function Publish(finalists: seq<Contribs.UserContribs>): (users: seq<User>)
    ensures |users| == |finalists|
    ensures forall i :: 0 <= i < |users| ==> users[i] == UserFrom(finalists[i])
  {
    seq(|finalists|, i requires 0 <= i < |finalists| => UserFrom(finalists[i]))
  }

  /** `users` is `f` converted one by one, in order. */
  ghost predicate PublishedFrom(users: seq<User>, f: seq<Contribs.UserContribs>)
  {
    |users| == |f| && forall i :: 0 <= i < |f| ==> users[i] == UserFrom(f[i])
  }

  /** `u` was made from one of the users found. */
  ghost predicate MadeFrom(u: User, ucs: seq<Contribs.UserContribs>)
  {
    exists uc :: uc in ucs && u == UserFrom(uc)
  }

  /** Publishing keeps the order of contributions and the origin of every user. */
  lemma PublishFaithful(finalists: seq<Contribs.UserContribs>, ucs: seq<Contribs.UserContribs>)
    requires forall i, j :: 0 <= i < j < |finalists| ==> finalists[i].Contribs() >= finalists[j].Contribs()
    requires forall uc :: uc in finalists ==> uc in ucs
    ensures forall i, j :: 0 <= i < j < |Publish(finalists)| ==> Publish(finalists)[i].publicContributions >= Publish(finalists)[j].publicContributions
    ensures forall i :: 0 <= i < |Publish(finalists)| ==> MadeFrom(Publish(finalists)[i], ucs)
  {
    var users := Publish(finalists);
    forall i, j | 0 <= i < j < |users|
      ensures users[i].publicContributions >= users[j].publicContributions
    {
      assert finalists[i].Contribs() >= finalists[j].Contribs();
    }
    forall i | 0 <= i < |users|
      ensures MadeFrom(users[i], ucs)
    {
      var uc := finalists[i];
      assert uc in finalists;
      assert uc in ucs;
      assert users[i] == UserFrom(uc);
    }

  }

  /** The ranking `user_contributions` publishes: as many users as were
      found, up to 100, in descending order of public contributions, each
      one of the users found. */
  function RankUsers(ucs: seq<Contribs.UserContribs>): (users: seq<User>)
    ensures |users| == if |ucs| < RankingSize then |ucs| else RankingSize
    ensures forall i, j :: 0 <= i < j < |users| ==> users[i].publicContributions >= users[j].publicContributions
    ensures forall i :: 0 <= i < |users| ==> MadeFrom(users[i], ucs)
    ensures PublishedFrom(users, Finalists(ucs))
  {
    var finalists := Finalists(ucs);
    FinalistsFound(ucs);
    FinalistsCount(ucs);
    FinalistsDescending(ucs);
    PublishFaithful(finalists, ucs);
    Publish(finalists)
  }

  /** Each cut drops nobody who outranks a finalist on that cut's measure:
      a user dropped from the shortlist or from the final hundred has no
      more public contributions than any finalist, and one dropped at the
      follower cut has no more followers than any finalist. */
  lemma CutsKeepTheLeaders(ucs: seq<Contribs.UserContribs>)
    ensures forall x, y :: x in Finalists(ucs) && y in multiset(ucs) - multiset(Shortlist(ucs))
              ==> x.Contribs() >= y.Contribs()
    ensures forall x, y :: x in Finalists(ucs) && y in multiset(Shortlist(ucs)) - multiset(Popular(ucs))
              ==> x.followers.totalCount >= y.followers.totalCount
    ensures forall x, y :: x in Finalists(ucs) && y in multiset(Popular(ucs)) - multiset(Finalists(ucs))
              ==> x.Contribs() >= y.Contribs()
  {
    var s, p, f := Shortlist(ucs), Popular(ucs), Finalists(ucs);
    TopByLeaders(ucs, ByContribs, ShortlistSize);
    TopByLeaders(s, ByFollowers, PopularSize);
    TopByLeaders(p, ByContribs, RankingSize);
    forall x | x in f
      ensures x in p && x in s
    {
      assert x in multiset(f);
      assert x in multiset(p);
      assert x in multiset(s);
    }
    forall x: Contribs.UserContribs, y: Contribs.UserContribs | x in f && y in multiset(ucs) - multiset(s)
      ensures x.Contribs() >= y.Contribs()
    {
      assert ByContribs(x) <= ByContribs(y);
    }
    forall x: Contribs.UserContribs, y: Contribs.UserContribs | x in f && y in multiset(s) - multiset(p)
      ensures x.followers.totalCount >= y.followers.totalCount
    {
      assert ByFollowers(x) <= ByFollowers(y);
    }
    forall x: Contribs.UserContribs, y: Contribs.UserContribs | x in f && y in multiset(p) - multiset(f)
      ensures x.Contribs() >= y.Contribs()
    {
      assert ByContribs(x) <= ByContribs(y);
    }
  }

  /** The published ranking keeps the leaders: a user dropped from the
      shortlist, or from the final hundred, has no more public contributions
      than anyone published, and one dropped at the follower cut has no
      more followers than the user anyone published was made from. */
  lemma RankedLeaders(ucs: seq<Contribs.UserContribs>)
    ensures forall i, y :: 0 <= i < |RankUsers(ucs)| && y in multiset(ucs) - multiset(Shortlist(ucs))
              ==> RankUsers(ucs)[i].publicContributions >= y.Contribs()
    ensures forall i, y :: 0 <= i < |RankUsers(ucs)| && y in multiset(Shortlist(ucs)) - multiset(Popular(ucs))
              ==> Finalists(ucs)[i].followers.totalCount >= y.followers.totalCount
    ensures forall i, y :: 0 <= i < |RankUsers(ucs)| && y in multiset(Popular(ucs)) - multiset(Finalists(ucs))
              ==> RankUsers(ucs)[i].publicContributions >= y.Contribs()
  {
    var users, f := RankUsers(ucs), Finalists(ucs);
    CutsKeepTheLeaders(ucs);
    forall i | 0 <= i < |users|
      ensures f[i] in f && users[i].publicContributions == f[i].Contribs()
    {
    }
  }

  /** `user_contributions`: the search, then the ranking; a failed search
      fails the report. The location's user count comes from a separate
      query and is a parameter here. */
  function UserContributions(totalUsers: U32, server: seq<Answer<Contribs.SearchQuery>>): (r: Result<Report, FetchError>)
    ensures r.Success? <==> Contribs.UserContributions(server).Success?
    ensures r.Success? ==> r.value.totalUsers == totalUsers
    ensures r.Success? ==> |r.value.contributions| == var n := |Contribs.UserContributions(server).value|;
                                                      if n < RankingSize then n else RankingSize
    ensures r.Success? ==> forall i, j :: 0 <= i < j < |r.value.contributions| ==>
              r.value.contributions[i].publicContributions >= r.value.contributions[j].publicContributions
    ensures r.Success? ==> forall i :: 0 <= i < |r.value.contributions| ==>
              MadeFrom(r.value.contributions[i], Contribs.UserContributions(server).value)
    ensures r.Success? ==> PublishedFrom(r.value.contributions, Finalists(Contribs.UserContributions(server).value))
    ensures r.Failure? ==> r.error == Contribs.UserContributions(server).error
  {
    var found := Contribs.UserContributions(server);
    if found.Failure? then Failure(found.error)
    else Success(Report(totalUsers, RankUsers(found.value)))
  }
}
