# credit, modelled in Dafny

`credit` is a command-line tool that measures how a GitHub project is
contributed to. Its `repo` command walks the paginated GraphQL listings of
a repository's Issues and Pull Requests. It classifies each one as a
thread: who opened it, when it was first answered (by anyone other than
the opener), and when it was first answered "officially" (by an Owner,
Member or Collaborator). It then aggregates the threads into statistics:
counts, median and mean response times, merged-work and per-commenter
maps. Its `users` command pages through a user search for a location. It
ranks the users found by public contributions, weighted by followers.

This project models that core as pure Dafny functions over immutable
data, with the contracts and lemmas listed below.

- `wrappers.dfy`: `Option`, `Result`, and `U32` (Rust's `u32`).
- `collections.dfy`: counting (`filter(..).count()`), `find`, count maps
  (`Counter` and the `entry` idiom), and the value-summing merge
  `hashmap_combine`, with its algebra.
- `sorting.dfy`: the sort behind `sorted()` / `sorted_by(..)`, and
  `take(n)` after it.
- `text.dfy`: decimal rendering of naturals, as `format!("{}")` prints
  them, and its inverse.
- `paging.dfy`: `PageInfo`, pages, and the answers a request can receive.
- `repo.dfy`: `repo.rs`. This covers the decoded nodes, `Association`,
  `Mode`, the query text and the `issues_work` page walk.
- `contribs.rs` and `contributions.rs` are modelled in `contribs.dfy` and
  `contributions.dfy`: the two user-search walks.
- `threads.dfy`: `Thread`, `Issue`, `PR`, `Postings`, the classifier
  `issue_thread`, the date filter, `all_issues`, `all_prs` and
  `repo_threads`.
- `responses.dfy`: `resp_times` and `ResponseTimes::period`.
- `aggregate.dfy`: `Postings::statistics` and `hashmap_combine`.
- `ranking.dfy`: `user_contributions` in `lib.rs` and `User::from`.
- `args.dfy`: `split_repo`.
- `someable.dfy`: `bool_some`.

Modelling choices:

- **The GitHub server** is the sequence of answers it gives to successive
  requests: the k-th request receives the k-th answer. An answer is a
  decoded page or a failure: a transport error, or a body that does not
  decode. A walk that needs more answers than the sequence holds ends in
  the model-only error `Unanswered`. The request text does not influence
  the answers. Separate lemmas pin the text down: each continuation request
  is the first-page request with `, after: \"<cursor>\"` spliced in right
  after the page-size argument.
- **Timestamps** are whole seconds since the epoch, and durations are whole
  seconds.
- **`Counter` and `HashMap<_, usize>`** are `map<K, nat>`. A missing key
  reads as 0.
- **`contribs()` / `contributions()`** subtract two `u32`s. This is
  modelled as the release build computes it, wrapping modulo 2^32.
- **The mean of `resp_times`** is modelled as follows:
  - The exact sum of the durations is reinterpreted as `u64`, as `as u64`
    does. A negative sum becomes 2^64 plus the sum.
  - The result is divided by the count.
  - So a negative duration that leaves the median non-negative but makes
    the sum negative yields a mean near 2^64 / n. `NegativeSumExample`
    shows this.

## Model

| member | source | states |
|---|---|---|
| Collections.Find | src/lib.rs:616-622 | `iter().find(p)`: the index found satisfies `p` and no earlier element does; no index means no element satisfies `p` |
| Collections.AddEntry | src/lib.rs:183-186 | `entry(k).or_insert(0)` then `+=`: only `k` changes, by exactly `v`, and `k` becomes a key |
| Collections.MapAdd | src/lib.rs:661-671 | the merge of two count maps holds the keys of both, each with the sum of its two counts |
| Collections.MapAddAssociative | src/lib.rs:197-206 | merging is associative, so the fold's grouping does not matter |
| Collections.MapAddCommutative | src/lib.rs:197-206 | merging is commutative, so the order of the folded maps does not matter |
| Collections.SumMapsColumn | src/lib.rs:197-206 | the fold of merges holds, under each key, the sum of that key's counts across all maps, and has the key exactly when some map does |
| Collections.SumMapsAppend | src/lib.rs:197-206 | folding a concatenation merges the two folds |
| Collections.Tally | src/lib.rs:623-627 | `collect::<Counter<_>>()`: keys are the elements present, and each count is the element's multiplicity |
| Collections.TallyAppend | src/lib.rs:189-195 | counting a concatenation is the merge of the two counts |
| Collections.TallyTotal | src/lib.rs:189-195 | a counter's counts add up to the number of elements counted |
| Collections.CountPermutation | src/lib.rs:237-240 | counting is independent of order, so sorting changes no count |
| Sorting.SortBy | src/lib.rs:237-240 | `sorted()`: the result is in key order and a permutation of the input |
| Sorting.TopBy | src/lib.rs:646-651 | `sorted_by(..).take(n)`: min(n, len) elements, in key order, drawn from the input |
| Sorting.TopByLeaders | src/lib.rs:646-651 | nothing dropped by `take(n)` has a smaller key than anything kept |
| Text.DecimalRoundTrip | src/lib.rs:288 | the decimal digits `format!` prints read back as the number |
| Paging.Last | src/repo.rs:179 | `last()`: absent exactly for an empty page, otherwise the final node |
| Paging.SpliceAfter | src/repo.rs:135-136 | inserting the `after` clause behind a marker splits the first-page body at the marker's end |
| Repo.Association.IsOfficial | src/repo.rs:204-211 | Owners, Members and Collaborators comment officially |
| Repo.Association.IsAuthor | src/repo.rs:213-218 | the `AUTHOR` association marks the thread's opener |
| Repo.OfficialNotAuthor | src/repo.rs:204-218 | official exactly for Owner, Member, Collaborator; author exactly for `AUTHOR`; so no association is both |
| Repo.RepositoryPage.ToPage | src/repo.rs:58-65 | whichever field the repository answered under, its page is the one returned |
| Repo.GraphCall | src/repo.rs:74-79 | Issues mode queries `issues`, both Pull Request modes `pullRequests` |
| Repo.MergedField | src/repo.rs:81-86 | `mergedAt` is requested exactly in the Pull Request modes |
| Repo.Commits | src/repo.rs:88-93 | the commit sub-query is requested exactly in `PRsWithCommits` mode |
| Repo.QueryHead | src/repo.rs:96-101 | every request body asks for pages of 100: its head ends with `(first: 100` |
| Repo.IssueQuery | src/repo.rs:96-140 | every request body opens with the head ending in `(first: 100` and closes with the mode's field selection; without a cursor it is exactly those two |
| Repo.ContinuationQuery | src/repo.rs:96-140 | a continuation request equals the first-page request with the cursor spliced in right after `(first: 100`; nothing else differs |
| Repo.StopEarly | src/repo.rs:176-180 | `stop_early` holds iff `--end` is set, the page is non-empty and its last node was created after `--end` |
| Repo.IssuesWork | src/repo.rs:153-190 | a successful walk starts with the first page's nodes; a failed one reports an error the server gave, or ran out of answers |
| Repo.IssuesWorkStopsAt | src/repo.rs:182-189 | when the k-th answer is the first that fails or does not continue, the walk returns that failure, or the nodes of pages 0..k in order |
| Repo.IssuesWorkUnanswered | src/repo.rs:182-187 | a server whose every page continues never lets the walk finish |
| Contribs.PageBudget | src/contribs.rs:10-14 | pages of 10 users, at most 100 pages |
| Contribs.UserContribs.Contribs | src/contribs.rs:30-37 | public contributions are the total less the restricted ones, wrapping modulo 2^32 when restricted exceeds total |
| Contribs.FirstArgumentText | src/contribs.rs:63 | the page-size argument reads `first: 10` |
| Contribs.UsersQuery | src/contribs.rs:59-93 | every request body opens with the head ending in the page-size argument and closes with the user fields; without a cursor it is exactly those two |
| Contribs.UsersQueryContinuation | src/contribs.rs:59-93 | every request carries the page-size argument, and a continuation request is the first-page request with the cursor spliced in right after it |
| Contribs.UserContributionsWork | src/contribs.rs:106-149 | failures are retried, so the walk fails only by running out of answers |
| Contribs.UserContributions | src/contribs.rs:96-104 | the search starts at page 1: it fails only by running out of answers, and a first page that does not continue is the whole result |
| Contribs.RetryKeepsPlace | src/contribs.rs:114-118 | a failed request is retried with the same cursor and page number, and the walk continues as if it had not happened |
| Contribs.UserContributionsWorkStopsAt | src/contribs.rs:119-146 | among the answered pages, if the k-th is the first that does not continue (no next page, page budget reached, or last user without followers), the result is the nodes of answered pages 0..k |
| Contribs.UserContributionsWorkUnanswered | src/contribs.rs:125-144 | if every answered page continues, the walk runs out of answers |
| Contribs.StopWithinBudget | src/contribs.rs:127-133 | the last page requested is numbered at most `MAX_PAGES` |
| Contribs.BudgetForcesStop | src/contribs.rs:127-133 | any `MAX_PAGES` answered pages contain one that stops the walk |
| Contribs.UserContributionsWithinBudget | src/contribs.rs:96-104 | with at least `MAX_PAGES` answered pages the search succeeds with the nodes of its first m answered pages, 1 <= m <= `MAX_PAGES` |
| Contributions.PageBudget | src/contributions.rs:7-11 | pages of 5 users, at most 200 pages |
| Contributions.UserContributions.Contributions | src/contributions.rs:27-35 | public contributions are the total less the restricted ones, wrapping modulo 2^32 |
| Contributions.FirstArgumentText | src/contributions.rs:60 | the page-size argument reads `first: 5` |
| Contributions.UsersQuery | src/contributions.rs:56-90 | every request body opens with the head ending in the page-size argument and closes with the user fields; without a cursor it is exactly those two |
| Contributions.UsersQueryContinuation | src/contributions.rs:56-90 | every request carries the page-size argument, and a continuation request is the first-page request with the cursor spliced in after it |
| Contributions.UserContributionsWork | src/contributions.rs:104-136 | a failed walk reports an error the server gave, or ran out of answers |
| Contributions.UserContributionsSearch | src/contributions.rs:93-102 | the search starts at page 1: a failed first request fails it with that error, a first page that does not continue is the whole result, and any failure is one the server gave or running out of answers |
| Contributions.UserContributionsWorkStopsAt | src/contributions.rs:113-135 | when the k-th answer is the first that fails or does not continue, the walk returns that failure with nothing kept, or the nodes of pages 0..k |
| Contributions.StopWithinBudget | src/contributions.rs:128-129 | the last page requested is numbered at most `MAX_PAGES` |
| Contributions.NeverPastBudget | src/contributions.rs:128-135 | answers past the page budget never influence the walk |
| Contributions.SearchWithinBudget | src/contributions.rs:93-102 | from page 1, only the first `MAX_PAGES` answers matter |
| Threads.MergedExcludesClosedNotMerged | src/lib.rs:71-81 | no Pull Request is both merged and closed-without-merging; the latter means closed with no merge time |
| Threads.Postings.Combine | src/lib.rs:117-127 | the combined lookup holds this lookup's Issues and Pull Requests followed by the other's, in order |
| Threads.Ghost | src/lib.rs:604-609 | a present author's login, and `@ghost` for a deleted account |
| Threads.Commenters | src/lib.rs:623-625 | one identity per comment, in order; deleted accounts appear as `@ghost` |
| Threads.FirstResponse | src/lib.rs:616-618 | absent iff every comment is by the opener; otherwise the author and time of the first comment not by the opener |
| Threads.FirstOfficialResponse | src/lib.rs:619-622 | absent iff no comment is by an Owner, Member or Collaborator; otherwise the time of the first such comment |
| Threads.CommentCounts | src/lib.rs:623-627 | each identity is counted once per comment, the counts total the number of comments, and the keys are exactly the commenters (no comments, no keys) |
| Threads.IssueThread | src/lib.rs:611-638 | the thread copies the opener (or `@ghost`), creation and close times; responder and response time are present together, iff a comment not by the opener exists, and come from the first such comment; the official response comes from the first official comment; an official response implies a response; comment counts as above, keyed by exactly the commenters |
| Threads.ResponseBeforeOfficial | src/lib.rs:616-622 | on chronological comments, the first response comes no later than the first official response |
| Threads.DateFilter | src/lib.rs:560-564 | keeps exactly the nodes created within the optional `--start`/`--end` bounds |
| Threads.DateFilterAppend | src/lib.rs:558-566 | filtering page by page equals filtering the concatenation |
| Threads.EarlyStopLosesNothing | src/repo.rs:176-189 | for nodes listed in creation order, stopping the walk early at `--end` drops nothing the date filter would keep |
| Threads.ToPR | src/lib.rs:590-599 | a fetched Pull Request keeps its thread and merge time; its commit count is 0 when not requested |
| Threads.PrMode | src/lib.rs:578-582 | `all_prs` queries Pull Requests, with the commit sub-query exactly when commits were asked for |
| Threads.AllIssues | src/lib.rs:551-568 | succeeds iff the walk does, with its error otherwise; keeps no more than were fetched, all created in range |
| Threads.AllPrs | src/lib.rs:570-602 | succeeds iff the walk does, with its error otherwise; keeps no more than were fetched, all created in range |
| Threads.RepoThreads | src/lib.rs:503-537 | the lookup succeeds iff both fetches do; a failed Issue fetch's error is reported, else a failed Pull Request fetch's; on success it holds both results |
| Responses.SumPermutation | src/lib.rs:251 | summing the sorted durations gives the sum of the durations |
| Responses.Median | src/lib.rs:237-250 | the element at `len / 2` of the sorted durations is one of them, has at most half the durations below it and more than half at or below it, and is negative iff more than half are |
| Responses.MedianUnique | src/lib.rs:248-250 | only one value has the median's rank |
| Responses.AsU64 | src/lib.rs:252 | `as u64` keeps non-negative values and adds 2^64 to negative ones |
| Responses.RespTimes | src/lib.rs:230-256 | no summary iff no durations, or more than half are negative (`to_std` fails); otherwise the median has the median's rank, and the mean is the `u64` reading of the sum divided by the count |
| Responses.SummaryWithinRange | src/lib.rs:230-256 | durations within [lo, hi] whose sum fits in `u64` have a summary whose median and mean lie in [lo, hi] |
| Responses.EvenExample | src/lib.rs:248-252 | an even count takes the upper middle value; the mean truncates |
| Responses.NegativeMedianExample | src/lib.rs:245-250 | a negative median yields no summary |
| Responses.NegativeSumExample | src/lib.rs:251-252 | a negative sum with a non-negative median reads as a mean near 2^64 / n |
| Responses.Bucket | src/lib.rs:277-287 | days past 48 whole hours, hours from 2 to 48, the lone hour, and whole minutes below an hour, each with its range |
| Responses.Period | src/lib.rs:277-289 | the text is a decimal number in shortest form (no leading zero), a space and the unit; the number reads back as the bucket's count |
| Responses.ResponseTimes.MedianTime | src/lib.rs:268-270 | the median rendered as `period` does |
| Responses.ResponseTimes.AverageTime | src/lib.rs:273-275 | the mean rendered as `period` does |
| Responses.MinutesExample | src/lib.rs:285-286 | 59 s gives "0 minutes"; 3599 s gives "59 minutes" |
| Responses.HourExample | src/lib.rs:283-284 | 5400 s gives "1 hour" |
| Responses.HoursExample | src/lib.rs:281-282 | 48 h gives "48 hours" |
| Responses.DaysExample | src/lib.rs:279-280 | 72 h gives "3 days" |
| Aggregate.HashmapCombine | src/lib.rs:661-671 | the loop over `b`'s entries yields the keys of both maps with summed counts, i.e. the merge `MapAdd` |
| Aggregate.HashmapExtend | src/lib.rs:677-692 | six keys counted once, combined with an equal map, are counted twice |
| Aggregate.ResponseDurations | src/lib.rs:237-238 | one duration per thread that reached the moment |
| Aggregate.ResponseDurationsAppend | src/lib.rs:237-238 | durations are collected thread by thread, in thread order |
| Aggregate.ResponseDurationsOne | src/lib.rs:237-238 | a thread contributes the time from posting to the moment when it reached it, and nothing otherwise |
| Aggregate.TimelyDurations | src/lib.rs:245-247 | threads answered no earlier than posted give no negative duration |
| Aggregate.MergeDurations | src/lib.rs:176 | one duration per merged Pull Request |
| Aggregate.MergeDurationsAppend | src/lib.rs:176 | merge durations are collected Pull Request by Pull Request, in order |
| Aggregate.MergeDurationsOne | src/lib.rs:176 | a Pull Request contributes the time from opening to merge when merged, and nothing otherwise |
| Aggregate.MergedAuthors | src/lib.rs:189-193 | one entry per merge; each author occurs once per merged Pull Request they opened |
| Aggregate.MergedAuthorsMembers | src/lib.rs:189-193 | an author occurs iff they opened a merged Pull Request |
| Aggregate.AddCommitsStep | src/lib.rs:182-186 | one loop step keeps the map equal to the commit sums of the Pull Requests seen so far |
| Aggregate.ContributorCommits | src/lib.rs:178-187 | keys are the openers of merged Pull Requests, each holding the commits of their merged Pull Requests |
| Aggregate.CodeContributors | src/lib.rs:189-195 | per author, the number of merged Pull Requests they opened; the counts total the merges |
| Aggregate.CodeContributorsMembers | src/lib.rs:189-195 | code contributors are exactly the openers of merged Pull Requests |
| Aggregate.Commentors | src/lib.rs:197-206 | each login's count is its number of comments across all Issue and Pull Request threads, and the keys are exactly the logins some thread counts |
| Aggregate.StatisticsOf | src/lib.rs:130-227 | each count is the number of threads closed, answered, officially answered, merged or closed unmerged, bounded by its total; each time summary is `resp_times` of the matching durations (so its median has the median's rank) and present only if its count is positive; per-user maps as above with pinned keys |
| Aggregate.OfficialWithinResponses | src/lib.rs:135-164 | on classified threads, officially answered Issues and Pull Requests are no more than those answered at all |
| Aggregate.SummariesExist | src/lib.rs:147-176 | when no response or merge predates its posting, each response-time summary and the merge-time summary is present iff its count is positive |
| Aggregate.IssueCountsCombine | src/lib.rs:131-145 | the Issue counts of combined lookups are the sums of the two lookups' counts |
| Aggregate.PrCountsCombine | src/lib.rs:152-174 | the Pull Request counts of combined lookups are the sums of the two lookups' counts |
| Aggregate.CommentorsCombine | src/lib.rs:197-206 | the commentor map of combined lookups is the merge of the two |
| Aggregate.CodeContributorsCombine | src/lib.rs:189-195 | the code-contributor map of combined lookups is the merge of the two |
| Aggregate.CommitsCombine | src/lib.rs:178-187 | the commit map of combined lookups is the merge of the two |
| Aggregate.StatisticsOfCombine | src/lib.rs:117-227 | statistics of combined lookups: every count is the sum, every per-user map the merge |
| Ranking.UserFrom | src/lib.rs:37-46 | a `User` keeps login and name, and its public contributions are `contribs()` |
| Ranking.FinalistsFound | src/lib.rs:644-651 | the finalists are a sub-multiset of the users found: nobody is kept more often than found |
| Ranking.FinalistsDescending | src/lib.rs:650-651 | finalists come in non-increasing order of public contributions |
| Ranking.PublishFaithful | src/lib.rs:650-653 | publishing keeps that order and each user's origin |
| Ranking.RankUsers | src/lib.rs:644-653 | min(100, n) users, in non-increasing public contributions, each made from a user found; the list is exactly the survivors of the 500/250/100 cuts converted in order |
| Ranking.RankedLeaders | src/lib.rs:644-652 | nobody dropped at a contribution cut has more public contributions than a published user, and nobody dropped at the follower cut has more followers than the user a published entry came from |
| Ranking.CutsKeepTheLeaders | src/lib.rs:646-651 | no one dropped at the contribution cuts outranks a finalist on contributions, and no one dropped at the follower cut outranks one on followers |
| Ranking.UserContributions | src/lib.rs:642-659 | the report succeeds iff the search does, and otherwise carries the search's error; it carries the user count and publishes exactly the survivors of the cuts over the users found, min(100, n) of them, in non-increasing public contributions |
| Args.SplitRepo | src/main.rs:84-92 | fails, with the argument as message, iff there is no `/`; otherwise the owner is the text before the first `/` and the project the text up to the next `/` or the end |
| Args.SplitsAtUnique | src/main.rs:84-89 | a string splits at its first `/` in one way only |
| Args.SplitRepoRoundTrip | src/main.rs:84-92 | joining two names without `/` and splitting gives them back; anything from a second `/` on is ignored |
| Args.ThirdPartIgnoredExample | src/main.rs:85-88 | `a/b/c` splits as (`a`, `b`) |
| Args.NoSlashExample | src/main.rs:89 | `credit` fails with `credit` |
| Someable.BoolSome | src/some.rs:12-20 | `Some(t)` exactly when the flag is set |

## Left out

- HTTP, JSON decoding, the bearer token and `github.rs`'s transport are left
  out. A request's outcome is the next scripted answer. `Unanswered` exists
  only in the model: it stands for a server that stops answering.
- Contribs.UserContributionsWork: the source retries a failed request
  forever, after a 10-second sleep. The model consumes one scripted answer
  per retry, so it does not model a server that never recovers. The sleep
  and progress bars are left out.
- Contribs.UserContributionsWork and Contributions.UserContributionsWork:
  the cursor is not threaded through the walk. The query text is pinned
  down by the `UsersQueryContinuation` lemmas instead.
- Repo.IssuesWork: the same applies to the cursor. The `Mode` chooses only
  the query text and which fields are decoded; the scripted answers do not
  depend on it.
- `contribs::user_count` and its query are not part of this model. The user
  count is a parameter of `Ranking.UserContributions`.
- Contribs.UserContribs.Contribs and Contributions.UserContributions.Contributions:
  a debug build panics when the restricted count exceeds the total. The
  model follows the release build's wrap-around.
- Responses.RespTimes: the sum is modelled exactly, so the `i64`
  accumulator's overflow is not modelled. Only the `as u64` reading of a
  negative sum is; the mean clause covers sums within ±2^64. `Duration`'s
  sub-second part is dropped, because durations are whole seconds.
- `rayon::join` and the `serial` flag: Issues and Pull Requests are
  fetched independently, so running them in parallel changes nothing in
  the model.
- `Statistics::report`, `percent` (floating point), the JSON cache, the
  rest of `main.rs` (argument parsing, output), `error.rs` and `limit.rs`
  are not part of this model.
- `usize` and `u32` counters (comment counts, commit sums, page numbers)
  are unbounded naturals. Overflow would need more than 2^32 pages or
  comments.
- Sorting.SortBy: the contract states order and permutation but not
  stability. So which of several equal-keyed users `take(n)` keeps is left
  unstated.
- Threads.AllIssues and Threads.AllPrs: the contracts state the length
  bound and the date range. That each kept node is the classified form of
  an in-range fetched node follows from `DateFilter`, `ToIssues` and
  `ToPRs`, whose contracts say so separately.
