# kpi crawl engine, modelled in Dafny

`kpi` lists the contributors of a GitHub organisation over the last N days.
Its core is in `src/main.rs`. A run does four things:

1. It keeps the organisation's repositories pushed within the window.
2. It walks each kept repository's commit pages, newest first, and collects the
   commits that are still in the window.
3. It folds the author and committer accounts of the successful walks into a
   map from login to profile URL.
4. It prints that map. With `--filter-org-user` it prints only the logins the
   organisation-membership endpoint reports as members.

The model replaces HTTP with values:

- A repository's commit history is a finite sequence of page outcomes. Page
  `p` is element `p - 1`, and a page past the end reads as an empty page.
- A membership check is a response given for each login.
- The clock and the RFC 3339 parser are replaced by a `TimeWindow`. It holds a
  fixed `now`, an abstract partial `parse` from text to integer seconds, and
  the window length in seconds.

What is proved on top of that:

- The loops of `main` and of `get_commits_info_by_url` are methods.
  - The repository filter, the page loop, the commit loop, the aggregation
    loops and the membership output loop are each proved equal to a
    recursive specification function.
  - The collection of the walks is proved equal, as a multiset, to the walks
    in listing order.
  - The collection of the membership checks and the unfiltered output loop
    carry their contracts directly: what is checked or printed, and how
    often.
- The properties of the run are lemmas about those functions.
- The two `buffer_unordered` stages complete in an arbitrary order, modelled as
  a nondeterministic choice. Their contracts hold for every completion order.

Modules:

- `Types`: the values exchanged with the outside world.
- `RepoFilter`: the window filter.
- `Walker`: the per-repository page walk.
- `Aggregation`: the login map.
- `Membership`: the classification and the two output branches.
- `Engine`: the whole run.

An HTTP 409 answer to a commit-page request ("Git Repository is empty")
could be read as a walk that succeeds with no commits. The code does not do
that: it bails with an error (`src/main.rs:271-273`), and the model follows
the code. `Walker.FetchFailure` yields `EmptyRepository`, which aborts the walk
like any other fetch error.

- When the 409 answers page 1, the two readings give the same map. The
  failed walk contributes exactly what an empty successful walk would,
  namely nothing (`Engine.FirstPageConflictAddsNothing`).
- When the 409 answers a later page, the readings differ. The commits kept
  from earlier pages are dropped with the failed walk, and so are their
  identities (`Walker.LateConflictDropsKeptCommits`,
  `Engine.LateConflictLosesIdentity`).

## Model

| member | source | states |
|---|---|---|
| RepoFilter.FilterRepos | src/main.rs:98-105 | the repository loop computes exactly the prefilter: a push time that does not parse fails the whole run, and otherwise the repositories in the window are kept in listing order |
| RepoFilter.PrefilterFails | src/main.rs:100-101 | the prefilter fails if and only if some push time does not parse; it then fails with the first such push time |
| RepoFilter.PrefilterKeepsRecent | src/main.rs:100-104 | a successful prefilter equals the order-preserving filter of the listing by "push time parses and now - pushed <= window" |
| RepoFilter.PrefilterExactly | src/main.rs:100-104 | a repository is kept if and only if it is listed and recent, and the kept repositories are a subsequence of the listing |
| RepoFilter.WindowMonotonic | src/main.rs:102 | widening the window keeps the prefilter successful, and every repository kept before is still kept, in the same order |
| RepoFilter.FilterWeaker | src/main.rs:102-104 | filtering by a weaker condition keeps a supersequence of what a stronger one keeps |
| Walker.FetchPage | src/main.rs:268 | pages are numbered from 1, and a page past the end of the history is empty |
| Walker.FetchFailure | src/main.rs:268-276 | a failed page request becomes "repository is empty" exactly when the status is 409 CONFLICT, and "failed to get commits" otherwise |
| Walker.JudgeMeaning | src/main.rs:283-294 | a commit is skipped iff it has no metadata; it stops the walk iff both dates parse and both lie outside the window; it fails the walk iff a date does not parse, reporting the committer date first; otherwise it is kept |
| Walker.MetaMembers | src/main.rs:283 | the commits the walk may keep are exactly the commits that carry git metadata |
| Walker.ScanCommits | src/main.rs:282-296 | the commit loop of one page stops at its first halting commit and keeps the metadata-bearing commits before it; if no commit halts, every metadata-bearing commit of the page is appended |
| Walker.CommitsInWindow | src/main.rs:256-300 | the paging loop computes exactly the walk; it requests pages 1, 2, 3, … in order, each once, stops at the walk's last page, and requests at most one page past the end of the history |
| Walker.WalkOk | src/main.rs:278-298 | a successful walk extends what it had with a prefix of the metadata-bearing commits it fetched; every added commit is in the window; if the walk stops short, the next metadata-bearing commit has both dates outside the window |
| Walker.WalkKeepsLongestInWindowPrefix | src/main.rs:282-295 | a successful walk returns the longest run of in-window commits at the head of the metadata-bearing commits fetched; every returned commit has metadata, both of its dates parse, and at least one of them lies in the window |
| Walker.IsTakeRetained | src/main.rs:288-294 | a prefix of in-window commits that ends at a stopping commit, or at the end, is the longest in-window prefix |
| Walker.WalkReaches | src/main.rs:298 | after full pages with no halting commit, the walk reaches the next page carrying the metadata-bearing commits of all earlier pages |
| Walker.WalkAbortsOnFetchError | src/main.rs:268-276 | a failed page request aborts the walk with an error and no partial result; on 409 the error is "repository is empty"; no later page is requested |
| Walker.WalkEndsOnEmptyPage | src/main.rs:278-280 | an empty page ends the walk successfully with exactly the commits kept so far; no later page is requested |
| Walker.WalkHalts | src/main.rs:286-292 | the first halting commit ends the walk on its page: with both dates outside the window the walk succeeds with the commits kept before it; with an unparsable date it fails; no later page is requested |
| Walker.WiderWindowExtends | src/main.rs:288-294 | when the walks under a window and under a wider one both succeed, the narrower walk's commits are a prefix of the wider walk's |
| Walker.TakeRetainedWider | src/main.rs:288-294 | the longest in-window prefix of the fetched commits only grows when the window widens |
| Walker.WiderWindowCanFail | src/main.rs:286-294 | a concrete page on which a ten-second window gives a successful walk that keeps alice's commit, while a sixty-second window reaches an unparsable date and the walk fails |
| Walker.LateConflictDropsKeptCommits | src/main.rs:268-279 | a concrete history on which page 1 keeps a commit and page 2 answers 409, and the walk still fails with "repository is empty" |
| Aggregation.IdentityOfMembers | src/main.rs:136-150 | an author or committer reference contributes its own login and URL, and does so only when both are present |
| Aggregation.InsertReference | src/main.rs:136-150 | inserting one reference adds its login with its URL when both are present, and otherwise leaves the map unchanged |
| Aggregation.Aggregate | src/main.rs:131-156 | the nested insertion loops build exactly the map that results from inserting, in order, the identities of the commits of every successful walk |
| Aggregation.MapOfKeys | src/main.rs:139-149 | the map's logins are exactly the logins inserted |
| Aggregation.MapOfLastWins | src/main.rs:139-149 | each login maps to the URL of its last insertion |
| Aggregation.EntriesMembers | src/main.rs:131-156 | an identity is inserted if and only if some commit of some successful walk carries it; failed walks contribute nothing |
| Aggregation.CarriesLogin | src/main.rs:136-150 | a commit contributes a login if and only if its author or committer has that login and a URL |
| Aggregation.AggregatedLogins | src/main.rs:131-156 | a login is in the map if and only if the author or committer of some commit of some successful walk has that login and a URL |
| Aggregation.AggregatedUrl | src/main.rs:131-156 | every URL in the map is one that some commit of some successful walk gives for that login |
| Aggregation.FailedWalkAddsNothing | src/main.rs:152-154 | a failed walk leaves the map unchanged, wherever it completes |
| Aggregation.CompletionOrderIrrelevant | src/main.rs:126-156 | if every login comes with a single URL, the map is the same for every completion order of the walks |
| Membership.Classify | src/main.rs:247-253 | a successful answer means member, 404 means non-member, and anything else is the fatal "network is not reachable" error; the login is handed back |
| Membership.CheckAll | src/main.rs:158-167 | the checks complete in some order; every login of the map is checked exactly once; each result is that login's classification; every login's classification is among the results; every successful result names a login of the map |
| Membership.ReportMembers | src/main.rs:169-186 | the output loop computes exactly the report: non-members are skipped, members are printed with their URL from the map, and the loop aborts at the first fatal result |
| Membership.ReportFailure | src/main.rs:182-184 | the output loop aborts if and only if some check failed, and it reports the first failed check in completion order |
| Membership.ReportLines | src/main.rs:171-181 | every printed line is a member reported by a check, paired with its map URL; every member whose check completed before the first fatal one is printed |
| Membership.ReportDistinct | src/main.rs:160-181 | when the checks name distinct logins, the printed logins are distinct |
| Membership.CheckedFailure | src/main.rs:158-186 | for every completion order, the filtering branch fails if and only if some login's check is fatal, and it then fails with that login's error |
| Membership.CheckedLines | src/main.rs:158-186 | for every completion order, the printed lines are members paired with their map URL, each login printed once; if nothing failed, every member is printed |
| Membership.MembersOnly | src/main.rs:158-186 | the filtering branch: it fails if and only if some check is fatal; every line it prints is a member with its map URL; no login is printed twice; with no failure, all members are printed |
| Membership.AllEntries | src/main.rs:187-195 | the unfiltered branch prints every entry of the map exactly once and nothing else |
| Engine.WindowOf | src/main.rs:89-90 | the window is `days` whole days: an instant lies in it if and only if it is no earlier than now minus 86400 times `days` seconds |
| Engine.WalksRemove | src/main.rs:126-129 | removing one pending walk from the walks still to complete leaves the multiset of the other walks' results |
| Engine.CrawlAll | src/main.rs:115-129 | for every completion order, the collected results are exactly the walks of the selected repositories, one result per repository |
| Engine.Run | src/main.rs:89-195 | a bad push time fails the run and prints nothing; otherwise the map is folded from the collected walks; without filtering the run succeeds and prints every map entry once; with filtering it fails if and only if a membership check is fatal, and it prints only members with their map URL, all of them when it succeeds; no login is printed twice |
| Engine.FirstPageConflictAddsNothing | src/main.rs:268-273 | a 409 answer to page 1 fails the walk with "repository is empty", and the failed walk contributes exactly the identities of an empty successful walk: none |
| Engine.LateConflictLosesIdentity | src/main.rs:152-154 | on a concrete history with a 409 answer to page 2, the map built from the failed walk is empty, while the commits kept before the 409 would have given alice |
| Engine.WiderWindowLosesIdentity | src/main.rs:286-294 | on a concrete page, the map holds alice under a ten-second window and is empty under a sixty-second one |

## Left out

- HTTP, JSON decoding and authentication are left out (`get_repos`, `get_commits`, and the `reqwest` calls in `is_org_user`). Page outcomes and membership responses are inputs. A decoding failure of a commit page is a fetch failure with no status.
- The repository listing is an input. `get_repos` fetches one page of at most 100 repositories with no paging; that limit and the listing's own failures are not modelled.
- The membership endpoint is hard-coded to the `aosc-dev` organisation, whatever `--org` names. The model's `respond` oracle stands for that endpoint and takes no organisation.
- Concurrency is modelled as order only. The bound `thread` on `buffer_unordered` does not change what is collected, only when, so it is left out. Both stages wait for every task before their loop runs, and the model does the same.
- The clock is left out. The code calls `Utc::now()` afresh for each comparison, while the model uses one `now` for the whole run.
- RFC 3339 parsing and UTC normalisation are the abstract `parse`. Error values name the text or URL that failed, not the library's message text.
- Engine.WindowOf: takes `days` as an unbounded natural. It does not model the `u64` to `i64` cast at `src/main.rs:89` or the panic of `Duration::days` for out-of-range values.
- Walker.CommitsInWindow: assumes a finite history. Every page past its end is empty, as the service answers, and this bounds the number of page requests.
- Command-line parsing, logging and the text/markdown line formatting (`println!`) are left out. The output is modelled as the sequence of (login, URL) pairs printed.
- Walker.WiderWindowExtends: widening the window adds commits only when the walks under both windows succeed. The code does not promise more. A wider window can move the stopping commit past a commit whose date does not parse, and the walk then fails and its contributor leaves the map (`Walker.WiderWindowCanFail`, `Engine.WiderWindowLosesIdentity`).
