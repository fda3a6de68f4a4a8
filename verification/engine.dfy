/** The run of `main`, end to end: select the recently pushed repositories,
    walk each of them (the walks complete in any order), fold the successful
    walks into the login map, then print either every entry or only the
    organisation's members. */
module Engine {
  import opened Types
  import RepoFilter
  import Walker
  import Aggregation
  import Membership

  /** Seconds in a day: the window is `days` whole days. */
  const SecondsPerDay: int := 86400

  /** The window of a run started at `now` for the last `days` days. */
  function WindowOf(parse: string -> Option<int>, now: int, days: nat): (t: TimeWindow)
    ensures t.parse == parse && t.now == now
    ensures forall instant :: t.Contains(instant) <==> instant >= now - days * SecondsPerDay
  {
    TimeWindow(parse, now, days * SecondsPerDay)
  }

  /** The walks of `repos`, in listing order: `histories` gives each
      repository's pages, indexed by its URL. */
  function Walks(repos: seq<Repo>, t: TimeWindow, histories: string -> seq<FetchOutcome>): (r: seq<Result<seq<Commit>>>)
    ensures |r| == |repos|
  {
    if repos == [] then []
    else [Walker.Walk(repos[0].url, histories(repos[0].url), t, 1, [])] + Walks(repos[1..], t, histories)
  }

  lemma {:induction false} WalksAppend(a: seq<Repo>, b: seq<Repo>, t: TimeWindow, histories: string -> seq<FetchOutcome>)
    ensures Walks(a + b, t, histories) == Walks(a, t, histories) + Walks(b, t, histories)
  {
    if a == [] {
      assert a + b == b;
    } else {
      assert (a + b)[1..] == a[1..] + b;
      WalksAppend(a[1..], b, t, histories);
    }
  }

  /** Taking out one pending walk leaves the others. */
  lemma WalksRemove(pending: seq<Repo>, k: nat, t: TimeWindow, histories: string -> seq<FetchOutcome>)
    requires k < |pending|
    ensures multiset(Walks(pending, t, histories)) ==
      multiset(Walks(pending[..k] + pending[k + 1..], t, histories))
      + multiset{Walker.Walk(pending[k].url, histories(pending[k].url), t, 1, [])}
  {
    assert pending == pending[..k] + [pending[k]] + pending[k + 1..];
    WalksAppend(pending[..k] + [pending[k]], pending[k + 1..], t, histories);
    WalksAppend(pending[..k], [pending[k]], t, histories);
    WalksAppend(pending[..k], pending[k + 1..], t, histories);
    assert Walks([pending[k]], t, histories) == [Walker.Walk(pending[k].url, histories(pending[k].url), t, 1, [])];
  }

  /** The walks of the selected repositories, collected as they complete:
      whatever the order, every repository is walked once and only its walk's
      result is collected for it. */
  method CrawlAll(repos: seq<Repo>, t: TimeWindow, histories: string -> seq<FetchOutcome>)
    returns (results: seq<Result<seq<Commit>>>)
    ensures multiset(results) == multiset(Walks(repos, t, histories))
  {
    var pending := repos;
    results := [];
    while pending != []
      invariant multiset(results) + multiset(Walks(pending, t, histories)) == multiset(Walks(repos, t, histories))
      decreases |pending|
    {
      var k :| 0 <= k < |pending|;
      var r, requested := Walker.CommitsInWindow(pending[k].url, histories(pending[k].url), t);
      WalksRemove(pending, k, t, histories);
      results := results + [r];
      pending := pending[..k] + pending[k + 1..];
    }
  }

  /** The whole run. `crawled` is the collected walk results and `m` the login
      map folded from them; both exist only when the prefilter succeeds. */
  method Run(repos: seq<Repo>, parse: string -> Option<int>, now: int, days: nat,
             histories: string -> seq<FetchOutcome>, filterOrgUser: bool,
             respond: string -> MembershipResponse)
    returns (lines: seq<(string, string)>, failure: Option<Error>,
             ghost crawled: seq<Result<seq<Commit>>>, ghost m: map<string, string>)
    ensures var t := WindowOf(parse, now, days);
      RepoFilter.Prefilter(repos, t).Err? ==>
        lines == [] && failure == Some(RepoFilter.Prefilter(repos, t).error)
    ensures var t := WindowOf(parse, now, days);
      RepoFilter.Prefilter(repos, t).Ok? ==>
        && multiset(crawled) == multiset(Walks(RepoFilter.Prefilter(repos, t).value, t, histories))
        && m == Aggregation.MapOf(Aggregation.Entries(crawled))
    ensures RepoFilter.Prefilter(repos, WindowOf(parse, now, days)).Ok? && !filterOrgUser ==>
      failure.None? && |lines| == |m| && forall p :: p in lines <==> p.0 in m && p.1 == m[p.0]
    ensures RepoFilter.Prefilter(repos, WindowOf(parse, now, days)).Ok? && filterOrgUser ==>
      && (failure.None? <==> forall u :: u in m ==> Membership.Classify(u, respond(u)).Ok?)
      && (forall p :: p in lines ==> p.0 in m && p.1 == m[p.0] && respond(p.0).Member?)
      && (failure.None? ==> forall u :: u in m && respond(u).Member? ==> (u, m[u]) in lines)
    ensures forall i, j :: 0 <= i < j < |lines| ==> lines[i].0 != lines[j].0
  {
    var t := WindowOf(parse, now, days);
    var selected := RepoFilter.FilterRepos(repos, t);
    if selected.Err? {
      return [], Some(selected.error), [], map[];
    }
    var results := CrawlAll(selected.value, t, histories);
    var logins := Aggregation.Aggregate(results);
    crawled, m := results, logins;
    if filterOrgUser {
      lines, failure := Membership.MembersOnly(logins, respond);
    } else {
      lines := Membership.AllEntries(logins);
      failure := None;
    }
  }

  /** A 409 answer to the very first page fails the walk, and the failed walk
      contributes exactly what a successful walk with no commits would:
      nothing. */
  lemma FirstPageConflictAddsNothing(url: string, history: seq<FetchOutcome>, t: TimeWindow)
    requires Walker.FetchPage(history, 1) == HttpError(Some(Conflict))
    ensures Walker.Walk(url, history, t, 1, []) == Err(EmptyRepository(url))
    ensures Aggregation.ResultEntries(Walker.Walk(url, history, t, 1, [])) == Aggregation.ResultEntries(Ok([]))
  {
    Walker.WalkAbortsOnFetchError(url, history, t, 1, Some(Conflict));
    assert Aggregation.CommitEntries([]) == [];
  }

  /** A 409 answer to a later page loses the identities of the pages before
      it: alice is aggregated from the commits kept before the 409, but not
      from the failed walk. */
  lemma LateConflictLosesIdentity()
    ensures var t := TimeWindow(Walker.SampleDates, 100, 10);
      var history := [Fetched([Walker.SamplePage()[0]]), HttpError(Some(Conflict))];
      && Aggregation.MapOf(Aggregation.Entries([Walker.Walk("r", history, t, 1, [])])) == map[]
      && Aggregation.MapOf(Aggregation.Entries([Ok(Walker.Meta(Walker.Before(history, 2)))])) == map["alice" := "u1"]
  {
    Walker.LateConflictDropsKeptCommits();
    var c := Walker.SamplePage()[0];
    Aggregation.FlattenSnoc([], c, Aggregation.Identities);
    assert Aggregation.CommitEntries([c]) == [Aggregation.Identity("alice", "u1")];
    Aggregation.FlattenSnoc([], Ok([c]), Aggregation.ResultEntries);
    Aggregation.MapOfSnoc([], Aggregation.Identity("alice", "u1"));
    var failed: Result<seq<Commit>> := Err(EmptyRepository("r"));
    Aggregation.FlattenSnoc([], failed, Aggregation.ResultEntries);
  }

  /** Widening the window can remove a contributor: under ten seconds alice
      is aggregated, under sixty the walk reaches an unparsable date and
      fails. */
  lemma WiderWindowLosesIdentity()
    ensures var t := TimeWindow(Walker.SampleDates, 100, 10);
      var history := [Fetched(Walker.SamplePage())];
      && Aggregation.MapOf(Aggregation.Entries([Walker.Walk("r", history, t, 1, [])])) == map["alice" := "u1"]
      && Aggregation.MapOf(Aggregation.Entries([Walker.Walk("r", history, t.(length := 60), 1, [])])) == map[]
  {
    Walker.WiderWindowCanFail();
    var c := Walker.SamplePage()[0];
    Aggregation.FlattenSnoc([], c, Aggregation.Identities);
    assert Aggregation.CommitEntries([c]) == [Aggregation.Identity("alice", "u1")];
    Aggregation.FlattenSnoc([], Ok([c]), Aggregation.ResultEntries);
    Aggregation.MapOfSnoc([], Aggregation.Identity("alice", "u1"));
    var failed: Result<seq<Commit>> := Err(MalformedTimestamp("bad"));
    Aggregation.FlattenSnoc([], failed, Aggregation.ResultEntries);
  }
}
