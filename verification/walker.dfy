/** The per-repository commit walker `get_commits_info_by_url`: request
    commit pages 1, 2, 3, ... of one repository, keep the commits that carry
    git metadata while they are in the window, and stop at the first commit
    whose author and committer dates are both outside it. The repository's
    commit history is a finite sequence of fetch outcomes; asking for a page
    past its end yields an empty page, as the hosting service does. */
module Walker {
  import opened Types

  /** Commit page `page` (counted from 1) of a history. */
  function FetchPage(history: seq<FetchOutcome>, page: nat): (r: FetchOutcome)
    requires page >= 1
    ensures page > |history| ==> r == Fetched([])
  {
    if page <= |history| then history[page - 1] else Fetched([])
  }

  /** The error a failed commit-page request becomes: 409 CONFLICT is the
      service's "repository is empty" answer; everything else is a failed
      fetch. Both abort the walk. */
  function FetchFailure(url: string, status: Option<int>): (e: Error)
    ensures e.EmptyRepository? <==> status == Some(Conflict)
    ensures e == EmptyRepository(url) || e == CommitFetchFailed(url, status)
  {
    if status == Some(Conflict) then EmptyRepository(url) else CommitFetchFailed(url, status)
  }

  /** What the walk does with one commit. */
  datatype Verdict = Skip | Retain | Stop | BadDate(text: string)

  /** The judgement of one commit: without metadata it is skipped; the
      committer date is parsed before the author date; with both dates
      outside the window the walk stops, otherwise the commit is kept. */
  function Judge(c: Commit, t: TimeWindow): (v: Verdict)
  {
    match c.meta
    case None => Skip
    case Some(m) =>
      match t.parse(m.committerDate)
      case None => BadDate(m.committerDate)
      case Some(committed) =>
        match t.parse(m.authorDate)
        case None => BadDate(m.authorDate)
        case Some(authored) =>
          if !t.Contains(committed) && !t.Contains(authored) then Stop else Retain
  }

  /** What each verdict means in terms of the commit's fields. */
  lemma JudgeMeaning(c: Commit, t: TimeWindow)
    ensures Judge(c, t) == Skip <==> c.meta.None?
    ensures Judge(c, t) == Retain <==>
      && c.meta.Some?
      && t.parse(c.meta.value.committerDate).Some?
      && t.parse(c.meta.value.authorDate).Some?
      && (t.Contains(t.parse(c.meta.value.committerDate).value) || t.Contains(t.parse(c.meta.value.authorDate).value))
    ensures Judge(c, t) == Stop <==>
      && c.meta.Some?
      && t.parse(c.meta.value.committerDate).Some?
      && t.parse(c.meta.value.authorDate).Some?
      && !t.Contains(t.parse(c.meta.value.committerDate).value)
      && !t.Contains(t.parse(c.meta.value.authorDate).value)
    ensures Judge(c, t).BadDate? <==>
      c.meta.Some? && (t.parse(c.meta.value.committerDate).None? || t.parse(c.meta.value.authorDate).None?)
    ensures Judge(c, t).BadDate? ==>
      (Judge(c, t).text == if t.parse(c.meta.value.committerDate).None? then c.meta.value.committerDate else c.meta.value.authorDate)
  {
  }

  /** A commit that ends the walk, successfully or not. */
  predicate Halts(c: Commit, t: TimeWindow) {
    Judge(c, t).Stop? || Judge(c, t).BadDate?
  }

  /** The position of the first halting commit of a page, or its length. */
  function FirstHalt(cs: seq<Commit>, t: TimeWindow): (k: nat)
    ensures k <= |cs|
    ensures forall j :: 0 <= j < k ==> !Halts(cs[j], t)
    ensures k < |cs| ==> Halts(cs[k], t)
  {
    if cs == [] || Halts(cs[0], t) then 0 else 1 + FirstHalt(cs[1..], t)
  }

  /** The commits that carry git metadata, in order. */
  function Meta(cs: seq<Commit>): (r: seq<Commit>)
    ensures |r| <= |cs|
  {
    if cs == [] then []
    else (if cs[0].meta.Some? then [cs[0]] else []) + Meta(cs[1..])
  }

  lemma {:induction false} MetaMembers(cs: seq<Commit>)
    ensures forall c :: c in Meta(cs) <==> c in cs && c.meta.Some?
  {
    if cs != [] {
      MetaMembers(cs[1..]);
      assert cs == [cs[0]] + cs[1..];
    }
  }

  /** Before the first halting commit, every commit with metadata is kept. */
  lemma MetaRetained(cs: seq<Commit>, t: TimeWindow)
    requires forall j :: 0 <= j < |cs| ==> !Halts(cs[j], t)
    ensures forall c :: c in Meta(cs) ==> Judge(c, t) == Retain
  {
    MetaMembers(cs);
  }

  lemma {:induction false} MetaAppend(a: seq<Commit>, b: seq<Commit>)
    ensures Meta(a + b) == Meta(a) + Meta(b)
  {
    if a == [] {
      assert a + b == b;
    } else {
      var head := if a[0].meta.Some? then [a[0]] else [];
      assert (a + b)[0] == a[0];
      assert (a + b)[1..] == a[1..] + b;
      MetaAppend(a[1..], b);
      calc {
        Meta(a + b);
        head + Meta(a[1..] + b);
        head + (Meta(a[1..]) + Meta(b));
        (head + Meta(a[1..])) + Meta(b);
      }
    }
  }

  lemma MetaSingle(c: Commit)
    ensures Meta([c]) == if c.meta.Some? then [c] else []
  {
    assert [c][1..] == [];
  }

  /** How scanning one non-empty page ends: every commit passed and the
      walk moves to the next page with `kept`, or a commit halted it with
      result `r`. */
  datatype PageEnd = NextPage(kept: seq<Commit>) | Finished(r: Result<seq<Commit>>)

  /** Scanning page `cs` with `kept` accumulated before it. */
  function Scan(cs: seq<Commit>, t: TimeWindow, kept: seq<Commit>): (e: PageEnd) {
    var k := FirstHalt(cs, t);
    if k == |cs| then NextPage(kept + Meta(cs))
    else match Judge(cs[k], t)
      case BadDate(text) => Finished(Err(MalformedTimestamp(text)))
      case _ => Finished(Ok(kept + Meta(cs[..k])))
  }

  /** The walk from page `page` on, with `kept` accumulated so far. */
  function Walk(url: string, history: seq<FetchOutcome>, t: TimeWindow, page: nat, kept: seq<Commit>): (r: Result<seq<Commit>>)
    requires page >= 1
    decreases |history| + 1 - page
  {
    match FetchPage(history, page)
    case HttpError(status) => Err(FetchFailure(url, status))
    case Fetched(cs) =>
      if cs == [] then Ok(kept)
      else match Scan(cs, t, kept)
        case NextPage(more) => Walk(url, history, t, page + 1, more)
        case Finished(r) => r
  }

  /** The last page the walk requests when it starts at `page`. */
  function LastPage(history: seq<FetchOutcome>, t: TimeWindow, page: nat): (last: nat)
    requires page >= 1
    ensures page <= last
    decreases |history| + 1 - page
  {
    match FetchPage(history, page)
    case HttpError(_) => page
    case Fetched(cs) =>
      if cs != [] && FirstHalt(cs, t) == |cs| then LastPage(history, t, page + 1) else page
  }

  /** Every commit the walk can see from `page` on: the pages up to the
      first failed or empty one, concatenated. */
  function Seen(history: seq<FetchOutcome>, page: nat): seq<Commit>
    requires page >= 1
    decreases |history| + 1 - page
  {
    match FetchPage(history, page)
    case HttpError(_) => []
    case Fetched(cs) => if cs == [] then [] else cs + Seen(history, page + 1)
  }

  /** The commits of pages 1 to `page - 1`, concatenated. */
  function Before(history: seq<FetchOutcome>, page: nat): seq<Commit>
    requires page >= 1
  {
    if page == 1 then []
    else Before(history, page - 1) + match FetchPage(history, page - 1) {
      case Fetched(cs) => cs
      case HttpError(_) => []
    }
  }

  /** Pages 1 to `page - 1` were fetched, were not empty and held no
      halting commit: the walk moves past all of them. */
  ghost predicate Clear(history: seq<FetchOutcome>, t: TimeWindow, page: nat) {
    forall q :: 1 <= q < page ==>
      FetchPage(history, q).Fetched? && FetchPage(history, q).commits != []
      && FirstHalt(FetchPage(history, q).commits, t) == |FetchPage(history, q).commits|
  }

  /** The body of the page loop of `get_commits_info_by_url`: judge the
      commits of one non-empty page in order. */
  method ScanCommits(cs: seq<Commit>, t: TimeWindow, kept: seq<Commit>) returns (e: PageEnd)
    ensures e == Scan(cs, t, kept)
  {
    var acc := kept;
    assert cs[..0] == [] && kept + Meta([]) == kept;
    for i := 0 to |cs|
      invariant forall j :: 0 <= j < i ==> !Halts(cs[j], t)
      invariant acc == kept + Meta(cs[..i])
    {
      var c := cs[i];
      MetaStep(kept, cs, i);
      if c.meta.Some? {
        var committed := t.parse(c.meta.value.committerDate);
        if committed.None? {
          assert FirstHalt(cs, t) == i && Judge(c, t) == BadDate(c.meta.value.committerDate);
          return Finished(Err(MalformedTimestamp(c.meta.value.committerDate)));
        }
        var authored := t.parse(c.meta.value.authorDate);
        if authored.None? {
          assert FirstHalt(cs, t) == i && Judge(c, t) == BadDate(c.meta.value.authorDate);
          return Finished(Err(MalformedTimestamp(c.meta.value.authorDate)));
        }
        if !t.Contains(committed.value) && !t.Contains(authored.value) {
          assert FirstHalt(cs, t) == i && Judge(c, t) == Stop;
          return Finished(Ok(acc));
        }
        acc := acc + [c];
      }
      assert !Halts(cs[i], t);
    }
    assert cs[..|cs|] == cs;
    e := NextPage(acc);
  }

  /** One more commit of a page: the accumulated commits grow by it when it
      carries metadata. */
  lemma MetaStep(kept: seq<Commit>, cs: seq<Commit>, i: nat)
    requires i < |cs|
    ensures kept + Meta(cs[..i + 1]) == kept + Meta(cs[..i]) + (if cs[i].meta.Some? then [cs[i]] else [])
  {
    assert cs[..i + 1] == cs[..i] + [cs[i]];
    MetaAppend(cs[..i], [cs[i]]);
    MetaSingle(cs[i]);
  }

  /** The loop of `get_commits_info_by_url`: `requested` records the page
      numbers in the order they are asked for. */
  method CommitsInWindow(url: string, history: seq<FetchOutcome>, t: TimeWindow)
    returns (r: Result<seq<Commit>>, ghost requested: seq<nat>)
    ensures r == Walk(url, history, t, 1, [])
    ensures |requested| == LastPage(history, t, 1)
    ensures forall i :: 0 <= i < |requested| ==> requested[i] == i + 1
    ensures |requested| <= |history| + 1
  {
    var page := 1;
    var kept := [];
    requested := [];
    while true
      invariant 1 <= page <= |history| + 1
      invariant |requested| == page - 1
      invariant forall i :: 0 <= i < |requested| ==> requested[i] == i + 1
      invariant Walk(url, history, t, 1, []) == Walk(url, history, t, page, kept)
      invariant LastPage(history, t, 1) == LastPage(history, t, page)
      decreases |history| + 1 - page
    {
      requested := requested + [page];
      var fetched := FetchPage(history, page);
      match fetched {
        case HttpError(status) =>
          if status == Some(Conflict) {
            r := Err(EmptyRepository(url));
          } else {
            r := Err(CommitFetchFailed(url, status));
          }
          return;
        case Fetched(cs) =>
          if cs == [] {
            r := Ok(kept);
            return;
          }
          var scanned := ScanCommits(cs, t, kept);
          match scanned {
            case Finished(result) =>
              r := result;
              return;
            case NextPage(more) =>
              kept := more;
              page := page + 1;
          }
      }
    }
  }

  /** The shape of a successful walk from `page`: it extends `kept` by a
      prefix of the metadata-bearing commits it can see, keeps only commits
      in the window, and if it stops short, the next such commit is one with
      both dates outside the window. */
  lemma {:induction false} WalkOk(url: string, history: seq<FetchOutcome>, t: TimeWindow, page: nat, kept: seq<Commit>)
    requires page >= 1
    requires Walk(url, history, t, page, kept).Ok?
    ensures var r := Walk(url, history, t, page, kept).value;
      var all := kept + Meta(Seen(history, page));
      && kept <= r <= all
      && (forall j :: |kept| <= j < |r| ==> Judge(r[j], t) == Retain)
      && (|r| < |all| ==> Judge(all[|r|], t) == Stop)
    decreases |history| + 1 - page
  {
    match FetchPage(history, page)
    case Fetched(cs) =>
      if cs == [] {
        assert kept + Meta(Seen(history, page)) == kept + [];
      } else {
        var k := FirstHalt(cs, t);
        var next := Seen(history, page + 1);
        MetaAppend(cs, next);
        if k == |cs| {
          WalkOk(url, history, t, page + 1, kept + Meta(cs));
          MetaRetained(cs, t);
          PassedPage(kept, Meta(cs), Meta(next), Walk(url, history, t, page + 1, kept + Meta(cs)).value, t);
        } else {
          assert Judge(cs[k], t) == Stop;
          HaltedPage(kept, cs, k, Meta(next), t);
        }
      }
  }

  /** A page all of whose kept commits are in the window, followed by a walk
      of the right shape, gives a walk of the right shape. */
  lemma PassedPage(kept: seq<Commit>, mid: seq<Commit>, rest: seq<Commit>, r: seq<Commit>, t: TimeWindow)
    requires forall c :: c in mid ==> Judge(c, t) == Retain
    requires kept + mid <= r <= kept + mid + rest
    requires forall j :: |kept + mid| <= j < |r| ==> Judge(r[j], t) == Retain
    requires |r| < |kept + mid + rest| ==> Judge((kept + mid + rest)[|r|], t) == Stop
    ensures kept <= r <= kept + (mid + rest)
    ensures forall j :: |kept| <= j < |r| ==> Judge(r[j], t) == Retain
    ensures |r| < |kept + (mid + rest)| ==> Judge((kept + (mid + rest))[|r|], t) == Stop
  {
    assert kept + mid + rest == kept + (mid + rest);
    forall j | |kept| <= j < |kept + mid| ensures Judge(r[j], t) == Retain {
      assert r[j] == (kept + mid)[j] == mid[j - |kept|];
      assert mid[j - |kept|] in mid;
    }
  }

  /** A page halted by a commit with both dates outside the window gives a
      walk of the right shape. */
  lemma HaltedPage(kept: seq<Commit>, cs: seq<Commit>, k: nat, rest: seq<Commit>, t: TimeWindow)
    requires k < |cs| && Judge(cs[k], t) == Stop
    requires forall j :: 0 <= j < k ==> !Halts(cs[j], t)
    ensures var r := kept + Meta(cs[..k]);
      var all := kept + (Meta(cs) + rest);
      && kept <= r <= all
      && (forall j :: |kept| <= j < |r| ==> Judge(r[j], t) == Retain)
      && (|r| < |all| ==> Judge(all[|r|], t) == Stop)
  {
    var pre, post := cs[..k], cs[k + 1..];
    assert cs == pre + ([cs[k]] + post);
    MetaAppend(pre, [cs[k]] + post);
    MetaAppend([cs[k]], post);
    MetaSingle(cs[k]);
    var r := kept + Meta(pre);
    assert kept + (Meta(cs) + rest) == r + ([cs[k]] + (Meta(post) + rest));
    MetaRetained(pre, t);
    forall j | |kept| <= j < |r| ensures Judge(r[j], t) == Retain {
      assert r[j] == Meta(pre)[j - |kept|];
      assert Meta(pre)[j - |kept|] in Meta(pre);
    }
  }

  /** The longest prefix of `s` whose commits are all kept. */
  function TakeRetained(s: seq<Commit>, t: TimeWindow): (r: seq<Commit>)
    ensures r <= s
  {
    if s == [] || Judge(s[0], t) != Retain then [] else [s[0]] + TakeRetained(s[1..], t)
  }

  lemma {:induction false} IsTakeRetained(r: seq<Commit>, s: seq<Commit>, t: TimeWindow)
    requires r <= s
    requires forall j :: 0 <= j < |r| ==> Judge(r[j], t) == Retain
    requires |r| < |s| ==> Judge(s[|r|], t) == Stop
    ensures r == TakeRetained(s, t)
  {
    if r != [] {
      IsTakeRetained(r[1..], s[1..], t);
    }
  }

  /** A successful walk keeps exactly the longest run of in-window commits at
      the head of the metadata-bearing commits it fetched: each kept commit
      has metadata, both its dates parse and at least one lies in the window;
      nothing after the first commit with both dates outside is kept. */
  lemma WalkKeepsLongestInWindowPrefix(url: string, history: seq<FetchOutcome>, t: TimeWindow)
    requires Walk(url, history, t, 1, []).Ok?
    ensures Walk(url, history, t, 1, []).value == TakeRetained(Meta(Seen(history, 1)), t)
    ensures forall c :: c in Walk(url, history, t, 1, []).value ==>
      && c.meta.Some?
      && t.parse(c.meta.value.committerDate).Some?
      && t.parse(c.meta.value.authorDate).Some?
      && (t.Contains(t.parse(c.meta.value.committerDate).value) || t.Contains(t.parse(c.meta.value.authorDate).value))
  {
    WalkOk(url, history, t, 1, []);
    var r := Walk(url, history, t, 1, []).value;
    assert [] + Meta(Seen(history, 1)) == Meta(Seen(history, 1));
    IsTakeRetained(r, Meta(Seen(history, 1)), t);
    forall c | c in r ensures Judge(c, t) == Retain {
      var j :| 0 <= j < |r| && r[j] == c;
    }
    forall c | c in r {
      JudgeMeaning(c, t);
    }
  }

  /** A commit kept under a window is kept under any wider one. */
  lemma RetainWider(c: Commit, t: TimeWindow, wider: int)
    requires t.length <= wider && Judge(c, t) == Retain
    ensures Judge(c, t.(length := wider)) == Retain
  {
    JudgeMeaning(c, t);
    JudgeMeaning(c, t.(length := wider));
  }

  /** The longest in-window prefix only grows when the window widens. */
  lemma {:induction false} TakeRetainedWider(s: seq<Commit>, t: TimeWindow, wider: int)
    requires t.length <= wider
    ensures TakeRetained(s, t) <= TakeRetained(s, t.(length := wider))
  {
    if s != [] && Judge(s[0], t) == Retain {
      RetainWider(s[0], t, wider);
      TakeRetainedWider(s[1..], t, wider);
    }
  }

  /** When the walks under a window and under a wider one both succeed, the
      narrower walk's commits are a prefix of the wider walk's. */
  lemma WiderWindowExtends(url: string, history: seq<FetchOutcome>, t: TimeWindow, wider: int)
    requires t.length <= wider
    requires Walk(url, history, t, 1, []).Ok?
    requires Walk(url, history, t.(length := wider), 1, []).Ok?
    ensures Walk(url, history, t, 1, []).value <= Walk(url, history, t.(length := wider), 1, []).value
  {
    WalkKeepsLongestInWindowPrefix(url, history, t);
    WalkKeepsLongestInWindowPrefix(url, history, t.(length := wider));
    TakeRetainedWider(Meta(Seen(history, 1)), t, wider);
  }

  /** Dates of the sample below: "new" is instant 100, "mid" instant 50, and
      nothing else parses. */
  function SampleDates(text: string): (instant: Option<int>)
    ensures instant.Some? <==> text == "new" || text == "mid"
  {
    if text == "new" then Some(100) else if text == "mid" then Some(50) else None
  }

  /** A page of three commits: a recent one by alice, an older one, and one
      whose dates do not parse. */
  function SamplePage(): (cs: seq<Commit>)
    ensures |cs| == 3
  {
    [Commit(Some(CommitMeta("new", "new")), Some(Author(Some("alice"), Some("u1"))), None),
     Commit(Some(CommitMeta("mid", "mid")), None, None),
     Commit(Some(CommitMeta("bad", "bad")), None, None)]
  }

  /** Widening the window can turn a successful walk into a failed one: the
      older commit no longer stops the walk, so the walk reaches the commit
      whose dates do not parse. */
  lemma WiderWindowCanFail()
    ensures var t := TimeWindow(SampleDates, 100, 10);
      && Walk("r", [Fetched(SamplePage())], t, 1, []) == Ok([SamplePage()[0]])
      && Walk("r", [Fetched(SamplePage())], t.(length := 60), 1, []) == Err(MalformedTimestamp("bad"))
  {
    var cs := SamplePage();
    var t := TimeWindow(SampleDates, 100, 10);
    var t' := t.(length := 60);
    assert Judge(cs[0], t) == Retain && Judge(cs[1], t) == Stop;
    assert FirstHalt(cs, t) == 1;
    assert cs[..1] == [cs[0]];
    MetaSingle(cs[0]);
    assert FetchPage([Fetched(cs)], 1) == Fetched(cs);
    assert Scan(cs, t, []) == Finished(Ok([] + Meta([cs[0]])));
    assert [] + Meta([cs[0]]) == [cs[0]];
    assert Walk("r", [Fetched(cs)], t, 1, []) == Ok([cs[0]]);
    assert Judge(cs[0], t') == Retain && Judge(cs[1], t') == Retain && Judge(cs[2], t') == BadDate("bad");
    assert FirstHalt(cs, t') == 2;
    assert Scan(cs, t', []) == Finished(Err(MalformedTimestamp("bad")));
  }

  /** A 409 answer after a page that kept commits still fails the whole walk:
      the commits already kept are dropped. */
  lemma LateConflictDropsKeptCommits()
    ensures var t := TimeWindow(SampleDates, 100, 10);
      var history := [Fetched([SamplePage()[0]]), HttpError(Some(Conflict))];
      && Meta(Before(history, 2)) == [SamplePage()[0]]
      && Walk("r", history, t, 1, []) == Err(EmptyRepository("r"))
  {
    var c := SamplePage()[0];
    var t := TimeWindow(SampleDates, 100, 10);
    var history := [Fetched([c]), HttpError(Some(Conflict))];
    assert Judge(c, t) == Retain;
    assert FirstHalt([c], t) == 1;
    MetaSingle(c);
    assert Before(history, 2) == [] + [c];
    assert Clear(history, t, 2);
    assert FetchPage(history, 2) == HttpError(Some(Conflict));
    WalkAbortsOnFetchError("r", history, t, 2, Some(Conflict));
    assert Walk("r", history, t, 1, []) == Err(EmptyRepository("r"));
  }

  /** Moving past clear pages: the walk reaches page `page` having kept the
      metadata-bearing commits of all pages before it. */
  lemma {:induction false} WalkReaches(url: string, history: seq<FetchOutcome>, t: TimeWindow, page: nat)
    requires page >= 1 && Clear(history, t, page)
    ensures Walk(url, history, t, 1, []) == Walk(url, history, t, page, Meta(Before(history, page)))
    ensures LastPage(history, t, 1) == LastPage(history, t, page)
  {
    if page > 1 {
      WalkReaches(url, history, t, page - 1);
      var cs := FetchPage(history, page - 1).commits;
      MetaAppend(Before(history, page - 1), cs);
    }
  }

  /** A failed page request aborts the walk with no partial result; on 409
      CONFLICT the error is "repository is empty". No later page is asked
      for. */
  lemma WalkAbortsOnFetchError(url: string, history: seq<FetchOutcome>, t: TimeWindow, page: nat, status: Option<int>)
    requires page >= 1 && Clear(history, t, page)
    requires FetchPage(history, page) == HttpError(status)
    ensures Walk(url, history, t, 1, []) == Err(FetchFailure(url, status))
    ensures status == Some(Conflict) ==> Walk(url, history, t, 1, []) == Err(EmptyRepository(url))
    ensures LastPage(history, t, 1) == page
  {
    WalkReaches(url, history, t, page);
  }

  /** An empty page ends the walk successfully with exactly the commits kept
      so far; no later page is asked for. */
  lemma WalkEndsOnEmptyPage(url: string, history: seq<FetchOutcome>, t: TimeWindow, page: nat)
    requires page >= 1 && Clear(history, t, page)
    requires FetchPage(history, page) == Fetched([])
    ensures Walk(url, history, t, 1, []) == Ok(Meta(Before(history, page)))
    ensures LastPage(history, t, 1) == page
  {
    WalkReaches(url, history, t, page);
  }

  /** The first halting commit ends the walk on its page: with both dates
      outside the window it succeeds with the commits before it, with an
      unparsable date it fails; no later page is asked for. */
  lemma WalkHalts(url: string, history: seq<FetchOutcome>, t: TimeWindow, page: nat)
    requires page >= 1 && Clear(history, t, page)
    requires FetchPage(history, page).Fetched?
    requires FirstHalt(FetchPage(history, page).commits, t) < |FetchPage(history, page).commits|
    ensures var cs := FetchPage(history, page).commits;
      var k := FirstHalt(cs, t);
      Walk(url, history, t, 1, []) ==
        if Judge(cs[k], t).BadDate? then Err(MalformedTimestamp(Judge(cs[k], t).text))
        else Ok(Meta(Before(history, page)) + Meta(cs[..k]))
    ensures LastPage(history, t, 1) == page
  {
    WalkReaches(url, history, t, page);
  }
}
