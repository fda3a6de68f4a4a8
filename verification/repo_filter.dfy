/** The repository window filter run at the start of `main`: keep each
    listed repository whose last push lies in the trailing window, in listing
    order; a push time that does not parse fails the whole run. */
module RepoFilter {
  import opened Types

  /** Order-preserving filter: the reference the prefilter is compared with. */
  function Filter<T(!new)>(s: seq<T>, keep: T -> bool): (r: seq<T>)
    ensures |r| <= |s|
    ensures forall x :: x in r <==> x in s && keep(x)
  {
    if s == [] then []
    else (if keep(s[0]) then [s[0]] else []) + Filter(s[1..], keep)
  }

  /** `a` can be obtained from `b` by deleting elements. */
  ghost predicate IsSubsequence<T>(a: seq<T>, b: seq<T>)
    decreases |b|
  {
    a == [] || (b != [] && ((a[0] == b[0] && IsSubsequence(a[1..], b[1..])) || IsSubsequence(a, b[1..])))
  }

  lemma {:induction false} FilterIsSubsequence<T(!new)>(s: seq<T>, keep: T -> bool)
    ensures IsSubsequence(Filter(s, keep), s)
  {
    if s != [] {
      FilterIsSubsequence(s[1..], keep);
      var rest := Filter(s[1..], keep);
      if keep(s[0]) {
        assert ([s[0]] + rest)[1..] == rest;
      } else {
        assert Filter(s, keep) == rest;
      }
    }
  }

  /** Filtering with a weaker predicate keeps at least the same elements,
      in the same order. */
  lemma {:induction false} FilterWeaker<T(!new)>(s: seq<T>, p: T -> bool, q: T -> bool)
    requires forall x :: p(x) ==> q(x)
    ensures IsSubsequence(Filter(s, p), Filter(s, q))
  {
    if s != [] {
      FilterWeaker(s[1..], p, q);
      var fp, fq := Filter(s[1..], p), Filter(s[1..], q);
      if p(s[0]) {
        assert Filter(s, p) == [s[0]] + fp && Filter(s, q) == [s[0]] + fq;
        assert ([s[0]] + fp)[1..] == fp && ([s[0]] + fq)[1..] == fq;
      } else if q(s[0]) {
        assert Filter(s, p) == fp && Filter(s, q) == [s[0]] + fq;
        assert ([s[0]] + fq)[1..] == fq;
      } else {
        assert Filter(s, p) == fp && Filter(s, q) == fq;
      }
    }
  }

  /** A repository is recent when its push time parses and lies in the window. */
  predicate Recent(t: TimeWindow, repo: Repo) {
    t.parse(repo.pushedAt).Some? && t.Contains(t.parse(repo.pushedAt).value)
  }

  /** The prefilter as a value: the first unparsable push time (in listing
      order) fails it; otherwise it keeps the repositories pushed within the
      window. */
  function Prefilter(repos: seq<Repo>, t: TimeWindow): (r: Result<seq<Repo>>)
  {
    if repos == [] then Ok([])
    else match t.parse(repos[0].pushedAt)
      case None => Err(MalformedTimestamp(repos[0].pushedAt))
      case Some(pushed) =>
        match Prefilter(repos[1..], t)
        case Err(e) => Err(e)
        case Ok(rest) => Ok(if t.Contains(pushed) then [repos[0]] + rest else rest)
  }

  /** Puts `kept` in front of a successful result; an error passes through. */
  function Prepend(kept: seq<Repo>, r: Result<seq<Repo>>): Result<seq<Repo>> {
    match r
    case Err(e) => Err(e)
    case Ok(rest) => Ok(kept + rest)
  }

  /** Prepending twice is prepending the concatenation. */
  lemma PrependTwice(a: seq<Repo>, b: seq<Repo>, r: Result<seq<Repo>>)
    ensures Prepend(a, Prepend(b, r)) == Prepend(a + b, r)
  {
    if r.Ok? {
      assert a + (b + r.value) == a + b + r.value;
    }
  }

  /** One step of the prefilter over the suffix starting at `i`. */
  lemma PrefilterStep(repos: seq<Repo>, t: TimeWindow, i: nat)
    requires i < |repos|
    ensures Prefilter(repos[i..], t) ==
      match t.parse(repos[i].pushedAt)
      case None => Err(MalformedTimestamp(repos[i].pushedAt))
      case Some(pushed) => Prepend(if t.Contains(pushed) then [repos[i]] else [], Prefilter(repos[i + 1..], t))
  {
    assert repos[i..][0] == repos[i];
    assert repos[i..][1..] == repos[i + 1..];
    if t.parse(repos[i].pushedAt).Some? && Prefilter(repos[i + 1..], t).Ok? {
      assert [] + Prefilter(repos[i + 1..], t).value == Prefilter(repos[i + 1..], t).value;
    }
  }

  /** The loop of `main` that pushes into `filter_repos`. */
  method FilterRepos(repos: seq<Repo>, t: TimeWindow) returns (r: Result<seq<Repo>>)
    ensures r == Prefilter(repos, t)
  {
    var kept: seq<Repo> := [];
    assert repos[0..] == repos;
    match Prefilter(repos, t) {
      case Err(_) =>
      case Ok(rest) => assert kept + rest == rest;
    }
    for i := 0 to |repos|
      invariant Prefilter(repos, t) == Prepend(kept, Prefilter(repos[i..], t))
    {
      PrefilterStep(repos, t, i);
      var pushed := t.parse(repos[i].pushedAt);
      if pushed.None? {
        return Err(MalformedTimestamp(repos[i].pushedAt));
      }
      if t.Contains(pushed.value) {
        PrependTwice(kept, [repos[i]], Prefilter(repos[i + 1..], t));
        kept := kept + [repos[i]];
      } else {
        PrependTwice(kept, [], Prefilter(repos[i + 1..], t));
        assert kept + [] == kept;
      }
    }
    assert repos[|repos|..] == [];
    assert kept + [] == kept;
    r := Ok(kept);
  }

  /** The prefilter fails exactly when some push time does not parse, and it
      then reports the first such one. */
  lemma {:induction false} PrefilterFails(repos: seq<Repo>, t: TimeWindow)
    ensures Prefilter(repos, t).Err? <==> exists i :: 0 <= i < |repos| && t.parse(repos[i].pushedAt).None?
    ensures Prefilter(repos, t).Err? ==>
      exists i :: 0 <= i < |repos| && t.parse(repos[i].pushedAt).None?
        && (forall j :: 0 <= j < i ==> t.parse(repos[j].pushedAt).Some?)
        && Prefilter(repos, t).error == MalformedTimestamp(repos[i].pushedAt)
  {
    if repos != [] {
      PrefilterFails(repos[1..], t);
      if t.parse(repos[0].pushedAt).Some? {
        if Prefilter(repos, t).Err? {
          var i :| 0 <= i < |repos[1..]| && t.parse(repos[1..][i].pushedAt).None?
            && (forall j :: 0 <= j < i ==> t.parse(repos[1..][j].pushedAt).Some?)
            && Prefilter(repos[1..], t).error == MalformedTimestamp(repos[1..][i].pushedAt);
          assert forall j :: 0 <= j < i + 1 ==> t.parse(repos[j].pushedAt).Some? by {
            forall j | 0 <= j < i + 1 ensures t.parse(repos[j].pushedAt).Some? {
              if j > 0 { assert repos[j] == repos[1..][j - 1]; }
            }
          }
          assert repos[i + 1] == repos[1..][i];
        } else {
          forall i | 0 <= i < |repos| ensures t.parse(repos[i].pushedAt).Some? {
            if i > 0 { assert repos[i] == repos[1..][i - 1]; }
          }
        }
      }
    }
  }

  /** A successful prefilter keeps exactly the recent repositories, in
      listing order. */
  lemma {:induction false} PrefilterKeepsRecent(repos: seq<Repo>, t: TimeWindow)
    requires Prefilter(repos, t).Ok?
    ensures Prefilter(repos, t).value == Filter(repos, x => Recent(t, x))
  {
    if repos != [] {
      PrefilterKeepsRecent(repos[1..], t);
    }
  }

  /** The property as the run relies on it: membership and order. */
  lemma PrefilterExactly(repos: seq<Repo>, t: TimeWindow)
    requires Prefilter(repos, t).Ok?
    ensures forall x :: x in Prefilter(repos, t).value <==> x in repos && Recent(t, x)
    ensures IsSubsequence(Prefilter(repos, t).value, repos)
  {
    PrefilterKeepsRecent(repos, t);
    FilterIsSubsequence(repos, x => Recent(t, x));
  }

  /** Widening the window can only add repositories: whatever a narrower
      window keeps, a wider one keeps too, in the same order. */
  lemma WindowMonotonic(repos: seq<Repo>, t: TimeWindow, wider: int)
    requires Prefilter(repos, t).Ok?
    requires t.length <= wider
    ensures Prefilter(repos, t.(length := wider)).Ok?
    ensures IsSubsequence(Prefilter(repos, t).value, Prefilter(repos, t.(length := wider)).value)
  {
    var t' := t.(length := wider);
    PrefilterFails(repos, t);
    PrefilterFails(repos, t');
    PrefilterKeepsRecent(repos, t);
    PrefilterKeepsRecent(repos, t');
    FilterWeaker(repos, x => Recent(t, x), x => Recent(t', x));
  }
}
