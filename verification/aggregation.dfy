/** Identity aggregation in `main`: fold the commits of every successful
    walk into a map from login to profile URL. An author or committer
    reference counts only when both its login and its URL are present; a
    failed walk is only logged and adds nothing; a later insert of a login
    overwrites an earlier one. */
module Aggregation {
  import opened Types

  /** A contributor: a login with its profile URL. */
  datatype Identity = Identity(login: string, url: string)

  /** The identity an account reference contributes, if any. */
  function IdentityOf(a: Option<Author>): (r: seq<Identity>)
    ensures |r| <= 1
  {
    match a
    case Some(Author(Some(login), Some(url))) => [Identity(login, url)]
    case _ => []
  }

  /** A reference contributes exactly its own login and URL, and only when
      both are present. */
  lemma IdentityOfMembers(a: Option<Author>)
    ensures forall e :: e in IdentityOf(a) <==> a.Some? && a.value.login == Some(e.login) && a.value.htmlUrl == Some(e.url)
  {
  }

  /** The identities one commit contributes: its author's, then its committer's. */
  function Identities(c: Commit): seq<Identity> {
    IdentityOf(c.author) + IdentityOf(c.committer)
  }

  /** The concatenation of `f` over `s`, in order. */
  function Flatten<T, U>(s: seq<T>, f: T -> seq<U>): seq<U> {
    if s == [] then [] else Flatten(s[..|s| - 1], f) + f(s[|s| - 1])
  }

  lemma FlattenSnoc<T, U>(s: seq<T>, x: T, f: T -> seq<U>)
    ensures Flatten(s + [x], f) == Flatten(s, f) + f(x)
  {
    assert (s + [x])[..|s|] == s;
  }

  lemma {:induction false} FlattenAppend<T, U>(a: seq<T>, b: seq<T>, f: T -> seq<U>)
    ensures Flatten(a + b, f) == Flatten(a, f) + Flatten(b, f)
    decreases |b|
  {
    if b == [] {
      assert a + b == a;
    } else {
      var b' := b[..|b| - 1];
      assert a + b == (a + b') + [b[|b| - 1]];
      FlattenSnoc(a + b', b[|b| - 1], f);
      FlattenAppend(a, b', f);
    }
  }

  /** Whatever the concatenation holds comes from some element. */
  lemma {:induction false} FlattenSource<T, U>(s: seq<T>, f: T -> seq<U>, e: U) returns (i: nat)
    requires e in Flatten(s, f)
    ensures i < |s| && e in f(s[i])
  {
    var init := s[..|s| - 1];
    if e in f(s[|s| - 1]) {
      i := |s| - 1;
    } else {
      i := FlattenSource(init, f, e);
      assert s[i] == init[i];
    }
  }

  /** Whatever an element contributes is in the concatenation. */
  lemma {:induction false} FlattenHas<T, U>(s: seq<T>, f: T -> seq<U>, i: nat, e: U)
    requires i < |s| && e in f(s[i])
    ensures e in Flatten(s, f)
  {
    if i < |s| - 1 {
      var init := s[..|s| - 1];
      assert init[i] == s[i];
      FlattenHas(init, f, i, e);
    }
  }

  lemma FlattenMembers<T, U>(s: seq<T>, f: T -> seq<U>)
    ensures forall e :: e in Flatten(s, f) <==> exists i :: 0 <= i < |s| && e in f(s[i])
  {
    forall e | e in Flatten(s, f) ensures exists i :: 0 <= i < |s| && e in f(s[i]) {
      var i := FlattenSource(s, f, e);
    }
    forall e | exists i :: 0 <= i < |s| && e in f(s[i]) ensures e in Flatten(s, f) {
      var i :| 0 <= i < |s| && e in f(s[i]);
      FlattenHas(s, f, i, e);
    }
  }

  /** The identities of a run of commits, in insertion order. */
  function CommitEntries(cs: seq<Commit>): (es: seq<Identity>) {
    Flatten(cs, Identities)
  }

  /** What one walk result contributes: its commits' identities, or nothing
      when the walk failed. */
  function ResultEntries(r: Result<seq<Commit>>): (es: seq<Identity>) {
    match r
    case Ok(cs) => CommitEntries(cs)
    case Err(_) => []
  }

  /** The identities of all walk results, in insertion order. */
  function Entries(rs: seq<Result<seq<Commit>>>): (es: seq<Identity>) {
    Flatten(rs, ResultEntries)
  }

  /** The map after inserting `es` in order into an empty map. */
  function MapOf(es: seq<Identity>): (m: map<string, string>) {
    if es == [] then map[] else MapOf(es[..|es| - 1])[es[|es| - 1].login := es[|es| - 1].url]
  }

  lemma MapOfSnoc(es: seq<Identity>, e: Identity)
    ensures MapOf(es + [e]) == MapOf(es)[e.login := e.url]
  {
    assert (es + [e])[..|es|] == es;
  }

  /** Inserting one reference: the map gains its login and URL when both
      are present, and is unchanged otherwise. */
  lemma InsertReference(es: seq<Identity>, a: Option<Author>)
    ensures MapOf(es + IdentityOf(a)) ==
      if a.Some? && a.value.htmlUrl.Some? && a.value.login.Some?
      then MapOf(es)[a.value.login.value := a.value.htmlUrl.value]
      else MapOf(es)
  {
    if a.Some? && a.value.htmlUrl.Some? && a.value.login.Some? {
      MapOfSnoc(es, Identity(a.value.login.value, a.value.htmlUrl.value));
    } else {
      assert es + IdentityOf(a) == es;
    }
  }

  lemma CommitEntriesStep(pre: seq<Identity>, cs: seq<Commit>, j: nat)
    requires j < |cs|
    ensures pre + CommitEntries(cs[..j + 1]) == pre + CommitEntries(cs[..j]) + IdentityOf(cs[j].author) + IdentityOf(cs[j].committer)
  {
    assert cs[..j + 1] == cs[..j] + [cs[j]];
    FlattenSnoc(cs[..j], cs[j], Identities);
  }

  lemma EntriesStep(rs: seq<Result<seq<Commit>>>, i: nat)
    requires i < |rs|
    ensures Entries(rs[..i + 1]) == Entries(rs[..i]) + ResultEntries(rs[i])
  {
    assert rs[..i + 1] == rs[..i] + [rs[i]];
    FlattenSnoc(rs[..i], rs[i], ResultEntries);
  }

  /** The fold of `main` over the collected walk results. */
  method Aggregate(rs: seq<Result<seq<Commit>>>) returns (m: map<string, string>)
    ensures m == MapOf(Entries(rs))
  {
    m := map[];
    for i := 0 to |rs|
      invariant m == MapOf(Entries(rs[..i]))
    {
      EntriesStep(rs, i);
      match rs[i] {
        case Ok(commits) =>
          assert commits[..0] == [] && Entries(rs[..i]) + Flatten([], Identities) == Entries(rs[..i]);
          for j := 0 to |commits|
            invariant m == MapOf(Entries(rs[..i]) + CommitEntries(commits[..j]))
          {
            var c := commits[j];
            ghost var before := Entries(rs[..i]) + CommitEntries(commits[..j]);
            InsertReference(before, c.author);
            if c.author.Some? && c.author.value.htmlUrl.Some? && c.author.value.login.Some? {
              m := m[c.author.value.login.value := c.author.value.htmlUrl.value];
            }
            InsertReference(before + IdentityOf(c.author), c.committer);
            if c.committer.Some? && c.committer.value.htmlUrl.Some? && c.committer.value.login.Some? {
              m := m[c.committer.value.login.value := c.committer.value.htmlUrl.value];
            }
            CommitEntriesStep(Entries(rs[..i]), commits, j);
          }
          assert commits[..|commits|] == commits;
        case Err(_) =>
          assert Entries(rs[..i]) + [] == Entries(rs[..i]);
      }
    }
    assert rs[..|rs|] == rs;
  }

  /** The logins in the map are exactly those inserted. */
  lemma {:induction false} MapOfKeys(es: seq<Identity>)
    ensures forall l :: l in MapOf(es) <==> exists i :: 0 <= i < |es| && es[i].login == l
  {
    if es != [] {
      var init := es[..|es| - 1];
      MapOfKeys(init);
      forall l | l in MapOf(es) ensures exists i :: 0 <= i < |es| && es[i].login == l {
        if l != es[|es| - 1].login {
          assert l in MapOf(init);
          var i :| 0 <= i < |init| && init[i].login == l;
          assert es[i] == init[i];
        }
      }
      forall l | exists i :: 0 <= i < |es| && es[i].login == l ensures l in MapOf(es) {
        var i :| 0 <= i < |es| && es[i].login == l;
        if i < |es| - 1 {
          assert init[i] == es[i];
        }
      }
    }
  }

  /** Last write wins: each login maps to the URL of its last insertion. */
  lemma {:induction false} MapOfLastWins(es: seq<Identity>, l: string)
    requires l in MapOf(es)
    ensures exists i :: 0 <= i < |es| && es[i] == Identity(l, MapOf(es)[l])
                        && forall j :: i < j < |es| ==> es[j].login != l
  {
    var init := es[..|es| - 1];
    if es[|es| - 1].login != l {
      MapOfLastWins(init, l);
      var i :| 0 <= i < |init| && init[i] == Identity(l, MapOf(init)[l])
               && forall j :: i < j < |init| ==> init[j].login != l;
      assert es[i] == init[i];
      forall j | i < j < |es| ensures es[j].login != l {
        if j < |es| - 1 { assert es[j] == init[j]; }
      }
    }
  }

  /** An identity is aggregated exactly when some commit of some successful
      walk carries it; failed walks contribute nothing. */
  lemma EntriesMembers(rs: seq<Result<seq<Commit>>>)
    ensures forall e :: e in Entries(rs) <==>
      exists i, k :: 0 <= i < |rs| && rs[i].Ok? && 0 <= k < |rs[i].value| && e in Identities(rs[i].value[k])
  {
    FlattenMembers(rs, ResultEntries);
    forall i | 0 <= i < |rs| && rs[i].Ok? {
      FlattenMembers(rs[i].value, Identities);
    }
    forall e | e in Entries(rs)
      ensures exists i, k :: 0 <= i < |rs| && rs[i].Ok? && 0 <= k < |rs[i].value| && e in Identities(rs[i].value[k])
    {
      var i :| 0 <= i < |rs| && e in ResultEntries(rs[i]);
      var k :| 0 <= k < |rs[i].value| && e in Identities(rs[i].value[k]);
    }
    forall e | exists i, k :: 0 <= i < |rs| && rs[i].Ok? && 0 <= k < |rs[i].value| && e in Identities(rs[i].value[k])
      ensures e in Entries(rs)
    {
      var i, k :| 0 <= i < |rs| && rs[i].Ok? && 0 <= k < |rs[i].value| && e in Identities(rs[i].value[k]);
      assert e in ResultEntries(rs[i]);
    }
  }

  /** An account reference that qualifies for aggregation under `login`. */
  predicate Qualifies(a: Option<Author>, login: string) {
    a.Some? && a.value.login == Some(login) && a.value.htmlUrl.Some?
  }

  /** A commit carries `login` for aggregation exactly when one of its
      identities has that login. */
  lemma CarriesLogin(c: Commit, login: string)
    ensures (Qualifies(c.author, login) || Qualifies(c.committer, login)) <==>
      exists e :: e in Identities(c) && e.login == login
  {
    IdentityOfMembers(c.author);
    IdentityOfMembers(c.committer);
    if Qualifies(c.author, login) {
      assert Identity(login, c.author.value.htmlUrl.value) in Identities(c);
    } else if Qualifies(c.committer, login) {
      assert Identity(login, c.committer.value.htmlUrl.value) in Identities(c);
    }
  }

  /** A login is in the aggregated map exactly when an author or committer
      reference of a commit of a successful walk has that login and a URL. */
  lemma AggregatedLogins(rs: seq<Result<seq<Commit>>>, login: string)
    ensures login in MapOf(Entries(rs)) <==>
      exists i, k :: 0 <= i < |rs| && rs[i].Ok? && 0 <= k < |rs[i].value|
        && (Qualifies(rs[i].value[k].author, login) || Qualifies(rs[i].value[k].committer, login))
  {
    var es := Entries(rs);
    MapOfKeys(es);
    EntriesMembers(rs);
    if login in MapOf(es) {
      var j :| 0 <= j < |es| && es[j].login == login;
      assert es[j] in es;
      var i, k :| 0 <= i < |rs| && rs[i].Ok? && 0 <= k < |rs[i].value| && es[j] in Identities(rs[i].value[k]);
      CarriesLogin(rs[i].value[k], login);
    }
    if exists i, k :: 0 <= i < |rs| && rs[i].Ok? && 0 <= k < |rs[i].value|
        && (Qualifies(rs[i].value[k].author, login) || Qualifies(rs[i].value[k].committer, login))
    {
      var i, k :| 0 <= i < |rs| && rs[i].Ok? && 0 <= k < |rs[i].value|
        && (Qualifies(rs[i].value[k].author, login) || Qualifies(rs[i].value[k].committer, login));
      CarriesLogin(rs[i].value[k], login);
      var e :| e in Identities(rs[i].value[k]) && e.login == login;
      assert e in es;
      var n :| 0 <= n < |es| && es[n] == e;
    }
  }

  /** Each aggregated URL is the URL some successful walk's commit gives for
      that login. */
  lemma AggregatedUrl(rs: seq<Result<seq<Commit>>>, login: string)
    requires login in MapOf(Entries(rs))
    ensures exists i, k :: 0 <= i < |rs| && rs[i].Ok? && 0 <= k < |rs[i].value|
                          && Identity(login, MapOf(Entries(rs))[login]) in Identities(rs[i].value[k])
  {
    var es := Entries(rs);
    EntriesMembers(rs);
    MapOfLastWins(es, login);
    var j :| 0 <= j < |es| && es[j] == Identity(login, MapOf(es)[login])
             && forall m :: j < m < |es| ==> es[m].login != login;
    assert es[j] in es;
  }

  /** A failed walk, wherever it completes, leaves the map unchanged. */
  lemma FailedWalkAddsNothing(before: seq<Result<seq<Commit>>>, e: Error, after: seq<Result<seq<Commit>>>)
    ensures MapOf(Entries(before + [Err(e)] + after)) == MapOf(Entries(before + after))
  {
    var failed: seq<Result<seq<Commit>>> := [Err(e)];
    FlattenAppend(before + failed, after, ResultEntries);
    FlattenSnoc(before, Err(e), ResultEntries);
    FlattenAppend(before, after, ResultEntries);
    assert ResultEntries(Err(e)) == [];
    assert Entries(before + failed) == Entries(before);
    assert Entries(before + failed + after) == Entries(before + after);
  }

  /** Every login is inserted with one URL only. */
  ghost predicate Consistent(es: seq<Identity>) {
    forall i, j :: 0 <= i < |es| && 0 <= j < |es| && es[i].login == es[j].login ==> es[i].url == es[j].url
  }

  /** An identity a walk result contributes is still contributed when the
      results arrive in another order. */
  lemma MovedIdentity(rs: seq<Result<seq<Commit>>>, rs': seq<Result<seq<Commit>>>, e: Identity)
    requires multiset(rs) == multiset(rs')
    requires e in Entries(rs)
    ensures e in Entries(rs')
  {
    var i := FlattenSource(rs, ResultEntries, e);
    assert rs[i] in multiset(rs');
    var i' :| 0 <= i' < |rs'| && rs'[i'] == rs[i];
    FlattenHas(rs', ResultEntries, i', e);
  }

  /** Every inserted login is a key. */
  lemma {:induction false} MapOfHasKey(es: seq<Identity>, i: nat)
    requires i < |es|
    ensures es[i].login in MapOf(es)
  {
    if i < |es| - 1 {
      var init := es[..|es| - 1];
      assert init[i] == es[i];
      MapOfHasKey(init, i);
    }
  }

  /** A login looks up the same URL in the map of any sequence holding the
      same identities, when every login comes with one URL. */
  lemma SameLookup(es: seq<Identity>, es': seq<Identity>, l: string)
    requires forall e :: e in es <==> e in es'
    requires Consistent(es)
    requires l in MapOf(es)
    ensures l in MapOf(es') && MapOf(es')[l] == MapOf(es)[l]
  {
    MapOfLastWins(es, l);
    var i :| 0 <= i < |es| && es[i] == Identity(l, MapOf(es)[l]) && forall j :: i < j < |es| ==> es[j].login != l;
    assert es[i] in es';
    var k :| 0 <= k < |es'| && es'[k] == es[i];
    MapOfHasKey(es', k);
    MapOfLastWins(es', l);
    var i' :| 0 <= i' < |es'| && es'[i'] == Identity(l, MapOf(es')[l]) && forall j :: i' < j < |es'| ==> es'[j].login != l;
    assert es'[i'] in es;
    var n :| 0 <= n < |es| && es[n] == es'[i'];
  }

  /** When every login comes with one URL, the map does not depend on the
      order in which the walks complete. */
  lemma CompletionOrderIrrelevant(rs: seq<Result<seq<Commit>>>, rs': seq<Result<seq<Commit>>>)
    requires multiset(rs) == multiset(rs')
    requires Consistent(Entries(rs))
    ensures MapOf(Entries(rs)) == MapOf(Entries(rs'))
  {
    var es, es' := Entries(rs), Entries(rs');
    forall e ensures e in es <==> e in es' {
      if e in es { MovedIdentity(rs, rs', e); }
      if e in es' { MovedIdentity(rs', rs, e); }
    }
    var m, m' := MapOf(es), MapOf(es');
    forall l | l in m ensures l in m' && m'[l] == m[l] {
      SameLookup(es, es', l);
    }
    forall l | l in m' ensures l in m {
      MapOfKeys(es');
      var i :| 0 <= i < |es'| && es'[i].login == l;
      assert es'[i] in es;
      var n :| 0 <= n < |es| && es[n] == es'[i];
      MapOfHasKey(es, n);
    }
    assert m.Keys == m'.Keys;
  }
}
