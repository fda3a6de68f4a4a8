/** Membership filtering and output at the end of `main`: every aggregated
    login is checked against the organisation (`is_org_user`), the checks
    complete in some order, and the results are then walked in that order,
    emitting each member with its URL from the map and aborting the run at
    the first check that failed for another reason than "not a member". */
module Membership {
  import opened Types

  /** `is_org_user`: a successful response means a member, a 404 means not a
      member, and any other failure is fatal. The login is handed back with
      the verdict. */
  function Classify(user: string, resp: MembershipResponse): (r: Result<(string, bool)>)
    ensures r.Ok? ==> r.value.0 == user
    ensures r == Ok((user, true)) <==> resp.Member?
    ensures r == Ok((user, false)) <==> resp == HttpFailure(Some(NotFound))
    ensures r.Err? <==> resp.HttpFailure? && resp.status != Some(NotFound)
    ensures r.Err? ==> r.error == NetworkUnreachable(user, resp.status)
  {
    match resp
    case Member => Ok((user, true))
    case HttpFailure(status) =>
      if status == Some(NotFound) then Ok((user, false))
      else Err(NetworkUnreachable(user, status))
  }

  /** All logins of a sequence of checks are distinct. */
  ghost predicate Distinct(order: seq<string>) {
    forall i, j :: 0 <= i < j < |order| ==> order[i] != order[j]
  }

  /** Every check of `m`'s keys, collected in completion order: `order` is
      the (arbitrary) order in which the checks finished, and each login of
      the map is checked exactly once. */
  method CheckAll(m: map<string, string>, respond: string -> MembershipResponse)
    returns (results: seq<Result<(string, bool)>>, ghost order: seq<string>)
    ensures |results| == |order| == |m|
    ensures forall u :: u in order <==> u in m
    ensures Distinct(order)
    ensures forall k :: 0 <= k < |order| ==> results[k] == Classify(order[k], respond(order[k]))
    ensures forall u :: u in m ==> Classify(u, respond(u)) in results
    ensures forall r :: r in results && r.Ok? ==> r.value.0 in m
  {
    var pending := m.Keys;
    results, order := [], [];
    while pending != {}
      invariant pending <= m.Keys
      invariant forall u :: u in order <==> u in m && u !in pending
      invariant Distinct(order)
      invariant |results| == |order| == |m.Keys| - |pending|
      invariant forall k :: 0 <= k < |order| ==> results[k] == Classify(order[k], respond(order[k]))
      decreases pending
    {
      var u :| u in pending;
      results := results + [Classify(u, respond(u))];
      order := order + [u];
      pending := pending - {u};
    }
    forall u | u in m ensures Classify(u, respond(u)) in results {
      var k :| 0 <= k < |order| && order[k] == u;
      assert results[k] == Classify(u, respond(u));
    }
    forall r | r in results && r.Ok? ensures r.value.0 in m {
      var k :| 0 <= k < |results| && results[k] == r;
      assert order[k] in order;
    }
  }

  /** Each successful check names a login of the map. */
  ghost predicate Fits(m: map<string, string>, results: seq<Result<(string, bool)>>) {
    forall k :: 0 <= k < |results| && results[k].Ok? ==> results[k].value.0 in m
  }

  /** What the output loop produces: the lines it printed and, if it
      aborted, why. */
  datatype Outcome = Outcome(lines: seq<(string, string)>, failure: Option<Error>)

  /** The output loop over the collected checks, as a value. */
  function Report(m: map<string, string>, results: seq<Result<(string, bool)>>): (o: Outcome)
    requires Fits(m, results)
  {
    if results == [] then Outcome([], None)
    else
      assert Fits(m, results[1..]) by {
        forall k | 0 <= k < |results[1..]| && results[1..][k].Ok? ensures results[1..][k].value.0 in m {
          assert results[1..][k] == results[k + 1];
        }
      }
      match results[0]
      case Err(e) => Outcome([], Some(e))
      case Ok((user, member)) =>
        var rest := Report(m, results[1..]);
        if member then Outcome([(user, m[user])] + rest.lines, rest.failure) else rest
  }

  /** Puts the lines already printed in front of an outcome. */
  function Printed(lines: seq<(string, string)>, o: Outcome): Outcome {
    Outcome(lines + o.lines, o.failure)
  }

  lemma FitsSuffix(m: map<string, string>, results: seq<Result<(string, bool)>>, i: nat)
    requires Fits(m, results) && i <= |results|
    ensures Fits(m, results[i..])
  {
    forall k | 0 <= k < |results[i..]| && results[i..][k].Ok? ensures results[i..][k].value.0 in m {
      assert results[i..][k] == results[i + k];
    }
  }

  /** The loop of `main` over the collected checks: skip non-members, print
      members with their URL, abort at the first fatal check. */
  method ReportMembers(m: map<string, string>, results: seq<Result<(string, bool)>>)
    returns (lines: seq<(string, string)>, failure: Option<Error>)
    requires Fits(m, results)
    ensures Outcome(lines, failure) == Report(m, results)
  {
    lines := [];
    assert results[0..] == results;
    assert Printed(lines, Report(m, results)) == Report(m, results);
    for i := 0 to |results|
      invariant Fits(m, results[i..])
      invariant Report(m, results) == Printed(lines, Report(m, results[i..]))
    {
      assert results[i..][1..] == results[i + 1..];
      FitsSuffix(m, results, i + 1);
      match results[i] {
        case Err(e) =>
          return lines, Some(e);
        case Ok((user, isMember)) =>
          if !isMember {
            continue;
          }
          var rest := Report(m, results[i + 1..]);
          assert lines + ([(user, m[user])] + rest.lines) == lines + [(user, m[user])] + rest.lines;
          lines := lines + [(user, m[user])];
      }
    }
    assert results[|results|..] == [];
    assert lines + [] == lines;
    failure := None;
  }

  /** The output loop aborts exactly when some check failed, with the error
      of the first failed check in completion order. */
  lemma {:induction false} ReportFailure(m: map<string, string>, results: seq<Result<(string, bool)>>)
    requires Fits(m, results)
    ensures Report(m, results).failure.Some? <==> exists k :: 0 <= k < |results| && results[k].Err?
    ensures Report(m, results).failure.Some? ==>
      exists k :: 0 <= k < |results| && results[k].Err? && (forall j :: 0 <= j < k ==> results[j].Ok?)
        && Report(m, results).failure == Some(results[k].error)
  {
    if results != [] {
      FitsSuffix(m, results, 1);
      ReportFailure(m, results[1..]);
      if results[0].Ok? {
        if Report(m, results).failure.Some? {
          var k :| 0 <= k < |results[1..]| && results[1..][k].Err? && (forall j :: 0 <= j < k ==> results[1..][j].Ok?)
            && Report(m, results[1..]).failure == Some(results[1..][k].error);
          assert results[k + 1] == results[1..][k];
          forall j | 0 <= j < k + 1 ensures results[j].Ok? {
            if j > 0 { assert results[j] == results[1..][j - 1]; }
          }
        } else {
          forall k | 0 <= k < |results| ensures results[k].Ok? {
            if k > 0 { assert results[k] == results[1..][k - 1]; }
          }
        }
      }
    }
  }

  /** Every printed line is a member reported by some check, with the URL the
      map holds for it; and every member whose check completed before the
      first fatal one is printed. */
  lemma {:induction false} ReportLines(m: map<string, string>, results: seq<Result<(string, bool)>>)
    requires Fits(m, results)
    ensures forall p :: p in Report(m, results).lines ==>
      p.0 in m && p.1 == m[p.0] && Ok((p.0, true)) in results
    ensures forall k :: (0 <= k < |results| && results[k].Ok? && results[k].value.1
                         && forall j :: 0 <= j < k ==> results[j].Ok?) ==>
        (results[k].value.0, m[results[k].value.0]) in Report(m, results).lines
  {
    if results != [] {
      FitsSuffix(m, results, 1);
      ReportLines(m, results[1..]);
      forall k | 0 <= k < |results| && results[k].Ok? && results[k].value.1
        && (forall j :: 0 <= j < k ==> results[j].Ok?)
        ensures (results[k].value.0, m[results[k].value.0]) in Report(m, results).lines
      {
        if k > 0 {
          assert results[k] == results[1..][k - 1];
          forall j | 0 <= j < k - 1 ensures results[1..][j].Ok? {
            assert results[1..][j] == results[j + 1];
          }
        }
      }
    }
  }

  /** Checks of distinct logins print distinct logins. */
  lemma {:induction false} ReportDistinct(m: map<string, string>, results: seq<Result<(string, bool)>>)
    requires Fits(m, results)
    requires forall i, j :: 0 <= i < j < |results| && results[i].Ok? && results[j].Ok? ==> results[i].value.0 != results[j].value.0
    ensures forall i, j :: 0 <= i < j < |Report(m, results).lines| ==> Report(m, results).lines[i].0 != Report(m, results).lines[j].0
  {
    if results != [] {
      FitsSuffix(m, results, 1);
      ReportDistinct(m, results[1..]);
      ReportLines(m, results[1..]);
      var rest := Report(m, results[1..]).lines;
      if results[0].Ok? && results[0].value.1 {
        var u := results[0].value.0;
        forall p | p in rest ensures p.0 != u {
          var k :| 0 <= k < |results[1..]| && results[1..][k] == Ok((p.0, true));
          assert results[k + 1] == results[1..][k];
        }
        var lines := Report(m, results).lines;
        forall i, j | 0 <= i < j < |lines| ensures lines[i].0 != lines[j].0 {
          assert lines[j] == rest[j - 1];
          if i > 0 { assert lines[i] == rest[i - 1]; }
          else { assert rest[j - 1] in rest; }
        }
      }
    }
  }

  /** What `CheckAll` guarantees about the collected checks. */
  ghost predicate Checked(m: map<string, string>, respond: string -> MembershipResponse,
                          results: seq<Result<(string, bool)>>, order: seq<string>) {
    && |results| == |order|
    && (forall u :: u in order <==> u in m)
    && Distinct(order)
    && (forall k :: 0 <= k < |order| ==> results[k] == Classify(order[k], respond(order[k])))
  }

  lemma CheckedFits(m: map<string, string>, respond: string -> MembershipResponse,
                    results: seq<Result<(string, bool)>>, order: seq<string>)
    requires Checked(m, respond, results, order)
    ensures Fits(m, results)
  {
    forall k | 0 <= k < |results| && results[k].Ok? ensures results[k].value.0 in m {
      assert order[k] in order;
    }
  }

  /** Whatever order the checks completed in, the run fails exactly when some
      login's check is fatal, and then with that login's error. */
  lemma CheckedFailure(m: map<string, string>, respond: string -> MembershipResponse,
                       results: seq<Result<(string, bool)>>, order: seq<string>)
    requires Checked(m, respond, results, order)
    ensures Fits(m, results)
    ensures Report(m, results).failure.None? <==> forall u :: u in m ==> Classify(u, respond(u)).Ok?
    ensures Report(m, results).failure.Some? ==>
      exists u :: u in m && Classify(u, respond(u)).Err? && Report(m, results).failure == Some(Classify(u, respond(u)).error)
  {
    CheckedFits(m, respond, results, order);
    ReportFailure(m, results);
    if Report(m, results).failure.None? {
      forall u | u in m ensures Classify(u, respond(u)).Ok? {
        var k :| 0 <= k < |order| && order[k] == u;
        assert results[k].Ok?;
      }
    } else {
      var k :| 0 <= k < |results| && results[k].Err? && Report(m, results).failure == Some(results[k].error);
      assert order[k] in order;
    }
  }

  /** Whatever order the checks completed in, the printed lines are members
      with their map URL, each once; when nothing failed, all members. */
  lemma CheckedLines(m: map<string, string>, respond: string -> MembershipResponse,
                     results: seq<Result<(string, bool)>>, order: seq<string>)
    requires Checked(m, respond, results, order)
    ensures Fits(m, results)
    ensures forall p :: p in Report(m, results).lines ==> p.0 in m && p.1 == m[p.0] && respond(p.0).Member?
    ensures forall i, j :: 0 <= i < j < |Report(m, results).lines| ==>
      Report(m, results).lines[i].0 != Report(m, results).lines[j].0
    ensures Report(m, results).failure.None? ==>
      forall u :: u in m && respond(u).Member? ==> (u, m[u]) in Report(m, results).lines
  {
    CheckedFits(m, respond, results, order);
    ReportFailure(m, results);
    ReportLines(m, results);
    var lines := Report(m, results).lines;
    forall p | p in lines ensures respond(p.0).Member? {
      var k :| 0 <= k < |results| && results[k] == Ok((p.0, true));
    }
    forall i, j | 0 <= i < j < |results| && results[i].Ok? && results[j].Ok?
      ensures results[i].value.0 != results[j].value.0
    {
    }
    ReportDistinct(m, results);
    if Report(m, results).failure.None? {
      forall u | u in m && respond(u).Member? ensures (u, m[u]) in lines {
        var k :| 0 <= k < |order| && order[k] == u;
        assert results[k] == Ok((u, true));
      }
    }
  }

  /** The filtering branch of `main`: check every aggregated login, then print
      the members. The run fails exactly when some login's check is fatal;
      the printed lines are members with their map URL, each once; and when
      nothing fails, every member is printed. */
  method MembersOnly(m: map<string, string>, respond: string -> MembershipResponse)
    returns (lines: seq<(string, string)>, failure: Option<Error>)
    ensures failure.None? <==> forall u :: u in m ==> Classify(u, respond(u)).Ok?
    ensures failure.Some? ==> exists u :: u in m && Classify(u, respond(u)).Err? && failure == Some(Classify(u, respond(u)).error)
    ensures forall p :: p in lines ==> p.0 in m && p.1 == m[p.0] && respond(p.0).Member?
    ensures forall i, j :: 0 <= i < j < |lines| ==> lines[i].0 != lines[j].0
    ensures failure.None? ==> forall u :: u in m && respond(u).Member? ==> (u, m[u]) in lines
  {
    var results;
    ghost var order;
    results, order := CheckAll(m, respond);
    CheckedFailure(m, respond, results, order);
    CheckedLines(m, respond, results, order);
    lines, failure := ReportMembers(m, results);
  }

  /** The unfiltered branch of `main`: every entry of the map, each once, in
      the map's (arbitrary) iteration order. */
  method AllEntries(m: map<string, string>) returns (lines: seq<(string, string)>)
    ensures forall p :: p in lines <==> p.0 in m && p.1 == m[p.0]
    ensures |lines| == |m|
    ensures forall i, j :: 0 <= i < j < |lines| ==> lines[i].0 != lines[j].0
  {
    var pending := m.Keys;
    lines := [];
    while pending != {}
      invariant pending <= m.Keys
      invariant forall p :: p in lines <==> p.0 in m && p.0 !in pending && p.1 == m[p.0]
      invariant |lines| == |m.Keys| - |pending|
      invariant forall i, j :: 0 <= i < j < |lines| ==> lines[i].0 != lines[j].0
      invariant forall i :: 0 <= i < |lines| ==> lines[i].0 !in pending
      decreases pending
    {
      var u :| u in pending;
      lines := lines + [(u, m[u])];
      pending := pending - {u};
    }
  }
}
