/** The team dictionary of `create_team_availability` and the count of
    people with more than one shift (`count_plus1shift`). */
module TeamModel {
  import opened Base
  import opened Headers

  /** One team entry: the name before `_`, the required shift count, and the
      column's tiers, one per row of the table, stored as they are (an empty
      cell stays `Empty`). */
  datatype Member = Member(name: string, nShifts: int, avail: seq<Tier>)

  datatype TeamError =
    | HeaderProblem(problem: HeaderError)
    | ShiftTotalMismatch(total: int, groups: nat)

  predicate AllParsed(hs: seq<string>)
  {
    forall j :: 0 <= j < |hs| ==> ParseHeader(hs[j]).Parsed?
  }

  function HeaderOf(hs: seq<string>, j: nat): Header
    requires j < |hs| && ParseHeader(hs[j]).Parsed?
  {
    ParseHeader(hs[j]).h
  }

  /** `team[person] = {...}`: a new name is appended; a name already present
      keeps its place and gets the new entry. */
  function Upsert(team: seq<Member>, m: Member): (r: seq<Member>)
    decreases |team|
  {
    if team == [] then [m]
    else if team[0].name == m.name then [m] + team[1..]
    else [team[0]] + Upsert(team[1..], m)
  }

  /** What an upsert keeps and adds. */
  lemma {:induction false} UpsertFacts(team: seq<Member>, m: Member)
    ensures m in Upsert(team, m)
    ensures forall k :: 0 <= k < |team| && team[k].name != m.name ==> k < |Upsert(team, m)| && Upsert(team, m)[k] == team[k]
    ensures forall x :: x in Upsert(team, m) ==> x == m || x in team
    decreases |team|
  {
    if team != [] && team[0].name != m.name {
      UpsertFacts(team[1..], m);
      var r := Upsert(team, m);
      assert r == [team[0]] + Upsert(team[1..], m);
      forall k | 0 <= k < |team| && team[k].name != m.name ensures k < |r| && r[k] == team[k] {
        if k > 0 { assert team[k] == team[1..][k - 1]; }
      }
      forall x | x in r ensures x == m || x in team {
        if x != team[0] { assert x in Upsert(team[1..], m); }
      }
    } else if team != [] {
      var r := Upsert(team, m);
      forall x | x in r ensures x == m || x in team {
        if x != m {
          var k :| 0 <= k < |r| && r[k] == x;
          assert x == team[1..][k - 1];
        }
      }
    }
  }

  /** The team built from the first `n` headers, or the error of the first
      header that fails to parse. */
  function BuildTeam(t: Table, n: nat): Result<seq<Member>, TeamError>
    requires WellFormed(t) && n <= |t.headers|
  {
    if n == 0 then Ok([])
    else
      match BuildTeam(t, n - 1)
      case Err(e) => Err(e)
      case Ok(team) =>
        match ParseHeader(t.headers[n - 1])
        case Invalid(e) => Err(HeaderProblem(e))
        case Parsed(h) => Ok(Upsert(team, Member(h.name, h.nShifts, Column(t, n - 1))))
  }

  function TotalShifts(team: seq<Member>): int
  {
    if team == [] then 0 else TotalShifts(team[..|team| - 1]) + team[|team| - 1].nShifts
  }

  /** The result of `create_team_availability`: the team, or the reason the
      source calls `sys.exit`. */
  function TeamOf(t: Table): Result<seq<Member>, TeamError>
    requires WellFormed(t)
  {
    match BuildTeam(t, |t.headers|)
    case Err(e) => Err(e)
    case Ok(team) =>
      if TotalShifts(team) != |t.slots| then Err(ShiftTotalMismatch(TotalShifts(team), |t.slots|))
      else Ok(team)
  }

  method CreateTeam(t: Table) returns (r: Result<seq<Member>, TeamError>)
    requires WellFormed(t)
    ensures r == TeamOf(t)
  {
    r := CollectMembers(t);
    if r.Ok? {
      var total := SumShifts(r.value);
      if total != |t.slots| {
        r := Err(ShiftTotalMismatch(total, |t.slots|));
      }
    }
  }

  /** The loop over the person columns, stopping at the first bad header. */
  method CollectMembers(t: Table) returns (r: Result<seq<Member>, TeamError>)
    requires WellFormed(t)
    ensures r == BuildTeam(t, |t.headers|)
  {
    var team: seq<Member> := [];
    var j := 0;
    while j < |t.headers|
      invariant 0 <= j <= |t.headers|
      invariant BuildTeam(t, j) == Ok(team)
    {
      var parsed := ParseHeader(t.headers[j]);
      if parsed.Invalid? {
        BuildTeamStops(t, j);
        r := Err(HeaderProblem(parsed.error));
        return;
      }
      var column := Column(t, j);
      var m := Member(parsed.h.name, parsed.h.nShifts, column);
      assert BuildTeam(t, j + 1) == Ok(Upsert(team, m));
      team := Upsert(team, m);
      j := j + 1;
    }
    r := Ok(team);
  }

  /** `sum(team[p]['n_shifts'] for p in team)`. */
  method SumShifts(team: seq<Member>) returns (total: int)
    ensures total == TotalShifts(team)
  {
    total := 0;
    var k := 0;
    while k < |team|
      invariant 0 <= k <= |team|
      invariant total == TotalShifts(team[..k])
    {
      assert team[..k + 1][..k] == team[..k];
      total := total + team[k].nShifts;
      k := k + 1;
    }
    assert team[..|team|] == team;
  }

  /** The first header that fails to parse decides the outcome. */
  lemma BuildTeamStops(t: Table, j: nat)
    requires WellFormed(t) && j < |t.headers|
    requires BuildTeam(t, j).Ok? && ParseHeader(t.headers[j]).Invalid?
    ensures BuildTeam(t, |t.headers|) == Err(HeaderProblem(ParseHeader(t.headers[j]).error))
  {
    var e := ParseHeader(t.headers[j]).error;
    assert BuildTeam(t, j + 1) == Err(HeaderProblem(e));
    BuildTeamErrorSticks(t, j + 1, |t.headers|);
  }

  lemma {:induction false} BuildTeamErrorSticks(t: Table, m: nat, n: nat)
    requires WellFormed(t) && m <= n <= |t.headers|
    requires BuildTeam(t, m).Err?
    ensures BuildTeam(t, n) == BuildTeam(t, m)
    decreases n - m
  {
    if m < n {
      BuildTeamErrorSticks(t, m + 1, n);
    }
  }

  lemma {:induction false} BuildTeamOk(t: Table, n: nat)
    requires WellFormed(t) && n <= |t.headers|
    ensures BuildTeam(t, n).Ok? <==> forall j :: 0 <= j < n ==> ParseHeader(t.headers[j]).Parsed?
  {
    if n > 0 {
      BuildTeamOk(t, n - 1);
    }
  }

  /** Team construction fails exactly when a header lacks `_`, a suffix is
      not an integer, or the shift total differs from the number of rows;
      a header error is the one of the first header that fails. */
  lemma TeamErrors(t: Table)
    requires WellFormed(t)
    ensures TeamOf(t).Ok? ==> AllParsed(t.headers)
    ensures AllParsed(t.headers) ==> BuildTeam(t, |t.headers|).Ok?
    ensures AllParsed(t.headers) ==>
      (TeamOf(t).Ok? <==> TotalShifts(BuildTeam(t, |t.headers|).value) == |t.slots|)
    ensures TeamOf(t).Err? && TeamOf(t).error.HeaderProblem? ==>
      exists j :: 0 <= j < |t.headers| && ParseHeader(t.headers[j]) == Invalid(TeamOf(t).error.problem) &&
        forall j' :: 0 <= j' < j ==> ParseHeader(t.headers[j']).Parsed?
  {
    BuildTeamOk(t, |t.headers|);
    if TeamOf(t).Err? && TeamOf(t).error.HeaderProblem? {
      FirstHeaderError(t, |t.headers|);
    }
  }

  lemma {:induction false} FirstHeaderError(t: Table, n: nat)
    requires WellFormed(t) && n <= |t.headers|
    requires BuildTeam(t, n).Err? && BuildTeam(t, n).error.HeaderProblem?
    ensures exists j :: (0 <= j < n && ParseHeader(t.headers[j]) == Invalid(BuildTeam(t, n).error.problem) &&
      forall j' :: 0 <= j' < j ==> ParseHeader(t.headers[j']).Parsed?)
  {
    if BuildTeam(t, n - 1).Err? {
      FirstHeaderError(t, n - 1);
    } else {
      BuildTeamOk(t, n - 1);
    }
  }

  /** When the person names are distinct, the team has one entry per
      column, in column order. */
  lemma TeamOfDistinctNames(t: Table)
    requires WellFormed(t) && AllParsed(t.headers)
    requires forall a, b :: 0 <= a < b < |t.headers| ==> HeaderOf(t.headers, a).name != HeaderOf(t.headers, b).name
    ensures BuildTeam(t, |t.headers|).Ok?
    ensures |BuildTeam(t, |t.headers|).value| == |t.headers|
    ensures forall j :: 0 <= j < |t.headers| ==>
      BuildTeam(t, |t.headers|).value[j] == Member(HeaderOf(t.headers, j).name, HeaderOf(t.headers, j).nShifts, Column(t, j))
  {
    DistinctPrefix(t, |t.headers|);
  }

  lemma {:induction false} DistinctPrefix(t: Table, n: nat)
    requires WellFormed(t) && n <= |t.headers| && AllParsed(t.headers)
    requires forall a, b :: 0 <= a < b < |t.headers| ==> HeaderOf(t.headers, a).name != HeaderOf(t.headers, b).name
    ensures BuildTeam(t, n).Ok? && |BuildTeam(t, n).value| == n
    ensures forall j :: 0 <= j < n ==>
      BuildTeam(t, n).value[j] == Member(HeaderOf(t.headers, j).name, HeaderOf(t.headers, j).nShifts, Column(t, j))
  {
    if n > 0 {
      DistinctPrefix(t, n - 1);
      var team := BuildTeam(t, n - 1).value;
      var h := HeaderOf(t.headers, n - 1);
      var m := Member(h.name, h.nShifts, Column(t, n - 1));
      assert forall k :: 0 <= k < |team| ==> team[k].name != m.name;
      UpsertFresh(team, m);
    }
  }

  lemma {:induction false} UpsertFresh(team: seq<Member>, m: Member)
    requires forall k :: 0 <= k < |team| ==> team[k].name != m.name
    ensures Upsert(team, m) == team + [m]
    decreases |team|
  {
    if team != [] {
      UpsertFresh(team[1..], m);
      assert [team[0]] + (team[1..] + [m]) == team + [m];
    }
  }

  /** `team_dict[person]`: the entry of that name, if there is one. */
  function Lookup(team: seq<Member>, name: string): (r: Option<Member>)
    ensures r.Some? ==> r.value in team && r.value.name == name
    ensures r.None? <==> forall k :: 0 <= k < |team| ==> team[k].name != name
    decreases |team|
  {
    if team == [] then None
    else if team[0].name == name then Some(team[0])
    else
      var r := Lookup(team[1..], name);
      assert forall k :: 1 <= k < |team| ==> team[k] == team[1..][k - 1];
      r
  }

  /** A dictionary holds each name once. */
  predicate DistinctNames(team: seq<Member>)
  {
    forall a, b :: 0 <= a < b < |team| ==> team[a].name != team[b].name
  }

  lemma {:induction false} UpsertDistinct(team: seq<Member>, m: Member)
    requires DistinctNames(team)
    ensures DistinctNames(Upsert(team, m))
    decreases |team|
  {
    if team != [] {
      var rest := team[1..];
      assert DistinctNames(rest) by {
        forall a, b | 0 <= a < b < |rest| ensures rest[a].name != rest[b].name {
          assert rest[a] == team[a + 1] && rest[b] == team[b + 1];
        }
      }
      if team[0].name == m.name {
        var r := Upsert(team, m);
        forall a, b | 0 <= a < b < |r| ensures r[a].name != r[b].name {
          if a == 0 { assert r[b] == team[b]; } else { assert r[a] == team[a] && r[b] == team[b]; }
        }
      } else {
        UpsertDistinct(rest, m);
        UpsertFacts(rest, m);
        var u := Upsert(rest, m);
        var r := [team[0]] + u;
        forall b | 0 <= b < |u| ensures u[b].name != team[0].name {
          assert u[b] in u;
          if u[b] != m {
            var k :| 0 <= k < |rest| && rest[k] == u[b];
            assert rest[k] == team[k + 1];
          }
        }
        forall a, b | 0 <= a < b < |r| ensures r[a].name != r[b].name {
          if a > 0 { assert r[a] == u[a - 1] && r[b] == u[b - 1]; } else { assert r[b] == u[b - 1]; }
        }
      }
    }
  }

  /** With distinct names, looking up a member's name finds that member. */
  lemma {:induction false} LookupDistinct(team: seq<Member>, k: nat)
    requires DistinctNames(team) && k < |team|
    ensures Lookup(team, team[k].name) == Some(team[k])
    decreases |team|
  {
    if k > 0 {
      var rest := team[1..];
      assert DistinctNames(rest) by {
        forall a, b | 0 <= a < b < |rest| ensures rest[a].name != rest[b].name {
          assert rest[a] == team[a + 1] && rest[b] == team[b + 1];
        }
      }
      assert rest[k - 1] == team[k];
      LookupDistinct(rest, k - 1);
    }
  }

  /** The team dictionary never names a person twice. */
  lemma {:induction false} BuildTeamDistinct(t: Table, n: nat)
    requires WellFormed(t) && n <= |t.headers|
    requires BuildTeam(t, n).Ok?
    ensures DistinctNames(BuildTeam(t, n).value)
  {
    if n > 0 {
      BuildTeamDistinct(t, n - 1);
      var h := ParseHeader(t.headers[n - 1]).h;
      UpsertDistinct(BuildTeam(t, n - 1).value, Member(h.name, h.nShifts, Column(t, n - 1)));
    }
  }

  predicate MoreThanOne(hs: seq<string>, k: int)
  {
    0 <= k < |hs| && ParseHeader(hs[k]).Parsed? && ParseHeader(hs[k]).h.nShifts > 1
  }

  /** `count_plus1shift`: the number of person columns whose shift count
      exceeds one. It runs after the team was built, so every header parses. */
  method CountPlus1Shift(hs: seq<string>) returns (count: nat)
    requires AllParsed(hs)
    ensures count == |set j | 0 <= j < |hs| && MoreThanOne(hs, j)|
  {
    count := 0;
    var j := 0;
    while j < |hs|
      invariant 0 <= j <= |hs|
      invariant count == |set k | 0 <= k < j && MoreThanOne(hs, k)|
    {
      var fields := Split(hs[j], '_');
      var n := ParseInt(fields[1]).value;
      assert n == HeaderOf(hs, j).nShifts;
      PrefixCountStep(hs, j);
      if n > 1 {
        count := count + 1;
      }
      j := j + 1;
    }
  }

  lemma PrefixCountStep(hs: seq<string>, j: nat)
    requires j < |hs|
    ensures |set k | 0 <= k < j + 1 && MoreThanOne(hs, k)| ==
      |set k | 0 <= k < j && MoreThanOne(hs, k)| + (if MoreThanOne(hs, j) then 1 else 0)
  {
    var before := set k | 0 <= k < j && MoreThanOne(hs, k);
    var after := set k | 0 <= k < j + 1 && MoreThanOne(hs, k);
    if MoreThanOne(hs, j) {
      assert after == before + {j};
    } else {
      assert after == before;
    }
  }
}
