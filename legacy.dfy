/** The two pairwise constraints of the practical script that the compound
    constraint replaced: `combination_constraint` and
    `person_shift_constraint`. Both are kept in the source, unused; here they
    are proved to be the two checks of the compound constraint's hard part. */
module Legacy {
  import opened Base
  import opened TeamModel
  import opened Feasibility
  import opened FeasibilityFacts

  // ---------------------------------------------------------------------
  // combination_constraint
  // ---------------------------------------------------------------------

  /** `dict(zip(list_of_groups, values))`: a group listed twice keeps the
      person of its last occurrence. */
  function ZipMap(gl: seq<string>, values: seq<string>): map<string, string>
    requires |gl| == |values|
  {
    if gl == [] then map[]
    else ZipMap(gl[..|gl| - 1], values[..|values| - 1])[gl[|gl| - 1] := values[|values| - 1]]
  }

  /** The dictionary has exactly the listed groups as keys, and each maps to
      the person of its last occurrence. */
  lemma {:induction false} ZipMapFacts(gl: seq<string>, values: seq<string>)
    requires |gl| == |values|
    ensures forall g :: g in ZipMap(gl, values) <==> g in gl
    ensures forall a :: 0 <= a < |gl| && (forall b :: a < b < |gl| ==> gl[b] != gl[a]) ==>
      ZipMap(gl, values)[gl[a]] == values[a]
  {
    if gl != [] {
      var gi, vi := gl[..|gl| - 1], values[..|values| - 1];
      ZipMapFacts(gi, vi);
      assert gl == gi + [gl[|gl| - 1]];
      forall a | 0 <= a < |gl| - 1 ensures gi[a] == gl[a] && vi[a] == values[a] { }
    }
  }

  /** No group is listed twice. */
  predicate DistinctGroups(gl: seq<string>)
  {
    forall a, b :: 0 <= a < b < |gl| ==> gl[a] != gl[b]
  }

  /** The pairs are checked in order; a group missing from the dictionary is
      the `KeyError` of `solution[group]`, reported with its name, and the
      first pair whose two groups have the same person makes the result
      false. */
  function Combination(m: map<string, string>, pairs: seq<Pair>): Result<bool, string>
    decreases |pairs|
  {
    if pairs == [] then Ok(true)
    else if pairs[0].first !in m then Err(pairs[0].first)
    else if pairs[0].second !in m then Err(pairs[0].second)
    else if m[pairs[0].first] == m[pairs[0].second] then Ok(false)
    else Combination(m, pairs[1..])
  }

  /** Every listed pair is looked up, and its two groups have different
      people. */
  predicate AllApart(m: map<string, string>, pairs: seq<Pair>)
  {
    forall i :: 0 <= i < |pairs| ==>
      pairs[i].first in m && pairs[i].second in m && m[pairs[i].first] != m[pairs[i].second]
  }

  /** The constraint holds exactly when every listed pair is split between two
      people; a false verdict names a pair with one person, and a missing
      group is one of the listed groups. */
  lemma {:induction false} CombinationMeaning(m: map<string, string>, pairs: seq<Pair>)
    ensures Combination(m, pairs) == Ok(true) <==> AllApart(m, pairs)
    ensures Combination(m, pairs) == Ok(false) ==>
      exists i :: 0 <= i < |pairs| && pairs[i].first in m && pairs[i].second in m && m[pairs[i].first] == m[pairs[i].second]
    ensures Combination(m, pairs).Err? ==>
      Combination(m, pairs).error !in m &&
      exists i :: 0 <= i < |pairs| && Combination(m, pairs).error in {pairs[i].first, pairs[i].second}
    decreases |pairs|
  {
    if pairs != [] {
      var rest := pairs[1..];
      CombinationMeaning(m, rest);
      assert forall i :: 0 <= i < |rest| ==> rest[i] == pairs[i + 1];
      if Combination(m, pairs) == Ok(false) && Combination(m, rest) == Ok(false) {
        var i :| 0 <= i < |rest| && rest[i].first in m && rest[i].second in m && m[rest[i].first] == m[rest[i].second];
        assert pairs[i + 1] == rest[i];
      }
      if Combination(m, pairs).Err? && Combination(m, pairs) == Combination(m, rest) {
        var i :| 0 <= i < |rest| && Combination(m, rest).error in {rest[i].first, rest[i].second};
        assert pairs[i + 1] == rest[i];
      }
    }
  }

  method CombinationConstraint(values: seq<string>, gl: seq<string>, pairs: seq<Pair>) returns (r: Result<bool, string>)
    requires |values| == |gl|
    ensures r == Combination(ZipMap(gl, values), pairs)
  {
    var m: map<string, string> := map[];
    for k := 0 to |gl|
      invariant m == ZipMap(gl[..k], values[..k])
    {
      assert gl[..k + 1][..k] == gl[..k] && values[..k + 1][..k] == values[..k];
      m := m[gl[k] := values[k]];
    }
    assert gl[..|gl|] == gl && values[..|values|] == values;
    var i := 0;
    while i < |pairs|
      invariant 0 <= i <= |pairs|
      invariant Combination(m, pairs[i..]) == Combination(m, pairs)
    {
      var p := pairs[i];
      if p.first !in m {
        return Err(p.first);
      }
      if p.second !in m {
        return Err(p.second);
      }
      if m[p.first] == m[p.second] {
        return Ok(false);
      }
      assert pairs[i..][1..] == pairs[i + 1..];
      i := i + 1;
    }
    r := Ok(true);
  }

  /** With each group listed once and every forbidden pair made of listed
      groups, the old constraint holds exactly when no person takes a
      forbidden pair, provided the pairs are sorted and of two different
      groups (a pair of one group always fails the old constraint, and an
      unsorted pair is never matched by the new one). */
  lemma CombinationAgrees(values: seq<string>, gl: seq<string>, forbidden: seq<Pair>)
    requires |values| == |gl| && DistinctGroups(gl)
    requires forall i :: 0 <= i < |forbidden| ==> forbidden[i].first in gl && forbidden[i].second in gl
    ensures Combination(ZipMap(gl, values), forbidden) == Ok(true) ==> NoForbiddenPair(values, gl, forbidden)
    ensures ((forall i :: 0 <= i < |forbidden| ==> IsSorted(forbidden[i]) && forbidden[i].first != forbidden[i].second) &&
             NoForbiddenPair(values, gl, forbidden)) ==> Combination(ZipMap(gl, values), forbidden) == Ok(true)
  {
    var m := ZipMap(gl, values);
    ZipMapFacts(gl, values);
    CombinationMeaning(m, forbidden);
    assert forall a :: 0 <= a < |gl| ==> m[gl[a]] == values[a];
    if Combination(m, forbidden) == Ok(true) {
      forall a, b | 0 <= a < |values| && 0 <= b < |values| && a != b && values[a] == values[b]
        ensures Sorted(gl[a], gl[b]) !in forbidden
      {
        forall i | 0 <= i < |forbidden| ensures forbidden[i] != Sorted(gl[a], gl[b]) {
          assert m[forbidden[i].first] != m[forbidden[i].second];
        }
      }
    }
    if (forall i :: 0 <= i < |forbidden| ==> IsSorted(forbidden[i]) && forbidden[i].first != forbidden[i].second) &&
       NoForbiddenPair(values, gl, forbidden) {
      forall i | 0 <= i < |forbidden| ensures m[forbidden[i].first] != m[forbidden[i].second] {
        var p := forbidden[i];
        var a :| 0 <= a < |gl| && gl[a] == p.first;
        var b :| 0 <= b < |gl| && gl[b] == p.second;
        SortedSymmetric(p.first, p.second);
        assert Sorted(gl[a], gl[b]) == p;
      }
    }
  }

  // ---------------------------------------------------------------------
  // person_shift_constraint
  // ---------------------------------------------------------------------

  /** Every team member takes exactly their number of shifts. */
  predicate PersonShift(values: seq<string>, team: seq<Member>)
  {
    forall k :: 0 <= k < |team| ==> Occurrences(values, team[k].name) == team[k].nShifts
  }

  /** Every assigned person is a team member. */
  predicate Known(values: seq<string>, team: seq<Member>)
  {
    forall a :: 0 <= a < |values| ==> Lookup(team, values[a]).Some?
  }

  /** A counter per team member, starting at zero; an assigned person who is
      not in the team is not counted; then every counter is compared with the
      member's shift count. */
  method PersonShiftConstraint(values: seq<string>, gl: seq<string>, team: seq<Member>) returns (ok: bool)
    requires |values| == |gl|
    ensures ok <==> PersonShift(values, team)
  {
    var counter: map<string, int> := map[];
    for k := 0 to |team|
      invariant forall n :: n in counter <==> exists i :: 0 <= i < k && team[i].name == n
      invariant forall n :: n in counter ==> counter[n] == 0
    {
      counter := counter[team[k].name := 0];
    }
    for i := 0 to |values|
      invariant forall n :: n in counter <==> exists j :: 0 <= j < |team| && team[j].name == n
      invariant forall n :: n in counter ==> counter[n] == Occurrences(values[..i], n)
    {
      assert values[..i + 1][..i] == values[..i];
      if values[i] in counter {
        counter := counter[values[i] := counter[values[i]] + 1];
      }
    }
    assert values[..|values|] == values;
    ok := true;
    for k := 0 to |team|
      invariant ok <==> forall j :: 0 <= j < k ==> Occurrences(values, team[j].name) == team[j].nShifts
    {
      if counter[team[k].name] != team[k].nShifts {
        ok := false;
        break;
      }
    }
  }

  /** Under the total checked when the team is built, the shift check of the
      compound constraint is the old constraint plus "every assigned person
      is known" (a person `team_dict` does not know is a `KeyError` there and
      is simply not counted by the old one). */
  lemma PersonShiftAgrees(values: seq<string>, team: seq<Member>)
    requires DistinctNames(team)
    requires TotalShifts(team) == |values|
    requires forall k :: 0 <= k < |team| ==> team[k].nShifts >= 0
    ensures ShiftsMatch(values, team) <==> PersonShift(values, team) && Known(values, team)
  {
    if ShiftsMatch(values, team) {
      ShiftsExact(values, team);
    }
    if PersonShift(values, team) && Known(values, team) {
      forall a | 0 <= a < |values|
        ensures Lookup(team, values[a]).value.nShifts == Occurrences(values, values[a])
      {
        var k :| 0 <= k < |team| && team[k] == Lookup(team, values[a]).value;
      }
    }
  }

  /** An assignment the compound constraint accepts satisfies both old
      constraints, given a shift total equal to the number of variables,
      distinct groups and sorted forbidden pairs of two listed groups. */
  lemma OldConstraintsFollow(values: seq<string>, gl: seq<string>, forbidden: seq<Pair>, consecutive: seq<Pair>,
                             plus1shift: nat, ratio: real, team: seq<Member>, all: bool)
    requires |values| == |gl| && DistinctGroups(gl)
    requires DistinctNames(team) && TotalShifts(team) == |values|
    requires forall k :: 0 <= k < |team| ==> team[k].nShifts >= 0
    requires forall i :: 0 <= i < |forbidden| ==>
      forbidden[i].first in gl && forbidden[i].second in gl && IsSorted(forbidden[i]) && forbidden[i].first != forbidden[i].second
    requires Constraint(values, gl, forbidden, consecutive, plus1shift, ratio, team, all) == Accept
    ensures PersonShift(values, team)
    ensures Combination(ZipMap(gl, values), forbidden) == Ok(true)
  {
    ConstraintMeaning(values, gl, forbidden, consecutive, plus1shift, ratio, team, all);
    PersonShiftAgrees(values, team);
    CombinationAgrees(values, gl, forbidden);
  }

  /** Without its sortedness hypothesis, `OldConstraintsFollow` fails on the
      list the source builds: one person holding `B` and `A`, with only the
      unsorted two-group entry `[B, A]` forbidden, passes the compound
      constraint and fails `combination_constraint`. */
  lemma UnsortedPairSplitsConstraints()
    ensures Constraint(["X", "X"], ["B", "A"], [Pair("B", "A")], [], 1, 0.0, [Member("X", 2, [Yes, Yes])], true) == Accept
    ensures Combination(ZipMap(["B", "A"], ["X", "X"]), [Pair("B", "A")]) == Ok(false)
  {
    UnsortedPairAccepted();
    var m := ZipMap(["B", "A"], ["X", "X"]);
    assert ["B", "A"][..1] == ["B"] && ["X", "X"][..1] == ["X"];
    assert ["B"][..0] == [] && ["X"][..0] == [];
    assert ZipMap(["B"], ["X"]) == map["B" := "X"];
    assert m == ZipMap(["B"], ["X"])["A" := "X"];
    assert "B" in m && "A" in m && m["B"] == m["A"];
  }
}
