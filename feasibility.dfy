/** The compound constraint of both scripts (`custom_constraint` and
    `consecutive_constraint`, which are the same function): group the
    assignment by person, check every person's shift count, reject a person
    holding a forbidden pair of groups, and in first-found mode demand a
    minimum ratio of consecutive pairs. */
module Feasibility {
  import opened Base
  import opened TeamModel

  /** What the constraint returns, or the exception it raises: `KeyError`
      for a person missing from the team, `ZeroDivisionError` for the ratio. */
  datatype Verdict = Accept | Reject | UnknownPerson(person: string) | ZeroDivision

  /** One entry of `solution = defaultdict(list)`: a person and the groups
      assigned to them, in variable order. */
  datatype Held = Held(person: string, groups: seq<string>)

  /** The groups among the first `n` variables that take the value `x`. */
  function HeldUpTo(values: seq<string>, gl: seq<string>, x: string, n: nat): seq<string>
    requires |values| == |gl| && n <= |values|
  {
    if n == 0 then []
    else HeldUpTo(values, gl, x, n - 1) + (if values[n - 1] == x then [gl[n - 1]] else [])
  }

  function HeldBy(values: seq<string>, gl: seq<string>, x: string): seq<string>
    requires |values| == |gl|
  {
    HeldUpTo(values, gl, x, |values|)
  }

  /** The grouped assignment: each person who takes some variable, in order
      of first appearance, with the groups they take. */
  function SolutionUpTo(values: seq<string>, gl: seq<string>, n: nat): (sol: seq<Held>)
    requires |values| == |gl| && n <= |values|
    ensures |sol| == |Unique(values[..n])|
  {
    var u := Unique(values[..n]);
    seq(|u|, k requires 0 <= k < |u| => Held(u[k], HeldUpTo(values, gl, u[k], n)))
  }

  function Solution(values: seq<string>, gl: seq<string>): seq<Held>
    requires |values| == |gl|
  {
    SolutionUpTo(values, gl, |values|)
  }

  /** `for value, group in zip(values, list_of_groups): solution[value].append(group)`. */
  method GroupByPerson(values: seq<string>, gl: seq<string>) returns (sol: seq<Held>)
    requires |values| == |gl|
    ensures sol == Solution(values, gl)
  {
    var persons: seq<string> := [];
    sol := [];
    var i := 0;
    while i < |values|
      invariant 0 <= i <= |values|
      invariant persons == Unique(values[..i])
      invariant sol == SolutionUpTo(values, gl, i)
    {
      var x, g := values[i], gl[i];
      var at := FirstIndex(persons, x);
      SolutionStep(values, gl, i);
      if at < |persons| {
        sol := sol[at := Held(x, sol[at].groups + [g])];
      } else {
        persons, sol := persons + [x], sol + [Held(x, [g])];
      }
      i := i + 1;
    }
    assert values[..|values|] == values;
  }

  /** One more variable either extends the groups of a person already seen
      or adds a new person at the end. */
  lemma SolutionStep(values: seq<string>, gl: seq<string>, i: nat)
    requires |values| == |gl| && i < |values|
    ensures Unique(values[..i + 1]) ==
      if values[i] in Unique(values[..i]) then Unique(values[..i]) else Unique(values[..i]) + [values[i]]
    ensures values[i] in Unique(values[..i]) ==>
      var at := FirstIndex(Unique(values[..i]), values[i]);
      SolutionUpTo(values, gl, i + 1) ==
        SolutionUpTo(values, gl, i)[at := Held(values[i], SolutionUpTo(values, gl, i)[at].groups + [gl[i]])]
    ensures values[i] !in Unique(values[..i]) ==>
      SolutionUpTo(values, gl, i + 1) == SolutionUpTo(values, gl, i) + [Held(values[i], [gl[i]])]
  {
    var x := values[i];
    assert values[..i + 1][..i] == values[..i] && values[..i + 1][i] == x;
    var u, u' := Unique(values[..i]), Unique(values[..i + 1]);
    var before, after := SolutionUpTo(values, gl, i), SolutionUpTo(values, gl, i + 1);
    if x in u {
      var at := FirstIndex(u, x);
      var upd := before[at := Held(x, before[at].groups + [gl[i]])];
      forall k | 0 <= k < |u| ensures after[k] == upd[k] {
        if k == at { assert u[k] == x; } else { assert u[k] != x; }
      }
    } else {
      var ext := before + [Held(x, [gl[i]])];
      assert u' == u + [x];
      HeldUpToNone(values, gl, x, i);
      forall k | 0 <= k < |u'| ensures after[k] == ext[k] {
        if k < |u| { assert u[k] != x; }
      }
    }
  }

  lemma {:induction false} HeldUpToNone(values: seq<string>, gl: seq<string>, x: string, n: nat)
    requires |values| == |gl| && n <= |values| && x !in values[..n]
    ensures HeldUpTo(values, gl, x, n) == []
  {
    if n > 0 {
      assert values[..n - 1] <= values[..n];
      assert values[..n][n - 1] == values[n - 1];
      HeldUpToNone(values, gl, x, n - 1);
    }
  }

  /** The first loop: every person must be in the team and hold as many groups
      as their shift count; the first person that fails decides. */
  function ShiftScan(team: seq<Member>, sol: seq<Held>): Verdict
    decreases |sol|
  {
    if sol == [] then Accept
    else
      match Lookup(team, sol[0].person)
      case None => UnknownPerson(sol[0].person)
      case Some(m) => if m.nShifts != |sol[0].groups| then Reject else ShiftScan(team, sol[1..])
  }

  method CheckShifts(team: seq<Member>, sol: seq<Held>) returns (v: Verdict)
    ensures v == ShiftScan(team, sol)
  {
    var k := 0;
    while k < |sol|
      invariant 0 <= k <= |sol|
      invariant ShiftScan(team, sol) == ShiftScan(team, sol[k..])
    {
      assert sol[k..][0] == sol[k] && sol[k..][1..] == sol[k + 1..];
      var m := Lookup(team, sol[k].person);
      if m.None? {
        return UnknownPerson(sol[k].person);
      }
      if m.value.nShifts != |sol[k].groups| {
        return Reject;
      }
      k := k + 1;
    }
    return Accept;
  }

  /** The sorted pairs the second loop compares, person by person. A person
      with two groups yields `sorted(groups)`, one with more yields every
      `itertools.combinations` pair sorted; both are `SortedCombos`. */
  function Combinations(sol: seq<Held>): seq<Pair>
  {
    if sol == [] then [] else Combinations(sol[..|sol| - 1]) + SortedCombos(sol[|sol| - 1].groups)
  }

  /** The body of the second loop for one person, branch for branch: a
      forbidden pair rejects at once; otherwise in first-found mode every
      pair that is in the consecutive list is counted. */
  method CheckHeld(groups: seq<string>, forbidden: seq<Pair>, consecutive: seq<Pair>, all: bool) returns (rejected: bool, count: nat)
    ensures rejected <==> CountIn(SortedCombos(groups), forbidden) > 0
    ensures !rejected ==> count == if all then 0 else CountIn(SortedCombos(groups), consecutive)
  {
    rejected, count := false, 0;
    var cs := SortedCombos(groups);
    if |groups| == 2 {
      assert Combos(groups) == [Pair(groups[0], groups[1])];
      var c := Sorted(groups[0], groups[1]);
      assert cs == [c] && cs[..0] == [];
      assert CountIn(cs, forbidden) == if c in forbidden then 1 else 0;
      assert CountIn(cs, consecutive) == if c in consecutive then 1 else 0;
      if c in forbidden {
        return true, 0;
      }
      if !all && c in consecutive {
        count := count + 1;
      }
    } else if |groups| > 2 {
      rejected, count := CheckCombos(groups, forbidden, consecutive, all);
    } else {
      assert |Combos(groups)| == 0;
    }
  }

  /** `for combination in itertools.combinations(groups, 2)`, each sorted. */
  method CheckCombos(groups: seq<string>, forbidden: seq<Pair>, consecutive: seq<Pair>, all: bool) returns (rejected: bool, count: nat)
    ensures rejected <==> CountIn(SortedCombos(groups), forbidden) > 0
    ensures !rejected ==> count == if all then 0 else CountIn(SortedCombos(groups), consecutive)
  {
    rejected, count := false, 0;
    var cs := SortedCombos(groups);
    var combos := Combos(groups);
    var k := 0;
    while k < |combos|
      invariant 0 <= k <= |combos|
      invariant CountIn(cs[..k], forbidden) == 0
      invariant count == if all then 0 else CountIn(cs[..k], consecutive)
    {
      var c := Sorted(combos[k].first, combos[k].second);
      assert cs[k] == c;
      assert cs[..k + 1] == cs[..k] + [c];
      if c in forbidden {
        CountInPositive(cs, forbidden);
        return true, 0;
      }
      if !all && c in consecutive {
        count := count + 1;
      }
      k := k + 1;
    }
    assert cs[..|combos|] == cs;
  }

  /** The second loop over all persons. */
  method CheckPairs(sol: seq<Held>, forbidden: seq<Pair>, consecutive: seq<Pair>, all: bool) returns (rejected: bool, count: nat)
    ensures rejected <==> CountIn(Combinations(sol), forbidden) > 0
    ensures !rejected ==> count == if all then 0 else CountIn(Combinations(sol), consecutive)
  {
    rejected, count := false, 0;
    var k := 0;
    while k < |sol|
      invariant 0 <= k <= |sol|
      invariant CountIn(Combinations(sol[..k]), forbidden) == 0
      invariant count == if all then 0 else CountIn(Combinations(sol[..k]), consecutive)
    {
      var prefix, cs := Combinations(sol[..k]), SortedCombos(sol[k].groups);
      assert sol[..k + 1][..k] == sol[..k];
      assert Combinations(sol[..k + 1]) == prefix + cs;
      CountInAppend(prefix, cs, forbidden);
      CountInAppend(prefix, cs, consecutive);
      var r, n := CheckHeld(sol[k].groups, forbidden, consecutive, all);
      if r {
        CombinationsGrow(sol, k + 1, forbidden);
        return true, 0;
      }
      count := count + n;
      k := k + 1;
    }
    assert sol[..|sol|] == sol;
  }

  /** A forbidden pair found in a prefix is still found in the whole. */
  lemma {:induction false} CombinationsGrow(sol: seq<Held>, n: nat, list: seq<Pair>)
    requires n <= |sol|
    ensures CountIn(Combinations(sol[..n]), list) <= CountIn(Combinations(sol), list)
    decreases |sol| - n
  {
    if n < |sol| {
      CombinationsGrow(sol, n + 1, list);
      assert sol[..n + 1][..n] == sol[..n];
      CountInAppend(Combinations(sol[..n]), SortedCombos(sol[n].groups), list);
    } else {
      assert sol[..n] == sol;
    }
  }

  /** The consecutive pairs held by one person, as the second loop counts them. */
  function ConsecutiveCount(values: seq<string>, gl: seq<string>, consecutive: seq<Pair>): nat
    requires |values| == |gl|
  {
    CountIn(Combinations(Solution(values, gl)), consecutive)
  }

  /** The verdict of the compound constraint on one full assignment: variable
      `gl[k]` takes the person `values[k]`. `plus1shift` is the number of
      people with more than one shift and `ratio` the consecutive ratio. */
  function Constraint(values: seq<string>, gl: seq<string>, forbidden: seq<Pair>, consecutive: seq<Pair>,
                      plus1shift: nat, ratio: real, team: seq<Member>, all: bool): Verdict
    requires |values| == |gl|
  {
    var sol := Solution(values, gl);
    var shifts := ShiftScan(team, sol);
    if shifts != Accept then shifts
    else if CountIn(Combinations(sol), forbidden) > 0 then Reject
    else if all then Accept
    else if plus1shift == 0 then ZeroDivision
    else if (ConsecutiveCount(values, gl, consecutive) as real) / (plus1shift as real) <= ratio then Reject
    else Accept
  }

  /** `custom_constraint` / `consecutive_constraint`. */
  method CustomConstraint(values: seq<string>, gl: seq<string>, forbidden: seq<Pair>, consecutive: seq<Pair>,
                          plus1shift: nat, ratio: real, team: seq<Member>, all: bool) returns (v: Verdict)
    requires |values| == |gl|
    ensures v == Constraint(values, gl, forbidden, consecutive, plus1shift, ratio, team, all)
  {
    var sol := GroupByPerson(values, gl);
    v := CheckShifts(team, sol);
    if v != Accept {
      return;
    }
    var rejected, count := CheckPairs(sol, forbidden, consecutive, all);
    if rejected {
      return Reject;
    }
    if !all {
      if plus1shift == 0 {
        return ZeroDivision;
      }
      if (count as real) / (plus1shift as real) <= ratio {
        return Reject;
      }
    }
    return Accept;
  }

  /** The constraint with the ratio floor skipped when nobody has more than
      one shift: then no person can hold a consecutive pair, and the quotient
      `consecutive_count / plus1shift` would be `0 / 0`. */
  function ConstraintGuarded(values: seq<string>, gl: seq<string>, forbidden: seq<Pair>, consecutive: seq<Pair>,
                             plus1shift: nat, ratio: real, team: seq<Member>, all: bool): Verdict
    requires |values| == |gl|
  {
    if plus1shift == 0 then Constraint(values, gl, forbidden, consecutive, plus1shift, ratio, team, true)
    else Constraint(values, gl, forbidden, consecutive, plus1shift, ratio, team, all)
  }
}
