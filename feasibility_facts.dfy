/** What the compound constraint guarantees about an assignment, stated on
    the assignment itself rather than on the grouped dictionary. */
module FeasibilityFacts {
  import opened Base
  import opened TeamModel
  import opened Headers
  import opened Relations
  import opened Feasibility

  // ---------------------------------------------------------------------
  // The grouped assignment
  // ---------------------------------------------------------------------

  /** Every group taken by `x` is listed for `x`. */
  lemma {:induction false} HeldIntro(values: seq<string>, gl: seq<string>, a: nat, n: nat)
    requires |values| == |gl| && a < n <= |values|
    ensures gl[a] in HeldUpTo(values, gl, values[a], n)
  {
    if a < n - 1 {
      HeldIntro(values, gl, a, n - 1);
    }
  }

  /** Only groups taken by `x` are listed for `x`. */
  lemma {:induction false} HeldElim(values: seq<string>, gl: seq<string>, x: string, n: nat, g: string)
    requires |values| == |gl| && n <= |values|
    requires g in HeldUpTo(values, gl, x, n)
    ensures exists a :: 0 <= a < n && values[a] == x && gl[a] == g
  {
    if g in HeldUpTo(values, gl, x, n - 1) {
      HeldElim(values, gl, x, n - 1, g);
    } else {
      assert values[n - 1] == x && gl[n - 1] == g;
    }
  }

  /** `x` is listed with as many groups as it takes variables. */
  lemma {:induction false} HeldCount(values: seq<string>, gl: seq<string>, x: string, n: nat)
    requires |values| == |gl| && n <= |values|
    ensures |HeldUpTo(values, gl, x, n)| == Occurrences(values[..n], x)
  {
    if n > 0 {
      HeldCount(values, gl, x, n - 1);
      assert values[..n][..n - 1] == values[..n - 1];
    }
  }

  /** Every person who takes a variable has an entry. */
  lemma SolutionHas(values: seq<string>, gl: seq<string>, a: nat)
    requires |values| == |gl| && a < |values|
    ensures FirstIndex(Unique(values), values[a]) < |Solution(values, gl)|
    ensures Solution(values, gl)[FirstIndex(Unique(values), values[a])] == Held(values[a], HeldBy(values, gl, values[a]))
  {
    assert values[..|values|] == values;
    assert values[a] in values;
  }

  /** Every entry is a person who takes a variable. */
  lemma SolutionEntry(values: seq<string>, gl: seq<string>, k: nat)
    requires |values| == |gl| && k < |Solution(values, gl)|
    ensures Solution(values, gl)[k] == Held(Solution(values, gl)[k].person, HeldBy(values, gl, Solution(values, gl)[k].person))
    ensures Solution(values, gl)[k].person in values
  {
    assert values[..|values|] == values;
    assert Unique(values)[k] in Unique(values);
  }

  // ---------------------------------------------------------------------
  // Pairs of one person's groups
  // ---------------------------------------------------------------------

  /** Appending a group keeps every earlier pair and pairs the new group
      with each earlier one. */
  lemma CombosExtend(h: seq<string>, y: string)
    ensures forall p :: p in SortedCombos(h) ==> p in SortedCombos(h + [y])
    ensures forall z :: z in h ==> Sorted(z, y) in SortedCombos(h + [y])
  {
    var h' := h + [y];
    forall p | p in SortedCombos(h) ensures p in SortedCombos(h') {
      SortedCombosMember(h, p);
      var i, j :| 0 <= i < j < |h| && p == Sorted(h[i], h[j]);
      assert h'[i] == h[i] && h'[j] == h[j];
      SortedCombosMember(h', p);
    }
    forall z | z in h ensures Sorted(z, y) in SortedCombos(h') {
      var i :| 0 <= i < |h| && h[i] == z;
      assert h'[i] == z && h'[|h|] == y;
      SortedCombosMember(h', Sorted(z, y));
    }
  }

  /** A pair of the extended list is an earlier pair or a new one. */
  lemma CombosExtendElim(h: seq<string>, y: string, p: Pair)
    requires p in SortedCombos(h + [y])
    ensures p in SortedCombos(h) || exists i :: 0 <= i < |h| && p == Sorted(h[i], y)
  {
    var h' := h + [y];
    SortedCombosMember(h', p);
    var i, j :| 0 <= i < j < |h'| && p == Sorted(h'[i], h'[j]);
    if j < |h| {
      assert h'[i] == h[i] && h'[j] == h[j];
      SortedCombosMember(h, p);
    } else {
      assert h'[i] == h[i];
    }
  }

  /** Two variables taken by one person give a pair of that person's groups. */
  lemma {:induction false} HeldPairIntro(values: seq<string>, gl: seq<string>, a: nat, b: nat, n: nat)
    requires |values| == |gl| && a < b < n <= |values| && values[a] == values[b]
    ensures Sorted(gl[a], gl[b]) in SortedCombos(HeldUpTo(values, gl, values[a], n))
  {
    var x := values[a];
    var h := HeldUpTo(values, gl, x, n - 1);
    if b < n - 1 {
      HeldPairIntro(values, gl, a, b, n - 1);
      if values[n - 1] == x {
        assert HeldUpTo(values, gl, x, n) == h + [gl[n - 1]];
        CombosExtend(h, gl[n - 1]);
      } else {
        assert HeldUpTo(values, gl, x, n) == h;
      }
    } else {
      assert HeldUpTo(values, gl, x, n) == h + [gl[b]];
      HeldIntro(values, gl, a, n - 1);
      CombosExtend(h, gl[b]);
    }
  }

  /** Every pair of a person's groups comes from two variables they take. */
  lemma {:induction false} HeldPairElim(values: seq<string>, gl: seq<string>, x: string, n: nat, p: Pair)
    requires |values| == |gl| && n <= |values|
    requires p in SortedCombos(HeldUpTo(values, gl, x, n))
    ensures exists a, b :: (0 <= a < n && 0 <= b < n && a != b && values[a] == x && values[b] == x &&
      p == Sorted(gl[a], gl[b]))
  {
    if n > 0 {
      var h := HeldUpTo(values, gl, x, n - 1);
      if values[n - 1] != x {
        assert HeldUpTo(values, gl, x, n) == h;
        HeldPairElim(values, gl, x, n - 1, p);
      } else {
        assert HeldUpTo(values, gl, x, n) == h + [gl[n - 1]];
        CombosExtendElim(h, gl[n - 1], p);
        if p in SortedCombos(h) {
          HeldPairElim(values, gl, x, n - 1, p);
        } else {
          var i :| 0 <= i < |h| && p == Sorted(h[i], gl[n - 1]);
          assert h[i] in h;
          HeldElim(values, gl, x, n - 1, h[i]);
          var a :| 0 <= a < n - 1 && values[a] == x && gl[a] == h[i];
          assert p == Sorted(gl[a], gl[n - 1]);
        }
      }
    }
  }

  lemma {:induction false} CombinationsIntro(sol: seq<Held>, k: nat, p: Pair)
    requires k < |sol| && p in SortedCombos(sol[k].groups)
    ensures p in Combinations(sol)
  {
    if k < |sol| - 1 {
      var init := sol[..|sol| - 1];
      assert init[k] == sol[k];
      CombinationsIntro(init, k, p);
    }
  }

  lemma {:induction false} CombinationsElim(sol: seq<Held>, p: Pair)
    requires p in Combinations(sol)
    ensures exists k :: 0 <= k < |sol| && p in SortedCombos(sol[k].groups)
  {
    var init := sol[..|sol| - 1];
    if p in Combinations(init) {
      CombinationsElim(init, p);
      var k :| 0 <= k < |init| && p in SortedCombos(init[k].groups);
      assert sol[k] == init[k];
    }
  }

  // ---------------------------------------------------------------------
  // The constraint in terms of the assignment
  // ---------------------------------------------------------------------

  /** Every assigned person is in the team and takes exactly `n_shifts`
      variables. */
  predicate ShiftsMatch(values: seq<string>, team: seq<Member>)
  {
    forall a :: 0 <= a < |values| ==>
      Lookup(team, values[a]).Some? && Lookup(team, values[a]).value.nShifts == Occurrences(values, values[a])
  }

  /** No person takes two variables whose groups, sorted, are a forbidden pair. */
  predicate NoForbiddenPair(values: seq<string>, gl: seq<string>, forbidden: seq<Pair>)
    requires |values| == |gl|
  {
    forall a, b :: 0 <= a < |values| && 0 <= b < |values| && a != b && values[a] == values[b] ==>
      Sorted(gl[a], gl[b]) !in forbidden
  }

  lemma {:induction false} ShiftScanAll(team: seq<Member>, sol: seq<Held>)
    ensures ShiftScan(team, sol) == Accept <==>
      forall k :: 0 <= k < |sol| ==> Lookup(team, sol[k].person).Some? && Lookup(team, sol[k].person).value.nShifts == |sol[k].groups|
    decreases |sol|
  {
    if sol != [] {
      ShiftScanAll(team, sol[1..]);
      assert forall k :: 1 <= k < |sol| ==> sol[k] == sol[1..][k - 1];
    }
  }

  lemma {:induction false} ShiftScanUnknown(team: seq<Member>, sol: seq<Held>)
    requires ShiftScan(team, sol).UnknownPerson?
    ensures exists k :: 0 <= k < |sol| && sol[k].person == ShiftScan(team, sol).person && Lookup(team, sol[k].person).None?
    decreases |sol|
  {
    if Lookup(team, sol[0].person).Some? {
      ShiftScanUnknown(team, sol[1..]);
      var k :| 0 <= k < |sol[1..]| && sol[1..][k].person == ShiftScan(team, sol[1..]).person && Lookup(team, sol[1..][k].person).None?;
      assert sol[k + 1] == sol[1..][k];
    }
  }

  lemma {:induction false} ShiftScanNoDivision(team: seq<Member>, sol: seq<Held>)
    ensures ShiftScan(team, sol) != ZeroDivision
    decreases |sol|
  {
    if sol != [] {
      ShiftScanNoDivision(team, sol[1..]);
    }
  }

  /** The first loop passes exactly when every assigned person is known and
      takes as many variables as their shift count. */
  lemma ShiftsMeaning(values: seq<string>, gl: seq<string>, team: seq<Member>)
    requires |values| == |gl|
    ensures ShiftScan(team, Solution(values, gl)) == Accept <==> ShiftsMatch(values, team)
  {
    var sol := Solution(values, gl);
    ShiftScanAll(team, sol);
    assert values[..|values|] == values;
    if ShiftScan(team, sol) == Accept {
      forall a | 0 <= a < |values|
        ensures Lookup(team, values[a]).Some? && Lookup(team, values[a]).value.nShifts == Occurrences(values, values[a])
      {
        SolutionHas(values, gl, a);
        HeldCount(values, gl, values[a], |values|);
      }
    }
    if ShiftsMatch(values, team) {
      forall k | 0 <= k < |sol|
        ensures Lookup(team, sol[k].person).Some? && Lookup(team, sol[k].person).value.nShifts == |sol[k].groups|
      {
        SolutionEntry(values, gl, k);
        var a :| 0 <= a < |values| && values[a] == sol[k].person;
        HeldCount(values, gl, values[a], |values|);
      }
    }
  }

  /** A forbidden pair held by one person is found by the second loop. */
  lemma PairsComplete(values: seq<string>, gl: seq<string>, forbidden: seq<Pair>, a: nat, b: nat)
    requires |values| == |gl| && a < |values| && b < |values| && a != b && values[a] == values[b]
    requires Sorted(gl[a], gl[b]) in forbidden
    ensures CountIn(Combinations(Solution(values, gl)), forbidden) > 0
  {
    var lo, hi := if a < b then a else b, if a < b then b else a;
    SortedSymmetric(gl[a], gl[b]);
    var p := Sorted(gl[lo], gl[hi]);
    HeldPairIntro(values, gl, lo, hi, |values|);
    SolutionHas(values, gl, lo);
    var sol := Solution(values, gl);
    CombinationsIntro(sol, FirstIndex(Unique(values), values[lo]), p);
    var cs := Combinations(sol);
    var c :| 0 <= c < |cs| && cs[c] == p;
    CountInPositive(cs, forbidden);
  }

  /** Every pair the second loop rejects is held by one person. */
  lemma PairsSound(values: seq<string>, gl: seq<string>, forbidden: seq<Pair>)
    requires |values| == |gl|
    requires CountIn(Combinations(Solution(values, gl)), forbidden) > 0
    ensures !NoForbiddenPair(values, gl, forbidden)
  {
    var sol := Solution(values, gl);
    var cs := Combinations(sol);
    CountInPositive(cs, forbidden);
    var c :| 0 <= c < |cs| && cs[c] in forbidden;
    CombinationsElim(sol, cs[c]);
    var k :| 0 <= k < |sol| && cs[c] in SortedCombos(sol[k].groups);
    SolutionEntry(values, gl, k);
    HeldPairElim(values, gl, sol[k].person, |values|, cs[c]);
  }

  /** The second loop passes exactly when no person holds a forbidden pair. */
  lemma PairsMeaning(values: seq<string>, gl: seq<string>, forbidden: seq<Pair>)
    requires |values| == |gl|
    ensures CountIn(Combinations(Solution(values, gl)), forbidden) == 0 <==> NoForbiddenPair(values, gl, forbidden)
  {
    if CountIn(Combinations(Solution(values, gl)), forbidden) > 0 {
      PairsSound(values, gl, forbidden);
    }
    if !NoForbiddenPair(values, gl, forbidden) {
      var a, b :| 0 <= a < |values| && 0 <= b < |values| && a != b && values[a] == values[b] && Sorted(gl[a], gl[b]) in forbidden;
      PairsComplete(values, gl, forbidden, a, b);
    }
  }

  /** What each verdict means. An assignment is accepted exactly when the
      shift counts match, no person holds a forbidden pair, and, in
      first-found mode, the consecutive ratio exceeds the floor. Division by
      zero happens exactly in first-found mode with `plus1shift == 0` on an
      assignment that passed the other checks. */
  lemma ConstraintMeaning(values: seq<string>, gl: seq<string>, forbidden: seq<Pair>, consecutive: seq<Pair>,
                          plus1shift: nat, ratio: real, team: seq<Member>, all: bool)
    requires |values| == |gl|
    ensures Constraint(values, gl, forbidden, consecutive, plus1shift, ratio, team, all) == Accept <==>
      ShiftsMatch(values, team) && NoForbiddenPair(values, gl, forbidden) &&
      (all || (plus1shift > 0 && ratio < (ConsecutiveCount(values, gl, consecutive) as real) / (plus1shift as real)))
    ensures Constraint(values, gl, forbidden, consecutive, plus1shift, ratio, team, all) == ZeroDivision <==>
      ShiftsMatch(values, team) && NoForbiddenPair(values, gl, forbidden) && !all && plus1shift == 0
    ensures Constraint(values, gl, forbidden, consecutive, plus1shift, ratio, team, all).UnknownPerson? ==>
      var x := Constraint(values, gl, forbidden, consecutive, plus1shift, ratio, team, all).person;
      x in values && Lookup(team, x).None?
  {
    var sol := Solution(values, gl);
    ShiftsMeaning(values, gl, team);
    PairsMeaning(values, gl, forbidden);
    ShiftScanNoDivision(team, sol);
    if ShiftScan(team, sol).UnknownPerson? {
      ShiftScanUnknown(team, sol);
      var k :| 0 <= k < |sol| && sol[k].person == ShiftScan(team, sol).person && Lookup(team, sol[k].person).None?;
      SolutionEntry(values, gl, k);
    }
  }

  // ---------------------------------------------------------------------
  // Exact shift counts
  // ---------------------------------------------------------------------

  /** How many variables the team's members take between them. */
  function Served(team: seq<Member>, values: seq<string>): int
  {
    if team == [] then 0 else Served(team[..|team| - 1], values) + Occurrences(values, team[|team| - 1].name)
  }

  /** How many members carry the name `x`. */
  function NameCount(team: seq<Member>, x: string): nat
  {
    if team == [] then 0 else NameCount(team[..|team| - 1], x) + (if team[|team| - 1].name == x then 1 else 0)
  }

  lemma {:induction false} NameCountZero(team: seq<Member>, x: string)
    requires forall k :: 0 <= k < |team| ==> team[k].name != x
    ensures NameCount(team, x) == 0
  {
    if team != [] {
      NameCountZero(team[..|team| - 1], x);
    }
  }

  lemma {:induction false} NameCountOne(team: seq<Member>, k: nat)
    requires DistinctNames(team) && k < |team|
    ensures NameCount(team, team[k].name) == 1
  {
    var init, last := team[..|team| - 1], team[|team| - 1];
    assert DistinctNames(init);
    if k == |team| - 1 {
      assert forall i :: 0 <= i < |init| ==> init[i] == team[i];
      NameCountZero(init, last.name);
    } else {
      assert init[k] == team[k];
      NameCountOne(init, k);
    }
  }

  lemma {:induction false} ServedStep(team: seq<Member>, vs: seq<string>, v: string)
    ensures Served(team, vs + [v]) == Served(team, vs) + NameCount(team, v)
  {
    if team != [] {
      ServedStep(team[..|team| - 1], vs, v);
      assert (vs + [v])[..|vs|] == vs;
    }
  }

  lemma {:induction false} ServedAll(team: seq<Member>, values: seq<string>)
    requires DistinctNames(team)
    requires forall a :: 0 <= a < |values| ==> Lookup(team, values[a]).Some?
    ensures Served(team, values) == |values|
  {
    if values == [] {
      ServedNone(team, values);
    } else {
      var init, v := values[..|values| - 1], values[|values| - 1];
      assert forall a :: 0 <= a < |init| ==> init[a] == values[a];
      ServedAll(team, init);
      ServedStep(team, init, v);
      assert values == init + [v];
      var m := Lookup(team, v).value;
      var k :| 0 <= k < |team| && team[k] == m;
      NameCountOne(team, k);
    }
  }

  lemma {:induction false} ServedNone(team: seq<Member>, values: seq<string>)
    requires values == []
    ensures Served(team, values) == 0
  {
    if team != [] {
      ServedNone(team[..|team| - 1], values);
    }
  }

  /** When no member exceeds their shift count, the members take at most the
      total, and they take the total only if each takes exactly their count. */
  lemma {:induction false} SlackZero(team: seq<Member>, values: seq<string>)
    requires forall k :: 0 <= k < |team| ==> Occurrences(values, team[k].name) <= team[k].nShifts
    ensures Served(team, values) <= TotalShifts(team)
    ensures Served(team, values) == TotalShifts(team) ==>
      forall k :: 0 <= k < |team| ==> Occurrences(values, team[k].name) == team[k].nShifts
  {
    if team != [] {
      var init := team[..|team| - 1];
      assert forall k :: 0 <= k < |init| ==> init[k] == team[k];
      SlackZero(init, values);
    }
  }

  /** The shift check only looks at people who were assigned. Together with
      a shift total equal to the number of variables, it still gives every
      member, including one assigned nothing, exactly their number of shifts.
      Team construction checks the total against the rows, which is the same
      number only when the group labels are distinct. */
  lemma ShiftsExact(values: seq<string>, team: seq<Member>)
    requires DistinctNames(team) && ShiftsMatch(values, team)
    requires TotalShifts(team) == |values|
    requires forall k :: 0 <= k < |team| ==> team[k].nShifts >= 0
    ensures forall k :: 0 <= k < |team| ==> Occurrences(values, team[k].name) == team[k].nShifts
  {
    ServedAll(team, values);
    forall k | 0 <= k < |team| ensures Occurrences(values, team[k].name) <= team[k].nShifts {
      OccurrencesPositive(values, team[k].name);
      if team[k].name in values {
        var a :| 0 <= a < |values| && values[a] == team[k].name;
        LookupDistinct(team, k);
      }
    }
    SlackZero(team, values);
  }

  // ---------------------------------------------------------------------
  // Simultaneous groups
  // ---------------------------------------------------------------------

  /** With the sorted incompatible list among the forbidden pairs, an accepted
      assignment never gives one person two groups that meet at the same day
      and time. */
  lemma NoSimultaneous(slots: seq<Slot>, values: seq<string>, gl: seq<string>, forbidden: seq<Pair>,
                       consecutive: seq<Pair>, plus1shift: nat, ratio: real, team: seq<Member>, all: bool,
                       a: nat, b: nat, i: nat, j: nat)
    requires |values| == |gl|
    requires forall p :: p in IncompatibleSorted(slots) ==> p in forbidden
    requires Constraint(values, gl, forbidden, consecutive, plus1shift, ratio, team, all) == Accept
    requires a < |values| && b < |values| && a != b
    requires i < |slots| && j < |slots| && i != j && SameTime(slots, i, j)
    requires gl[a] == slots[i].group && gl[b] == slots[j].group
    ensures values[a] != values[b]
  {
    IncompatibleSortedComplete(slots, i, j);
    ConstraintMeaning(values, gl, forbidden, consecutive, plus1shift, ratio, team, all);
  }

  /** The list as written does not give that guarantee: the two-group case of
      a time slot keeps the pair in table order, the constraint looks the
      sorted pair up, and so one person is accepted for two groups that meet
      at the same time. */
  lemma SimultaneousAccepted()
    ensures var slots := [Slot("Mon", "9-11", "B", "L", "R1"), Slot("Mon", "9-11", "A", "L", "R2")];
      && SameTime(slots, 0, 1)
      && Constraint(["X", "X"], ["B", "A"], Incompatible(slots), [], 1, 0.0, [Member("X", 2, [Yes, Yes])], true) == Accept
  {
    UnsortedPairWitness();
    UnsortedPairAccepted();
  }

  /** One person holding `B` and `A` passes when only the unsorted pair is
      forbidden. */
  lemma UnsortedPairAccepted()
    ensures Constraint(["X", "X"], ["B", "A"], [Pair("B", "A")], [], 1, 0.0, [Member("X", 2, [Yes, Yes])], true) == Accept
  {
    var values, gl, team := ["X", "X"], ["B", "A"], [Member("X", 2, [Yes, Yes])];
    var forbidden := [Pair("B", "A")];
    SortedSymmetric("B", "A");
    ConstraintMeaning(values, gl, forbidden, [], 1, 0.0, team, true);
    assert Lookup(team, "X") == Some(team[0]);
    assert values[..1] == ["X"] && ["X"][..0] == [];
    assert Occurrences(values, "X") == 2;
    assert ShiftsMatch(values, team);
    forall a, b | 0 <= a < 2 && 0 <= b < 2 && a != b ensures Sorted(gl[a], gl[b]) !in forbidden {
      assert Sorted(gl[a], gl[b]) == Pair("A", "B");
    }
  }

  // ---------------------------------------------------------------------
  // Division by zero in first-found mode
  // ---------------------------------------------------------------------

  /** In first-found mode, a team where nobody has more than one shift makes
      the ratio check divide by zero on the first assignment that passes the
      other checks. */
  lemma ZeroDivisionWitness()
    ensures Constraint(["X"], ["g"], [], [], 0, 0.0, [Member("X", 1, [Yes])], false) == ZeroDivision
  {
    var values, team := ["X"], [Member("X", 1, [Yes])];
    ConstraintMeaning(values, ["g"], [], [], 0, 0.0, team, false);
    assert Lookup(team, "X") == Some(team[0]);
    assert values[..0] == [];
    assert ShiftsMatch(values, team);
  }

  /** The guarded constraint never divides by zero. */
  lemma GuardedNeverDivides(values: seq<string>, gl: seq<string>, forbidden: seq<Pair>, consecutive: seq<Pair>,
                            plus1shift: nat, ratio: real, team: seq<Member>, all: bool)
    requires |values| == |gl|
    ensures ConstraintGuarded(values, gl, forbidden, consecutive, plus1shift, ratio, team, all) != ZeroDivision
  {
    ConstraintMeaning(values, gl, forbidden, consecutive, plus1shift, ratio, team, all);
    ConstraintMeaning(values, gl, forbidden, consecutive, plus1shift, ratio, team, true);
  }

  /** The guarded constraint gives the same verdict as the original wherever
      the original does not divide by zero, and in that one case it accepts
      exactly the assignments that pass the shift and pair checks. */
  lemma GuardedAgrees(values: seq<string>, gl: seq<string>, forbidden: seq<Pair>, consecutive: seq<Pair>,
                      plus1shift: nat, ratio: real, team: seq<Member>, all: bool)
    requires |values| == |gl|
    ensures Constraint(values, gl, forbidden, consecutive, plus1shift, ratio, team, all) != ZeroDivision ==>
      ConstraintGuarded(values, gl, forbidden, consecutive, plus1shift, ratio, team, all) ==
      Constraint(values, gl, forbidden, consecutive, plus1shift, ratio, team, all)
    ensures Constraint(values, gl, forbidden, consecutive, plus1shift, ratio, team, all) == ZeroDivision ==>
      ConstraintGuarded(values, gl, forbidden, consecutive, plus1shift, ratio, team, all) == Accept
  {
    ConstraintMeaning(values, gl, forbidden, consecutive, plus1shift, ratio, team, all);
    ConstraintMeaning(values, gl, forbidden, consecutive, plus1shift, ratio, team, true);
  }

  // ---------------------------------------------------------------------
  // Repeated group labels
  // ---------------------------------------------------------------------

  /** The shift total is checked against the rows, the variables are the
      distinct groups: two rows of group `g` and the headers `X_1`, `Y_1`
      build a team of total 2, there is one variable, and `{g: X}` is
      accepted while `Y` takes no shift. */
  lemma RepeatedGroupIdle()
    ensures TeamOf(Table([Slot("Mon", "9-11", "g", "L", "R"), Slot("Mon", "9-11", "g", "L", "R")],
                         ["X_1", "Y_1"], [[Yes, Yes], [Yes, Yes]])) ==
      Ok([Member("X", 1, [Yes, Yes]), Member("Y", 1, [Yes, Yes])])
    ensures Unique(Groups([Slot("Mon", "9-11", "g", "L", "R"), Slot("Mon", "9-11", "g", "L", "R")])) == ["g"]
    ensures Constraint(["X"], ["g"], [], [], 1, 0.0, [Member("X", 1, [Yes, Yes]), Member("Y", 1, [Yes, Yes])], true) == Accept
    ensures Occurrences(["X"], "Y") == 0
  {
    RepeatedTeam();
    RepeatedGroups();
    RepeatedAccepted();
  }

  lemma RepeatedHeaders()
    ensures ParseHeader("X_1") == Parsed(Header("X", 1))
    ensures ParseHeader("Y_1") == Parsed(Header("Y", 1))
  {
    assert IntToString(1) == "1";
    PaddedHeaderParses("X", "", 1, "");
    PaddedHeaderParses("Y", "", 1, "");
    assert "X" + "_" + "" + "1" + "" == "X_1";
    assert "Y" + "_" + "" + "1" + "" == "Y_1";
  }

  lemma RepeatedTeam()
    ensures TeamOf(Table([Slot("Mon", "9-11", "g", "L", "R"), Slot("Mon", "9-11", "g", "L", "R")],
                         ["X_1", "Y_1"], [[Yes, Yes], [Yes, Yes]])) ==
      Ok([Member("X", 1, [Yes, Yes]), Member("Y", 1, [Yes, Yes])])
  {
    var s := Slot("Mon", "9-11", "g", "L", "R");
    var t := Table([s, s], ["X_1", "Y_1"], [[Yes, Yes], [Yes, Yes]]);
    RepeatedHeaders();
    assert Column(t, 0) == [Yes, Yes] && Column(t, 1) == [Yes, Yes];
    var x, y := Member("X", 1, [Yes, Yes]), Member("Y", 1, [Yes, Yes]);
    assert BuildTeam(t, 1) == Ok([x]);
    assert [x][1..] == [];
    assert Upsert([x], y) == [x, y];
    assert t.headers[1] == "Y_1";
    assert BuildTeam(t, 2) == Ok([x, y]);
    assert [x, y][..1] == [x] && [x][..0] == [];
    assert TotalShifts([x]) == 1;
    assert TotalShifts([x, y]) == 2;
  }

  lemma RepeatedGroups()
    ensures Unique(Groups([Slot("Mon", "9-11", "g", "L", "R"), Slot("Mon", "9-11", "g", "L", "R")])) == ["g"]
  {
    var s := Slot("Mon", "9-11", "g", "L", "R");
    var gs := Groups([s, s]);
    assert gs == ["g", "g"];
    assert gs[..1] == ["g"] && ["g"][..0] == [];
  }

  lemma RepeatedAccepted()
    ensures Constraint(["X"], ["g"], [], [], 1, 0.0, [Member("X", 1, [Yes, Yes]), Member("Y", 1, [Yes, Yes])], true) == Accept
    ensures Occurrences(["X"], "Y") == 0
  {
    var values, gl := ["X"], ["g"];
    var team := [Member("X", 1, [Yes, Yes]), Member("Y", 1, [Yes, Yes])];
    ConstraintMeaning(values, gl, [], [], 1, 0.0, team, true);
    assert Lookup(team, "X") == Some(team[0]);
    assert values[..0] == [];
    assert Occurrences(values, "X") == 1;
    assert ShiftsMatch(values, team);
  }
}
