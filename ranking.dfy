/** Choosing among several solutions: each solution gets a consecutive count
    and a `Preferably Not` count, and the chosen one has the most consecutive
    pairs, then the fewest `Preferably Not` groups, then comes first. */
module Ranking {
  import opened Base
  import opened TeamModel
  import opened Domains

  /** One entry of a solution dictionary: a group and the person it gets. */
  datatype Assign = Assign(group: string, person: string)

  /** `solution.get(group)`: the person of the group's entry, `None` when the
      group has none. */
  function Get(sol: seq<Assign>, g: string): Option<string>
    decreases |sol|
  {
    if sol == [] then None
    else if sol[0].group == g then Some(sol[0].person)
    else Get(sol[1..], g)
  }

  /** A dictionary has each key once. */
  predicate DistinctKeys(sol: seq<Assign>)
  {
    forall a, b :: 0 <= a < b < |sol| ==> sol[a].group != sol[b].group
  }

  lemma {:induction false} GetFacts(sol: seq<Assign>, g: string)
    ensures Get(sol, g).None? <==> forall k :: 0 <= k < |sol| ==> sol[k].group != g
    ensures Get(sol, g).Some? ==> exists k :: 0 <= k < |sol| && sol[k] == Assign(g, Get(sol, g).value)
    decreases |sol|
  {
    if sol != [] && sol[0].group != g {
      GetFacts(sol[1..], g);
      assert forall k :: 1 <= k < |sol| ==> sol[k] == sol[1..][k - 1];
      if Get(sol, g).Some? {
        var k :| 0 <= k < |sol[1..]| && sol[1..][k] == Assign(g, Get(sol, g).value);
        assert sol[k + 1] == sol[1..][k];
      }
    }
  }

  /** With distinct keys, `get` finds the entry of the group. */
  lemma {:induction false} GetDistinct(sol: seq<Assign>, k: nat)
    requires DistinctKeys(sol) && k < |sol|
    ensures Get(sol, sol[k].group) == Some(sol[k].person)
    decreases |sol|
  {
    if k > 0 {
      assert sol[0].group != sol[k].group;
      assert sol[1..][k - 1] == sol[k];
      assert DistinctKeys(sol[1..]) by {
        forall a, b | 0 <= a < b < |sol[1..]| ensures sol[1..][a].group != sol[1..][b].group {
          assert sol[1..][a] == sol[a + 1] && sol[1..][b] == sol[b + 1];
        }
      }
      GetDistinct(sol[1..], k - 1);
    }
  }

  // ---------------------------------------------------------------------
  // count_consecutive
  // ---------------------------------------------------------------------

  /** Whether `solution.get(shift1) == solution.get(shift2)`; two missing
      groups compare equal. */
  predicate SameHolder(sol: seq<Assign>, p: Pair)
  {
    Get(sol, p.first) == Get(sol, p.second)
  }

  /** The number of listed pairs whose two groups have the same holder. */
  function ConsecutiveScore(sol: seq<Assign>, pairs: seq<Pair>): nat
  {
    if pairs == [] then 0
    else ConsecutiveScore(sol, pairs[..|pairs| - 1]) + (if SameHolder(sol, pairs[|pairs| - 1]) then 1 else 0)
  }

  /** The count is at most the number of pairs; it is zero exactly when no
      pair has one holder, and full exactly when every pair has. */
  lemma {:induction false} ConsecutiveScoreBounds(sol: seq<Assign>, pairs: seq<Pair>)
    ensures ConsecutiveScore(sol, pairs) <= |pairs|
    ensures ConsecutiveScore(sol, pairs) == 0 <==> forall i :: 0 <= i < |pairs| ==> !SameHolder(sol, pairs[i])
    ensures ConsecutiveScore(sol, pairs) == |pairs| <==> forall i :: 0 <= i < |pairs| ==> SameHolder(sol, pairs[i])
  {
    if pairs != [] {
      var init := pairs[..|pairs| - 1];
      ConsecutiveScoreBounds(sol, init);
      assert forall i :: 0 <= i < |init| ==> init[i] == pairs[i];
    }
  }

  /** The inner loop over the consecutive pairs of one solution. */
  method ConsecutiveOf(sol: seq<Assign>, pairs: seq<Pair>) returns (count: nat)
    ensures count == ConsecutiveScore(sol, pairs)
  {
    count := 0;
    for i := 0 to |pairs|
      invariant count == ConsecutiveScore(sol, pairs[..i])
    {
      assert pairs[..i + 1][..i] == pairs[..i];
      if Get(sol, pairs[i].first) == Get(sol, pairs[i].second) {
        count := count + 1;
      }
    }
    assert pairs[..|pairs|] == pairs;
  }

  function ConsecutiveScores(solutions: seq<seq<Assign>>, pairs: seq<Pair>): (cs: seq<nat>)
    ensures |cs| == |solutions|
    ensures forall k :: 0 <= k < |solutions| ==> cs[k] == ConsecutiveScore(solutions[k], pairs)
  {
    seq(|solutions|, k requires 0 <= k < |solutions| => ConsecutiveScore(solutions[k], pairs))
  }

  method CountConsecutive(solutions: seq<seq<Assign>>, pairs: seq<Pair>) returns (cs: seq<nat>)
    ensures cs == ConsecutiveScores(solutions, pairs)
  {
    cs := [];
    for k := 0 to |solutions|
      invariant |cs| == k
      invariant forall j :: 0 <= j < k ==> cs[j] == ConsecutiveScore(solutions[j], pairs)
    {
      var c := ConsecutiveOf(solutions[k], pairs);
      cs := cs + [c];
    }
  }

  // ---------------------------------------------------------------------
  // count_preference
  // ---------------------------------------------------------------------

  /** Why ranking stops: `team[person]` for a person outside the team, or for
      the integer counter that scheduler.py leaves among the entries. */
  datatype RankError = UnknownPerson(person: string) | CounterAsPerson(count: nat)

  /** The number of entries whose person has `Preferably Not` for the group,
      walking the entries in order; the first person outside the team is a
      `KeyError`. */
  function PrefNotScore(team: seq<Member>, slots: seq<Slot>, sol: seq<Assign>): Result<nat, RankError>
  {
    if sol == [] then Ok(0)
    else
      var last := sol[|sol| - 1];
      match PrefNotScore(team, slots, sol[..|sol| - 1])
      case Err(e) => Err(e)
      case Ok(n) =>
        match Lookup(team, last.person)
        case None => Err(UnknownPerson(last.person))
        case Some(m) => Ok(n + if TierOf(m, slots, last.group) == PrefNot then 1 else 0)
  }

  /** The count exists exactly when every person is in the team, is at most
      the number of entries, and an error names a person of the solution who
      is not in the team. */
  lemma {:induction false} PrefNotScoreFacts(team: seq<Member>, slots: seq<Slot>, sol: seq<Assign>)
    ensures PrefNotScore(team, slots, sol).Ok? <==> forall k :: 0 <= k < |sol| ==> Lookup(team, sol[k].person).Some?
    ensures PrefNotScore(team, slots, sol).Ok? ==> PrefNotScore(team, slots, sol).value <= |sol|
    ensures PrefNotScore(team, slots, sol).Err? ==>
      PrefNotScore(team, slots, sol).error.UnknownPerson? &&
      exists k :: 0 <= k < |sol| && sol[k].person == PrefNotScore(team, slots, sol).error.person &&
        Lookup(team, sol[k].person).None?
  {
    if sol != [] {
      var init := sol[..|sol| - 1];
      PrefNotScoreFacts(team, slots, init);
      assert forall k :: 0 <= k < |init| ==> init[k] == sol[k];
      if PrefNotScore(team, slots, init).Err? {
        var k :| 0 <= k < |init| && init[k].person == PrefNotScore(team, slots, init).error.person &&
          Lookup(team, init[k].person).None?;
        assert sol[k] == init[k];
      }
    }
  }

  /** The inner loop of `count_preference` over one solution's entries. */
  method PrefNotOf(team: seq<Member>, slots: seq<Slot>, sol: seq<Assign>) returns (r: Result<nat, RankError>)
    ensures r == PrefNotScore(team, slots, sol)
  {
    var count := 0;
    for k := 0 to |sol|
      invariant PrefNotScore(team, slots, sol[..k]) == Ok(count)
    {
      assert sol[..k + 1][..k] == sol[..k];
      var m := Lookup(team, sol[k].person);
      if m.None? {
        PrefNotStops(team, slots, sol, k);
        return Err(UnknownPerson(sol[k].person));
      }
      if TierOf(m.value, slots, sol[k].group) == PrefNot {
        count := count + 1;
      }
    }
    assert sol[..|sol|] == sol;
    r := Ok(count);
  }

  /** Once the walk reaches an unknown person, that is the result. */
  lemma {:induction false} PrefNotStops(team: seq<Member>, slots: seq<Slot>, sol: seq<Assign>, k: nat)
    requires k < |sol| && PrefNotScore(team, slots, sol[..k]).Ok? && Lookup(team, sol[k].person).None?
    ensures PrefNotScore(team, slots, sol) == Err(UnknownPerson(sol[k].person))
    decreases |sol|
  {
    if k < |sol| - 1 {
      var init := sol[..|sol| - 1];
      assert init[..k] == sol[..k] && init[k] == sol[k];
      PrefNotStops(team, slots, init, k);
    } else {
      assert sol[..|sol| - 1] == sol[..k];
    }
  }

  /** The scores of all solutions, or the first error in solution order. */
  function PrefNotScores(team: seq<Member>, slots: seq<Slot>, solutions: seq<seq<Assign>>): Result<seq<nat>, RankError>
  {
    if solutions == [] then Ok([])
    else
      match PrefNotScores(team, slots, solutions[..|solutions| - 1])
      case Err(e) => Err(e)
      case Ok(ps) =>
        match PrefNotScore(team, slots, solutions[|solutions| - 1])
        case Err(e) => Err(e)
        case Ok(p) => Ok(ps + [p])
  }

  /** The scores exist exactly when each solution has one, and then they are
      those scores, in order. */
  lemma {:induction false} PrefNotScoresFacts(team: seq<Member>, slots: seq<Slot>, solutions: seq<seq<Assign>>)
    ensures PrefNotScores(team, slots, solutions).Ok? <==>
      forall k :: 0 <= k < |solutions| ==> PrefNotScore(team, slots, solutions[k]).Ok?
    ensures PrefNotScores(team, slots, solutions).Ok? ==>
      var ps := PrefNotScores(team, slots, solutions).value;
      |ps| == |solutions| && forall k :: 0 <= k < |solutions| ==> PrefNotScore(team, slots, solutions[k]) == Ok(ps[k])
  {
    if solutions != [] {
      var init := solutions[..|solutions| - 1];
      PrefNotScoresFacts(team, slots, init);
      assert forall k :: 0 <= k < |init| ==> init[k] == solutions[k];
    }
  }

  method CountPreference(team: seq<Member>, slots: seq<Slot>, solutions: seq<seq<Assign>>) returns (r: Result<seq<nat>, RankError>)
    ensures r == PrefNotScores(team, slots, solutions)
  {
    var ps: seq<nat> := [];
    for k := 0 to |solutions|
      invariant PrefNotScores(team, slots, solutions[..k]) == Ok(ps)
    {
      assert solutions[..k + 1][..k] == solutions[..k];
      var p := PrefNotOf(team, slots, solutions[k]);
      if p.Err? {
        PrefNotScoresStop(team, slots, solutions, k);
        return Err(p.error);
      }
      ps := ps + [p.value];
    }
    assert solutions[..|solutions|] == solutions;
    r := Ok(ps);
  }

  lemma {:induction false} PrefNotScoresStop(team: seq<Member>, slots: seq<Slot>, solutions: seq<seq<Assign>>, k: nat)
    requires k < |solutions| && PrefNotScores(team, slots, solutions[..k]).Ok?
    requires PrefNotScore(team, slots, solutions[k]).Err?
    ensures PrefNotScores(team, slots, solutions) == Err(PrefNotScore(team, slots, solutions[k]).error)
    decreases |solutions|
  {
    if k < |solutions| - 1 {
      var init := solutions[..|solutions| - 1];
      assert init[..k] == solutions[..k] && init[k] == solutions[k];
      PrefNotScoresStop(team, slots, init, k);
    } else {
      assert solutions[..|solutions| - 1] == solutions[..k];
    }
  }

  // ---------------------------------------------------------------------
  // process_solutions
  // ---------------------------------------------------------------------

  /** Position `k` is the choice: its consecutive count is the largest, its
      `Preferably Not` count is the smallest among the largest, and every
      earlier solution with the largest consecutive count has strictly more
      `Preferably Not` groups. */
  predicate IsBest(cs: seq<nat>, ps: seq<nat>, k: int)
    requires |cs| == |ps|
  {
    0 <= k < |cs| &&
    (forall j :: 0 <= j < |cs| ==> cs[j] <= cs[k]) &&
    (forall j :: 0 <= j < |cs| && cs[j] == cs[k] ==> ps[k] <= ps[j]) &&
    (forall j :: 0 <= j < k && cs[j] == cs[k] ==> ps[k] < ps[j])
  }

  /** The choice is determined by the two score lists. */
  lemma BestUnique(cs: seq<nat>, ps: seq<nat>, a: int, b: int)
    requires |cs| == |ps| && IsBest(cs, ps, a) && IsBest(cs, ps, b)
    ensures a == b
  {
    assert cs[a] == cs[b];
    assert !(a < b) && !(b < a);
  }

  /** `max`, the filter on the maximum, then `min` by `Preferably Not` count,
      which keeps the first of equals. An empty list has no maximum. */
  method SelectBest(cs: seq<nat>, ps: seq<nat>) returns (best: Option<nat>)
    requires |cs| == |ps|
    ensures best.None? <==> cs == []
    ensures best.Some? ==> IsBest(cs, ps, best.value)
  {
    if cs == [] {
      return None;
    }
    var mx := MaxOf(cs);
    var most := IndicesOf(cs, mx);
    var bt := 0;
    for t := 1 to |most|
      invariant 0 <= bt < |most|
      invariant bt < t
      invariant forall u :: 0 <= u < t ==> ps[most[bt]] <= ps[most[u]]
      invariant forall u :: 0 <= u < bt ==> ps[most[bt]] < ps[most[u]]
    {
      if ps[most[t]] < ps[most[bt]] {
        bt := t;
      }
      assert ps[most[bt]] <= ps[most[t]];
    }
    var k := most[bt];
    BestFromMost(cs, ps, mx, most, bt);
    best := Some(k);
  }

  /** The first smallest `Preferably Not` count among the positions of the
      maximum is the choice. */
  lemma BestFromMost(cs: seq<nat>, ps: seq<nat>, mx: nat, most: seq<nat>, bt: nat)
    requires |cs| == |ps| && (forall j :: 0 <= j < |cs| ==> cs[j] <= mx)
    requires bt < |most|
    requires forall u :: 0 <= u < |most| ==> most[u] < |cs| && cs[most[u]] == mx
    requires forall u, w :: 0 <= u < w < |most| ==> most[u] < most[w]
    requires forall j :: 0 <= j < |cs| && cs[j] == mx ==> j in most
    requires forall u :: 0 <= u < |most| ==> ps[most[bt]] <= ps[most[u]]
    requires forall u :: 0 <= u < bt ==> ps[most[bt]] < ps[most[u]]
    ensures IsBest(cs, ps, most[bt])
  {
    var k := most[bt];
    forall j | 0 <= j < |cs| && cs[j] == cs[k] ensures ps[k] <= ps[j] {
      var u :| 0 <= u < |most| && most[u] == j;
    }
    forall j | 0 <= j < k && cs[j] == cs[k] ensures ps[k] < ps[j] {
      var u :| 0 <= u < |most| && most[u] == j;
    }
  }

  /** `max(...)` of a non-empty list of counts. */
  method MaxOf(cs: seq<nat>) returns (mx: nat)
    requires cs != []
    ensures (exists j :: 0 <= j < |cs| && cs[j] == mx) && forall j :: 0 <= j < |cs| ==> cs[j] <= mx
  {
    mx := cs[0];
    var at := 0;
    for k := 1 to |cs|
      invariant 0 <= at < k && cs[at] == mx
      invariant forall j :: 0 <= j < k ==> cs[j] <= mx
    {
      if cs[k] > mx {
        mx, at := cs[k], k;
      }
    }
  }

  /** The positions holding `mx`, in increasing order. */
  method IndicesOf(cs: seq<nat>, mx: nat) returns (most: seq<nat>)
    requires (exists j :: 0 <= j < |cs| && cs[j] == mx) && forall j :: 0 <= j < |cs| ==> cs[j] <= mx
    ensures |most| > 0
    ensures forall u :: 0 <= u < |most| ==> most[u] < |cs| && cs[most[u]] == mx
    ensures forall u, w :: 0 <= u < w < |most| ==> most[u] < most[w]
    ensures forall j :: 0 <= j < |cs| && cs[j] == mx ==> j in most
  {
    most := [];
    for k := 0 to |cs|
      invariant forall u :: 0 <= u < |most| ==> most[u] < k && cs[most[u]] == mx
      invariant forall u, w :: 0 <= u < w < |most| ==> most[u] < most[w]
      invariant forall j :: 0 <= j < k && cs[j] == mx ==> j in most
    {
      if cs[k] == mx {
        most := most + [k];
      }
    }
  }

  /** What `process_solutions` ends with. */
  datatype Ranked = Chosen(index: nat) | NoSolutions | Failed(error: RankError)

  /** Both scores over the group entries, then the choice. An empty list of
      solutions is the `ValueError` of `max` on nothing. */
  method ProcessSolutions(team: seq<Member>, slots: seq<Slot>, solutions: seq<seq<Assign>>, pairs: seq<Pair>)
    returns (r: Ranked)
    ensures r == NoSolutions <==> solutions == []
    ensures r.Failed? <==> PrefNotScores(team, slots, solutions).Err?
    ensures r.Failed? ==> r.error == PrefNotScores(team, slots, solutions).error
    ensures r.Chosen? ==>
      |PrefNotScores(team, slots, solutions).value| == |solutions| &&
      IsBest(ConsecutiveScores(solutions, pairs), PrefNotScores(team, slots, solutions).value, r.index)
  {
    var cs := CountConsecutive(solutions, pairs);
    var ps := CountPreference(team, slots, solutions);
    PrefNotScoresFacts(team, slots, solutions);
    if ps.Err? {
      return Failed(ps.error);
    }
    var best := SelectBest(cs, ps.value);
    if best.None? {
      return NoSolutions;
    }
    r := Chosen(best.value);
  }

  // ---------------------------------------------------------------------
  // The counter entry in scheduler.py
  // ---------------------------------------------------------------------

  /** A dictionary value: a person, or the integer stored by
      `solution['consecutive_shift_count'] = consecutive_count`. */
  datatype Value = Person(name: string) | Count(n: nat)

  datatype Item = Item(key: string, value: Value)

  /** The solution dictionary after `count_consecutive` in scheduler.py: its
      entries followed by the counter. */
  function AfterCountConsecutive(sol: seq<Assign>, pairs: seq<Pair>): (items: seq<Item>)
    ensures |items| == |sol| + 1
  {
    seq(|sol|, k requires 0 <= k < |sol| => Item(sol[k].group, Person(sol[k].person)))
      + [Item("consecutive_shift_count", Count(ConsecutiveScore(sol, pairs)))]
  }

  /** `count_preference` as written, walking every item of the dictionary. */
  function PrefNotOfItems(team: seq<Member>, slots: seq<Slot>, items: seq<Item>): Result<nat, RankError>
  {
    if items == [] then Ok(0)
    else
      var last := items[|items| - 1];
      match PrefNotOfItems(team, slots, items[..|items| - 1])
      case Err(e) => Err(e)
      case Ok(n) =>
        match last.value
        case Count(c) => Err(CounterAsPerson(c))
        case Person(p) =>
          match Lookup(team, p)
          case None => Err(UnknownPerson(p))
          case Some(m) => Ok(n + if TierOf(m, slots, last.key) == PrefNot then 1 else 0)
  }

  /** Over the group entries alone the walk is `PrefNotScore`. */
  lemma {:induction false} PrefNotOfItemsGroups(team: seq<Member>, slots: seq<Slot>, sol: seq<Assign>, pairs: seq<Pair>, n: nat)
    requires n <= |sol|
    ensures PrefNotOfItems(team, slots, AfterCountConsecutive(sol, pairs)[..n]) == PrefNotScore(team, slots, sol[..n])
  {
    var items := AfterCountConsecutive(sol, pairs);
    if n > 0 {
      PrefNotOfItemsGroups(team, slots, sol, pairs, n - 1);
      assert items[..n][..n - 1] == items[..n - 1];
      assert sol[..n][..n - 1] == sol[..n - 1];
      assert items[..n][n - 1] == Item(sol[n - 1].group, Person(sol[n - 1].person));
    }
  }

  /** In scheduler.py's order the preference count of every solution fails:
      the walk either meets an unknown person or reaches the counter and
      looks an integer up in the team, so `process_solutions` never chooses. */
  lemma CounterBreaksRanking(team: seq<Member>, slots: seq<Slot>, sol: seq<Assign>, pairs: seq<Pair>)
    ensures PrefNotOfItems(team, slots, AfterCountConsecutive(sol, pairs)).Err?
  {
    var items := AfterCountConsecutive(sol, pairs);
    PrefNotOfItemsGroups(team, slots, sol, pairs, |sol|);
    assert items[..|items| - 1] == items[..|sol|];
    assert sol[..|sol|] == sol;
  }

  /** A concrete case: one solution with a known person with `Yes`. The
      corrected count is 0, and the count as written fails on the counter. */
  lemma CounterWitness()
    ensures var team := [Member("X", 1, [Yes])];
      var slots := [Slot("Mon", "9-11", "g", "L", "R1")];
      && PrefNotScore(team, slots, [Assign("g", "X")]) == Ok(0)
      && PrefNotOfItems(team, slots, AfterCountConsecutive([Assign("g", "X")], [])) == Err(CounterAsPerson(0))
  {
    var team := [Member("X", 1, [Yes])];
    var slots := [Slot("Mon", "9-11", "g", "L", "R1")];
    var sol := [Assign("g", "X")];
    assert Lookup(team, "X") == Some(team[0]);
    assert Groups(slots) == ["g"];
    assert TierOf(team[0], slots, "g") == Yes;
    assert sol[..0] == [];
    var items := AfterCountConsecutive(sol, []);
    PrefNotOfItemsGroups(team, slots, sol, [], 1);
    assert items[..1] == items[..|items| - 1];
    assert sol[..1] == sol;
  }
}
