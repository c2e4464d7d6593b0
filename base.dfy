/** Shared vocabulary of the scheduler: availability tiers, slot records, the
    availability table, pairs of groups compared after sorting, and the string
    order that Python's `sorted` uses on group names. */
module Base {

  /** One availability cell. `Empty` is a blank spreadsheet cell (NaN). */
  datatype Tier = Yes | PrefNot | No | Empty

  /** One row of the input table: a practical group and where and when it meets. */
  datatype Slot = Slot(day: string, time: string, group: string, location: string, room: string)

  /** The input table: one row per slot, one column per person header
      (`name_n`), `cells[i][j]` the tier of column `j` on row `i`. */
  datatype Table = Table(slots: seq<Slot>, headers: seq<string>, cells: seq<seq<Tier>>)

  /** A two-element list of group names, as the source stores relations. */
  datatype Pair = Pair(first: string, second: string)

  datatype Option<T> = None | Some(value: T)

  datatype Result<T, E> = Ok(value: T) | Err(error: E)

  ghost predicate WellFormed(t: Table)
  {
    && |t.cells| == |t.slots|
    && forall i :: 0 <= i < |t.cells| ==> |t.cells[i]| == |t.headers|
  }

  /** The column of header `j`, one tier per row. */
  function Column(t: Table, j: nat): (c: seq<Tier>)
    requires WellFormed(t) && j < |t.headers|
    ensures |c| == |t.slots|
    ensures forall i :: 0 <= i < |c| ==> c[i] == t.cells[i][j]
  {
    seq(|t.slots|, i requires 0 <= i < |t.slots| => t.cells[i][j])
  }

  function Groups(slots: seq<Slot>): (gs: seq<string>)
    ensures |gs| == |slots|
    ensures forall i :: 0 <= i < |slots| ==> gs[i] == slots[i].group
  {
    seq(|slots|, i requires 0 <= i < |slots| => slots[i].group)
  }

  /** Python's ordering of strings: lexicographic by code point. */
  predicate LexLe(a: string, b: string)
    decreases |a|
  {
    if a == [] then true
    else if b == [] then false
    else if a[0] != b[0] then a[0] < b[0]
    else LexLe(a[1..], b[1..])
  }

  lemma {:induction false} LexTotal(a: string, b: string)
    ensures LexLe(a, b) || LexLe(b, a)
    decreases |a|
  {
    if a != [] && b != [] && a[0] == b[0] {
      LexTotal(a[1..], b[1..]);
    }
  }

  lemma {:induction false} LexAntisymmetric(a: string, b: string)
    requires LexLe(a, b) && LexLe(b, a)
    ensures a == b
    decreases |a|
  {
    if a != [] && b != [] {
      LexAntisymmetric(a[1..], b[1..]);
      assert a == [a[0]] + a[1..];
      assert b == [b[0]] + b[1..];
    }
  }

  /** `sorted([a, b])` as a pair. */
  function Sorted(a: string, b: string): (p: Pair)
    ensures LexLe(p.first, p.second)
    ensures (p.first == a && p.second == b) || (p.first == b && p.second == a)
  {
    LexTotal(a, b);
    if LexLe(a, b) then Pair(a, b) else Pair(b, a)
  }

  predicate IsSorted(p: Pair)
  {
    LexLe(p.first, p.second)
  }

  /** Sorting a two-element list forgets the order it was given in, and
      leaves an already sorted list as it is. */
  lemma SortedSymmetric(a: string, b: string)
    ensures Sorted(a, b) == Sorted(b, a)
    ensures IsSorted(Pair(a, b)) ==> Sorted(a, b) == Pair(a, b)
  {
    if LexLe(a, b) && LexLe(b, a) {
      LexAntisymmetric(a, b);
    }
  }

  /** `itertools.combinations(gs, 2)`: every pair of positions i < j, in order. */
  function Combos(gs: seq<string>): (r: seq<Pair>)
    decreases |gs|
  {
    if |gs| < 2 then []
    else seq(|gs| - 1, k requires 0 <= k < |gs| - 1 => Pair(gs[0], gs[k + 1])) + Combos(gs[1..])
  }

  lemma {:induction false} CombosLength(gs: seq<string>)
    ensures 2 * |Combos(gs)| == |gs| * (|gs| - 1)
    decreases |gs|
  {
    if |gs| >= 2 {
      CombosLength(gs[1..]);
    }
  }

  lemma {:induction false} CombosMember(gs: seq<string>, p: Pair)
    ensures p in Combos(gs) <==>
      exists i, j :: 0 <= i < j < |gs| && gs[i] == p.first && gs[j] == p.second
    decreases |gs|
  {
    if |gs| >= 2 {
      var head := seq(|gs| - 1, k requires 0 <= k < |gs| - 1 => Pair(gs[0], gs[k + 1]));
      CombosMember(gs[1..], p);
      if p in Combos(gs) {
        if p in head {
          var k :| 0 <= k < |head| && head[k] == p;
          assert gs[0] == p.first && gs[k + 1] == p.second;
        } else {
          assert p in Combos(gs[1..]);
          var i, j :| 0 <= i < j < |gs[1..]| && gs[1..][i] == p.first && gs[1..][j] == p.second;
          assert gs[i + 1] == p.first && gs[j + 1] == p.second;
        }
      } else {
        forall i, j | 0 <= i < j < |gs| && gs[i] == p.first
          ensures gs[j] != p.second
        {
          if i == 0 {
            assert head[j - 1] == Pair(gs[0], gs[j]);
          } else {
            assert gs[1..][i - 1] == gs[i] && gs[1..][j - 1] == gs[j];
          }
        }
      }
    }
  }

  /** Every combination, each sorted as the source sorts it before comparing. */
  function SortedCombos(gs: seq<string>): (r: seq<Pair>)
    ensures |r| == |Combos(gs)|
    ensures forall k :: 0 <= k < |r| ==> IsSorted(r[k])
  {
    var cs := Combos(gs);
    seq(|cs|, k requires 0 <= k < |cs| => Sorted(cs[k].first, cs[k].second))
  }

  lemma SortedCombosMember(gs: seq<string>, p: Pair)
    ensures p in SortedCombos(gs) <==>
      exists i, j :: 0 <= i < j < |gs| && p == Sorted(gs[i], gs[j])
  {
    var cs := Combos(gs);
    var r := SortedCombos(gs);
    if p in r {
      var k :| 0 <= k < |r| && r[k] == p;
      assert cs[k] in cs;
      CombosMember(gs, cs[k]);
    } else {
      forall i, j | 0 <= i < j < |gs| ensures p != Sorted(gs[i], gs[j]) {
        CombosMember(gs, Pair(gs[i], gs[j]));
        var k :| 0 <= k < |cs| && cs[k] == Pair(gs[i], gs[j]);
        assert r[k] == Sorted(gs[i], gs[j]);
      }
    }
  }

  /** Concatenation of a sequence of lists, left to right. */
  function Flatten<T>(xss: seq<seq<T>>): seq<T>
  {
    if xss == [] then [] else Flatten(xss[..|xss| - 1]) + xss[|xss| - 1]
  }

  lemma {:induction false} FlattenMember<T>(xss: seq<seq<T>>, x: T)
    ensures x in Flatten(xss) <==> exists k :: 0 <= k < |xss| && x in xss[k]
  {
    if xss != [] {
      var init := xss[..|xss| - 1];
      FlattenMember(init, x);
      if x in Flatten(init) {
        var k :| 0 <= k < |init| && x in init[k];
        assert x in xss[k];
      }
      forall k | 0 <= k < |xss| - 1 && x in xss[k] ensures x in Flatten(init) {
        assert init[k] == xss[k];
      }
    }
  }

  /** Number of elements of `s` that are members of `list` (`x in list`). */
  function CountIn<T(==)>(s: seq<T>, list: seq<T>): (n: nat)
    ensures n <= |s|
  {
    if s == [] then 0 else CountIn(s[..|s| - 1], list) + (if s[|s| - 1] in list then 1 else 0)
  }

  /** How many entries of `s` are equal to `x`. */
  function Occurrences<T(==)>(s: seq<T>, x: T): (n: nat)
    ensures n <= |s|
  {
    if s == [] then 0 else Occurrences(s[..|s| - 1], x) + (if s[|s| - 1] == x then 1 else 0)
  }

  /** Position of the first `g` in `gs` (`list.index`), or `|gs|` when there is none. */
  function FirstIndex<T(==)>(gs: seq<T>, g: T): (r: nat)
    ensures r <= |gs|
    ensures r < |gs| ==> gs[r] == g
    ensures forall k :: 0 <= k < r ==> gs[k] != g
    decreases |gs|
  {
    if gs == [] then 0
    else if gs[0] == g then 0
    else
      var r := 1 + FirstIndex(gs[1..], g);
      assert forall k :: 1 <= k < r ==> gs[k] == gs[1..][k - 1];
      r
  }

  lemma {:induction false} CountInAppend<T>(s: seq<T>, t: seq<T>, list: seq<T>)
    ensures CountIn(s + t, list) == CountIn(s, list) + CountIn(t, list)
    decreases |t|
  {
    if t == [] {
      assert s + t == s;
    } else {
      assert (s + t)[..|s + t| - 1] == s + t[..|t| - 1];
      CountInAppend(s, t[..|t| - 1], list);
    }
  }

  /** Some element is counted exactly when some element is a member. */
  lemma {:induction false} CountInPositive<T>(s: seq<T>, list: seq<T>)
    ensures CountIn(s, list) > 0 <==> exists k :: 0 <= k < |s| && s[k] in list
  {
    if s != [] {
      var init := s[..|s| - 1];
      CountInPositive(init, list);
      if CountIn(init, list) > 0 {
        var k :| 0 <= k < |init| && init[k] in list;
        assert s[k] == init[k];
      }
      forall k | 0 <= k < |init| && s[k] in list ensures CountIn(init, list) > 0 {
        assert init[k] == s[k];
      }
    }
  }

  lemma {:induction false} OccurrencesPositive<T>(s: seq<T>, x: T)
    ensures Occurrences(s, x) > 0 <==> x in s
  {
    if s != [] {
      var init := s[..|s| - 1];
      OccurrencesPositive(init, x);
      assert s == init + [s[|s| - 1]];
    }
  }

  /** Two sequences of the same length with `x` at the same places hold it
      equally often. */
  lemma {:induction false} OccurrencesSame<T>(s: seq<T>, t: seq<T>, x: T)
    requires |s| == |t| && forall k :: 0 <= k < |s| ==> (s[k] == x <==> t[k] == x)
    ensures Occurrences(s, x) == Occurrences(t, x)
  {
    if s != [] {
      OccurrencesSame(s[..|s| - 1], t[..|t| - 1], x);
    }
  }

  /** Where `t` holds `x` so does `s`, so `t` holds it no more often. */
  lemma {:induction false} OccurrencesMono<T>(s: seq<T>, t: seq<T>, x: T)
    requires |s| == |t| && forall k :: 0 <= k < |s| && t[k] == x ==> s[k] == x
    ensures Occurrences(t, x) <= Occurrences(s, x)
  {
    if s != [] {
      OccurrencesMono(s[..|s| - 1], t[..|t| - 1], x);
    }
  }

  function Sum(ns: seq<int>): int
  {
    if ns == [] then 0 else Sum(ns[..|ns| - 1]) + ns[|ns| - 1]
  }

  /** `pd.unique`: the distinct values in order of first appearance. */
  function Unique<T(==,!new)>(s: seq<T>): (u: seq<T>)
    ensures forall x :: x in u <==> x in s
    ensures forall a, b :: 0 <= a < b < |u| ==> u[a] != u[b]
  {
    if s == [] then []
    else
      var u0 := Unique(s[..|s| - 1]);
      assert forall x :: x in s <==> x in s[..|s| - 1] || x == s[|s| - 1];
      if s[|s| - 1] in u0 then u0 else u0 + [s[|s| - 1]]
  }
}
