/** The variables of the constraint problem: one per distinct group, whose
    domain is the people that may take it, ordered by domain size. */
module Domains {
  import opened Base
  import opened TeamModel
  import opened Sorting

  /** `team[person]['availability'].get(group, 'No')`. The team stores, for
      each group, the tier of the group's first row; a group without a row
      falls back to `No`. A member built from a table has one tier per row,
      so the fallback for a short column never applies there. */
  function TierOf(m: Member, slots: seq<Slot>, g: string): Tier
  {
    var i := FirstIndex(Groups(slots), g);
    if i < |slots| && i < |m.avail| then m.avail[i] else No
  }

  /** The tier for a group is the one in its first row, and `No` when it has
      no row. */
  lemma TierOfFirstRow(m: Member, slots: seq<Slot>, g: string, i: int)
    ensures (0 <= i < |slots| && i < |m.avail| && slots[i].group == g &&
             forall k :: 0 <= k < i ==> slots[k].group != g) ==> TierOf(m, slots, g) == m.avail[i]
    ensures (forall k :: 0 <= k < |slots| ==> slots[k].group != g) ==> TierOf(m, slots, g) == No
  {
    var f := FirstIndex(Groups(slots), g);
    if 0 <= i < |slots| && slots[i].group == g {
      assert Groups(slots)[i] == g;
    }
    if f < |slots| {
      assert slots[f].group == g;
    }
  }

  /** The people, in team order, whose tier for `g` is not `No`; an empty
      cell is not `No`, so it counts as available. */
  function Domain(team: seq<Member>, slots: seq<Slot>, g: string): seq<string>
  {
    if team == [] then []
    else
      var last := team[|team| - 1];
      Domain(team[..|team| - 1], slots, g) + (if TierOf(last, slots, g) != No then [last.name] else [])
  }

  /** A person is in the domain of `g` exactly when some team member of that
      name has a tier other than `No` for it. */
  lemma {:induction false} DomainMember(team: seq<Member>, slots: seq<Slot>, g: string, x: string)
    ensures x in Domain(team, slots, g) <==>
      exists k :: 0 <= k < |team| && team[k].name == x && TierOf(team[k], slots, g) != No
  {
    if team != [] {
      var init, last := team[..|team| - 1], team[|team| - 1];
      DomainMember(init, slots, g, x);
      assert forall k :: 0 <= k < |init| ==> init[k] == team[k];
      if x in Domain(init, slots, g) {
        var k :| 0 <= k < |init| && init[k].name == x && TierOf(init[k], slots, g) != No;
        assert team[k] == init[k];
      }
    }
  }

  /** With distinct names, no one appears twice in a domain. */
  lemma {:induction false} DomainDistinct(team: seq<Member>, slots: seq<Slot>, g: string)
    requires DistinctNames(team)
    ensures forall a, b :: 0 <= a < b < |Domain(team, slots, g)| ==> Domain(team, slots, g)[a] != Domain(team, slots, g)[b]
  {
    if team != [] {
      var init, last := team[..|team| - 1], team[|team| - 1];
      assert DistinctNames(init);
      DomainDistinct(init, slots, g);
      var d0 := Domain(init, slots, g);
      if TierOf(last, slots, g) != No {
        forall k | 0 <= k < |init| ensures init[k].name != last.name {
          assert init[k] == team[k];
        }
        DomainMember(init, slots, g, last.name);
        var d := d0 + [last.name];
        forall a, b | 0 <= a < b < |d| ensures d[a] != d[b] {
          if b == |d0| { assert d[a] in d0; }
        }
      }
    }
  }

  /** The inner loop: every team member whose tier for `g` is not `No`. */
  method DomainOf(team: seq<Member>, slots: seq<Slot>, g: string) returns (d: seq<string>)
    ensures d == Domain(team, slots, g)
  {
    d := [];
    var k := 0;
    while k < |team|
      invariant 0 <= k <= |team|
      invariant d == Domain(team[..k], slots, g)
    {
      assert team[..k + 1][..k] == team[..k];
      if TierOf(team[k], slots, g) != No {
        d := d + [team[k].name];
      }
      k := k + 1;
    }
    assert team[..|team|] == team;
  }

  /** One variable: a group and its domain. */
  datatype Entry = Entry(group: string, domain: seq<string>)

  /** The `domains` dictionary: one entry per distinct group, in order of
      first appearance. */
  function DomainTable(team: seq<Member>, slots: seq<Slot>): (es: seq<Entry>)
    ensures |es| == |Unique(Groups(slots))|
  {
    var u := Unique(Groups(slots));
    seq(|u|, k requires 0 <= k < |u| => Entry(u[k], Domain(team, slots, u[k])))
  }

  /** The loop `for group in df["Group"]: domains[group] = domain`. A group
      seen before keeps its place and gets the same domain again. */
  method BuildDomains(team: seq<Member>, slots: seq<Slot>) returns (es: seq<Entry>)
    ensures es == DomainTable(team, slots)
  {
    var gs := Groups(slots);
    var keys: seq<string> := [];
    es := [];
    var i := 0;
    while i < |slots|
      invariant 0 <= i <= |slots|
      invariant keys == Unique(gs[..i])
      invariant |es| == |keys|
      invariant forall k :: 0 <= k < |keys| ==> es[k] == Entry(keys[k], Domain(team, slots, keys[k]))
    {
      var g := slots[i].group;
      assert gs[..i + 1][..i] == gs[..i] && gs[..i + 1][i] == g;
      var d := DomainOf(team, slots, g);
      var at := FirstIndex(keys, g);
      if at < |keys| {
        es := es[at := Entry(g, d)];
      } else {
        keys, es := keys + [g], es + [Entry(g, d)];
      }
      i := i + 1;
    }
    assert gs[..|slots|] == gs;
  }

  /** Each entry keyed by the size of its domain, for `sorted(..., key=len)`. */
  function BySize(es: seq<Entry>): (ks: seq<Keyed<Entry>>)
    ensures |ks| == |es|
    ensures forall k :: 0 <= k < |es| ==> ks[k] == Keyed(|es[k].domain|, es[k])
  {
    seq(|es|, k requires 0 <= k < |es| => Keyed(|es[k].domain|, es[k]))
  }

  function Items(ks: seq<Keyed<Entry>>): (es: seq<Entry>)
    ensures |es| == |ks|
    ensures forall k :: 0 <= k < |ks| ==> es[k] == ks[k].item
  {
    seq(|ks|, k requires 0 <= k < |ks| => ks[k].item)
  }

  /** `dict(sorted(domains.items(), key=lambda x: len(x[1])))`. */
  function Order(es: seq<Entry>): seq<Entry>
  {
    Items(SortBy(BySize(es)))
  }

  /** `list(domains.keys())` after the sort: the variable order. */
  function GroupList(es: seq<Entry>): (gs: seq<string>)
    ensures |gs| == |es|
    ensures forall k :: 0 <= k < |es| ==> gs[k] == es[k].group
  {
    seq(|es|, k requires 0 <= k < |es| => es[k].group)
  }

  predicate KeyedBySize(ks: seq<Keyed<Entry>>)
  {
    forall k :: 0 <= k < |ks| ==> ks[k].key == |ks[k].item.domain|
  }

  /** Counting an entry among the items is counting its keyed form. */
  lemma {:induction false} ItemsCount(ks: seq<Keyed<Entry>>, e: Entry)
    requires KeyedBySize(ks)
    ensures multiset(Items(ks))[e] == multiset(ks)[Keyed(|e.domain|, e)]
  {
    if ks != [] {
      var init, last := ks[..|ks| - 1], ks[|ks| - 1];
      assert ks == init + [last];
      assert Items(ks) == Items(init) + [last.item];
      ItemsCount(init, e);
      assert last == Keyed(|last.item.domain|, last.item);
    }
  }

  /** The sorted order lists every entry once, by non-decreasing domain size,
      and entries of equal size keep the order of the dictionary. */
  lemma OrderCorrect(es: seq<Entry>)
    ensures |Order(es)| == |es|
    ensures forall a, b :: 0 <= a < b < |es| ==> |Order(es)[a].domain| <= |Order(es)[b].domain|
    ensures multiset(Order(es)) == multiset(es)
    ensures forall n :: WithKey(SortBy(BySize(es)), n) == WithKey(BySize(es), n)
  {
    var ks := BySize(es);
    var sorted := SortBy(ks);
    SortByCorrect(ks);
    assert KeyedBySize(ks);
    assert KeyedBySize(sorted) by {
      forall k | 0 <= k < |sorted| ensures sorted[k].key == |sorted[k].item.domain| {
        assert sorted[k] in multiset(ks);
      }
    }
    assert Items(ks) == es;
    forall e ensures multiset(Order(es))[e] == multiset(es)[e] {
      ItemsCount(sorted, e);
      ItemsCount(ks, e);
    }
  }

  /** The groups of keyed entries, in order. */
  function KeyGroups(ks: seq<Keyed<Entry>>): (gs: seq<string>)
    ensures |gs| == |ks|
    ensures forall k :: 0 <= k < |ks| ==> gs[k] == ks[k].item.group
  {
    seq(|ks|, k requires 0 <= k < |ks| => ks[k].item.group)
  }

  lemma KeyGroupsAppend(xs: seq<Keyed<Entry>>, ys: seq<Keyed<Entry>>)
    ensures KeyGroups(xs + ys) == KeyGroups(xs) + KeyGroups(ys)
  {
  }

  lemma InsertGroups(r: seq<Keyed<Entry>>, x: Keyed<Entry>)
    ensures multiset(KeyGroups(Insert(r, x))) == multiset(KeyGroups(r)) + multiset{x.item.group}
  {
    InsertShape(r, x);
    var p := InsertPos(r, x);
    var front, back := r[..p], r[p..];
    assert r == front + back;
    KeyGroupsAppend(front, back);
    KeyGroupsAppend(front, [x]);
    KeyGroupsAppend(front + [x], back);
    assert KeyGroups([x]) == [x.item.group];
  }

  lemma {:induction false} SortGroups(s: seq<Keyed<Entry>>)
    ensures multiset(KeyGroups(SortBy(s))) == multiset(KeyGroups(s))
  {
    if s != [] {
      var init, last := s[..|s| - 1], s[|s| - 1];
      SortGroups(init);
      InsertGroups(SortBy(init), last);
      assert s == init + [last];
      KeyGroupsAppend(init, [last]);
      assert KeyGroups([last]) == [last.item.group];
    }
  }

  /** The variable order is a permutation of the distinct groups. */
  lemma GroupListPermutes(team: seq<Member>, slots: seq<Slot>)
    ensures multiset(GroupList(Order(DomainTable(team, slots)))) == multiset(Unique(Groups(slots)))
  {
    var es := DomainTable(team, slots);
    var ks := BySize(es);
    SortGroups(ks);
    assert GroupList(Order(es)) == KeyGroups(SortBy(ks));
    assert KeyGroups(ks) == Unique(Groups(slots));
  }
}
