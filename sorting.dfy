/** Python's `sorted(..., key=...)`: a stable sort on an integer key. With
    `reverse=True` Python still keeps equal elements in their original order,
    which is the same as sorting stably on the negated key. */
module Sorting {

  /** An element together with the key it is sorted on. */
  datatype Keyed<T> = Keyed(key: int, item: T)

  /** Put `x` after every element whose key is not larger than its own. */
  function Insert<T>(r: seq<Keyed<T>>, x: Keyed<T>): seq<Keyed<T>>
  {
    if r == [] then [x]
    else if r[|r| - 1].key <= x.key then r + [x]
    else Insert(r[..|r| - 1], x) + [r[|r| - 1]]
  }

  function SortBy<T>(s: seq<Keyed<T>>): seq<Keyed<T>>
  {
    if s == [] then [] else Insert(SortBy(s[..|s| - 1]), s[|s| - 1])
  }

  ghost predicate SortedBy<T>(s: seq<Keyed<T>>)
  {
    forall a, b :: 0 <= a < b < |s| ==> s[a].key <= s[b].key
  }

  /** The elements whose key is `k`, in their order. */
  function WithKey<T>(s: seq<Keyed<T>>, k: int): seq<Keyed<T>>
  {
    if s == [] then []
    else WithKey(s[..|s| - 1], k) + (if s[|s| - 1].key == k then [s[|s| - 1]] else [])
  }

  lemma {:induction false} WithKeyAppend<T>(s: seq<Keyed<T>>, t: seq<Keyed<T>>, k: int)
    ensures WithKey(s + t, k) == WithKey(s, k) + WithKey(t, k)
    decreases |t|
  {
    if t == [] {
      assert s + t == s;
    } else {
      assert (s + t)[..|s + t| - 1] == s + t[..|t| - 1];
      WithKeyAppend(s, t[..|t| - 1], k);
    }
  }

  lemma {:induction false} WithKeyNone<T>(s: seq<Keyed<T>>, k: int)
    requires forall i :: 0 <= i < |s| ==> s[i].key != k
    ensures WithKey(s, k) == []
  {
    if s != [] {
      WithKeyNone(s[..|s| - 1], k);
    }
  }

  lemma WithKeySingle<T>(x: Keyed<T>, k: int)
    ensures x.key == k ==> WithKey([x], k) == [x]
    ensures x.key != k ==> WithKey([x], k) == []
  {
    assert [x][..0] == [];
  }

  /** Where `Insert` puts the new element. */
  function InsertPos<T>(r: seq<Keyed<T>>, x: Keyed<T>): (p: nat)
    ensures p <= |r|
  {
    if r == [] then 0
    else if r[|r| - 1].key <= x.key then |r|
    else InsertPos(r[..|r| - 1], x)
  }

  lemma {:induction false} InsertShape<T>(r: seq<Keyed<T>>, x: Keyed<T>)
    ensures Insert(r, x) == r[..InsertPos(r, x)] + [x] + r[InsertPos(r, x)..]
  {
    if r != [] && r[|r| - 1].key > x.key {
      var init := r[..|r| - 1];
      InsertShape(init, x);
      var p := InsertPos(init, x);
      assert r[..p] == init[..p];
      assert r[p..] == init[p..] + [r[|r| - 1]];
    }
  }

  lemma {:induction false} InsertPosKeys<T>(r: seq<Keyed<T>>, x: Keyed<T>)
    requires SortedBy(r)
    ensures forall i :: InsertPos(r, x) <= i < |r| ==> r[i].key > x.key
    ensures forall i :: 0 <= i < InsertPos(r, x) ==> r[i].key <= x.key
  {
    if r != [] && r[|r| - 1].key > x.key {
      var init := r[..|r| - 1];
      assert SortedBy(init);
      InsertPosKeys(init, x);
    }
  }

  lemma InsertSorted<T>(r: seq<Keyed<T>>, x: Keyed<T>)
    requires SortedBy(r)
    ensures SortedBy(Insert(r, x))
  {
    InsertShape(r, x);
    InsertPosKeys(r, x);
    var p := InsertPos(r, x);
    var out := Insert(r, x);
    assert forall a :: 0 <= a < p ==> out[a] == r[a];
    assert forall a :: p < a < |out| ==> out[a] == r[a - 1];
  }

  /** `Insert` passes `x` only over elements with a strictly larger key, so
      among the elements sharing a key `x` comes last. */
  lemma {:induction false} InsertStable<T>(r: seq<Keyed<T>>, x: Keyed<T>, k: int)
    ensures WithKey(Insert(r, x), k) == WithKey(r, k) + WithKey([x], k)
  {
    WithKeySingle(x, k);
    if r == [] {
      assert WithKey(r, k) == [];
    } else if r[|r| - 1].key <= x.key {
      WithKeyAppend(r, [x], k);
    } else {
      var init, last := r[..|r| - 1], r[|r| - 1];
      assert r == init + [last];
      InsertStable(init, x, k);
      WithKeyAppend(Insert(init, x), [last], k);
      WithKeyAppend(init, [last], k);
      WithKeySingle(last, k);
      var wi, wx, wl := WithKey(init, k), WithKey([x], k), WithKey([last], k);
      if x.key == k {
        assert wl == [];
        assert wi + wx + wl == wi + wx;
        assert wi + wl == wi;
      } else {
        assert wx == [];
        assert wi + wx + wl == wi + wl;
      }
    }
  }

  lemma InsertFacts<T>(r: seq<Keyed<T>>, x: Keyed<T>)
    requires SortedBy(r)
    ensures |Insert(r, x)| == |r| + 1
    ensures SortedBy(Insert(r, x))
    ensures multiset(Insert(r, x)) == multiset(r) + multiset{x}
    ensures forall k :: WithKey(Insert(r, x), k) == WithKey(r, k) + WithKey([x], k)
  {
    InsertShape(r, x);
    var p := InsertPos(r, x);
    assert r == r[..p] + r[p..];
    InsertSorted(r, x);
    forall k ensures WithKey(Insert(r, x), k) == WithKey(r, k) + WithKey([x], k) {
      InsertStable(r, x, k);
    }
  }

  /** The sort is ascending, a permutation, and stable: the elements that
      share a key come out in the order they went in. */
  lemma {:induction false} SortByCorrect<T>(s: seq<Keyed<T>>)
    ensures |SortBy(s)| == |s|
    ensures SortedBy(SortBy(s))
    ensures multiset(SortBy(s)) == multiset(s)
    ensures forall k :: WithKey(SortBy(s), k) == WithKey(s, k)
  {
    if s != [] {
      var init, last := s[..|s| - 1], s[|s| - 1];
      assert s == init + [last];
      SortByCorrect(init);
      InsertFacts(SortBy(init), last);
      forall k ensures WithKey(SortBy(s), k) == WithKey(s, k) {
        WithKeyAppend(init, [last], k);
      }
    }
  }
}
