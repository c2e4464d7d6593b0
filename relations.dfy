/** Relations between groups derived from the slot table:
    same day and time (incompatible), end time equal to start time on the same
    day in the same room (consecutive) or in a different room (inconvenient).
    Times are split on `-` and compared as strings. */
module Relations {
  import opened Base
  import opened Headers

  function Days(slots: seq<Slot>): (ds: seq<string>)
    ensures |ds| == |slots| && forall i :: 0 <= i < |slots| ==> ds[i] == slots[i].day
  {
    seq(|slots|, i requires 0 <= i < |slots| => slots[i].day)
  }

  function TimeColumn(slots: seq<Slot>): (ts: seq<string>)
    ensures |ts| == |slots| && forall i :: 0 <= i < |slots| ==> ts[i] == slots[i].time
  {
    seq(|slots|, i requires 0 <= i < |slots| => slots[i].time)
  }

  function Rooms(slots: seq<Slot>): (rs: seq<string>)
    ensures |rs| == |slots| && forall i :: 0 <= i < |slots| ==> rs[i] == slots[i].room
  {
    seq(|slots|, i requires 0 <= i < |slots| => slots[i].room)
  }

  // ---------------------------------------------------------------------
  // Same day, same time
  // ---------------------------------------------------------------------

  ghost predicate SameTime(slots: seq<Slot>, i: int, j: int)
    requires 0 <= i < |slots| && 0 <= j < |slots|
  {
    slots[i].day == slots[j].day && slots[i].time == slots[j].time
  }

  /** The groups of the rows on `day` at `time`, in table order. */
  function Bucket(slots: seq<Slot>, day: string, time: string): (b: seq<string>)
    ensures |b| <= |slots|
  {
    if slots == [] then []
    else
      var last := slots[|slots| - 1];
      Bucket(slots[..|slots| - 1], day, time) + (if last.day == day && last.time == time then [last.group] else [])
  }

  /** What one bucket contributes: all sorted combinations when it has more
      than two groups; when it has exactly two, the two as listed
      (`sortTwo` false, as written) or sorted (`sortTwo` true). */
  function BucketPairs(b: seq<string>, sortTwo: bool): seq<Pair>
  {
    if |b| > 2 then SortedCombos(b)
    else if |b| == 2 then [if sortTwo then Sorted(b[0], b[1]) else Pair(b[0], b[1])]
    else []
  }

  function TimesPairs(slots: seq<Slot>, day: string, times: seq<string>, sortTwo: bool): seq<Pair>
  {
    if times == [] then []
    else TimesPairs(slots, day, times[..|times| - 1], sortTwo) + BucketPairs(Bucket(slots, day, times[|times| - 1]), sortTwo)
  }

  function DaysPairs(slots: seq<Slot>, days: seq<string>, times: seq<string>, sortTwo: bool): seq<Pair>
  {
    if days == [] then []
    else DaysPairs(slots, days[..|days| - 1], times, sortTwo) + TimesPairs(slots, days[|days| - 1], times, sortTwo)
  }

  /** The list `extract_incompatible_combinations` (and its twin
      `find_incompatible_combinations`) returns. */
  function Incompatible(slots: seq<Slot>): seq<Pair>
  {
    DaysPairs(slots, Unique(Days(slots)), Unique(TimeColumn(slots)), false)
  }

  /** The incompatible list with the two-group case sorted as well. */
  function IncompatibleSorted(slots: seq<Slot>): seq<Pair>
  {
    DaysPairs(slots, Unique(Days(slots)), Unique(TimeColumn(slots)), true)
  }

  /** The inner loop over the distinct times of one day. */
  method IncompatibleOnDay(slots: seq<Slot>, day: string, times: seq<string>) returns (pairs: seq<Pair>)
    ensures pairs == TimesPairs(slots, day, times, false)
  {
    pairs := [];
    var b := 0;
    while b < |times|
      invariant 0 <= b <= |times|
      invariant pairs == TimesPairs(slots, day, times[..b], false)
    {
      var bucket := Bucket(slots, day, times[b]);
      if |bucket| > 1 {
        if |bucket| > 2 {
          pairs := pairs + SortedCombos(bucket);
        } else {
          pairs := pairs + [Pair(bucket[0], bucket[1])];
        }
      }
      assert times[..b + 1][..b] == times[..b];
      b := b + 1;
    }
    assert times[..|times|] == times;
  }

  /** `extract_incompatible_combinations`: for every distinct day and every
      distinct time, the bucket of groups meeting then contributes its pairs. */
  method ExtractIncompatibleCombinations(slots: seq<Slot>) returns (pairs: seq<Pair>)
    ensures pairs == Incompatible(slots)
  {
    var days := Unique(Days(slots));
    var times := Unique(TimeColumn(slots));
    pairs := [];
    var a := 0;
    while a < |days|
      invariant 0 <= a <= |days|
      invariant pairs == DaysPairs(slots, days[..a], times, false)
    {
      var more := IncompatibleOnDay(slots, days[a], times);
      pairs := pairs + more;
      assert days[..a + 1][..a] == days[..a];
      a := a + 1;
    }
    assert days[..|days|] == days;
  }

  /** A bucket of k > 2 groups gives C(k,2) sorted pairs, one of two groups
      gives a single pair, and a lone group gives nothing. */
  lemma BucketPairsShape(b: seq<string>, sortTwo: bool)
    ensures |b| > 2 ==> 2 * |BucketPairs(b, sortTwo)| == |b| * (|b| - 1)
    ensures |b| > 2 ==> forall k :: 0 <= k < |BucketPairs(b, sortTwo)| ==> IsSorted(BucketPairs(b, sortTwo)[k])
    ensures |b| == 2 && !sortTwo ==> BucketPairs(b, sortTwo) == [Pair(b[0], b[1])]
    ensures |b| < 2 ==> BucketPairs(b, sortTwo) == []
  {
    if |b| > 2 {
      CombosLength(b);
    }
  }

  /** With the two-group case sorted, a bucket contributes exactly the
      sorted pairs of its positions x < y. */
  lemma SortedBucketMember(b: seq<string>, p: Pair)
    ensures p in BucketPairs(b, true) <==> exists x, y :: 0 <= x < y < |b| && p == Sorted(b[x], b[y])
  {
    if |b| > 2 {
      SortedCombosMember(b, p);
    } else if |b| == 2 {
      if p == Sorted(b[0], b[1]) {
        assert 0 < 1 < |b|;
      }
    }
  }

  /** In either form every listed pair names two positions of its bucket. */
  lemma BucketPairsPositions(b: seq<string>, sortTwo: bool, p: Pair)
    requires p in BucketPairs(b, sortTwo)
    ensures exists x, y :: (0 <= x < y < |b| &&
      ((b[x] == p.first && b[y] == p.second) || (b[x] == p.second && b[y] == p.first)))
  {
    if |b| > 2 {
      SortedCombosMember(b, p);
      var x, y :| 0 <= x < y < |b| && p == Sorted(b[x], b[y]);
    } else {
      assert 0 < 1 < |b|;
    }
  }

  lemma {:induction false} BucketIntro(slots: seq<Slot>, i: nat)
    requires i < |slots|
    ensures slots[i].group in Bucket(slots, slots[i].day, slots[i].time)
  {
    var init := slots[..|slots| - 1];
    if i < |slots| - 1 {
      assert init[i] == slots[i];
      BucketIntro(init, i);
    }
  }

  lemma {:induction false} BucketElim(slots: seq<Slot>, day: string, time: string, x: nat)
    requires x < |Bucket(slots, day, time)|
    ensures exists i :: (0 <= i < |slots| && slots[i].day == day && slots[i].time == time &&
      slots[i].group == Bucket(slots, day, time)[x])
  {
    var init := slots[..|slots| - 1];
    var bi := Bucket(init, day, time);
    var bk := Bucket(slots, day, time);
    if x < |bi| {
      assert bk[x] == bi[x];
      BucketElim(init, day, time, x);
      var i :| 0 <= i < |init| && init[i].day == day && init[i].time == time && init[i].group == bi[x];
      assert slots[i] == init[i];
    } else {
      var n := |slots| - 1;
      assert slots[n].day == day && slots[n].time == time && slots[n].group == bk[x];
    }
  }

  /** Two rows on the same day and time, in table order, sit in their bucket
      in the same order. */
  lemma {:induction false} BucketOrder(slots: seq<Slot>, i: nat, j: nat)
    requires i < j < |slots| && SameTime(slots, i, j)
    ensures exists x, y :: (0 <= x < y < |Bucket(slots, slots[i].day, slots[i].time)| &&
      Bucket(slots, slots[i].day, slots[i].time)[x] == slots[i].group &&
      Bucket(slots, slots[i].day, slots[i].time)[y] == slots[j].group)
  {
    var init := slots[..|slots| - 1];
    var d, t := slots[i].day, slots[i].time;
    assert init[i] == slots[i];
    var bi := Bucket(init, d, t);
    var bk := Bucket(slots, d, t);
    if j == |slots| - 1 {
      BucketIntro(init, i);
      var x :| 0 <= x < |bi| && bi[x] == slots[i].group;
      assert bk == bi + [slots[j].group];
      assert bk[x] == slots[i].group && bk[|bi|] == slots[j].group;
    } else {
      assert init[j] == slots[j];
      BucketOrder(init, i, j);
      var x, y :| 0 <= x < y < |bi| && bi[x] == slots[i].group && bi[y] == slots[j].group;
      assert bk[x] == bi[x] && bk[y] == bi[y];
    }
  }

  /** Two positions of a bucket come from two distinct rows of that day and time. */
  lemma {:induction false} BucketRows(slots: seq<Slot>, day: string, time: string, x: nat, y: nat)
    requires x < y < |Bucket(slots, day, time)|
    ensures exists i, j :: (0 <= i < j < |slots| &&
      slots[i].day == day && slots[i].time == time && slots[j].day == day && slots[j].time == time &&
      slots[i].group == Bucket(slots, day, time)[x] && slots[j].group == Bucket(slots, day, time)[y])
  {
    var init := slots[..|slots| - 1];
    var bi := Bucket(init, day, time);
    var bk := Bucket(slots, day, time);
    assert bk[x] == bi[x];
    if y < |bi| {
      assert bk[y] == bi[y];
      BucketRows(init, day, time, x, y);
      var i, j :| 0 <= i < j < |init| &&
        init[i].day == day && init[i].time == time && init[j].day == day && init[j].time == time &&
        init[i].group == bi[x] && init[j].group == bi[y];
      assert slots[i] == init[i] && slots[j] == init[j];
    } else {
      BucketElim(init, day, time, x);
      var i :| 0 <= i < |init| && init[i].day == day && init[i].time == time && init[i].group == bi[x];
      assert slots[i] == init[i];
      var n := |slots| - 1;
      assert slots[n].day == day && slots[n].time == time && slots[n].group == bk[y];
    }
  }

  lemma {:induction false} TimesPairsIntro(slots: seq<Slot>, day: string, times: seq<string>, sortTwo: bool, k: nat, p: Pair)
    requires k < |times| && p in BucketPairs(Bucket(slots, day, times[k]), sortTwo)
    ensures p in TimesPairs(slots, day, times, sortTwo)
  {
    if k < |times| - 1 {
      var init := times[..|times| - 1];
      assert init[k] == times[k];
      TimesPairsIntro(slots, day, init, sortTwo, k, p);
    }
  }

  lemma {:induction false} TimesPairsElim(slots: seq<Slot>, day: string, times: seq<string>, sortTwo: bool, p: Pair)
    requires p in TimesPairs(slots, day, times, sortTwo)
    ensures exists k :: 0 <= k < |times| && p in BucketPairs(Bucket(slots, day, times[k]), sortTwo)
  {
    var init := times[..|times| - 1];
    if p in TimesPairs(slots, day, init, sortTwo) {
      TimesPairsElim(slots, day, init, sortTwo, p);
      var k :| 0 <= k < |init| && p in BucketPairs(Bucket(slots, day, init[k]), sortTwo);
      assert times[k] == init[k];
    }
  }

  lemma {:induction false} DaysPairsIntro(slots: seq<Slot>, days: seq<string>, times: seq<string>, sortTwo: bool, k: nat, p: Pair)
    requires k < |days| && p in TimesPairs(slots, days[k], times, sortTwo)
    ensures p in DaysPairs(slots, days, times, sortTwo)
  {
    if k < |days| - 1 {
      var init := days[..|days| - 1];
      assert init[k] == days[k];
      DaysPairsIntro(slots, init, times, sortTwo, k, p);
    }
  }

  lemma {:induction false} DaysPairsElim(slots: seq<Slot>, days: seq<string>, times: seq<string>, sortTwo: bool, p: Pair)
    requires p in DaysPairs(slots, days, times, sortTwo)
    ensures exists k :: 0 <= k < |days| && p in TimesPairs(slots, days[k], times, sortTwo)
  {
    var init := days[..|days| - 1];
    if p in DaysPairs(slots, init, times, sortTwo) {
      DaysPairsElim(slots, init, times, sortTwo, p);
      var k :| 0 <= k < |init| && p in TimesPairs(slots, init[k], times, sortTwo);
      assert days[k] == init[k];
    }
  }

  /** The bucket of row `i`'s day and time contributes to the list. */
  lemma BucketListed(slots: seq<Slot>, sortTwo: bool, i: nat, p: Pair)
    requires i < |slots|
    requires p in BucketPairs(Bucket(slots, slots[i].day, slots[i].time), sortTwo)
    ensures p in DaysPairs(slots, Unique(Days(slots)), Unique(TimeColumn(slots)), sortTwo)
  {
    var days, times := Unique(Days(slots)), Unique(TimeColumn(slots));
    assert Days(slots)[i] in days;
    assert TimeColumn(slots)[i] in times;
    var a :| 0 <= a < |days| && days[a] == slots[i].day;
    var b :| 0 <= b < |times| && times[b] == slots[i].time;
    TimesPairsIntro(slots, days[a], times, sortTwo, b, p);
    DaysPairsIntro(slots, days, times, sortTwo, a, p);
  }

  /** Every two rows on the same day and time are listed: as a sorted pair
      when their bucket holds more than two groups, in table order when it
      holds exactly two. */
  lemma IncompatibleComplete(slots: seq<Slot>, i: nat, j: nat)
    requires i < j < |slots| && SameTime(slots, i, j)
    ensures |Bucket(slots, slots[i].day, slots[i].time)| > 2 ==>
      Sorted(slots[i].group, slots[j].group) in Incompatible(slots)
    ensures |Bucket(slots, slots[i].day, slots[i].time)| == 2 ==>
      Pair(slots[i].group, slots[j].group) in Incompatible(slots)
  {
    var b := Bucket(slots, slots[i].day, slots[i].time);
    BucketOrder(slots, i, j);
    var x, y :| 0 <= x < y < |b| && b[x] == slots[i].group && b[y] == slots[j].group;
    BucketHolds(b, x, y);
    if |b| > 2 {
      BucketListed(slots, false, i, Sorted(slots[i].group, slots[j].group));
    } else {
      BucketListed(slots, false, i, Pair(slots[i].group, slots[j].group));
    }
  }

  /** Two positions of a bucket give its sorted pair when the bucket holds
      more than two groups, and the pair in bucket order when it holds two. */
  lemma BucketHolds(b: seq<string>, x: nat, y: nat)
    requires x < y < |b|
    ensures |b| > 2 ==> Sorted(b[x], b[y]) in BucketPairs(b, false)
    ensures |b| == 2 ==> Pair(b[x], b[y]) in BucketPairs(b, false)
  {
    if |b| > 2 {
      SortedCombosMember(b, Sorted(b[x], b[y]));
    }
  }

  /** A pair a bucket contributes names two distinct rows of that day and time. */
  lemma BucketPairsRows(slots: seq<Slot>, day: string, time: string, sortTwo: bool, p: Pair)
    requires p in BucketPairs(Bucket(slots, day, time), sortTwo)
    ensures exists i, j :: (0 <= i < j < |slots| && SameTime(slots, i, j) &&
      ((slots[i].group == p.first && slots[j].group == p.second) ||
       (slots[i].group == p.second && slots[j].group == p.first)))
  {
    var bk := Bucket(slots, day, time);
    BucketPairsPositions(bk, sortTwo, p);
    var x, y :| 0 <= x < y < |bk| && ((bk[x] == p.first && bk[y] == p.second) || (bk[x] == p.second && bk[y] == p.first));
    BucketRows(slots, day, time, x, y);
    var i, j :| 0 <= i < j < |slots| &&
      slots[i].day == day && slots[i].time == time && slots[j].day == day && slots[j].time == time &&
      slots[i].group == bk[x] && slots[j].group == bk[y];
    assert SameTime(slots, i, j);
  }

  /** Every listed pair (in either form) names two distinct rows that meet
      on the same day at the same time. */
  lemma IncompatibleSound(slots: seq<Slot>, sortTwo: bool, p: Pair)
    requires p in DaysPairs(slots, Unique(Days(slots)), Unique(TimeColumn(slots)), sortTwo)
    ensures exists i, j :: (0 <= i < j < |slots| && SameTime(slots, i, j) &&
      ((slots[i].group == p.first && slots[j].group == p.second) ||
       (slots[i].group == p.second && slots[j].group == p.first)))
  {
    var days, times := Unique(Days(slots)), Unique(TimeColumn(slots));
    DaysPairsElim(slots, days, times, sortTwo, p);
    var a :| 0 <= a < |days| && p in TimesPairs(slots, days[a], times, sortTwo);
    TimesPairsElim(slots, days[a], times, sortTwo, p);
    var c :| 0 <= c < |times| && p in BucketPairs(Bucket(slots, days[a], times[c]), sortTwo);
    BucketPairsRows(slots, days[a], times[c], sortTwo, p);
  }

  // ---------------------------------------------------------------------
  // Finding: a two-group bucket is stored unsorted
  // ---------------------------------------------------------------------

  lemma IncompatibleSortedComplete(slots: seq<Slot>, i: nat, j: nat)
    requires i < |slots| && j < |slots| && i != j && SameTime(slots, i, j)
    ensures Sorted(slots[i].group, slots[j].group) in IncompatibleSorted(slots)
  {
    var lo, hi := if i < j then i else j, if i < j then j else i;
    SortedSymmetric(slots[i].group, slots[j].group);
    var p := Sorted(slots[lo].group, slots[hi].group);
    var b := Bucket(slots, slots[lo].day, slots[lo].time);
    BucketOrder(slots, lo, hi);
    SortedBucketMember(b, p);
    BucketListed(slots, true, lo, p);
  }

  lemma SortedBucketRows(slots: seq<Slot>, day: string, time: string, p: Pair)
    requires p in BucketPairs(Bucket(slots, day, time), true)
    ensures exists i, j :: (0 <= i < |slots| && 0 <= j < |slots| && i != j && SameTime(slots, i, j) &&
      p == Sorted(slots[i].group, slots[j].group))
  {
    var bk := Bucket(slots, day, time);
    SortedBucketMember(bk, p);
    var x, y :| 0 <= x < y < |bk| && p == Sorted(bk[x], bk[y]);
    BucketRows(slots, day, time, x, y);
    var i, j :| 0 <= i < j < |slots| &&
      slots[i].day == day && slots[i].time == time && slots[j].day == day && slots[j].time == time &&
      slots[i].group == bk[x] && slots[j].group == bk[y];
    assert SameTime(slots, i, j);
  }

  lemma IncompatibleSortedSound(slots: seq<Slot>, p: Pair)
    requires p in IncompatibleSorted(slots)
    ensures exists i, j :: (0 <= i < |slots| && 0 <= j < |slots| && i != j && SameTime(slots, i, j) &&
      p == Sorted(slots[i].group, slots[j].group))
  {
    var days, times := Unique(Days(slots)), Unique(TimeColumn(slots));
    DaysPairsElim(slots, days, times, true, p);
    var a :| 0 <= a < |days| && p in TimesPairs(slots, days[a], times, true);
    TimesPairsElim(slots, days[a], times, true, p);
    var c :| 0 <= c < |times| && p in BucketPairs(Bucket(slots, days[a], times[c]), true);
    SortedBucketRows(slots, days[a], times[c], p);
  }

  /** With the two-group case sorted, the list holds exactly the sorted
      pairs of two distinct rows on the same day and time. */
  lemma IncompatibleSortedMember(slots: seq<Slot>, p: Pair)
    ensures p in IncompatibleSorted(slots) <==>
      exists i, j :: 0 <= i < |slots| && 0 <= j < |slots| && i != j && SameTime(slots, i, j) &&
        p == Sorted(slots[i].group, slots[j].group)
    ensures p in IncompatibleSorted(slots) ==> IsSorted(p)
  {
    if p in IncompatibleSorted(slots) {
      IncompatibleSortedSound(slots, p);
      var i, j :| 0 <= i < |slots| && 0 <= j < |slots| && i != j && SameTime(slots, i, j) &&
        p == Sorted(slots[i].group, slots[j].group);
    }
    forall i, j | 0 <= i < |slots| && 0 <= j < |slots| && i != j && SameTime(slots, i, j)
      ensures Sorted(slots[i].group, slots[j].group) in IncompatibleSorted(slots)
    {
      IncompatibleSortedComplete(slots, i, j);
    }
  }

  /** The evidently intended list differs from the written one only in the
      two-group buckets, which it sorts. */
  lemma SortedBucketPairsAgree(b: seq<string>)
    ensures |b| != 2 ==> BucketPairs(b, true) == BucketPairs(b, false)
    ensures |b| == 2 ==> BucketPairs(b, true) == [Sorted(b[0], b[1])]
    ensures |b| == 2 ==> BucketPairs(b, false) == [Pair(b[0], b[1])]
  {
  }

  /** Two groups meeting at the same time, listed in the table as "B" before
      "A", are stored as ["B", "A"]; the sorted pair ["A", "B"] that the
      feasibility check looks up is not in the list, while the corrected
      list holds exactly that pair. */
  lemma UnsortedPairWitness()
    ensures var slots := [Slot("Mon", "9-11", "B", "L", "R1"), Slot("Mon", "9-11", "A", "L", "R2")];
      && Bucket(slots, "Mon", "9-11") == ["B", "A"]
      && Incompatible(slots) == [Pair("B", "A")]
      && Sorted("B", "A") == Pair("A", "B")
      && Pair("A", "B") !in Incompatible(slots)
      && IncompatibleSorted(slots) == [Pair("A", "B")]
  {
    var slots := [Slot("Mon", "9-11", "B", "L", "R1"), Slot("Mon", "9-11", "A", "L", "R2")];
    assert slots[..1] == [slots[0]];
    assert [slots[0]][..0] == [];
    assert Bucket(slots, "Mon", "9-11") == ["B", "A"];
    assert Days(slots) == ["Mon", "Mon"];
    assert TimeColumn(slots) == ["9-11", "9-11"];
    assert ["Mon", "Mon"][..1] == ["Mon"];
    assert ["Mon"][..0] == [];
    assert Unique(Days(slots)) == ["Mon"];
    assert ["9-11", "9-11"][..1] == ["9-11"];
    assert ["9-11"][..0] == [];
    assert Unique(TimeColumn(slots)) == ["9-11"];
    assert !LexLe("B", "A") by {
      assert "B"[0] != "A"[0];
    }
    assert Sorted("B", "A") == Pair("A", "B");
    assert TimesPairs(slots, "Mon", ["9-11"], false) == [Pair("B", "A")];
    assert TimesPairs(slots, "Mon", ["9-11"], true) == [Pair("A", "B")];
    assert DaysPairs(slots, ["Mon"], ["9-11"], false) == [Pair("B", "A")];
    assert DaysPairs(slots, ["Mon"], ["9-11"], true) == [Pair("A", "B")];
  }

  // ---------------------------------------------------------------------
  // Start and end times
  // ---------------------------------------------------------------------

  /** `Time.str.split('-', expand=True)` for one row: the start time and, when
      there is a dash, the end time (pandas pads a row without one with None). */
  datatype Times = Times(start: string, end: Option<string>)

  datatype RelationError = TimeSplitColumns(columns: nat)

  function MaxFields(slots: seq<Slot>): nat
  {
    if slots == [] then 0
    else
      var n := |Split(slots[|slots| - 1].time, '-')|;
      var m := MaxFields(slots[..|slots| - 1]);
      if n > m then n else m
  }

  /** Assigning the expansion to the two columns `s_time`, `e_time` fails
      unless the widest split has exactly two fields. */
  function SplitTimes(slots: seq<Slot>): (r: Result<seq<Times>, RelationError>)
    ensures r.Ok? ==> |r.value| == |slots|
    ensures r.Ok? <==> MaxFields(slots) == 2
    ensures r.Ok? ==> forall i :: 0 <= i < |slots| ==> r.value[i].start == Split(slots[i].time, '-')[0]
  {
    if MaxFields(slots) != 2 then Err(TimeSplitColumns(MaxFields(slots)))
    else
      Ok(seq(|slots|, i requires 0 <= i < |slots| =>
        var f := Split(slots[i].time, '-');
        Times(f[0], if |f| >= 2 then Some(f[1]) else None)))
  }

  /** Row `i` ends when row `j` starts. */
  predicate Touches(tm: seq<Times>, i: int, j: int)
    requires 0 <= i < |tm| && 0 <= j < |tm|
  {
    tm[i].end == Some(tm[j].start)
  }

  // ---------------------------------------------------------------------
  // Touching rows, filtered three ways
  // ---------------------------------------------------------------------

  /** Which touching pairs a scan keeps: same room, different rooms, or both
      rows in one given room. */
  datatype Mode = SameRoom | OtherRoom | InRoom(room: string)

  predicate RoomsFit(mode: Mode, a: Slot, b: Slot)
  {
    match mode
    case SameRoom => a.room == b.room
    case OtherRoom => a.room != b.room
    case InRoom(r) => a.room == r && b.room == r
  }

  /** Rows `i != j` of one day where `i` ends as `j` starts, with rooms as `mode` asks. */
  predicate Related(slots: seq<Slot>, tm: seq<Times>, mode: Mode, i: int, j: int)
    requires |tm| == |slots|
  {
    0 <= i < |slots| && 0 <= j < |slots| && i != j &&
    slots[i].day == slots[j].day && Touches(tm, i, j) && RoomsFit(mode, slots[i], slots[j])
  }

  /** Row `i` lies on `day` and is related to row `j`. */
  predicate Hit(slots: seq<Slot>, tm: seq<Times>, mode: Mode, day: string, i: int, j: int)
    requires |tm| == |slots|
  {
    Related(slots, tm, mode, i, j) && slots[i].day == day
  }

  /** What comparing rows `i` and `j` on `day` adds to a list. */
  function Contrib(slots: seq<Slot>, tm: seq<Times>, mode: Mode, day: string, i: nat, j: nat): seq<Pair>
    requires |tm| == |slots| && i < |slots| && j < |slots|
  {
    if Hit(slots, tm, mode, day, i, j) then [Sorted(slots[i].group, slots[j].group)] else []
  }

  function RowScan(slots: seq<Slot>, tm: seq<Times>, mode: Mode, day: string, i: nat, m: nat): seq<Pair>
    requires |tm| == |slots| && i < |slots| && m <= |slots|
  {
    if m == 0 then [] else RowScan(slots, tm, mode, day, i, m - 1) + Contrib(slots, tm, mode, day, i, m - 1)
  }

  function DayScan(slots: seq<Slot>, tm: seq<Times>, mode: Mode, day: string, m: nat): seq<Pair>
    requires |tm| == |slots| && m <= |slots|
  {
    if m == 0 then [] else DayScan(slots, tm, mode, day, m - 1) + RowScan(slots, tm, mode, day, m - 1, |slots|)
  }

  /** One more row of the day extends the day scan by that row's pairs. */
  lemma DayScanStep(slots: seq<Slot>, tm: seq<Times>, mode: Mode, day: string, i: nat)
    requires |tm| == |slots| && i < |slots|
    ensures DayScan(slots, tm, mode, day, i + 1) == DayScan(slots, tm, mode, day, i) + RowScan(slots, tm, mode, day, i, |slots|)
  {
  }

  function DaysScan(slots: seq<Slot>, tm: seq<Times>, mode: Mode, days: seq<string>): seq<Pair>
    requires |tm| == |slots|
  {
    if days == [] then []
    else DaysScan(slots, tm, mode, days[..|days| - 1]) + DayScan(slots, tm, mode, days[|days| - 1], |slots|)
  }

  function RoomsScan(slots: seq<Slot>, tm: seq<Times>, rooms: seq<string>, days: seq<string>): seq<Pair>
    requires |tm| == |slots|
  {
    if rooms == [] then []
    else RoomsScan(slots, tm, rooms[..|rooms| - 1], days) + DaysScan(slots, tm, InRoom(rooms[|rooms| - 1]), days)
  }

  /** One more day extends the scan by that day's pairs. */
  lemma DaysScanStep(slots: seq<Slot>, tm: seq<Times>, mode: Mode, days: seq<string>, a: nat)
    requires |tm| == |slots| && a < |days|
    ensures DaysScan(slots, tm, mode, days[..a + 1]) ==
      DaysScan(slots, tm, mode, days[..a]) + DayScan(slots, tm, mode, days[a], |slots|)
  {
    assert days[..a + 1][..a] == days[..a];
  }

  /** One more room extends the scan by that room's pairs. */
  lemma RoomsScanStep(slots: seq<Slot>, tm: seq<Times>, rooms: seq<string>, days: seq<string>, c: nat)
    requires |tm| == |slots| && c < |rooms|
    ensures RoomsScan(slots, tm, rooms[..c + 1], days) ==
      RoomsScan(slots, tm, rooms[..c], days) + DaysScan(slots, tm, InRoom(rooms[c]), days)
  {
    assert rooms[..c + 1][..c] == rooms[..c];
  }

  function Consecutive(slots: seq<Slot>, tm: seq<Times>): seq<Pair>
    requires |tm| == |slots|
  {
    DaysScan(slots, tm, SameRoom, Unique(Days(slots)))
  }

  function Inconvenient(slots: seq<Slot>, tm: seq<Times>): seq<Pair>
    requires |tm| == |slots|
  {
    DaysScan(slots, tm, OtherRoom, Unique(Days(slots)))
  }

  /** The list of `find_consecutive_combinations`, scanned room by room. */
  function RoomConsecutive(slots: seq<Slot>, tm: seq<Times>): seq<Pair>
    requires |tm| == |slots|
  {
    RoomsScan(slots, tm, Unique(Rooms(slots)), Unique(Days(slots)))
  }

  lemma {:induction false} RowScanOffDay(slots: seq<Slot>, tm: seq<Times>, mode: Mode, day: string, i: nat, m: nat)
    requires |tm| == |slots| && i < |slots| && m <= |slots| && slots[i].day != day
    ensures RowScan(slots, tm, mode, day, i, m) == []
  {
    if m > 0 {
      RowScanOffDay(slots, tm, mode, day, i, m - 1);
    }
  }

  /** The inner loop of the day scan: a row of the day against every row of
      that day, filling the same-room and the different-room list at once;
      a row of another day adds nothing. */
  method ScanRow(slots: seq<Slot>, tm: seq<Times>, day: string, i: nat) returns (same: seq<Pair>, other: seq<Pair>)
    requires |tm| == |slots| && i < |slots|
    ensures same == RowScan(slots, tm, SameRoom, day, i, |slots|)
    ensures other == RowScan(slots, tm, OtherRoom, day, i, |slots|)
  {
    same, other := [], [];
    if slots[i].day != day {
      RowScanOffDay(slots, tm, SameRoom, day, i, |slots|);
      RowScanOffDay(slots, tm, OtherRoom, day, i, |slots|);
      return;
    }
    var j := 0;
    while j < |slots|
      invariant 0 <= j <= |slots|
      invariant same == RowScan(slots, tm, SameRoom, day, i, j)
      invariant other == RowScan(slots, tm, OtherRoom, day, i, j)
    {
      if i != j && slots[j].day == day {
        if tm[i].end == Some(tm[j].start) && slots[i].room == slots[j].room {
          same := same + [Sorted(slots[i].group, slots[j].group)];
        } else if tm[i].end == Some(tm[j].start) && slots[i].room != slots[j].room {
          other := other + [Sorted(slots[i].group, slots[j].group)];
        }
      }
      j := j + 1;
    }
  }

  /** The rows of one day, each against every row of that day. */
  method ScanDay(slots: seq<Slot>, tm: seq<Times>, day: string) returns (same: seq<Pair>, other: seq<Pair>)
    requires |tm| == |slots|
    ensures same == DayScan(slots, tm, SameRoom, day, |slots|)
    ensures other == DayScan(slots, tm, OtherRoom, day, |slots|)
  {
    same, other := [], [];
    var i := 0;
    while i < |slots|
      invariant 0 <= i <= |slots|
      invariant same == DayScan(slots, tm, SameRoom, day, i)
      invariant other == DayScan(slots, tm, OtherRoom, day, i)
    {
      var s, o := ScanRow(slots, tm, day, i);
      DayScanStep(slots, tm, SameRoom, day, i);
      DayScanStep(slots, tm, OtherRoom, day, i);
      same, other := same + s, other + o;
      i := i + 1;
    }
  }

  /** `extract_consecutive_combinations`: for each distinct day, every ordered
      pair of distinct rows of that day whose end and start times touch goes
      to the consecutive list if the rooms agree and to the inconvenient list
      otherwise, sorted. Splitting the times can fail first. */
  method ExtractConsecutiveCombinations(slots: seq<Slot>)
    returns (r: Result<(seq<Pair>, seq<Pair>), RelationError>)
    ensures SplitTimes(slots).Err? ==> r == Err(SplitTimes(slots).error)
    ensures SplitTimes(slots).Ok? ==> r == Ok((Consecutive(slots, SplitTimes(slots).value), Inconvenient(slots, SplitTimes(slots).value)))
  {
    var split := SplitTimes(slots);
    if split.Err? {
      return Err(split.error);
    }
    var tm := split.value;
    var days := Unique(Days(slots));
    var consecutive: seq<Pair> := [];
    var inconvenient: seq<Pair> := [];
    var a := 0;
    while a < |days|
      invariant 0 <= a <= |days|
      invariant consecutive == DaysScan(slots, tm, SameRoom, days[..a])
      invariant inconvenient == DaysScan(slots, tm, OtherRoom, days[..a])
    {
      var s, o := ScanDay(slots, tm, days[a]);
      consecutive, inconvenient := consecutive + s, inconvenient + o;
      DaysScanStep(slots, tm, SameRoom, days, a);
      DaysScanStep(slots, tm, OtherRoom, days, a);
      a := a + 1;
    }
    assert days[..|days|] == days;
    r := Ok((consecutive, inconvenient));
  }

  /** The inner loop of `find_consecutive_improb`: a row of the day against
      every row of that day. */
  method ImprobRow(slots: seq<Slot>, tm: seq<Times>, day: string, i: nat) returns (pairs: seq<Pair>)
    requires |tm| == |slots| && i < |slots|
    ensures pairs == RowScan(slots, tm, OtherRoom, day, i, |slots|)
  {
    pairs := [];
    if slots[i].day != day {
      RowScanOffDay(slots, tm, OtherRoom, day, i, |slots|);
      return;
    }
    var j := 0;
    while j < |slots|
      invariant 0 <= j <= |slots|
      invariant pairs == RowScan(slots, tm, OtherRoom, day, i, j)
    {
      if i != j && slots[j].day == day {
        if tm[i].end == Some(tm[j].start) && slots[i].room != slots[j].room {
          pairs := pairs + [Sorted(slots[i].group, slots[j].group)];
        }
      }
      j := j + 1;
    }
  }

  method ImprobDay(slots: seq<Slot>, tm: seq<Times>, day: string) returns (pairs: seq<Pair>)
    requires |tm| == |slots|
    ensures pairs == DayScan(slots, tm, OtherRoom, day, |slots|)
  {
    pairs := [];
    var i := 0;
    while i < |slots|
      invariant 0 <= i <= |slots|
      invariant pairs == DayScan(slots, tm, OtherRoom, day, i)
    {
      var more := ImprobRow(slots, tm, day, i);
      DayScanStep(slots, tm, OtherRoom, day, i);
      pairs := pairs + more;
      i := i + 1;
    }
  }

  /** `find_consecutive_improb` scans as the day scan of
      `extract_consecutive_combinations` does and keeps the different-room
      pairs: its list is that method's inconvenient list. */
  method FindConsecutiveImprob(slots: seq<Slot>) returns (r: Result<seq<Pair>, RelationError>)
    ensures SplitTimes(slots).Err? ==> r == Err(SplitTimes(slots).error)
    ensures SplitTimes(slots).Ok? ==> r == Ok(Inconvenient(slots, SplitTimes(slots).value))
  {
    var split := SplitTimes(slots);
    if split.Err? {
      return Err(split.error);
    }
    var tm := split.value;
    var days := Unique(Days(slots));
    var pairs: seq<Pair> := [];
    var a := 0;
    while a < |days|
      invariant 0 <= a <= |days|
      invariant pairs == DaysScan(slots, tm, OtherRoom, days[..a])
    {
      var more := ImprobDay(slots, tm, days[a]);
      pairs := pairs + more;
      DaysScanStep(slots, tm, OtherRoom, days, a);
      a := a + 1;
    }
    assert days[..|days|] == days;
    r := Ok(pairs);
  }

  /** The inner loop of `find_consecutive_combinations`: row `i` of the room
      and day against every row of that room and day. */
  method RoomRow(slots: seq<Slot>, tm: seq<Times>, room: string, day: string, i: nat) returns (pairs: seq<Pair>)
    requires |tm| == |slots| && i < |slots|
    ensures pairs == RowScan(slots, tm, InRoom(room), day, i, |slots|)
  {
    pairs := [];
    var j := 0;
    while j < |slots|
      invariant 0 <= j <= |slots|
      invariant pairs == RowScan(slots, tm, InRoom(room), day, i, j)
    {
      if i != j && slots[i].room == room && slots[j].room == room && slots[i].day == day && slots[j].day == day {
        if tm[i].end == Some(tm[j].start) {
          pairs := pairs + [Sorted(slots[i].group, slots[j].group)];
        }
      }
      j := j + 1;
    }
  }

  method RoomDay(slots: seq<Slot>, tm: seq<Times>, room: string, day: string) returns (pairs: seq<Pair>)
    requires |tm| == |slots|
    ensures pairs == DayScan(slots, tm, InRoom(room), day, |slots|)
  {
    pairs := [];
    var i := 0;
    while i < |slots|
      invariant 0 <= i <= |slots|
      invariant pairs == DayScan(slots, tm, InRoom(room), day, i)
    {
      var more := RoomRow(slots, tm, room, day, i);
      DayScanStep(slots, tm, InRoom(room), day, i);
      pairs := pairs + more;
      i := i + 1;
    }
  }

  method RoomDays(slots: seq<Slot>, tm: seq<Times>, room: string, days: seq<string>) returns (pairs: seq<Pair>)
    requires |tm| == |slots|
    ensures pairs == DaysScan(slots, tm, InRoom(room), days)
  {
    pairs := [];
    var a := 0;
    while a < |days|
      invariant 0 <= a <= |days|
      invariant pairs == DaysScan(slots, tm, InRoom(room), days[..a])
    {
      var more := RoomDay(slots, tm, room, days[a]);
      pairs := pairs + more;
      DaysScanStep(slots, tm, InRoom(room), days, a);
      a := a + 1;
    }
    assert days[..|days|] == days;
  }

  /** `find_consecutive_combinations`: for each distinct room and each
      distinct day, the touching pairs of distinct rows, sorted. */
  method FindConsecutiveCombinations(slots: seq<Slot>) returns (r: Result<seq<Pair>, RelationError>)
    ensures SplitTimes(slots).Err? ==> r == Err(SplitTimes(slots).error)
    ensures SplitTimes(slots).Ok? ==> r == Ok(RoomConsecutive(slots, SplitTimes(slots).value))
  {
    var split := SplitTimes(slots);
    if split.Err? {
      return Err(split.error);
    }
    var tm := split.value;
    var rooms := Unique(Rooms(slots));
    var days := Unique(Days(slots));
    var pairs: seq<Pair> := [];
    var c := 0;
    while c < |rooms|
      invariant 0 <= c <= |rooms|
      invariant pairs == RoomsScan(slots, tm, rooms[..c], days)
    {
      var more := RoomDays(slots, tm, rooms[c], days);
      pairs := pairs + more;
      RoomsScanStep(slots, tm, rooms, days, c);
      c := c + 1;
    }
    assert rooms[..|rooms|] == rooms;
    r := Ok(pairs);
  }

  // ---------------------------------------------------------------------
  // What the scans list
  // ---------------------------------------------------------------------

  lemma {:induction false} RowScanIntro(slots: seq<Slot>, tm: seq<Times>, mode: Mode, day: string, i: nat, m: nat, j: nat)
    requires |tm| == |slots| && j < m <= |slots| && Hit(slots, tm, mode, day, i, j)
    ensures Sorted(slots[i].group, slots[j].group) in RowScan(slots, tm, mode, day, i, m)
  {
    if j < m - 1 {
      RowScanIntro(slots, tm, mode, day, i, m - 1, j);
    }
  }

  lemma {:induction false} RowScanElim(slots: seq<Slot>, tm: seq<Times>, mode: Mode, day: string, i: nat, m: nat, p: Pair)
    requires |tm| == |slots| && i < |slots| && m <= |slots|
    requires p in RowScan(slots, tm, mode, day, i, m)
    ensures exists j :: j < m && Hit(slots, tm, mode, day, i, j) && p == Sorted(slots[i].group, slots[j].group)
  {
    if m > 0 {
      if p in RowScan(slots, tm, mode, day, i, m - 1) {
        RowScanElim(slots, tm, mode, day, i, m - 1, p);
      } else {
        assert Hit(slots, tm, mode, day, i, m - 1) && p == Sorted(slots[i].group, slots[m - 1].group);
      }
    }
  }

  lemma DayScanIntro(slots: seq<Slot>, tm: seq<Times>, mode: Mode, day: string, m: nat, i: nat, j: nat)
    requires |tm| == |slots| && i < m <= |slots| && Hit(slots, tm, mode, day, i, j)
    ensures Sorted(slots[i].group, slots[j].group) in DayScan(slots, tm, mode, day, m)
  {
    assert j < |slots|;
    var p := Sorted(slots[i].group, slots[j].group);
    RowScanIntro(slots, tm, mode, day, i, |slots|, j);
    DayScanGrows(slots, tm, mode, day, i, p);
    DayScanMono(slots, tm, mode, day, i + 1, m, p);
  }

  /** A pair of a shorter day scan stays in every longer one. */
  lemma {:induction false} DayScanMono(slots: seq<Slot>, tm: seq<Times>, mode: Mode, day: string, k: nat, m: nat, p: Pair)
    requires |tm| == |slots| && k <= m <= |slots| && p in DayScan(slots, tm, mode, day, k)
    ensures p in DayScan(slots, tm, mode, day, m)
    decreases m - k
  {
    if k < m {
      var next := DayScan(slots, tm, mode, day, k + 1);
      DayScanStep(slots, tm, mode, day, k);
      assert p in next;
      DayScanMono(slots, tm, mode, day, k + 1, m, p);
    }
  }

  /** A pair of the day scan so far, or of the next row, is in the longer scan. */
  lemma DayScanGrows(slots: seq<Slot>, tm: seq<Times>, mode: Mode, day: string, k: nat, p: Pair)
    requires |tm| == |slots| && k < |slots|
    requires p in DayScan(slots, tm, mode, day, k) || p in RowScan(slots, tm, mode, day, k, |slots|)
    ensures p in DayScan(slots, tm, mode, day, k + 1)
  {
    DayScanStep(slots, tm, mode, day, k);
  }

  lemma {:induction false} DayScanElim(slots: seq<Slot>, tm: seq<Times>, mode: Mode, day: string, m: nat, p: Pair)
    requires |tm| == |slots| && m <= |slots|
    requires p in DayScan(slots, tm, mode, day, m)
    ensures exists i, j :: Hit(slots, tm, mode, day, i, j) && p == Sorted(slots[i].group, slots[j].group)
  {
    if m > 0 {
      DayScanStep(slots, tm, mode, day, m - 1);
      if p in DayScan(slots, tm, mode, day, m - 1) {
        DayScanElim(slots, tm, mode, day, m - 1, p);
      } else {
        RowScanElim(slots, tm, mode, day, m - 1, |slots|, p);
        var j :| j < |slots| && Hit(slots, tm, mode, day, m - 1, j) && p == Sorted(slots[m - 1].group, slots[j].group);
        assert Hit(slots, tm, mode, day, m - 1, j) && p == Sorted(slots[m - 1].group, slots[j].group);
      }
    }
  }

  lemma {:induction false} DaysScanIntro(slots: seq<Slot>, tm: seq<Times>, mode: Mode, days: seq<string>, k: nat, i: nat, j: nat)
    requires |tm| == |slots| && k < |days| && Hit(slots, tm, mode, days[k], i, j)
    ensures Sorted(slots[i].group, slots[j].group) in DaysScan(slots, tm, mode, days)
  {
    if k < |days| - 1 {
      var init := days[..|days| - 1];
      assert init[k] == days[k];
      DaysScanIntro(slots, tm, mode, init, k, i, j);
    } else {
      DayScanIntro(slots, tm, mode, days[k], |slots|, i, j);
    }
  }

  lemma {:induction false} DaysScanElim(slots: seq<Slot>, tm: seq<Times>, mode: Mode, days: seq<string>, p: Pair)
    requires |tm| == |slots|
    requires p in DaysScan(slots, tm, mode, days)
    ensures exists i, j :: Related(slots, tm, mode, i, j) && p == Sorted(slots[i].group, slots[j].group)
  {
    var init := days[..|days| - 1];
    if p in DaysScan(slots, tm, mode, init) {
      DaysScanElim(slots, tm, mode, init, p);
    } else {
      DayScanElim(slots, tm, mode, days[|days| - 1], |slots|, p);
    }
  }

  /** A pair is listed by the day scan with `mode` exactly when it is the
      sorted pair of two related rows. */
  lemma ScanMember(slots: seq<Slot>, tm: seq<Times>, mode: Mode, p: Pair)
    requires |tm| == |slots|
    ensures p in DaysScan(slots, tm, mode, Unique(Days(slots))) <==>
      exists i, j :: Related(slots, tm, mode, i, j) && p == Sorted(slots[i].group, slots[j].group)
  {
    var days := Unique(Days(slots));
    if p in DaysScan(slots, tm, mode, days) {
      DaysScanElim(slots, tm, mode, days, p);
    }
    forall i, j | Related(slots, tm, mode, i, j) && p == Sorted(slots[i].group, slots[j].group)
      ensures p in DaysScan(slots, tm, mode, days)
    {
      assert Days(slots)[i] in days;
      var k :| 0 <= k < |days| && days[k] == slots[i].day;
      DaysScanIntro(slots, tm, mode, days, k, i, j);
    }
  }

  /** Each pair of touching rows feeds the list its rooms select. */
  lemma ConsecutiveSplit(slots: seq<Slot>, tm: seq<Times>, i: nat, j: nat)
    requires |tm| == |slots| && i < |slots| && j < |slots| && i != j
    requires slots[i].day == slots[j].day && Touches(tm, i, j)
    ensures slots[i].room == slots[j].room ==> Sorted(slots[i].group, slots[j].group) in Consecutive(slots, tm)
    ensures slots[i].room != slots[j].room ==> Sorted(slots[i].group, slots[j].group) in Inconvenient(slots, tm)
  {
    var p := Sorted(slots[i].group, slots[j].group);
    if slots[i].room == slots[j].room {
      assert Related(slots, tm, SameRoom, i, j);
      ScanMember(slots, tm, SameRoom, p);
    } else {
      assert Related(slots, tm, OtherRoom, i, j);
      ScanMember(slots, tm, OtherRoom, p);
    }
  }

  /** A pair of rows is related in the same room or in different rooms, never
      both, and it is one of the two exactly when the rows are distinct, lie
      on one day and touch. */
  lemma RoomsExclusive(slots: seq<Slot>, tm: seq<Times>, i: int, j: int)
    requires |tm| == |slots|
    ensures !(Related(slots, tm, SameRoom, i, j) && Related(slots, tm, OtherRoom, i, j))
    ensures Related(slots, tm, SameRoom, i, j) || Related(slots, tm, OtherRoom, i, j) <==>
      0 <= i < |slots| && 0 <= j < |slots| && i != j && slots[i].day == slots[j].day && Touches(tm, i, j)
  {
  }

  lemma {:induction false} RoomsScanIntro(slots: seq<Slot>, tm: seq<Times>, rooms: seq<string>, days: seq<string>, c: nat, p: Pair)
    requires |tm| == |slots| && c < |rooms|
    requires p in DaysScan(slots, tm, InRoom(rooms[c]), days)
    ensures p in RoomsScan(slots, tm, rooms, days)
  {
    if c < |rooms| - 1 {
      var init := rooms[..|rooms| - 1];
      assert init[c] == rooms[c];
      RoomsScanIntro(slots, tm, init, days, c, p);
    }
  }

  lemma {:induction false} RoomsScanElim(slots: seq<Slot>, tm: seq<Times>, rooms: seq<string>, days: seq<string>, p: Pair)
    requires |tm| == |slots|
    requires p in RoomsScan(slots, tm, rooms, days)
    ensures exists c :: 0 <= c < |rooms| && p in DaysScan(slots, tm, InRoom(rooms[c]), days)
  {
    var init := rooms[..|rooms| - 1];
    if p in RoomsScan(slots, tm, init, days) {
      RoomsScanElim(slots, tm, init, days, p);
      var c :| 0 <= c < |init| && p in DaysScan(slots, tm, InRoom(init[c]), days);
      assert rooms[c] == init[c];
    }
  }

  lemma RoomConsecutiveSound(slots: seq<Slot>, tm: seq<Times>, p: Pair)
    requires |tm| == |slots|
    requires p in RoomConsecutive(slots, tm)
    ensures p in Consecutive(slots, tm)
  {
    var rooms, days := Unique(Rooms(slots)), Unique(Days(slots));
    RoomsScanElim(slots, tm, rooms, days, p);
    var c :| 0 <= c < |rooms| && p in DaysScan(slots, tm, InRoom(rooms[c]), days);
    DaysScanElim(slots, tm, InRoom(rooms[c]), days, p);
    var i, j :| Related(slots, tm, InRoom(rooms[c]), i, j) && p == Sorted(slots[i].group, slots[j].group);
    assert Related(slots, tm, SameRoom, i, j);
    ScanMember(slots, tm, SameRoom, p);
  }

  lemma RoomConsecutiveComplete(slots: seq<Slot>, tm: seq<Times>, p: Pair)
    requires |tm| == |slots|
    requires p in Consecutive(slots, tm)
    ensures p in RoomConsecutive(slots, tm)
  {
    var rooms, days := Unique(Rooms(slots)), Unique(Days(slots));
    ScanMember(slots, tm, SameRoom, p);
    var i, j :| Related(slots, tm, SameRoom, i, j) && p == Sorted(slots[i].group, slots[j].group);
    assert Rooms(slots)[i] in rooms;
    var c :| 0 <= c < |rooms| && rooms[c] == slots[i].room;
    assert Related(slots, tm, InRoom(rooms[c]), i, j);
    ScanMember(slots, tm, InRoom(rooms[c]), p);
    RoomsScanIntro(slots, tm, rooms, days, c, p);
  }

  /** The room-by-room list of `find_consecutive_combinations` holds the
      same pairs as the consecutive list of `extract_consecutive_combinations`;
      only the order of the entries differs. */
  lemma RoomConsecutiveAgrees(slots: seq<Slot>, tm: seq<Times>, p: Pair)
    requires |tm| == |slots|
    ensures p in RoomConsecutive(slots, tm) <==> p in Consecutive(slots, tm)
  {
    if p in RoomConsecutive(slots, tm) {
      RoomConsecutiveSound(slots, tm, p);
    }
    if p in Consecutive(slots, tm) {
      RoomConsecutiveComplete(slots, tm, p);
    }
  }
}
