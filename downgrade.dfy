/** `decr_PrefNot`: a slot that already has at least two `Yes` and at least
    three `Yes` or `Preferably Not` loses the `Preferably Not` of every person
    whose share of `Yes` over all groups exceeds the threshold. The table is
    changed in place, one slot at a time. */
module Downgrade {
  import opened Base

  /** Every row has `w` cells. */
  predicate Rect(rows: seq<seq<Tier>>, w: nat)
  {
    forall i :: 0 <= i < |rows| ==> |rows[i]| == w
  }

  /** The cells of column `j`, top to bottom. */
  function ColumnOf(rows: seq<seq<Tier>>, w: nat, j: nat): (c: seq<Tier>)
    requires Rect(rows, w) && j < w
    ensures |c| == |rows| && forall i :: 0 <= i < |rows| ==> c[i] == rows[i][j]
  {
    seq(|rows|, i requires 0 <= i < |rows| && Rect(rows, w) => rows[i][j])
  }

  /** The `availability` dictionary: each person's number of `Yes`. */
  function ColumnYes(rows: seq<seq<Tier>>, w: nat): (ys: seq<nat>)
    requires Rect(rows, w)
    ensures |ys| == w
    ensures forall j :: 0 <= j < w ==> ys[j] == Occurrences(ColumnOf(rows, w, j), Yes)
  {
    seq(w, j requires 0 <= j < w => Occurrences(ColumnOf(rows, w, j), Yes))
  }

  /** `count.loc["Yes", "count"]` fails for the first column without a `Yes`. */
  function FirstNoYes(rows: seq<seq<Tier>>, w: nat): (r: Option<nat>)
    requires Rect(rows, w)
  {
    var k := FirstIndex(ColumnYes(rows, w), 0);
    if k < w then Some(k) else None
  }

  /** `y_count + pn_count >= 3 and y_count >= 2`. */
  predicate Crowded(row: seq<Tier>)
  {
    Occurrences(row, Yes) + Occurrences(row, PrefNot) >= 3 && Occurrences(row, Yes) >= 2
  }

  /** `availability[j] / n_groups > min_availability_ratio`. */
  predicate Abundant(yes: nat, n: nat, ratio: real)
  {
    n > 0 && (yes as real) / (n as real) > ratio
  }

  /** One slot after its pass, given the `Yes` counts of the persons. */
  function RowAfter(row: seq<Tier>, ys: seq<nat>, n: nat, ratio: real): (r: seq<Tier>)
    requires |ys| == |row|
    ensures |r| == |row|
  {
    seq(|row|, j requires 0 <= j < |row| =>
      if row[j] == PrefNot && Crowded(row) && Abundant(ys[j], n, ratio) then No else row[j])
  }

  /** The table after the pass over every slot. */
  function Downgraded(rows: seq<seq<Tier>>, w: nat, ratio: real): (r: seq<seq<Tier>>)
    requires Rect(rows, w)
    ensures |r| == |rows| && Rect(r, w)
  {
    var ys := ColumnYes(rows, w);
    seq(|rows|, i requires 0 <= i < |rows| => RowAfter(rows[i], ys, |rows|, ratio))
  }

  // ---------------------------------------------------------------------
  // The table in place
  // ---------------------------------------------------------------------

  function RowOf(cells: array2<Tier>, i: nat): (row: seq<Tier>)
    requires i < cells.Length0
    reads cells
    ensures |row| == cells.Length1 && forall j :: 0 <= j < cells.Length1 ==> row[j] == cells[i, j]
  {
    seq(cells.Length1, j requires 0 <= j < cells.Length1 reads cells => cells[i, j])
  }

  function Rows(cells: array2<Tier>): (rows: seq<seq<Tier>>)
    reads cells
    ensures |rows| == cells.Length0 && Rect(rows, cells.Length1)
    ensures forall i, j :: 0 <= i < cells.Length0 && 0 <= j < cells.Length1 ==> rows[i][j] == cells[i, j]
  {
    seq(cells.Length0, i requires 0 <= i < cells.Length0 reads cells => RowOf(cells, i))
  }

  /** The loop that fills `availability`; it stops at the first person
      without a `Yes`. The table is not touched. */
  method Availability(cells: array2<Tier>) returns (ys: seq<nat>, missing: Option<nat>)
    ensures missing == FirstNoYes(Rows(cells), cells.Length1)
    ensures missing.None? ==> ys == ColumnYes(Rows(cells), cells.Length1)
  {
    ghost var all := ColumnYes(Rows(cells), cells.Length1);
    ys := [];
    for j := 0 to cells.Length1
      invariant ys == all[..j]
      invariant forall k :: 0 <= k < j ==> all[k] != 0
    {
      var y := Occurrences(ColumnOf(Rows(cells), cells.Length1, j), Yes);
      if y == 0 {
        missing := Some(j);
        return;
      }
      ys := ys + [y];
    }
    assert all[..cells.Length1] == all;
    missing := None;
  }

  /** One slot: the counts are taken from the current table, every person
      who had `Preferably Not` on the slot is visited in column order, and
      the counts are taken again after each change. */
  method DowngradeRow(cells: array2<Tier>, i: nat, ys: seq<nat>, ratio: real)
    requires i < cells.Length0 && |ys| == cells.Length1
    modifies cells
    ensures forall r, c :: 0 <= r < cells.Length0 && 0 <= c < cells.Length1 ==>
      cells[r, c] == if r == i then RowAfter(old(RowOf(cells, i)), ys, cells.Length0, ratio)[c] else old(cells[r, c])
  {
    var w := cells.Length1;
    var row := RowOf(cells, i);
    var after := RowAfter(row, ys, cells.Length0, ratio);
    var y := Occurrences(row, Yes);
    var p := Occurrences(row, PrefNot);
    if y + p >= 3 && y >= 2 {
      for j := 0 to w
        invariant forall c :: 0 <= c < w ==> cells[i, c] == if c < j then after[c] else row[c]
        invariant forall r, c :: 0 <= r < cells.Length0 && r != i && 0 <= c < w ==> cells[r, c] == old(cells[r, c])
        invariant y == Occurrences(row, Yes) && y == Occurrences(RowOf(cells, i), Yes)
        invariant p == Occurrences(RowOf(cells, i), PrefNot)
      {
        if row[j] == PrefNot {
          StillCrowded(RowOf(cells, i), j);
          if Abundant(ys[j], cells.Length0, ratio) && (y + p >= 3 && y >= 2) {
            ghost var before := RowOf(cells, i);
            cells[i, j] := No;
            OccurrencesSame(before, RowOf(cells, i), Yes);
            y, p := Occurrences(RowOf(cells, i), Yes), Occurrences(RowOf(cells, i), PrefNot);
          }
        }
      }
    }
  }

  /** A visited cell still holds `Preferably Not`, so the recount finds it. */
  lemma StillCrowded(row: seq<Tier>, j: nat)
    requires j < |row| && row[j] == PrefNot
    ensures Occurrences(row, PrefNot) >= 1
  {
    OccurrencesPositive(row, PrefNot);
  }

  /** How a call of `decr_PrefNot` ends. The table-wide `Preferably Not`
      total is looked up by label before and after the pass, so a table
      without any `Preferably Not` raises `KeyError` there. */
  datatype Outcome =
    | Lowered(before: nat, after: nat)   // the two totals the source prints
    | MissingYes(person: nat)            // `count.loc["Yes"]` for a person without `Yes`
    | NoPrefNotBefore                    // the total before the pass; nothing changed
    | NoPrefNotAfter                     // the total after the pass; the table is rewritten

  /** The end of a call on `rows`, in the order the source reaches its exits. */
  function PassOutcome(rows: seq<seq<Tier>>, w: nat, ratio: real): Outcome
    requires Rect(rows, w)
  {
    match FirstNoYes(rows, w)
    case Some(k) => MissingYes(k)
    case None =>
      if TableCount(rows, PrefNot) == 0 then NoPrefNotBefore
      else if TableCount(Downgraded(rows, w, ratio), PrefNot) == 0 then NoPrefNotAfter
      else Lowered(TableCount(rows, PrefNot), TableCount(Downgraded(rows, w, ratio), PrefNot))
  }

  /** The whole pass: the `KeyError` for the first person without a `Yes` or
      for a table without `Preferably Not` leaves the table as it was; the
      pass itself rewrites it to `Downgraded`, also when the total after it
      then fails. */
  method DecrPrefNot(cells: array2<Tier>, ratio: real) returns (r: Outcome)
    modifies cells
    ensures r == PassOutcome(old(Rows(cells)), cells.Length1, ratio)
    ensures (r.MissingYes? || r.NoPrefNotBefore?) ==> Rows(cells) == old(Rows(cells))
    ensures (r.Lowered? || r.NoPrefNotAfter?) ==> Rows(cells) == Downgraded(old(Rows(cells)), cells.Length1, ratio)
  {
    var ys, missing := Availability(cells);
    if missing.Some? {
      return MissingYes(missing.value);
    }
    var before := TableCount(Rows(cells), PrefNot);
    if before == 0 {
      return NoPrefNotBefore;
    }
    ghost var start := Rows(cells);
    ghost var goal := Downgraded(start, cells.Length1, ratio);
    for i := 0 to cells.Length0
      invariant forall r, c :: 0 <= r < cells.Length0 && 0 <= c < cells.Length1 ==>
        cells[r, c] == if r < i then goal[r][c] else start[r][c]
    {
      assert RowOf(cells, i) == start[i];
      DowngradeRow(cells, i, ys, ratio);
    }
    forall r | 0 <= r < cells.Length0 ensures Rows(cells)[r] == goal[r] { }
    assert Rows(cells) == goal;
    var after := TableCount(Rows(cells), PrefNot);
    if after == 0 {
      return NoPrefNotAfter;
    }
    return Lowered(before, after);
  }

  // ---------------------------------------------------------------------
  // What the pass guarantees
  // ---------------------------------------------------------------------

  /** A cell changes only from `Preferably Not` to `No`, and it changes
      exactly when its slot is crowded and its person has a high enough share
      of `Yes`. */
  lemma DowngradeOnlyLowers(rows: seq<seq<Tier>>, w: nat, ratio: real)
    requires Rect(rows, w)
    ensures forall i, j :: 0 <= i < |rows| && 0 <= j < w ==>
      Downgraded(rows, w, ratio)[i][j] == rows[i][j] ||
      (rows[i][j] == PrefNot && Downgraded(rows, w, ratio)[i][j] == No)
    ensures forall i, j :: 0 <= i < |rows| && 0 <= j < w ==>
      (Downgraded(rows, w, ratio)[i][j] != rows[i][j] <==>
        rows[i][j] == PrefNot && Occurrences(rows[i], Yes) >= 2 &&
        Occurrences(rows[i], Yes) + Occurrences(rows[i], PrefNot) >= 3 &&
        (Occurrences(ColumnOf(rows, w, j), Yes) as real) / (|rows| as real) > ratio)
  {
  }

  /** Every person's `Yes` count, and every slot's, is the same afterwards;
      no slot and no person gains a `Preferably Not`. */
  lemma DowngradeCounts(rows: seq<seq<Tier>>, w: nat, ratio: real)
    requires Rect(rows, w)
    ensures forall j :: 0 <= j < w ==>
      Occurrences(ColumnOf(Downgraded(rows, w, ratio), w, j), Yes) == Occurrences(ColumnOf(rows, w, j), Yes)
    ensures forall i :: 0 <= i < |rows| ==> Occurrences(Downgraded(rows, w, ratio)[i], Yes) == Occurrences(rows[i], Yes)
    ensures forall i :: 0 <= i < |rows| ==>
      Occurrences(Downgraded(rows, w, ratio)[i], PrefNot) <= Occurrences(rows[i], PrefNot)
    ensures forall j :: 0 <= j < w ==>
      Occurrences(ColumnOf(Downgraded(rows, w, ratio), w, j), PrefNot) <= Occurrences(ColumnOf(rows, w, j), PrefNot)
  {
    var d := Downgraded(rows, w, ratio);
    forall j | 0 <= j < w
      ensures Occurrences(ColumnOf(d, w, j), Yes) == Occurrences(ColumnOf(rows, w, j), Yes)
      ensures Occurrences(ColumnOf(d, w, j), PrefNot) <= Occurrences(ColumnOf(rows, w, j), PrefNot)
    {
      OccurrencesSame(ColumnOf(rows, w, j), ColumnOf(d, w, j), Yes);
      OccurrencesMono(ColumnOf(rows, w, j), ColumnOf(d, w, j), PrefNot);
    }
    forall i | 0 <= i < |rows|
      ensures Occurrences(d[i], Yes) == Occurrences(rows[i], Yes)
      ensures Occurrences(d[i], PrefNot) <= Occurrences(rows[i], PrefNot)
    {
      OccurrencesSame(rows[i], d[i], Yes);
      OccurrencesMono(rows[i], d[i], PrefNot);
    }
  }

  /** The number of cells holding `t` over the whole table. */
  function TableCount(rows: seq<seq<Tier>>, t: Tier): nat
  {
    if rows == [] then 0 else TableCount(rows[..|rows| - 1], t) + Occurrences(rows[|rows| - 1], t)
  }

  lemma {:induction false} TableCountMono(a: seq<seq<Tier>>, b: seq<seq<Tier>>, t: Tier)
    requires |a| == |b| && forall i :: 0 <= i < |a| ==> Occurrences(b[i], t) <= Occurrences(a[i], t)
    ensures TableCount(b, t) <= TableCount(a, t)
  {
    if a != [] {
      TableCountMono(a[..|a| - 1], b[..|b| - 1], t);
    }
  }

  /** The printed "Preferably Not count decreased from ... to ...": the total
      never goes up. */
  lemma PrefNotTotalDecreases(rows: seq<seq<Tier>>, w: nat, ratio: real)
    requires Rect(rows, w)
    ensures TableCount(Downgraded(rows, w, ratio), PrefNot) <= TableCount(rows, PrefNot)
    ensures TableCount(Downgraded(rows, w, ratio), Yes) == TableCount(rows, Yes)
  {
    DowngradeCounts(rows, w, ratio);
    TableCountMono(rows, Downgraded(rows, w, ratio), PrefNot);
    TableCountMono(rows, Downgraded(rows, w, ratio), Yes);
    TableCountMono(Downgraded(rows, w, ratio), rows, Yes);
  }

  /** A second pass changes nothing: a `Preferably Not` that survived belongs
      to a person whose `Yes` share is still too low, or to a slot that was
      not crowded and is unchanged. */
  lemma DowngradeIdempotent(rows: seq<seq<Tier>>, w: nat, ratio: real)
    requires Rect(rows, w)
    ensures Downgraded(Downgraded(rows, w, ratio), w, ratio) == Downgraded(rows, w, ratio)
  {
    var d := Downgraded(rows, w, ratio);
    var dd := Downgraded(d, w, ratio);
    DowngradeCounts(rows, w, ratio);
    assert ColumnYes(d, w) == ColumnYes(rows, w);
    forall i | 0 <= i < |rows| ensures dd[i] == d[i] {
      if !Crowded(rows[i]) {
        assert d[i] == rows[i];
      }
    }
  }

  /** The two totals the source prints: the one after the pass is never
      larger, and both are positive; the pass can also remove every
      `Preferably Not`, so the total after it fails. */
  lemma PassOutcomeFacts(rows: seq<seq<Tier>>, w: nat, ratio: real)
    requires Rect(rows, w)
    ensures PassOutcome(rows, w, ratio).MissingYes? <==> FirstNoYes(rows, w).Some?
    ensures PassOutcome(rows, w, ratio).NoPrefNotBefore? <==> FirstNoYes(rows, w).None? && TableCount(rows, PrefNot) == 0
    ensures PassOutcome(rows, w, ratio).Lowered? ==>
      0 < PassOutcome(rows, w, ratio).after <= PassOutcome(rows, w, ratio).before == TableCount(rows, PrefNot)
    ensures PassOutcome(rows, w, ratio).NoPrefNotAfter? ==>
      TableCount(rows, PrefNot) > 0 && TableCount(Downgraded(rows, w, ratio), PrefNot) == 0
  {
    PrefNotTotalDecreases(rows, w, ratio);
  }

  /** A slot with two `Yes` and one `Preferably Not` whose person is `Yes`
      elsewhere loses its only `Preferably Not`: the pass writes `No` and
      the total after it is the `KeyError`. */
  lemma LastPrefNotRemoved()
    ensures PassOutcome([[Yes, Yes, PrefNot], [Yes, Yes, Yes]], 3, 0.4) == NoPrefNotAfter
    ensures Downgraded([[Yes, Yes, PrefNot], [Yes, Yes, Yes]], 3, 0.4) == [[Yes, Yes, No], [Yes, Yes, Yes]]
  {
    ExampleYes();
    ExampleDowngraded();
    ExampleTotals();
  }

  lemma ExampleYes()
    ensures ColumnYes([[Yes, Yes, PrefNot], [Yes, Yes, Yes]], 3) == [2, 2, 1]
    ensures FirstNoYes([[Yes, Yes, PrefNot], [Yes, Yes, Yes]], 3).None?
  {
    var rows := [[Yes, Yes, PrefNot], [Yes, Yes, Yes]];
    assert ColumnOf(rows, 3, 0) == [Yes, Yes] && ColumnOf(rows, 3, 1) == [Yes, Yes];
    assert ColumnOf(rows, 3, 2) == [PrefNot, Yes];
    assert [Yes, Yes][..1] == [Yes] && [PrefNot, Yes][..1] == [PrefNot];
    var ys := ColumnYes(rows, 3);
    assert ys == [2, 2, 1];
    assert ys[1..] == [2, 1] && ys[1..][1..] == [1] && ys[1..][1..][1..] == [];
  }

  lemma ExampleDowngraded()
    requires ColumnYes([[Yes, Yes, PrefNot], [Yes, Yes, Yes]], 3) == [2, 2, 1]
    ensures Downgraded([[Yes, Yes, PrefNot], [Yes, Yes, Yes]], 3, 0.4) == [[Yes, Yes, No], [Yes, Yes, Yes]]
  {
    var rows := [[Yes, Yes, PrefNot], [Yes, Yes, Yes]];
    assert [Yes, Yes, PrefNot][..2] == [Yes, Yes] && [Yes, Yes][..1] == [Yes];
    assert Crowded(rows[0]);
    assert Abundant(1, 2, 0.4);
    assert RowAfter(rows[0], [2, 2, 1], 2, 0.4) == [Yes, Yes, No];
    assert RowAfter(rows[1], [2, 2, 1], 2, 0.4) == rows[1];
  }

  lemma ExampleTotals()
    ensures TableCount([[Yes, Yes, PrefNot], [Yes, Yes, Yes]], PrefNot) == 1
    ensures TableCount([[Yes, Yes, No], [Yes, Yes, Yes]], PrefNot) == 0
  {
    var rows := [[Yes, Yes, PrefNot], [Yes, Yes, Yes]];
    var after := [[Yes, Yes, No], [Yes, Yes, Yes]];
    assert [Yes, Yes, PrefNot][..2] == [Yes, Yes] && [Yes, Yes, Yes][..2] == [Yes, Yes];
    assert [Yes, Yes, No][..2] == [Yes, Yes] && [Yes, Yes][..1] == [Yes];
    assert rows[..1] == [rows[0]] && [rows[0]][..0] == [];
    assert after[..1] == [after[0]] && [after[0]][..0] == [];
  }
}
