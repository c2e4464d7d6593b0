/** Merging two people into one column when there are too many columns: the
    similarity of every pair of unmerged columns, the ten most similar pairs,
    and the merge the user picks from them. The pick, read from the keyboard
    in the source, is a parameter here. */
module Merge {
  import opened Base
  import opened Headers
  import opened Sorting

  // ---------------------------------------------------------------------
  // combine_availability
  // ---------------------------------------------------------------------

  /** The tier of the merged column on one row. */
  function Combine(a: Tier, b: Tier): Tier
  {
    if a == No || b == No then No
    else if a == PrefNot || b == PrefNot then PrefNot
    else if a == Yes || b == Yes then Yes
    else No
  }

  /** How much a tier allows, with an empty cell standing for "no answer". */
  function Strength(t: Tier): nat
  {
    match t
    case No => 0
    case PrefNot => 1
    case Yes => 2
    case Empty => 3
  }

  /** The merged tier is the weaker of the two, an empty cell giving way to
      any answer; two empty cells give `No`. */
  lemma CombineIsWeaker(a: Tier, b: Tier)
    ensures Combine(a, b) == if a == Empty && b == Empty then No else if Strength(a) <= Strength(b) then a else b
  {
  }

  /** `combine_availability` is commutative, `No` absorbs, an empty cell is
      neutral against an answer, and the merged column says `Yes` exactly when
      one says `Yes` and the other `Yes` or nothing. */
  lemma CombineFacts(a: Tier, b: Tier)
    ensures Combine(a, b) == Combine(b, a)
    ensures Combine(a, No) == No
    ensures a != Empty ==> Combine(a, Empty) == a
    ensures Combine(Empty, Empty) == No
    ensures Combine(a, b) == Yes <==> (a == Yes && (b == Yes || b == Empty)) || (b == Yes && (a == Yes || a == Empty))
  {
  }

  /** Merging is not associative, which is one reason a merged column is
      never merged again. */
  lemma CombineNotAssociative()
    ensures Combine(Combine(Empty, Empty), Yes) == No
    ensures Combine(Empty, Combine(Empty, Yes)) == Yes
  {
  }

  // ---------------------------------------------------------------------
  // calculate_similarity_scores
  // ---------------------------------------------------------------------

  /** The binarised tier: `No` and empty count as 0, `Preferably Not` and
      `Yes` as 1. */
  function Bin(t: Tier): nat
  {
    if t == Yes || t == PrefNot then 1 else 0
  }

  /** Row by row, whether the two binarised columns agree. */
  function Agree(x: seq<Tier>, y: seq<Tier>): (r: seq<bool>)
    requires |x| == |y|
    ensures |r| == |x| && forall i :: 0 <= i < |x| ==> r[i] == (Bin(x[i]) == Bin(y[i]))
  {
    seq(|x|, i requires 0 <= i < |x| => Bin(x[i]) == Bin(y[i]))
  }

  /** `(binary_df[col1] == binary_df[col2]).sum()`. */
  function Matches(x: seq<Tier>, y: seq<Tier>): nat
    requires |x| == |y|
  {
    Occurrences(Agree(x, y), true)
  }

  /** `matches / total_rows`. */
  function Similarity(x: seq<Tier>, y: seq<Tier>): real
    requires |x| == |y| && |x| > 0
  {
    (Matches(x, y) as real) / (|x| as real)
  }

  /** The score does not depend on the order of the two columns and lies
      between 0 and 1. */
  lemma SimilarityFacts(x: seq<Tier>, y: seq<Tier>)
    requires |x| == |y| && |x| > 0
    ensures Similarity(x, y) == Similarity(y, x)
    ensures 0.0 <= Similarity(x, y) <= 1.0
  {
    assert Agree(x, y) == Agree(y, x);
    var m, n := Matches(x, y) as real, |x| as real;
    var q := m / n;
    assert q * n == m;
    assert q * n <= 1.0 * n;
    assert (q - 1.0) * n <= 0.0;
  }

  /** A column of the frame: its header and one tier per row. */
  datatype Col = Col(header: string, cells: seq<Tier>)

  /** The person columns of the table, left to right, over the slots. */
  datatype Frame = Frame(slots: seq<Slot>, cols: seq<Col>)

  predicate FrameOk(f: Frame)
  {
    forall k :: 0 <= k < |f.cols| ==> |f.cols[k].cells| == |f.slots|
  }

  /** One entry of the similarity dictionary: two column positions and their
      number of matching rows. */
  datatype Candidate = Candidate(first: nat, second: nat, matches: nat)

  /** A pair the dictionary holds: two columns in order, neither of them a
      merge already, with its count of matches. */
  predicate IsCandidate(f: Frame, c: Candidate)
    requires FrameOk(f)
  {
    c.first < c.second < |f.cols| &&
    '-' !in f.cols[c.first].header && '-' !in f.cols[c.second].header &&
    c.matches == Matches(f.cols[c.first].cells, f.cols[c.second].cells)
  }

  /** The pairs `(a, b')` with `b <= b'`, in the order of
      `itertools.combinations`, skipping merged columns. */
  function PairsWith(f: Frame, a: nat, b: nat): seq<Candidate>
    requires FrameOk(f) && a < b
    decreases |f.cols| - b
  {
    if b >= |f.cols| then []
    else
      (if '-' !in f.cols[a].header && '-' !in f.cols[b].header
       then [Candidate(a, b, Matches(f.cols[a].cells, f.cols[b].cells))] else [])
      + PairsWith(f, a, b + 1)
  }

  function PairsFrom(f: Frame, a: nat): seq<Candidate>
    requires FrameOk(f)
    decreases |f.cols| - a
  {
    if a >= |f.cols| then [] else PairsWith(f, a, a + 1) + PairsFrom(f, a + 1)
  }

  /** The similarity dictionary, in insertion order. */
  function Candidates(f: Frame): seq<Candidate>
    requires FrameOk(f)
  {
    PairsFrom(f, 0)
  }

  lemma {:induction false} PairsWithMember(f: Frame, a: nat, b: nat, c: Candidate)
    requires FrameOk(f) && a < b
    ensures c in PairsWith(f, a, b) <==> c.first == a && b <= c.second && IsCandidate(f, c)
    decreases |f.cols| - b
  {
    if b < |f.cols| {
      PairsWithMember(f, a, b + 1, c);
    }
  }

  lemma {:induction false} PairsFromMember(f: Frame, a: nat, c: Candidate)
    requires FrameOk(f)
    ensures c in PairsFrom(f, a) <==> a <= c.first && IsCandidate(f, c)
    decreases |f.cols| - a
  {
    if a < |f.cols| {
      PairsFromMember(f, a + 1, c);
      PairsWithMember(f, a, a + 1, c);
    }
  }

  /** The dictionary holds exactly the pairs of two distinct unmerged
      columns, each once and in the order of the columns. */
  lemma CandidatesMember(f: Frame, c: Candidate)
    requires FrameOk(f)
    ensures c in Candidates(f) <==> IsCandidate(f, c)
  {
    PairsFromMember(f, 0, c);
  }

  /** `sorted(..., key=similarity, reverse=True)`: every score has the same
      denominator, so this is the stable sort on the negated match count. */
  function KeyedCandidates(cs: seq<Candidate>): (ks: seq<Keyed<Candidate>>)
    ensures |ks| == |cs| && forall k :: 0 <= k < |cs| ==> ks[k] == Keyed(0 - cs[k].matches as int, cs[k])
  {
    seq(|cs|, k requires 0 <= k < |cs| => Keyed(0 - cs[k].matches as int, cs[k]))
  }

  function CandidateItems(ks: seq<Keyed<Candidate>>): (cs: seq<Candidate>)
    ensures |cs| == |ks| && forall k :: 0 <= k < |ks| ==> cs[k] == ks[k].item
  {
    seq(|ks|, k requires 0 <= k < |ks| => ks[k].item)
  }

  function Ranked(f: Frame): seq<Candidate>
    requires FrameOk(f)
  {
    CandidateItems(SortBy(KeyedCandidates(Candidates(f))))
  }

  /** `similarity_scores[:10]`. */
  function TopTen(f: Frame): seq<Candidate>
    requires FrameOk(f)
  {
    var r := Ranked(f);
    r[..if |r| < 10 then |r| else 10]
  }

  /** The ranking lists every candidate, by non-increasing number of
      matches. */
  lemma RankedFacts(f: Frame)
    requires FrameOk(f)
    ensures |Ranked(f)| == |Candidates(f)|
    ensures forall c :: c in Ranked(f) <==> IsCandidate(f, c)
    ensures forall k, l :: 0 <= k < l < |Ranked(f)| ==> Ranked(f)[k].matches >= Ranked(f)[l].matches
  {
    var cs := Candidates(f);
    var ks := KeyedCandidates(cs);
    var sorted := SortBy(ks);
    SortByCorrect(ks);
    forall c ensures c in Ranked(f) <==> IsCandidate(f, c) {
      CandidatesMember(f, c);
      if c in Ranked(f) {
        var k :| 0 <= k < |sorted| && sorted[k].item == c;
        assert sorted[k] in multiset(ks);
      }
      if c in cs {
        var k :| 0 <= k < |cs| && cs[k] == c;
        assert ks[k] in multiset(sorted);
        var l :| 0 <= l < |sorted| && sorted[l] == ks[k];
        assert Ranked(f)[l] == c;
      }
    }
    forall k | 0 <= k < |sorted| ensures sorted[k].key == 0 - sorted[k].item.matches as int {
      assert sorted[k] in multiset(ks);
    }
  }

  /** At most ten pairs are offered, all of them candidates, the best first,
      and no candidate left out has more matches than one offered. */
  lemma TopTenFacts(f: Frame)
    requires FrameOk(f)
    ensures |TopTen(f)| == if |Candidates(f)| < 10 then |Candidates(f)| else 10
    ensures forall k :: 0 <= k < |TopTen(f)| ==> IsCandidate(f, TopTen(f)[k])
    ensures forall k, l :: 0 <= k < l < |TopTen(f)| ==> TopTen(f)[k].matches >= TopTen(f)[l].matches
    ensures forall c, k :: IsCandidate(f, c) && c !in TopTen(f) && 0 <= k < |TopTen(f)| ==> c.matches <= TopTen(f)[k].matches
  {
    RankedFacts(f);
    var r, top := Ranked(f), TopTen(f);
    forall k | 0 <= k < |top| ensures IsCandidate(f, top[k]) {
      assert top[k] == r[k] && r[k] in r;
    }
    forall c, k | IsCandidate(f, c) && c !in top && 0 <= k < |top| ensures c.matches <= top[k].matches {
      var l :| 0 <= l < |r| && r[l] == c;
      assert top[k] == r[k];
      assert forall j :: 0 <= j < |top| ==> r[j] in top;
    }
  }

  // ---------------------------------------------------------------------
  // One merge: the new column, then one of the two drops
  // ---------------------------------------------------------------------

  function HeadersOf(cols: seq<Col>): (hs: seq<string>)
    ensures |hs| == |cols| && forall k :: 0 <= k < |cols| ==> hs[k] == cols[k].header
  {
    seq(|cols|, k requires 0 <= k < |cols| => cols[k].header)
  }

  predicate DistinctHeaders(cols: seq<Col>)
  {
    forall j, k :: 0 <= j < k < |cols| ==> cols[j].header != cols[k].header
  }

  /** `df[name] = column`: the first column with that header is replaced in
      place, and a header not yet present is appended. */
  function SetColumn(cols: seq<Col>, c: Col): (r: seq<Col>)
    ensures c in r && |cols| <= |r| <= |cols| + 1
    ensures forall k :: 0 <= k < |r| ==> r[k] in cols || r[k] == c
    ensures forall k :: 0 <= k < |cols| && cols[k].header != c.header ==> r[k] == cols[k]
    ensures c.header !in HeadersOf(cols) ==> r == cols + [c]
  {
    var k := FirstIndex(HeadersOf(cols), c.header);
    assert c.header !in HeadersOf(cols) ==> k == |cols|;
    if k < |cols| then assert cols[k := c][k] == c; cols[k := c] else cols + [c]
  }

  /** `df.drop(names, axis=1)`: every column whose header is one of the names
      goes, the others keep their order. */
  function DropNames(cols: seq<Col>, names: set<string>): (r: seq<Col>)
    ensures |r| <= |cols|
    ensures forall k :: 0 <= k < |r| ==> r[k] in cols && r[k].header !in names
  {
    if cols == [] then []
    else
      var init, last := cols[..|cols| - 1], cols[|cols| - 1];
      assert forall c :: c in init ==> c in cols;
      DropNames(init, names) + (if last.header in names then [] else [last])
  }

  /** The columns without positions `a` and `b`. */
  function DropAt(cols: seq<Col>, a: nat, b: nat): seq<Col>
  {
    if cols == [] then []
    else DropAt(cols[..|cols| - 1], a, b) + (if |cols| - 1 == a || |cols| - 1 == b then [] else [cols[|cols| - 1]])
  }

  /** The number of required shifts a header announces, as `create_team`
      reads it, and 0 for a header it cannot read. */
  function HeaderShifts(h: string): int
  {
    match ParseHeader(h)
    case Parsed(x) => x.nShifts
    case Invalid(_) => 0
  }

  function ShiftTotal(cols: seq<Col>): int
  {
    if cols == [] then 0 else ShiftTotal(cols[..|cols| - 1]) + HeaderShifts(cols[|cols| - 1].header)
  }

  /** Row by row, `combine_availability` of two columns. */
  function CombinedColumn(x: seq<Tier>, y: seq<Tier>): (z: seq<Tier>)
    requires |x| == |y|
    ensures |z| == |x| && forall i :: 0 <= i < |x| ==> z[i] == Combine(x[i], y[i])
  {
    seq(|x|, i requires 0 <= i < |x| => Combine(x[i], y[i]))
  }

  function MergedName(p1: Header, p2: Header): string
  {
    MergedHeader(p1.name, p2.name, p1.nShifts + p2.nShifts)
  }

  /** The outcome of one answer to the prompt: a merge, a merged column
      without any `Yes` (dropped again), a header that does not split into a
      name and a number (the `ValueError` the prompt catches), or a number
      outside the list. */
  datatype Step = Merged(next: Frame) | NoCombinedYes(next: Frame) | BadHeader | BadChoice

  /** Merging the columns at positions `a` and `b`. */
  function Apply(f: Frame, a: nat, b: nat): (r: Step)
    requires FrameOk(f) && a < |f.cols| && b < |f.cols|
    ensures (r.Merged? || r.NoCombinedYes?) ==> FrameOk(r.next) && r.next.slots == f.slots
    ensures r.BadHeader? <==> ParseMergeHeader(f.cols[a].header).None? || ParseMergeHeader(f.cols[b].header).None?
    ensures r.Merged? ==> Yes in CombinedColumn(f.cols[a].cells, f.cols[b].cells)
    ensures !r.BadChoice?
  {
    var h1, h2 := f.cols[a].header, f.cols[b].header;
    match ParseMergeHeader(h1)
    case None => BadHeader
    case Some(p1) =>
      match ParseMergeHeader(h2)
      case None => BadHeader
      case Some(p2) =>
        var col := CombinedColumn(f.cols[a].cells, f.cols[b].cells);
        var name := MergedName(p1, p2);
        var added := SetColumn(f.cols, Col(name, col));
        if Yes !in col then NoCombinedYes(Frame(f.slots, DropNames(added, {name})))
        else Merged(Frame(f.slots, DropNames(added, {h1, h2})))
  }

  /** The answer `choice` to the prompt, against the current top ten. */
  function MergeStep(f: Frame, choice: int): (r: Step)
    requires FrameOk(f)
    ensures (r.Merged? || r.NoCombinedYes?) ==> FrameOk(r.next) && r.next.slots == f.slots
    ensures r.BadChoice? <==> !(1 <= choice <= |TopTen(f)|)
  {
    var top := TopTen(f);
    if 1 <= choice <= |top| then
      TopTenFacts(f);
      Apply(f, top[choice - 1].first, top[choice - 1].second)
    else BadChoice
  }

  lemma MergedNameHyphen(p1: Header, p2: Header)
    ensures '-' in MergedName(p1, p2)
  {
    assert MergedName(p1, p2)[|p1.name|] == '-';
  }

  /** Dropping names that two different columns carry removes at least two
      columns, one name carried by one column at least one. */
  lemma {:induction false} DropShrinks(cols: seq<Col>, names: set<string>, a: nat, b: nat)
    requires a < |cols| && b < |cols| && cols[a].header in names && cols[b].header in names
    ensures |DropNames(cols, names)| <= |cols| - (if a == b then 1 else 2)
  {
    var n := |cols| - 1;
    var init := cols[..n];
    if a < n && b < n {
      DropShrinks(init, names, a, b);
    } else if a < n {
      DropShrinks(init, names, a, a);
    } else if b < n {
      DropShrinks(init, names, b, b);
    }
  }

  /** Adding a column under a new header and dropping two other headers
      removes at least one column. */
  lemma SetDropShrinks(cols: seq<Col>, c: Col, a: nat, b: nat)
    requires a < |cols| && b < |cols| && a != b
    requires cols[a].header != c.header && cols[b].header != c.header
    ensures |DropNames(SetColumn(cols, c), {cols[a].header, cols[b].header})| < |cols|
  {
    var added := SetColumn(cols, c);
    assert added[a] == cols[a] && added[b] == cols[b];
    DropShrinks(added, {cols[a].header, cols[b].header}, a, b);
  }

  /** Adding a column and dropping its header adds no column. */
  lemma SetDropKeeps(cols: seq<Col>, c: Col)
    ensures |DropNames(SetColumn(cols, c), {c.header})| <= |cols|
  {
    var added := SetColumn(cols, c);
    var j :| 0 <= j < |added| && added[j] == c;
    DropShrinks(added, {c.header}, j, j);
  }

  /** An accepted merge of two unmerged columns removes at least one column,
      and a rejected one adds none, whatever the headers. */
  lemma ApplyShrinks(f: Frame, a: nat, b: nat)
    requires FrameOk(f) && a < |f.cols| && b < |f.cols| && a != b
    requires '-' !in f.cols[a].header && '-' !in f.cols[b].header
    ensures Apply(f, a, b).Merged? ==> |Apply(f, a, b).next.cols| < |f.cols|
    ensures Apply(f, a, b).NoCombinedYes? ==> |Apply(f, a, b).next.cols| <= |f.cols|
  {
    var h1, h2 := f.cols[a].header, f.cols[b].header;
    if ParseMergeHeader(h1).Some? && ParseMergeHeader(h2).Some? {
      var p1, p2 := ParseMergeHeader(h1).value, ParseMergeHeader(h2).value;
      var c := Col(MergedName(p1, p2), CombinedColumn(f.cols[a].cells, f.cols[b].cells));
      MergedNameHyphen(p1, p2);
      SetDropShrinks(f.cols, c, a, b);
      SetDropKeeps(f.cols, c);
    }
  }

  /** With distinct headers, dropping by the names of two columns is dropping
      those two positions. */
  lemma {:induction false} DropExact(cols: seq<Col>, names: set<string>, a: nat, b: nat)
    requires forall k :: 0 <= k < |cols| ==> (cols[k].header in names <==> k == a || k == b)
    ensures DropNames(cols, names) == DropAt(cols, a, b)
  {
    if cols != [] {
      DropExact(cols[..|cols| - 1], names, a, b);
    }
  }

  lemma {:induction false} DropAbsent(cols: seq<Col>, names: set<string>)
    requires forall k :: 0 <= k < |cols| ==> cols[k].header !in names
    ensures DropNames(cols, names) == cols
  {
    if cols != [] {
      var init := cols[..|cols| - 1];
      DropAbsent(init, names);
      assert cols == init + [cols[|cols| - 1]];
    }
  }

  lemma DropAppend(cols: seq<Col>, c: Col, names: set<string>)
    ensures DropNames(cols + [c], names) == DropNames(cols, names) + (if c.header in names then [] else [c])
  {
    assert (cols + [c])[..|cols|] == cols;
  }

  /** Dropping two positions removes two columns. */
  lemma {:induction false} DropAtLength(cols: seq<Col>, a: nat, b: nat)
    requires a != b
    ensures |DropAt(cols, a, b)| == |cols| - (if a < |cols| then 1 else 0) - (if b < |cols| then 1 else 0)
  {
    if cols != [] {
      DropAtLength(cols[..|cols| - 1], a, b);
    }
  }

  /** Dropping two positions removes their announced shifts from the
      total. */
  lemma {:induction false} DropAtTotal(cols: seq<Col>, a: nat, b: nat)
    requires a != b
    ensures ShiftTotal(DropAt(cols, a, b)) ==
      ShiftTotal(cols) - (if a < |cols| then HeaderShifts(cols[a].header) else 0)
                       - (if b < |cols| then HeaderShifts(cols[b].header) else 0)
  {
    if cols != [] {
      var n := |cols| - 1;
      var init := cols[..n];
      var d := DropAt(init, a, b);
      DropAtTotal(init, a, b);
      assert a < n ==> init[a] == cols[a];
      assert b < n ==> init[b] == cols[b];
      if n == a || n == b {
        assert DropAt(cols, a, b) == d;
      } else {
        assert DropAt(cols, a, b) == d + [cols[n]];
        assert (d + [cols[n]])[..|d|] == d;
      }
    }
  }

  /** `create_team` reads the same number of shifts from a header that the
      merge prompt can split. */
  lemma MergeParseAgrees(h: string)
    requires ParseMergeHeader(h).Some?
    ensures HeaderShifts(h) == ParseMergeHeader(h).value.nShifts
  {
  }

  /** With distinct headers, adding a column under a new header and dropping
      two others leaves the other columns in order and the new one last. */
  lemma FreshMerge(cols: seq<Col>, c: Col, a: nat, b: nat)
    requires DistinctHeaders(cols) && a < |cols| && b < |cols| && a != b
    requires c.header !in HeadersOf(cols)
    ensures DropNames(SetColumn(cols, c), {cols[a].header, cols[b].header}) == DropAt(cols, a, b) + [c]
  {
    var names := {cols[a].header, cols[b].header};
    assert c.header !in names by {
      assert cols[a].header == HeadersOf(cols)[a] && cols[b].header == HeadersOf(cols)[b];
    }
    DropAppend(cols, c, names);
    DropExact(cols, names, a, b);
  }

  /** Adding a column under a new header and dropping it again changes
      nothing. */
  lemma FreshReject(cols: seq<Col>, c: Col)
    requires c.header !in HeadersOf(cols)
    ensures DropNames(SetColumn(cols, c), {c.header}) == cols
  {
    DropAppend(cols, c, {c.header});
    forall k | 0 <= k < |cols| ensures cols[k].header !in {c.header} {
      assert cols[k].header == HeadersOf(cols)[k];
    }
    DropAbsent(cols, {c.header});
  }

  /** Replacing two columns by one that announces their two counts together
      keeps the total of announced shifts and removes one column. */
  lemma FreshTotal(cols: seq<Col>, c: Col, a: nat, b: nat)
    requires a < |cols| && b < |cols| && a != b
    requires HeaderShifts(c.header) == HeaderShifts(cols[a].header) + HeaderShifts(cols[b].header)
    ensures ShiftTotal(DropAt(cols, a, b) + [c]) == ShiftTotal(cols)
    ensures |DropAt(cols, a, b) + [c]| == |cols| - 1
  {
    DropAtLength(cols, a, b);
    DropAtTotal(cols, a, b);
    var d := DropAt(cols, a, b);
    assert (d + [c])[..|d|] == d;
  }

  /** When both headers split, the merge adds the combined column under the
      merged name and then drops either that name or the two old ones. */
  lemma ApplyShape(f: Frame, a: nat, b: nat)
    requires FrameOk(f) && a < |f.cols| && b < |f.cols|
    requires ParseMergeHeader(f.cols[a].header).Some? && ParseMergeHeader(f.cols[b].header).Some?
    ensures var col := CombinedColumn(f.cols[a].cells, f.cols[b].cells);
            var c := Col(MergedName(ParseMergeHeader(f.cols[a].header).value, ParseMergeHeader(f.cols[b].header).value), col);
            Apply(f, a, b) ==
              if Yes !in col then NoCombinedYes(Frame(f.slots, DropNames(SetColumn(f.cols, c), {c.header})))
              else Merged(Frame(f.slots, DropNames(SetColumn(f.cols, c), {f.cols[a].header, f.cols[b].header})))
  {
  }

  /** The merged header announces the shifts of both. */
  lemma MergedShifts(h1: string, h2: string)
    requires ParseMergeHeader(h1).Some? && ParseMergeHeader(h2).Some?
    ensures HeaderShifts(MergedName(ParseMergeHeader(h1).value, ParseMergeHeader(h2).value)) == HeaderShifts(h1) + HeaderShifts(h2)
  {
    var p1, p2 := ParseMergeHeader(h1).value, ParseMergeHeader(h2).value;
    MergeParseAgrees(h1);
    MergeParseAgrees(h2);
    MergedHeaderParses(p1.name, p2.name, p1.nShifts + p2.nShifts);
  }

  /** With distinct headers and a merged name that is not already a header,
      an accepted merge replaces the two columns by the merged one at the end,
      which keeps the total of announced shifts. */
  lemma ApplyFreshMerged(f: Frame, a: nat, b: nat)
    requires FrameOk(f) && DistinctHeaders(f.cols) && a < |f.cols| && b < |f.cols| && a != b
    requires ParseMergeHeader(f.cols[a].header).Some? && ParseMergeHeader(f.cols[b].header).Some?
    requires MergedName(ParseMergeHeader(f.cols[a].header).value, ParseMergeHeader(f.cols[b].header).value) !in HeadersOf(f.cols)
    requires Yes in CombinedColumn(f.cols[a].cells, f.cols[b].cells)
    ensures Apply(f, a, b).Merged?
    ensures Apply(f, a, b).next.cols ==
      DropAt(f.cols, a, b) + [Col(MergedName(ParseMergeHeader(f.cols[a].header).value, ParseMergeHeader(f.cols[b].header).value),
                                  CombinedColumn(f.cols[a].cells, f.cols[b].cells))]
    ensures |Apply(f, a, b).next.cols| == |f.cols| - 1
    ensures ShiftTotal(Apply(f, a, b).next.cols) == ShiftTotal(f.cols)
  {
    var h1, h2 := f.cols[a].header, f.cols[b].header;
    var p1, p2 := ParseMergeHeader(h1).value, ParseMergeHeader(h2).value;
    var c := Col(MergedName(p1, p2), CombinedColumn(f.cols[a].cells, f.cols[b].cells));
    ApplyShape(f, a, b);
    FreshMerge(f.cols, c, a, b);
    MergedShifts(h1, h2);
    FreshTotal(f.cols, c, a, b);
  }

  /** With a merged name that is not already a header, a merged column
      without a `Yes` leaves the table as it was. */
  lemma ApplyFreshRejected(f: Frame, a: nat, b: nat)
    requires FrameOk(f) && a < |f.cols| && b < |f.cols|
    requires ParseMergeHeader(f.cols[a].header).Some? && ParseMergeHeader(f.cols[b].header).Some?
    requires MergedName(ParseMergeHeader(f.cols[a].header).value, ParseMergeHeader(f.cols[b].header).value) !in HeadersOf(f.cols)
    requires Yes !in CombinedColumn(f.cols[a].cells, f.cols[b].cells)
    ensures Apply(f, a, b) == NoCombinedYes(f)
  {
    var p1, p2 := ParseMergeHeader(f.cols[a].header).value, ParseMergeHeader(f.cols[b].header).value;
    var c := Col(MergedName(p1, p2), CombinedColumn(f.cols[a].cells, f.cols[b].cells));
    ApplyShape(f, a, b);
    FreshReject(f.cols, c);
  }

  /** An answer that picks a pair from the list merges two unmerged columns,
      so the column count falls on a merge and never rises. */
  lemma StepShrinks(f: Frame, choice: int)
    requires FrameOk(f)
    ensures MergeStep(f, choice).Merged? ==> |MergeStep(f, choice).next.cols| < |f.cols|
    ensures MergeStep(f, choice).NoCombinedYes? ==> |MergeStep(f, choice).next.cols| <= |f.cols|
  {
    TopTenFacts(f);
    if 1 <= choice <= |TopTen(f)| {
      var c := TopTen(f)[choice - 1];
      ApplyShrinks(f, c.first, c.second);
    }
  }

  // ---------------------------------------------------------------------
  // merge_TA_availability / merge_employee_availability
  // ---------------------------------------------------------------------

  /** The frame after one answer. */
  function After(f: Frame, choice: int): (g: Frame)
    requires FrameOk(f)
    ensures FrameOk(g) && g.slots == f.slots
  {
    match MergeStep(f, choice)
    case Merged(g) => g
    case NoCombinedYes(g) => g
    case _ => f
  }

  /** The prompt loop fed with the answers `choices`: it asks while there are
      more person columns than `required`; the result is the final frame and
      the number of answers read. */
  function Run(f: Frame, required: nat, choices: seq<int>): (Frame, nat)
    requires FrameOk(f)
    decreases |choices|
  {
    if |f.cols| <= required || choices == [] then (f, 0)
    else
      var r := Run(After(f, choices[0]), required, choices[1..]);
      (r.0, r.1 + 1)
  }

  /** The loop only stops asking once the columns are few enough, or when the
      answers run out; it never adds a column and keeps the rows. */
  lemma {:induction false} RunFacts(f: Frame, required: nat, choices: seq<int>)
    requires FrameOk(f)
    ensures FrameOk(Run(f, required, choices).0) && Run(f, required, choices).0.slots == f.slots
    ensures Run(f, required, choices).1 <= |choices|
    ensures Run(f, required, choices).1 < |choices| ==> |Run(f, required, choices).0.cols| <= required
    ensures |Run(f, required, choices).0.cols| > required ==> Run(f, required, choices).1 == |choices|
    ensures |Run(f, required, choices).0.cols| <= |f.cols|
    ensures |f.cols| <= required ==> Run(f, required, choices) == (f, 0)
    decreases |choices|
  {
    if !(|f.cols| <= required || choices == []) {
      StepShrinks(f, choices[0]);
      RunFacts(After(f, choices[0]), required, choices[1..]);
    }
  }

  /** The loop's bookkeeping: after `used` answers at frame `g`, the rest
      of the run from `g` completes the run from `f`. */
  predicate RunRest(f: Frame, g: Frame, required: nat, choices: seq<int>, used: nat)
    requires FrameOk(f) && FrameOk(g) && used <= |choices|
  {
    var rest := Run(g, required, choices[used..]);
    Run(f, required, choices).0 == rest.0 && Run(f, required, choices).1 == rest.1 + used
  }

  /** One more answer read while there are too many columns keeps the
      bookkeeping. */
  lemma RunStep(f: Frame, g: Frame, required: nat, choices: seq<int>, used: nat)
    requires FrameOk(f) && FrameOk(g) && |g.cols| > required && used < |choices|
    requires RunRest(f, g, required, choices, used)
    ensures RunRest(f, After(g, choices[used]), required, choices, used + 1)
  {
    var cs := choices[used..];
    RunUnfold(g, required, cs);
    assert cs[0] == choices[used];
    assert cs[1..] == choices[used + 1..];
  }

  /** With too many columns and an answer left, the run reads that answer. */
  lemma RunUnfold(g: Frame, required: nat, cs: seq<int>)
    requires FrameOk(g) && |g.cols| > required && cs != []
    ensures Run(g, required, cs).0 == Run(After(g, cs[0]), required, cs[1..]).0
    ensures Run(g, required, cs).1 == Run(After(g, cs[0]), required, cs[1..]).1 + 1
  {
  }

  /** Once the columns are few enough or no answer is left, the run from
      `f` has ended at `g`. */
  lemma RunStop(f: Frame, g: Frame, required: nat, choices: seq<int>, used: nat)
    requires FrameOk(f) && FrameOk(g) && used <= |choices| && (|g.cols| <= required || used == |choices|)
    requires RunRest(f, g, required, choices, used)
    ensures Run(f, required, choices) == (g, used)
  {
    RunEnd(g, required, choices[used..]);
    assert Run(f, required, choices).0 == g && Run(f, required, choices).1 == used;
  }

  /** With few enough columns or no answer left, the run reads nothing. */
  lemma RunEnd(g: Frame, required: nat, cs: seq<int>)
    requires FrameOk(g) && (|g.cols| <= required || cs == [])
    ensures Run(g, required, cs).0 == g
    ensures Run(g, required, cs).1 == 0
  {
  }

  /** The loop of the source, reading one answer per iteration. */
  method MergeAvailability(f: Frame, required: nat, choices: seq<int>) returns (g: Frame, used: nat)
    requires FrameOk(f)
    ensures (g, used) == Run(f, required, choices)
    ensures used < |choices| ==> |g.cols| <= required
  {
    g, used := f, 0;
    assert choices[0..] == choices;
    while |g.cols| > required && used < |choices|
      invariant FrameOk(g) && used <= |choices|
      invariant RunRest(f, g, required, choices, used)
      decreases |choices| - used
    {
      RunStep(f, g, required, choices, used);
      g := After(g, choices[used]);
      used := used + 1;
    }
    RunStop(f, g, required, choices, used);
  }
}
