/** The guide-RNA assignment script: each read is tagged with the first
    reference guide found in it, untagged reads are dropped, and a cell keeps
    the guide that holds a strict majority of its tagged reads. */
module SgRna {
  import opened Seqs
  import opened PyStr
  import opened PyDict
  import opened Counter
  import opened Wrappers
  import Matcher

  /** The scaffold run that must follow a guide sequence in the read. */
  const GUIDE_TAIL: string := "TTTT"
  /** The tag of a read without a guide. */
  const NA: string := "NA"

  /** The reference guide at `i` occurs in the read followed by TTTT. */
  predicate GuideIn(read: string, refs: Dict<string, string>, i: nat)
    requires i < |refs|
  {
    Contains(read, refs[i].0 + GUIDE_TAIL)
  }

  /** `find_sgRNA`: the id of the first reference, in dict order, whose
      sequence followed by TTTT occurs in the read; "NA" when there is none. */
  function FindSgRna(read: string, refs: Dict<string, string>): (id: string)
    ensures (forall i :: 0 <= i < |refs| ==> !GuideIn(read, refs, i)) ==> id == NA
    ensures (exists i :: 0 <= i < |refs| && GuideIn(read, refs, i)) ==>
      exists i :: 0 <= i < |refs| && GuideIn(read, refs, i) && id == refs[i].1
        && forall j :: 0 <= j < i ==> !GuideIn(read, refs, j)
  {
    if |refs| == 0 then NA
    else if Contains(read, refs[0].0 + GUIDE_TAIL) then assert GuideIn(read, refs, 0); refs[0].1
    else
      var id := FindSgRna(read, refs[1..]);
      assert forall i :: 1 <= i < |refs| ==> (GuideIn(read, refs, i) <==> GuideIn(read, refs[1..], i - 1));
      assert forall i :: 0 <= i < |refs| - 1 ==> (GuideIn(read, refs[1..], i) <==> GuideIn(read, refs, i + 1));
      id
  }

  /** `find_most_common_element`: the most frequent guide of a cell and its
      count, ties going to the guide seen first. */
  function FindMostCommonElement(ids: seq<string>): (e: (string, nat))
    requires |ids| > 0
    ensures e.0 in ids && e.1 == Count(ids, e.0)
    ensures forall i :: 0 <= i < |ids| ==> Count(ids, ids[i]) <= e.1
    ensures forall i :: 0 <= i < FirstIndex(ids, e.0) ==> Count(ids, ids[i]) < e.1
  {
    MostCommonOfList(ids);
    MostCommonOne(Of(ids))
  }

  /** Sum of the counts of the entries whose key is not `item`. */
  function SumOthers<T(==)>(c: Tally<T>, item: T): nat
  {
    if |c| == 0 then 0
    else SumOthers(c[..|c| - 1], item) + (if c[|c| - 1].0 != item then c[|c| - 1].1 else 0)
  }

  /** `find_special_item`: the only guide when there is one; otherwise the most
      common guide if its count beats the sum of all the others, else None. */
  function FindSpecialItem(c: Tally<string>): (r: Option<string>)
    requires |c| > 0
    ensures |c| == 1 ==> r == Some(c[0].0)
    ensures r.Some? ==> r.value in Keys(c)
  {
    if |c| == 1 then Some(c[0].0)
    else
      var (item, count) := MostCommonOne(c);
      if count > SumOthers(c, item) then Some(item) else None
  }

  /** Without an entry for `item`, the others are the whole tally. */
  lemma {:induction false} OthersOfAbsent<T>(c: Tally<T>, item: T)
    requires forall j :: 0 <= j < |c| ==> c[j].0 != item
    ensures SumOthers(c, item) == Total(c)
  {
    if |c| > 0 {
      OthersOfAbsent(c[..|c| - 1], item);
    }
  }

  /** In a tally with distinct keys, any entry and the others add up to the total. */
  lemma {:induction false} EntryPlusOthers<T>(c: Tally<T>, k: nat)
    requires NoDup(Keys(c)) && k < |c|
    ensures SumOthers(c, c[k].0) + c[k].1 == Total(c)
  {
    var n := |c| - 1;
    var init := c[..n];
    var ks := Keys(c);
    assert forall j :: 0 <= j < n ==> init[j].0 == ks[j];
    if k == n {
      assert forall j :: 0 <= j < n ==> ks[j] != ks[n];
      OthersOfAbsent(init, c[n].0);
    } else {
      assert ks[k] != ks[n];
      assert Keys(init) == ks[..n];
      EntryPlusOthers(init, k);
    }
  }

  /** On a cell's guides, the special item is exactly the guide that holds a
      strict majority (so {a: 2, b: 2} gives None). */
  lemma {:induction false} SpecialItemIsMajority(ids: seq<string>, x: string)
    requires |ids| > 0
    ensures FindSpecialItem(Of(ids)) == Some(x) <==> 2 * Count(ids, x) > |ids|
  {
    var c := Of(ids);
    if |c| == 1 {
      SingleEntry(ids);
      assert FindSpecialItem(c) == Some(c[0].0);
      if x != c[0].0 {
        assert x !in ids;
      }
    } else {
      TopAndOthers(ids);
      var e := MostCommonOne(c);
      assert FindSpecialItem(c) == if 2 * e.1 > |ids| then Some(e.0) else None;
      if x != e.0 {
        TwoCountsBound(ids, x, e.0);
      }
    }
  }

  /** A Counter with one entry holds every element of the list. */
  lemma {:induction false} SingleEntry(ids: seq<string>)
    requires |ids| > 0 && |Of(ids)| == 1
    ensures Of(ids)[0].1 == |ids| == Count(ids, Of(ids)[0].0)
    ensures forall k :: 0 <= k < |ids| ==> ids[k] == Of(ids)[0].0
  {
    var c := Of(ids);
    TallyTotal(ids);
    assert Total(c) == c[0].1;
    assert Keys(c) == [c[0].0];
  }

  /** The most common entry and the sum of the others make up the whole list. */
  lemma {:induction false} TopAndOthers(ids: seq<string>)
    requires |ids| > 0
    ensures var e := MostCommonOne(Of(ids));
      && e.1 == Count(ids, e.0)
      && SumOthers(Of(ids), e.0) + e.1 == |ids|
      && forall i :: 0 <= i < |ids| ==> Count(ids, ids[i]) <= e.1
  {
    var c := Of(ids);
    TallyTotal(ids);
    MostCommonOfList(ids);
    var k := TopIndex(c);
    assert MostCommonOne(c) == c[k];
    EntryPlusOthers(c, k);
  }

  /** One row of the per-UMI read table: `cell_umi` and the read. */
  datatype ReadRow = ReadRow(cellUmi: string, read: string)

  /** Each read tagged with its cell and its guide (the `cell` and `sgRNA` columns). */
  function Tagged(rows: seq<ReadRow>, refs: Dict<string, string>): (t: seq<(string, string)>)
    ensures |t| == |rows|
    ensures forall k :: 0 <= k < |rows| ==>
      t[k] == (Matcher.CellOf(rows[k].cellUmi), FindSgRna(rows[k].read, refs))
  {
    seq(|rows|, k requires 0 <= k < |rows| => (Matcher.CellOf(rows[k].cellUmi), FindSgRna(rows[k].read, refs)))
  }

  /** A read that got a guide. */
  predicate IsTagged(t: (string, string))
  {
    t.1 != NA
  }

  /** The guides of one cell, in table order, after dropping "NA"
      (`data[data['sgRNA'] != "NA"]`, then `groupby('cell')`). Every guide
      other than "NA" occurs as often as the cell's reads carry it. */
  function CellGuides(tagged: seq<(string, string)>, cell: string): (ids: seq<string>)
    ensures forall g :: Count(ids, g) == if g == NA then 0 else Count(tagged, (cell, g))
    ensures forall k :: 0 <= k < |ids| ==> ids[k] != NA
  {
    FilterCount(tagged, IsTagged);
    var ids := GroupValues(Filter(tagged, IsTagged), cell);
    assert Count(ids, NA) == 0;
    ids
  }

  /** A cell's guides keep table order: the guides of a concatenation are
      those of the first part followed by those of the second. */
  lemma {:induction false} CellGuidesAppend(tagged: seq<(string, string)>, more: seq<(string, string)>, cell: string)
    ensures CellGuides(tagged + more, cell) == CellGuides(tagged, cell) + CellGuides(more, cell)
  {
    FilterAppend(tagged, more, IsTagged);
    GroupValuesAppend(Filter(tagged, IsTagged), Filter(more, IsTagged), cell);
  }

  /** One line of the output table (the per-cell columns `main` adds). */
  datatype CellCall = CellCall(cell: string, ids: seq<string>, top: string, umi: nat, number: nat, guide: string)

  /** The line for one cell, or None when `find_special_item` gives None and
      `dropna` removes the line. A line exists exactly when one
      guide holds a strict majority of the cell's tagged reads, and then that
      guide is the one assigned. */
  function CallCell(cell: string, ids: seq<string>): (r: Option<CellCall>)
    requires |ids| > 0
    ensures r.Some? <==> exists i :: 0 <= i < |ids| && 2 * Count(ids, ids[i]) > |ids|
    ensures r.Some? ==> r.value.cell == cell && r.value.ids == ids
    ensures r.Some? ==> 2 * Count(ids, r.value.guide) > |ids|
    ensures r.Some? ==> r.value.top in ids && r.value.umi == Count(ids, r.value.top)
    ensures r.Some? ==> forall i :: 0 <= i < |ids| ==> Count(ids, ids[i]) <= r.value.umi
    ensures r.Some? ==> r.value.number == |Distinct(ids)|
  {
    var (top, umi) := FindMostCommonElement(ids);
    var number := |set x | x in ids|;
    DistinctCardinality(ids);
    match FindSpecialItem(Of(ids))
    case None =>
      NoMajority(ids);
      None
    case Some(s) =>
      SpecialItemIsMajority(ids, s);
      assert s in ids;
      Some(CellCall(cell, ids, top, umi, number, s))
  }

  /** Without a special item, no guide holds a strict majority. */
  lemma {:induction false} NoMajority(ids: seq<string>)
    requires |ids| > 0 && FindSpecialItem(Of(ids)).None?
    ensures forall i :: 0 <= i < |ids| ==> 2 * Count(ids, ids[i]) <= |ids|
  {
    forall i | 0 <= i < |ids|
      ensures 2 * Count(ids, ids[i]) <= |ids|
    {
      SpecialItemIsMajority(ids, ids[i]);
    }
  }

  /** The cells with at least one guide-tagged read. */
  function TaggedCells(tagged: seq<(string, string)>): set<string>
  {
    set k | 0 <= k < |tagged| && tagged[k].1 != NA :: tagged[k].0
  }

  /** A cell with a tagged read has a non-empty guide list. */
  lemma {:induction false} CellGuidesNonEmpty(tagged: seq<(string, string)>, c: string)
    requires c in TaggedCells(tagged)
    ensures |CellGuides(tagged, c)| > 0
  {
    var k :| 0 <= k < |tagged| && tagged[k].1 != NA && tagged[k].0 == c;
    assert tagged[k] in multiset(tagged);
    assert Count(CellGuides(tagged, c), tagged[k].1) > 0;
  }

  /** The guide references as `dict(zip(sequence, id))` over the target table:
      a repeated sequence keeps its first position and its last id. */
  function References(target: seq<(string, string)>): (refs: Dict<string, string>)
    ensures Keys(refs) == Distinct(KeyColumn(target))
  {
    FromRowsKeys(target);
    FromRows(target)
  }

  /** The script's output, keyed by cell. */
  function Assign(rows: seq<ReadRow>, target: seq<(string, string)>): (out: map<string, CellCall>)
    ensures out.Keys <= TaggedCells(Tagged(rows, References(target)))
    ensures forall c :: c in out ==> out[c].cell == c
  {
    var tagged := Tagged(rows, References(target));
    map c | c in TaggedCells(tagged) && (CellGuidesNonEmpty(tagged, c); CallCell(c, CellGuides(tagged, c)).Some?)
      :: (CellGuidesNonEmpty(tagged, c); CallCell(c, CellGuides(tagged, c)).value)
  }

  /** A cell is in the output exactly when it has a tagged read and one guide
      holds a strict majority of its tagged reads; that guide is the one
      assigned, and no guide counted for the cell is "NA". */
  lemma {:induction false} AssignSpec(rows: seq<ReadRow>, target: seq<(string, string)>, c: string)
    ensures var tagged := Tagged(rows, References(target));
      var ids := CellGuides(tagged, c);
      && (c in Assign(rows, target) <==>
            c in TaggedCells(tagged) && exists i :: 0 <= i < |ids| && 2 * Count(ids, ids[i]) > |ids|)
      && (c in Assign(rows, target) ==>
            && Assign(rows, target)[c].ids == ids
            && NA !in ids
            && 2 * Count(ids, Assign(rows, target)[c].guide) > |ids|)
  {
    var tagged := Tagged(rows, References(target));
    if c in TaggedCells(tagged) {
      CellGuidesNonEmpty(tagged, c);
    }
  }

  /** `len(set(x))` is the number of distinct elements. */
  lemma {:induction false} DistinctCardinality<T>(xs: seq<T>)
    ensures |set x | x in xs| == |Distinct(xs)|
  {
    var d := Distinct(xs);
    assert (set x | x in xs) == (set x | x in d);
    NoDupCardinality(d);
  }

  lemma {:induction false} NoDupCardinality<T>(d: seq<T>)
    requires NoDup(d)
    ensures |set x | x in d| == |d|
  {
    if |d| > 0 {
      var init := d[..|d| - 1];
      assert NoDup(init);
      NoDupCardinality(init);
      assert (set x | x in d) == (set x | x in init) + {d[|d| - 1]};
    }
  }
}
