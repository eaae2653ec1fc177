/** The barcode matcher of the matching script: per cell, the distinct read
    sequences ranked by how often they occur, a UMI cutoff on that ranking,
    exact substring search for BC14 and BC30 tags, and one output row per read
    with at least one hit. */
module Matcher {
  import opened Seqs
  import opened PyStr
  import opened PyDict
  import opened Counter

  /** Width of a BC14 tag. */
  const BC14_WIDTH: nat := 14
  /** Width of a BC30 tag. */
  const BC30_WIDTH: nat := 30
  /** Length of the cell barcode at the front of a `cell_umi` string. */
  const CELL_LENGTH: nat := 16

  /** `find_last_index_greater_than`: scanning down from the end, the first
      index whose value exceeds `target`, or -1 when there is none. */
  function LastIndexAbove(xs: seq<nat>, target: int): (r: int)
    ensures -1 <= r < |xs|
    ensures r == -1 <==> forall i :: 0 <= i < |xs| ==> xs[i] <= target
    ensures r >= 0 ==> xs[r] > target
    ensures r >= 0 ==> forall j :: r < j < |xs| ==> xs[j] <= target
  {
    if |xs| == 0 then -1
    else if xs[|xs| - 1] > target then |xs| - 1
    else
      var r := LastIndexAbove(xs[..|xs| - 1], target);
      assert forall j :: 0 <= j < |xs| - 1 ==> xs[j] == xs[..|xs| - 1][j];
      r
  }

  /** `filtered_seq_list` of `bc_search`: the reads up to and including the
      last one whose count exceeds the cutoff. */
  function Kept(seqs: seq<string>, counts: seq<nat>, cutoff: int): (kept: seq<string>)
    ensures |kept| <= |counts| && |kept| <= |seqs|
    ensures kept == seqs[..|kept|]
  {
    var pos := LastIndexAbove(counts, cutoff);
    if pos != -1 then
      SliceNonNegative(seqs, 0, pos + 1);
      Slice(seqs, 0, pos + 1)
    else []
  }

  /** On a descending count list the kept reads are exactly those whose count
      is strictly above the cutoff: a count equal to the cutoff is dropped. */
  lemma {:induction false} KeptOnDescending(seqs: seq<string>, counts: seq<nat>, cutoff: int)
    requires |seqs| == |counts|
    requires Descending(counts)
    ensures forall i :: 0 <= i < |counts| ==> (i < |Kept(seqs, counts, cutoff)| <==> counts[i] > cutoff)
  {
    var pos := LastIndexAbove(counts, cutoff);
    if pos != -1 {
      SliceNonNegative(seqs, 0, pos + 1);
    }
  }

  /** All windows of width `w` of a read, left to right:
      `[seq[i:i + w] for i in range(len(seq) - w + 1)]`. */
  function Windows(s: string, w: nat): (ws: seq<string>)
    ensures |ws| == if |s| >= w then |s| - w + 1 else 0
    ensures forall i :: 0 <= i < |ws| ==> ws[i] == s[i..i + w]
  {
    if |s| >= w then seq(|s| - w + 1, i requires 0 <= i < |s| - w + 1 => s[i..i + w]) else []
  }

  /** A tag hits a read when it has the window width and occurs in the read. */
  predicate IsHit(p: string, s: string, w: nat)
  {
    |p| == w && Contains(s, p)
  }

  /** Window membership is exactly "has width `w` and occurs in the read";
      a read shorter than `w` has no windows at all. */
  lemma {:induction false} InWindowsIff(p: string, s: string, w: nat)
    ensures p in Windows(s, w) <==> IsHit(p, s, w)
  {
    var ws := Windows(s, w);
    if p in ws {
      var i :| 0 <= i < |ws| && ws[i] == p;
      assert OccursAt(s, p, i);
    }
    if IsHit(p, s, w) {
      var i :| 0 <= i <= |s| && OccursAt(s, p, i);
      assert ws[i] == p;
    }
  }

  /** `[bc for bc in patterns if bc in windows]`: the hitting tags in whitelist
      order, duplicates kept. */
  function Matches(patterns: seq<string>, s: string, w: nat): (ms: seq<string>)
    ensures |ms| <= |patterns|
    ensures forall k :: 0 <= k < |ms| ==> IsHit(ms[k], s, w) && ms[k] in patterns
  {
    if |patterns| == 0 then []
    else
      var rest := Matches(patterns[1..], s, w);
      InWindowsIff(patterns[0], s, w);
      if patterns[0] in Windows(s, w) then [patterns[0]] + rest else rest
  }

  /** Each tag appears among the matches as often as in the whitelist if it
      hits the read, and not at all otherwise. */
  lemma {:induction false} MatchesCount(patterns: seq<string>, s: string, w: nat, p: string)
    ensures Count(Matches(patterns, s, w), p) == if IsHit(p, s, w) then Count(patterns, p) else 0
  {
    if |patterns| > 0 {
      var rest := Matches(patterns[1..], s, w);
      MatchesCount(patterns[1..], s, w, p);
      InWindowsIff(patterns[0], s, w);
      CountFront(patterns, p);
      if IsHit(patterns[0], s, w) {
        CountPrepend(patterns[0], rest, p);
      }
    }
  }

  /** There is a match exactly when some whitelist entry hits the read. */
  lemma {:induction false} MatchesNonEmpty(patterns: seq<string>, s: string, w: nat)
    ensures |Matches(patterns, s, w)| > 0 <==> exists i :: 0 <= i < |patterns| && IsHit(patterns[i], s, w)
  {
    if |patterns| > 0 {
      var tail := patterns[1..];
      MatchesNonEmpty(tail, s, w);
      InWindowsIff(patterns[0], s, w);
      if exists i :: 0 <= i < |tail| && IsHit(tail[i], s, w) {
        var i :| 0 <= i < |tail| && IsHit(tail[i], s, w);
        assert IsHit(patterns[i + 1], s, w);
      }
      if exists i :: 0 <= i < |patterns| && IsHit(patterns[i], s, w) {
        var i :| 0 <= i < |patterns| && IsHit(patterns[i], s, w);
        if i > 0 {
          assert IsHit(tail[i - 1], s, w);
        }
      }
    }
  }

  /** The first match is the first whitelist entry that hits the read. */
  lemma {:induction false} MatchesHead(patterns: seq<string>, s: string, w: nat)
    requires |Matches(patterns, s, w)| > 0
    ensures exists i ::
      && 0 <= i < |patterns|
      && Matches(patterns, s, w)[0] == patterns[i]
      && IsHit(patterns[i], s, w)
      && forall j :: 0 <= j < i ==> !IsHit(patterns[j], s, w)
  {
    InWindowsIff(patterns[0], s, w);
    if IsHit(patterns[0], s, w) {
      assert Matches(patterns, s, w)[0] == patterns[0];
    } else {
      var tail := patterns[1..];
      assert Matches(patterns, s, w) == Matches(tail, s, w);
      MatchesHead(tail, s, w);
      var i :|
        && 0 <= i < |tail|
        && Matches(tail, s, w)[0] == tail[i]
        && IsHit(tail[i], s, w)
        && forall j :: 0 <= j < i ==> !IsHit(tail[j], s, w);
      FirstHitShift(patterns, s, w, i);
    }
  }

  /** A first hit at `i` of the tail, behind a missing head, is a first hit at `i + 1`. */
  lemma {:induction false} FirstHitShift(patterns: seq<string>, s: string, w: nat, i: nat)
    requires 0 < |patterns| && i < |patterns| - 1 && !IsHit(patterns[0], s, w)
    requires forall j :: 0 <= j < i ==> !IsHit(patterns[1..][j], s, w)
    ensures forall j :: 0 <= j < i + 1 ==> !IsHit(patterns[j], s, w)
  {
    forall j | 1 <= j < i + 1
      ensures !IsHit(patterns[j], s, w)
    {
      assert patterns[j] == patterns[1..][j - 1];
    }
  }

  /** A read shorter than the window width yields no match, and no error. */
  lemma {:induction false} ShortReadNoMatches(patterns: seq<string>, s: string, w: nat)
    requires |s| < w
    ensures Matches(patterns, s, w) == []
  {
    if |patterns| > 0 {
      ShortReadNoMatches(patterns[1..], s, w);
    }
  }

  /** Both tag families' matches for one kept read. */
  datatype Hit = Hit(read: string, bc14: seq<string>, bc30: seq<string>, umi: nat)

  /** A read is forwarded when it hits at least one tag of either family. */
  predicate HasMatch(s: string, p14: seq<string>, p30: seq<string>)
  {
    |Matches(p14, s, BC14_WIDTH)| > 0 || |Matches(p30, s, BC30_WIDTH)| > 0
  }

  /** Ascending indices, from `lo` on, of the kept reads that have a match. */
  function HitIndices(kept: seq<string>, p14: seq<string>, p30: seq<string>, lo: nat): (idx: seq<nat>)
    ensures forall k :: 0 <= k < |idx| ==> lo <= idx[k] < |kept| && HasMatch(kept[idx[k]], p14, p30)
    ensures forall k, l :: 0 <= k < l < |idx| ==> idx[k] < idx[l]
    ensures forall j :: lo <= j < |kept| && HasMatch(kept[j], p14, p30) ==> j in idx
    ensures lo <= |kept| ==> |idx| <= |kept| - lo
    decreases |kept| - lo
  {
    if lo >= |kept| then []
    else
      var rest := HitIndices(kept, p14, p30, lo + 1);
      if HasMatch(kept[lo], p14, p30) then [lo] + rest else rest
  }

  /** `bc_search`: one hit per kept read with a match, in read order, carrying
      the count at the read's own index. */
  function BcSearch(seqs: seq<string>, counts: seq<nat>, p14: seq<string>, p30: seq<string>, cutoff: int): (hits: seq<Hit>)
    ensures |hits| <= |seqs|
    ensures forall k :: 0 <= k < |hits| ==> hits[k].read in seqs && hits[k].umi in counts
    ensures forall k :: 0 <= k < |hits| ==> |hits[k].bc14| > 0 || |hits[k].bc30| > 0
  {
    var kept := Kept(seqs, counts, cutoff);
    var idx := HitIndices(kept, p14, p30, 0);
    seq(|idx|, k requires 0 <= k < |idx| =>
      Hit(kept[idx[k]], Matches(p14, kept[idx[k]], BC14_WIDTH), Matches(p30, kept[idx[k]], BC30_WIDTH), counts[idx[k]]))
  }

  /** On a descending count list, `bc_search` yields, in input order, exactly the
      reads whose count is above the cutoff and that hit some tag, each with its
      own count and match lists. */
  lemma {:induction false} BcSearchOnDescending(seqs: seq<string>, counts: seq<nat>, p14: seq<string>, p30: seq<string>, cutoff: int)
    requires |seqs| == |counts|
    requires Descending(counts)
    ensures var hits := BcSearch(seqs, counts, p14, p30, cutoff);
      var idx := HitIndices(Kept(seqs, counts, cutoff), p14, p30, 0);
      && |hits| == |idx|
      && (forall k, l :: 0 <= k < l < |idx| ==> idx[k] < idx[l])
      && (forall k :: 0 <= k < |idx| ==>
            idx[k] < |seqs| && counts[idx[k]] > cutoff && HasMatch(seqs[idx[k]], p14, p30)
            && hits[k] == Hit(seqs[idx[k]], Matches(p14, seqs[idx[k]], BC14_WIDTH),
                              Matches(p30, seqs[idx[k]], BC30_WIDTH), counts[idx[k]]))
      && (forall j :: 0 <= j < |seqs| && counts[j] > cutoff && HasMatch(seqs[j], p14, p30) ==> j in idx)
  {
    KeptOnDescending(seqs, counts, cutoff);
  }

  /** The `bc14` or `bc30` output column: the first match, or "". */
  function Report(ms: seq<string>): string
  {
    if |ms| > 0 then ms[0] else ""
  }

  /** The reported tag is the first whitelist entry that hits the read, and ""
      exactly when none does. */
  lemma {:induction false} ReportIsFirstHit(patterns: seq<string>, s: string, w: nat)
    requires w > 0
    ensures Report(Matches(patterns, s, w)) == "" <==> forall i :: 0 <= i < |patterns| ==> !IsHit(patterns[i], s, w)
    ensures Report(Matches(patterns, s, w)) != "" ==>
      exists i :: 0 <= i < |patterns| && Report(Matches(patterns, s, w)) == patterns[i]
        && IsHit(patterns[i], s, w)
        && forall j :: 0 <= j < i ==> !IsHit(patterns[j], s, w)
  {
    MatchesNonEmpty(patterns, s, w);
    if |Matches(patterns, s, w)| > 0 {
      MatchesHead(patterns, s, w);
    }
  }

  /** One row of the matching script's output table. */
  datatype OutRow = OutRow(cell: string, read: string, bc14: string, bc30: string, umi: nat)

  /** The rows the matching script writes for one cell, given the cell's reads
      in file order (the per-cell part of `main`). */
  function ProcessCell(cell: string, seqs: seq<string>, p14: seq<string>, p30: seq<string>, cutoff: int): (rows: seq<OutRow>)
    ensures forall k :: 0 <= k < |rows| ==> rows[k].cell == cell
  {
    var ranked := MostCommon(Of(seqs));
    var hits := BcSearch(Keys(ranked), Values(ranked), p14, p30, cutoff);
    seq(|hits|, k requires 0 <= k < |hits| =>
      OutRow(cell, hits[k].read, Report(hits[k].bc14), Report(hits[k].bc30), hits[k].umi))
  }

  /** What an output row of a cell promises: it names a read of the cell whose
      occurrence count is above the cutoff and is the row's `umi`, and it reports
      at least one tag; each reported tag is a whitelist entry of its family's
      width that occurs in the read. */
  predicate RowOfCell(r: OutRow, cell: string, seqs: seq<string>, p14: seq<string>, p30: seq<string>, cutoff: int)
  {
      && r.cell == cell
      && r.read in seqs
      && r.umi == Count(seqs, r.read)
      && r.umi > cutoff
      && (r.bc14 != "" || r.bc30 != "")
      && (r.bc14 != "" ==> r.bc14 in p14 && IsHit(r.bc14, r.read, BC14_WIDTH))
      && (r.bc30 != "" ==> r.bc30 in p30 && IsHit(r.bc30, r.read, BC30_WIDTH))
  }

  /** Every output row of a cell names a read of that cell whose occurrence
      count is above the cutoff and is the row's `umi`, and reports at least one
      tag; each reported tag has its family's width and occurs in the read. */
  lemma {:induction false} ProcessCellRows(cell: string, seqs: seq<string>, p14: seq<string>, p30: seq<string>, cutoff: int)
    ensures forall k :: 0 <= k < |ProcessCell(cell, seqs, p14, p30, cutoff)| ==>
      RowOfCell(ProcessCell(cell, seqs, p14, p30, cutoff)[k], cell, seqs, p14, p30, cutoff)
  {
    forall k | 0 <= k < |ProcessCell(cell, seqs, p14, p30, cutoff)|
      ensures RowOfCell(ProcessCell(cell, seqs, p14, p30, cutoff)[k], cell, seqs, p14, p30, cutoff)
    {
      ProcessCellRow(cell, seqs, p14, p30, cutoff, k);
    }
  }

  lemma {:induction false} ProcessCellRow(cell: string, seqs: seq<string>, p14: seq<string>, p30: seq<string>, cutoff: int, k: nat)
    requires k < |ProcessCell(cell, seqs, p14, p30, cutoff)|
    ensures RowOfCell(ProcessCell(cell, seqs, p14, p30, cutoff)[k], cell, seqs, p14, p30, cutoff)
  {
    var ranked := MostCommon(Of(seqs));
    var ks := Keys(ranked);
    var vs := Values(ranked);
    var kept := Kept(ks, vs, cutoff);
    var idx := HitIndices(kept, p14, p30, 0);
    var hits := BcSearch(ks, vs, p14, p30, cutoff);
    var j := idx[k];
    assert j < |kept|;
    assert kept[j] == ks[j] == ranked[j].0;
    assert hits[k].read == ranked[j].0 && hits[k].umi == ranked[j].1;
    RankedEntries(seqs);
    ByCountValues(ranked);
    KeptOnDescending(ks, vs, cutoff);
    assert vs[j] > cutoff;
    ReportOfMatches(p14, kept[j], BC14_WIDTH);
    ReportOfMatches(p30, kept[j], BC30_WIDTH);
  }

  /** The rows of a cell come in the order of `most_common()`: by descending
      count, and equally frequent reads in order of first occurrence in the
      cell's reads. */
  lemma {:induction false} ProcessCellOrder(cell: string, seqs: seq<string>, p14: seq<string>, p30: seq<string>, cutoff: int)
    ensures var rows := ProcessCell(cell, seqs, p14, p30, cutoff);
      forall k, l :: 0 <= k < l < |rows| ==>
        && rows[k].umi >= rows[l].umi
        && rows[k].read in seqs && rows[l].read in seqs
        && (rows[k].umi == rows[l].umi ==> FirstIndex(seqs, rows[k].read) < FirstIndex(seqs, rows[l].read))
  {
    var rows := ProcessCell(cell, seqs, p14, p30, cutoff);
    forall k, l | 0 <= k < l < |rows|
      ensures rows[k].umi >= rows[l].umi && rows[k].read in seqs && rows[l].read in seqs
      ensures rows[k].umi == rows[l].umi ==> FirstIndex(seqs, rows[k].read) < FirstIndex(seqs, rows[l].read)
    {
      ProcessCellPair(cell, seqs, p14, p30, cutoff, k, l);
    }
  }

  lemma {:induction false} ProcessCellPair(cell: string, seqs: seq<string>, p14: seq<string>, p30: seq<string>, cutoff: int, k: nat, l: nat)
    requires k < l < |ProcessCell(cell, seqs, p14, p30, cutoff)|
    ensures var rows := ProcessCell(cell, seqs, p14, p30, cutoff);
      && rows[k].umi >= rows[l].umi
      && rows[k].read in seqs && rows[l].read in seqs
      && (rows[k].umi == rows[l].umi ==> FirstIndex(seqs, rows[k].read) < FirstIndex(seqs, rows[l].read))
  {
    var a := ProcessCellSource(cell, seqs, p14, p30, cutoff, k);
    var b := ProcessCellSource(cell, seqs, p14, p30, cutoff, l);
    MostCommonPair(seqs, a, b);
  }

  /** The `k`-th row of a cell comes from the entry at position `j` of the
      cell's `most_common()` ranking, and later rows from later entries. */
  lemma {:induction false} ProcessCellSource(cell: string, seqs: seq<string>, p14: seq<string>, p30: seq<string>, cutoff: int, k: nat) returns (j: nat)
    requires k < |ProcessCell(cell, seqs, p14, p30, cutoff)|
    ensures var ranked := MostCommon(Of(seqs));
      && j < |ranked|
      && ProcessCell(cell, seqs, p14, p30, cutoff)[k].read == ranked[j].0
      && ProcessCell(cell, seqs, p14, p30, cutoff)[k].umi == ranked[j].1
      && j == HitIndices(Kept(Keys(ranked), Values(ranked), cutoff), p14, p30, 0)[k]
  {
    var ranked := MostCommon(Of(seqs));
    var ks := Keys(ranked);
    var vs := Values(ranked);
    var kept := Kept(ks, vs, cutoff);
    var idx := HitIndices(kept, p14, p30, 0);
    j := idx[k];
    assert j < |kept|;
    assert kept[j] == ks[j] == ranked[j].0;
  }

  /** A non-empty report is a whitelist entry that hits the read. */
  lemma {:induction false} ReportOfMatches(patterns: seq<string>, s: string, w: nat)
    requires w > 0
    ensures Report(Matches(patterns, s, w)) != "" <==> |Matches(patterns, s, w)| > 0
    ensures Report(Matches(patterns, s, w)) != "" ==>
      Report(Matches(patterns, s, w)) in patterns && IsHit(Report(Matches(patterns, s, w)), s, w)
  {
  }

  /** The cell part of a `cell_umi` string: `cell_umi[:16]`. */
  function CellOf(cellUmi: string): string
  {
    Slice(cellUmi, 0, CELL_LENGTH)
  }

  /** The UMI part of a `cell_umi` string: `cell_umi[16:]`. */
  function UmiOf(cellUmi: string): string
  {
    Slice(cellUmi, CELL_LENGTH, |cellUmi|)
  }

  /** The split loses nothing: cell + umi is the original string, and the cell
      part has 16 characters whenever the string is that long. */
  lemma {:induction false} CellUmiRoundTrip(cellUmi: string)
    ensures CellOf(cellUmi) + UmiOf(cellUmi) == cellUmi
    ensures |CellOf(cellUmi)| == Min(CELL_LENGTH, |cellUmi|)
  {
    SplitAtRoundTrip(cellUmi, CELL_LENGTH);
  }

  /** One row of the per-UMI table the matching script reads: `cell_umi`, `seq`. */
  datatype UmiRow = UmiRow(cellUmi: string, read: string)

  /** Each row as its cell and its read (`data['cell'] = data['cell_umi'].str[:16]`). */
  function CellPairs(rows: seq<UmiRow>): (ps: seq<(string, string)>)
    ensures |ps| == |rows|
    ensures forall k :: 0 <= k < |rows| ==> ps[k] == (CellOf(rows[k].cellUmi), rows[k].read)
  {
    seq(|rows|, k requires 0 <= k < |rows| => (CellOf(rows[k].cellUmi), rows[k].read))
  }

  /** The reads of one cell, in file order, after dropping the rows of cells
      that are not in the cell whitelist (`isin`, then `groupby('cell')`): a
      whitelisted cell gets each of its reads as often as its rows carry it, any
      other cell nothing. */
  function CellReads(rows: seq<UmiRow>, cells: set<string>, cell: string): (seqs: seq<string>)
    ensures forall s :: Count(seqs, s) == if cell in cells then Count(CellPairs(rows), (cell, s)) else 0
  {
    FilterCount(CellPairs(rows), (t: (string, string)) => t.0 in cells);
    GroupValues(Filter(CellPairs(rows), (t: (string, string)) => t.0 in cells), cell)
  }

  /** A cell's reads keep file order: the reads of a concatenation are those of
      the first part followed by those of the second. */
  lemma {:induction false} CellReadsAppend(rows: seq<UmiRow>, more: seq<UmiRow>, cells: set<string>, cell: string)
    ensures CellReads(rows + more, cells, cell) == CellReads(rows, cells, cell) + CellReads(more, cells, cell)
  {
    assert CellPairs(rows + more) == CellPairs(rows) + CellPairs(more);
    FilterAppend(CellPairs(rows), CellPairs(more), (t: (string, string)) => t.0 in cells);
    GroupValuesAppend(Filter(CellPairs(rows), (t: (string, string)) => t.0 in cells),
                      Filter(CellPairs(more), (t: (string, string)) => t.0 in cells), cell);
  }

  /** The matching script's output grouped by cell: one entry per whitelisted
      cell that has reads. */
  function Process(rows: seq<UmiRow>, cells: set<string>, p14: seq<string>, p30: seq<string>, cutoff: int): (out: map<string, seq<OutRow>>)
    ensures out.Keys <= cells
    ensures forall c :: c in out ==> forall k :: 0 <= k < |out[c]| ==> out[c][k].cell == c
  {
    var seen := set k | 0 <= k < |rows| && CellOf(rows[k].cellUmi) in cells :: CellOf(rows[k].cellUmi);
    map c | c in seen :: ProcessCell(c, CellReads(rows, cells, c), p14, p30, cutoff)
  }

  /** Cells outside the whitelist never get an entry, and every whitelisted
      cell with a read has a possibly empty entry (a cell whose reads hit no
      tag writes no line). */
  lemma {:induction false} ProcessCells(rows: seq<UmiRow>, cells: set<string>, p14: seq<string>, p30: seq<string>, cutoff: int)
    ensures forall c :: c in Process(rows, cells, p14, p30, cutoff) ==>
      c in cells && exists k :: 0 <= k < |rows| && CellOf(rows[k].cellUmi) == c
    ensures forall k :: 0 <= k < |rows| && CellOf(rows[k].cellUmi) in cells ==>
      CellOf(rows[k].cellUmi) in Process(rows, cells, p14, p30, cutoff)
  {
  }

  /** Each output row of a cell carries that cell and a count above the cutoff. */
  lemma {:induction false} ProcessRowsBelong(rows: seq<UmiRow>, cells: set<string>, p14: seq<string>, p30: seq<string>, cutoff: int)
    ensures forall c, r: OutRow :: c in Process(rows, cells, p14, p30, cutoff) && r in Process(rows, cells, p14, p30, cutoff)[c] ==>
      r.cell == c && r.umi > cutoff
  {
    forall c, r: OutRow | c in Process(rows, cells, p14, p30, cutoff) && r in Process(rows, cells, p14, p30, cutoff)[c]
      ensures r.cell == c && r.umi > cutoff
    {
      ProcessRowBelongs(rows, cells, p14, p30, cutoff, c, r);
    }
  }

  /** One output row of a cell carries that cell and a count above the cutoff. */
  lemma {:induction false} ProcessRowBelongs(rows: seq<UmiRow>, cells: set<string>, p14: seq<string>, p30: seq<string>, cutoff: int,
                                             c: string, r: OutRow)
    requires c in Process(rows, cells, p14, p30, cutoff) && r in Process(rows, cells, p14, p30, cutoff)[c]
    ensures r.cell == c && r.umi > cutoff
  {
    ProcessAt(rows, cells, p14, p30, cutoff, c);
    var out := ProcessCell(c, CellReads(rows, cells, c), p14, p30, cutoff);
    var k :| 0 <= k < |out| && out[k] == r;
    ProcessCellRow(c, CellReads(rows, cells, c), p14, p30, cutoff, k);
  }

  /** The output of a cell is the cell's rows computed from its own reads. */
  lemma {:induction false} ProcessAt(rows: seq<UmiRow>, cells: set<string>, p14: seq<string>, p30: seq<string>, cutoff: int, c: string)
    requires c in Process(rows, cells, p14, p30, cutoff)
    ensures Process(rows, cells, p14, p30, cutoff)[c] == ProcessCell(c, CellReads(rows, cells, c), p14, p30, cutoff)
  {
  }
}
