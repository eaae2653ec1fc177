/** The final-assignment script: per matched read a candidate label built from
    the two tag ids, per cell a decision over the candidates' UMI counts, and a
    four-way classification of the decision. */
module Assignment {
  import opened Seqs
  import opened PyStr
  import opened PyDict
  import opened Wrappers
  import Matcher

  /** One row of the matching output as this script reads it back. An empty
      tag field is read as NaN and `fillna(0)` turns it into 0: `None` here. */
  datatype Row = Row(cell: string, read: string, bc14: Option<string>, bc30: Option<string>, umi: nat)

  /** How a written tag column is read back: "" is missing. */
  function ParseTag(field: string): Option<string>
  {
    if field == "" then None else Some(field)
  }

  /** A row of the matching output as this script sees it. */
  function ReadBack(r: Matcher.OutRow): Row
  {
    Row(r.cell, r.read, ParseTag(r.bc14), ParseTag(r.bc30), r.umi)
  }

  /** The three `bc_type` values. The names are the script's own: "bc14_only"
      is the type of a row whose BC14 tag is MISSING. */
  datatype TagType = Bc14Only | Bc30Only | Bc14Bc30
  {
    function Text(): string
    {
      match this
      case Bc14Only => "bc14_only"
      case Bc30Only => "bc30_only"
      case Bc14Bc30 => "bc14_bc30"
    }
  }

  /** `bc_type`: a missing BC14 is checked first, then a missing BC30. */
  function BcType(bc14: Option<string>, bc30: Option<string>): (t: TagType)
    ensures t == Bc14Only <==> bc14.None?
    ensures t == Bc30Only <==> bc14.Some? && bc30.None?
    ensures t == Bc14Bc30 <==> bc14.Some? && bc30.Some?
  {
    if bc14.None? then Bc14Only
    else if bc30.None? then Bc30Only
    else Bc14Bc30
  }

  /** Where the BC14 tag sits in a read: `R2_seq[25:39]`. */
  const BC14_SLOT_START: int := 25
  const BC14_SLOT_END: int := 39
  /** How much of the read's end stands in for a missing BC30 id: `R2_seq[-30:]`. */
  const BC30_TAIL: nat := 30

  /** `dict.get(tag, '')`; a missing tag (0) is never a key, so it gives "" too. */
  function IdOf(d: Dict<string, string>, tag: Option<string>): string
  {
    match tag
    case None => ""
    case Some(t) => GetOr(d, t, "")
  }

  /** `barcode_name`: both ids when both tags are present; otherwise the part of
      the read where the missing tag's id would be is used in its place. */
  function BarcodeName(bc14: Option<string>, bc30: Option<string>,
                       d14: Dict<string, string>, d30: Dict<string, string>, read: string): (name: string)
    ensures bc14.Some? && bc30.Some? ==> |name| == |IdOf(d14, bc14)| + 1 + |IdOf(d30, bc30)|
    ensures bc14.None? ==> |name| == Min(39, |read|) - Min(25, |read|) + 1 + |IdOf(d30, bc30)|
    ensures bc14.Some? && bc30.None? ==> |name| == |IdOf(d14, bc14)| + 1 + Min(30, |read|)
    ensures bc14.None? ==> name[Min(39, |read|) - Min(25, |read|)] == '_'
    ensures bc14.Some? ==> name[|IdOf(d14, bc14)|] == '_'
  {
    SliceNonNegative(read, BC14_SLOT_START, BC14_SLOT_END);
    SliceLast(read, BC30_TAIL);
    if bc14.Some? && bc30.Some? then IdOf(d14, bc14) + "_" + IdOf(d30, bc30)
    else if bc14.None? then Slice(read, BC14_SLOT_START, BC14_SLOT_END) + "_" + IdOf(d30, bc30)
    else IdOf(d14, bc14) + "_" + Slice(read, -(BC30_TAIL as int), |read|)
  }

  /** The label in plain index terms: a missing BC14 id is replaced by the
      characters 25..38 of the read that exist, a missing BC30 id by the last
      `min(30, len)` characters; ids not in the dict read as "". */
  lemma {:induction false} BarcodeNameCases(bc14: Option<string>, bc30: Option<string>,
                         d14: Dict<string, string>, d30: Dict<string, string>, read: string)
    ensures bc14.Some? && bc30.Some? ==>
      BarcodeName(bc14, bc30, d14, d30, read) == GetOr(d14, bc14.value, "") + "_" + GetOr(d30, bc30.value, "")
    ensures bc14.None? ==>
      BarcodeName(bc14, bc30, d14, d30, read) == read[Min(25, |read|)..Min(39, |read|)] + "_" + IdOf(d30, bc30)
    ensures bc14.Some? && bc30.None? ==>
      BarcodeName(bc14, bc30, d14, d30, read) == GetOr(d14, bc14.value, "") + "_" + read[|read| - Min(30, |read|)..]
  {
    SliceNonNegative(read, 25, 39);
    SliceLast(read, 30);
  }

  /** One candidate of a cell: a label and the UMI count of its row. */
  datatype Candidate = Candidate(name: string, umi: nat)

  /** The count column of a cell's candidates. */
  function Umis(cands: seq<Candidate>): (counts: seq<nat>)
    ensures |counts| == |cands|
    ensures forall k :: 0 <= k < |cands| ==> counts[k] == cands[k].umi
  {
    seq(|cands|, k requires 0 <= k < |cands| => cands[k].umi)
  }

  /** Every count is at least 1, as a UMI tally is; so `u1 / u0` never divides by 0. */
  predicate Positive(cands: seq<Candidate>)
  {
    forall k :: 0 <= k < |cands| ==> cands[k].umi >= 1
  }

  /** The low-UMI threshold. */
  const MIN_UMI: nat := 5
  /** The sentinels of a cell without a single call. */
  const NA: string := "NA"
  const MULTI: string := "multi_barcode"

  /** `final_assigned_barcode_func`, rule by rule. `max >= sum / 2` is
      `2 * max >= sum` and `u1 / u0 >= 0.7` is `10 * u1 >= 7 * u0`, exact on
      integers of the sizes that occur. */
  function Decide(cands: seq<Candidate>): (r: string)
    requires |cands| > 0
    requires Positive(cands)
    ensures r == NA || r == MULTI || r == cands[0].name
    ensures Max(Umis(cands)) < MIN_UMI ==> r == NA
  {
    var counts := Umis(cands);
    var top := Max(counts);
    if top < MIN_UMI then NA
    else if 2 * top >= Sum(counts) && |counts| > 1 then cands[0].name
    else if |counts| > 1 && 10 * counts[1] >= 7 * counts[0] && counts[0] >= MIN_UMI then MULTI
    else if counts[0] >= MIN_UMI then cands[0].name
    else NA
  }

  /** On candidates sorted by descending count the cascade reduces to: too few
      UMIs gives "NA"; "multi_barcode" needs a top count below half the total
      and a second count at least 70% of the top; otherwise the top label. */
  lemma {:induction false} DecideDescending(cands: seq<Candidate>)
    requires |cands| > 0 && Positive(cands)
    requires Descending(Umis(cands))
    ensures var top := cands[0].umi;
      Decide(cands) ==
        if top < MIN_UMI then NA
        else if |cands| >= 2 && 2 * top < Sum(Umis(cands)) && 10 * cands[1].umi >= 7 * top then MULTI
        else cands[0].name
  {
    MaxOfDescending(Umis(cands));
  }

  /** The maximum of a descending list is its first element. */
  lemma {:induction false} MaxOfDescending(xs: seq<nat>)
    requires |xs| > 0 && Descending(xs)
    ensures Max(xs) == xs[0]
  {
  }

  /** On sorted candidates a multi-barcode call needs at least three
      candidates: with two, the top count is always at least half the total. */
  lemma {:induction false} MultiNeedsThree(cands: seq<Candidate>)
    requires |cands| > 0 && Positive(cands)
    requires Descending(Umis(cands))
    requires cands[0].name != MULTI
    requires Decide(cands) == MULTI
    ensures |cands| >= 3
    ensures 2 * cands[0].umi < Sum(Umis(cands))
    ensures 10 * cands[1].umi >= 7 * cands[0].umi
  {
    DecideDescending(cands);
    SumOfPair(Umis(cands));
  }

  lemma {:induction false} SumOfPair(u: seq<nat>)
    ensures |u| == 2 ==> Sum(u) == u[0] + u[1]
  {
    if |u| == 2 {
      assert u[..1][..0] == [];
      assert u[..1] == [u[0]];
      assert Sum(u[..1]) == u[0];
    }
  }

  /** Rule order: when the top count is at least half the total, the first
      label wins even if the second count is 70% of the first or more. */
  lemma {:induction false} HalfRulePrecedes(cands: seq<Candidate>)
    requires |cands| > 1 && Positive(cands)
    requires Max(Umis(cands)) >= MIN_UMI
    requires 2 * Max(Umis(cands)) >= Sum(Umis(cands))
    ensures Decide(cands) == cands[0].name
  {
  }

  /** A single candidate is called when, and only when, it has at least 5 UMIs. */
  lemma {:induction false} SingleCandidate(c: Candidate)
    requires c.umi >= 1 && c.name != NA
    ensures Decide([c]) == c.name <==> c.umi >= MIN_UMI
  {
    assert Umis([c]) == [c.umi];
  }

  predicate IsDigit(c: char) { '0' <= c <= '9' }

  predicate AllDigits(t: string)
  {
    forall i :: 0 <= i < |t| ==> IsDigit(t[i])
  }

  /** Length of the run of ASCII digits starting at `i`. */
  function DigitRun(s: string, i: nat): (n: nat)
    requires i <= |s|
    ensures i + n <= |s|
    ensures AllDigits(s[i..i + n])
    ensures i + n < |s| ==> !IsDigit(s[i + n])
    decreases |s| - i
  {
    if i < |s| && IsDigit(s[i]) then
      var n := DigitRun(s, i + 1);
      assert s[i..i + 1 + n] == [s[i]] + s[i + 1..i + 1 + n];
      1 + n
    else 0
  }

  /** `re.compile(r'^bc14-(\d+)_bc30-(\d+)').match(s)`, run as the matcher runs
      it: the first `\d+` takes the whole digit run (no digit is `_`, so
      backtracking cannot help), then `_bc30-` and one more digit must follow.
      Nothing is required after that: the pattern is not anchored at the end. */
  predicate MatchesIdPattern(s: string)
  {
    |s| >= 5 && s[..5] == "bc14-" &&
    var k := 5 + DigitRun(s, 5);
    k > 5 && k + 7 <= |s| && s[k..k + 6] == "_bc30-" && IsDigit(s[k + 6])
  }

  /** The pattern read declaratively: `s` starts with `bc14-`, one or more
      digits, `_bc30-` and a digit, followed by anything. */
  ghost predicate IdPatternPrefix(s: string)
  {
    exists k :: 5 < k && k + 7 <= |s| && s[..5] == "bc14-" && AllDigits(s[5..k])
      && s[k..k + 6] == "_bc30-" && IsDigit(s[k + 6])
  }

  /** The greedy matcher accepts exactly the strings the declarative reading describes. */
  lemma {:induction false} IdPatternIff(s: string)
    ensures MatchesIdPattern(s) <==> IdPatternPrefix(s)
  {
    if MatchesIdPattern(s) {
      IdPatternSound(s);
    }
    if IdPatternPrefix(s) {
      var k :| 5 < k && k + 7 <= |s| && s[..5] == "bc14-" && AllDigits(s[5..k])
        && s[k..k + 6] == "_bc30-" && IsDigit(s[k + 6]);
      IdPatternComplete(s, k);
    }
  }

  /** What the greedy matcher accepts has the declarative shape, with the
      digit run as the first number. */
  lemma {:induction false} IdPatternSound(s: string)
    requires MatchesIdPattern(s)
    ensures IdPatternPrefix(s)
  {
    var k := 5 + DigitRun(s, 5);
    assert AllDigits(s[5..k]);
  }

  /** A string of the declarative shape, with its first number ending at `k`,
      is accepted by the greedy matcher. */
  lemma {:induction false} IdPatternComplete(s: string, k: nat)
    requires 5 < k && k + 7 <= |s| && s[..5] == "bc14-" && AllDigits(s[5..k])
    requires s[k..k + 6] == "_bc30-" && IsDigit(s[k + 6])
    ensures MatchesIdPattern(s)
  {
    DigitRunCovers(s, 5, k);
    assert s[k] == s[k..k + 6][0];
    DigitRunStops(s, 5, k);
    assert 5 + DigitRun(s, 5) == k;
  }

  /** A digit run is at least as long as any all-digit stretch it starts. */
  lemma {:induction false} DigitRunCovers(s: string, i: nat, m: nat)
    requires i <= m <= |s|
    requires AllDigits(s[i..m])
    ensures DigitRun(s, i) >= m - i
    decreases m - i
  {
    if i < m {
      assert IsDigit(s[i..m][0]);
      assert s[i + 1..m] == s[i..m][1..];
      DigitRunCovers(s, i + 1, m);
    }
  }

  /** A digit run ends no later than the first non-digit after its start. */
  lemma {:induction false} DigitRunStops(s: string, i: nat, m: nat)
    requires i <= m < |s|
    requires !IsDigit(s[m])
    ensures DigitRun(s, i) <= m - i
    decreases m - i
  {
    if i < m && IsDigit(s[i]) {
      DigitRunStops(s, i + 1, m);
    }
  }

  /** The four `final_assigned_type` answers. */
  datatype BarcodeType = Undetermined | MultiBarcode | OneBarcode | OneBarcodeWithMutant
  {
    function Text(): string
    {
      match this
      case Undetermined => "Undetermined due to low UMI"
      case MultiBarcode => "multi_barcode"
      case OneBarcode => "One Barcode"
      case OneBarcodeWithMutant => "One Barcode with mutant"
    }
  }

  /** `final_assigned_type`: the two sentinels first, then the id pattern. */
  function FinalAssignedType(final: string): (t: BarcodeType)
    ensures t == Undetermined <==> final == NA
    ensures t == MultiBarcode <==> final == MULTI
    ensures t == OneBarcode <==> final != NA && final != MULTI && IdPatternPrefix(final)
    ensures t == OneBarcodeWithMutant <==> final != NA && final != MULTI && !IdPatternPrefix(final)
  {
    IdPatternIff(final);
    if final == NA then Undetermined
    else if final == MULTI then MultiBarcode
    else if MatchesIdPattern(final) then OneBarcode
    else OneBarcodeWithMutant
  }

  /** One line of the script's output table. */
  datatype CellAssignment = CellAssignment(cell: string, final: string, umiCount: nat, kind: BarcodeType)

  /** The candidates of a cell's rows, in row order. */
  function Candidates(rows: seq<Row>, d14: Dict<string, string>, d30: Dict<string, string>): (cands: seq<Candidate>)
    ensures |cands| == |rows|
    ensures forall k :: 0 <= k < |rows| ==> cands[k].umi == rows[k].umi
    ensures forall k :: 0 <= k < |rows| ==>
      cands[k].name == BarcodeName(rows[k].bc14, rows[k].bc30, d14, d30, rows[k].read)
  {
    seq(|rows|, k requires 0 <= k < |rows| =>
      Candidate(BarcodeName(rows[k].bc14, rows[k].bc30, d14, d30, rows[k].read), rows[k].umi))
  }

  /** The rows of one cell, in table order (`groupby('cell')`). */
  function RowsOf(rows: seq<Row>, cell: string): seq<Row>
  {
    Filter(rows, (r: Row) => r.cell == cell)
  }

  /** A cell's group holds each row of that cell as often as the table does,
      and no row of another cell. */
  lemma {:induction false} RowsOfCount(rows: seq<Row>, cell: string, r: Row)
    ensures Count(RowsOf(rows, cell), r) == if r.cell == cell then Count(rows, r) else 0
  {
    FilterCount(rows, (r: Row) => r.cell == cell);
  }

  /** Grouping keeps table order: the group of a concatenation is the group of
      the first part followed by that of the second. */
  lemma {:induction false} RowsOfAppend(rows: seq<Row>, more: seq<Row>, cell: string)
    ensures RowsOf(rows + more, cell) == RowsOf(rows, cell) + RowsOf(more, cell)
  {
    FilterAppend(rows, more, (r: Row) => r.cell == cell);
  }

  /** All counts are UMI tallies. */
  predicate PositiveRows(rows: seq<Row>)
  {
    forall k :: 0 <= k < |rows| ==> rows[k].umi >= 1
  }

  /** The output line for one cell, as `main` builds it; `umi_count` is the number
      of the cell's rows. */
  function AssignCell(cell: string, rows: seq<Row>, d14: Dict<string, string>, d30: Dict<string, string>): (a: CellAssignment)
    requires |rows| > 0 && PositiveRows(rows)
    ensures a.cell == cell
    ensures a.umiCount == |rows|
    ensures a.final == NA || a.final == MULTI || a.final == BarcodeName(rows[0].bc14, rows[0].bc30, d14, d30, rows[0].read)
    ensures a.kind == FinalAssignedType(a.final)
    ensures a.kind.Text() == "One Barcode" ==> IdPatternPrefix(a.final)
  {
    var cands := Candidates(rows, d14, d30);
    var final := Decide(cands);
    CellAssignment(cell, final, |rows|, FinalAssignedType(final))
  }

  /** The cells of the table. */
  function CellsOf(rows: seq<Row>): set<string>
  {
    set k | 0 <= k < |rows| :: rows[k].cell
  }

  /** The script's output, keyed by cell: one line per cell of the input. */
  function Summarize(rows: seq<Row>, d14: Dict<string, string>, d30: Dict<string, string>): (out: map<string, CellAssignment>)
    requires PositiveRows(rows)
    ensures out.Keys == CellsOf(rows)
    ensures forall c :: c in out ==> out[c].cell == c && out[c].umiCount == |RowsOf(rows, c)| >= 1
  {
    map c | c in CellsOf(rows) :: (RowsOfFacts(rows, c); AssignCell(c, RowsOf(rows, c), d14, d30))
  }

  /** A cell of the table has at least one row, and its rows are rows of the table. */
  lemma {:induction false} RowsOfFacts(rows: seq<Row>, c: string)
    requires PositiveRows(rows)
    requires c in CellsOf(rows)
    ensures |RowsOf(rows, c)| > 0 && PositiveRows(RowsOf(rows, c))
  {
    var mine := RowsOf(rows, c);
    var k :| 0 <= k < |rows| && rows[k].cell == c;
    assert rows[k] in mine;
    forall j | 0 <= j < |mine| ensures mine[j].umi >= 1 {
      assert mine[j] in rows;
    }
  }

  /** The rows of a cell are sorted by descending count when the table is
      sorted that way within each cell (the `sort_values` in `main`). */
  lemma {:induction false} RowsOfSorted(rows: seq<Row>, cell: string)
    requires forall i, j :: 0 <= i < j < |rows| && rows[i].cell == cell && rows[j].cell == cell ==>
      rows[i].umi >= rows[j].umi
    ensures forall i, j :: 0 <= i < j < |RowsOf(rows, cell)| ==> RowsOf(rows, cell)[i].umi >= RowsOf(rows, cell)[j].umi
  {
    if |rows| > 0 {
      var init := rows[..|rows| - 1];
      RowsOfSorted(init, cell);
      var last := rows[|rows| - 1];
      FilterLast(rows, (r: Row) => r.cell == cell);
      assert RowsOf(rows, cell) == RowsOf(init, cell) + (if last.cell == cell then [last] else []);
      if last.cell == cell {
        forall r | r in RowsOf(init, cell) ensures r.umi >= last.umi {
          var i :| 0 <= i < |init| && init[i] == r;
          assert rows[i] == r;
        }
      }
    }
  }

  /** On rows sorted by descending count, a cell's call is "NA" below 5 UMIs at
      the top, "multi_barcode" only for a top count below half the cell's total
      with a runner-up of at least 70% of it, and otherwise the label of the
      best-supported row. */
  lemma {:induction false} AssignCellSorted(cell: string, rows: seq<Row>, d14: Dict<string, string>, d30: Dict<string, string>)
    requires |rows| > 0 && PositiveRows(rows)
    requires forall i, j :: 0 <= i < j < |rows| ==> rows[i].umi >= rows[j].umi
    ensures var cands := Candidates(rows, d14, d30);
      AssignCell(cell, rows, d14, d30).final ==
        if rows[0].umi < MIN_UMI then NA
        else if |rows| >= 2 && 2 * rows[0].umi < Sum(Umis(cands)) && 10 * rows[1].umi >= 7 * rows[0].umi then MULTI
        else cands[0].name
  {
    var cands := Candidates(rows, d14, d30);
    assert Descending(Umis(cands));
    DecideDescending(cands);
  }

  /** The output line of a cell is the assignment of its rows. */
  lemma {:induction false} SummarizeAt(rows: seq<Row>, d14: Dict<string, string>, d30: Dict<string, string>, c: string)
    requires PositiveRows(rows)
    requires c in CellsOf(rows)
    ensures |RowsOf(rows, c)| > 0 && PositiveRows(RowsOf(rows, c))
    ensures Summarize(rows, d14, d30)[c] == AssignCell(c, RowsOf(rows, c), d14, d30)
  {
    RowsOfFacts(rows, c);
  }

  /** On a table sorted by descending count within each cell (the
      `sort_values` in `main`), every cell's call follows the sorted reading of
      the cascade. */
  lemma {:induction false} SummarizeSorted(rows: seq<Row>, d14: Dict<string, string>, d30: Dict<string, string>, c: string)
    requires PositiveRows(rows)
    requires forall i, j :: 0 <= i < j < |rows| && rows[i].cell == rows[j].cell ==> rows[i].umi >= rows[j].umi
    requires c in CellsOf(rows)
    ensures |RowsOf(rows, c)| > 0
    ensures var mine := RowsOf(rows, c);
      var cands := Candidates(mine, d14, d30);
      Summarize(rows, d14, d30)[c].final ==
        if mine[0].umi < MIN_UMI then NA
        else if |mine| >= 2 && 2 * mine[0].umi < Sum(Umis(cands)) && 10 * mine[1].umi >= 7 * mine[0].umi then MULTI
        else cands[0].name
  {
    SummarizeAt(rows, d14, d30, c);
    RowsOfSorted(rows, c);
    AssignCellSorted(c, RowsOf(rows, c), d14, d30);
  }
}
