/** The analysis notebook's variant of the final assignment: the same steps as
    the assignment script, written with independent `if`s instead of an early
    return, with `dict.get` without a default, a different read window for a
    missing BC30 id, a half-total rule whose result the later `if`s overwrite,
    and `umi_count` taken as the top count. */
module Notebook {
  import opened Seqs
  import opened PyStr
  import opened PyDict
  import opened Wrappers
  import A = Assignment
  import Matcher

  /** The tag table is one list: its first 100 rows are the BC14 tags, the
      rest the BC30 tags. */
  const BC14_ROWS: nat := 100

  /** `bc14_dict` and `bc30_dict` built from the tag table (no reverse complement). */
  function TagDicts(rows: seq<(string, string)>): (ds: (Dict<string, string>, Dict<string, string>))
    ensures Keys(ds.0) == Distinct(KeyColumn(rows[..Min(BC14_ROWS, |rows|)]))
    ensures Keys(ds.1) == Distinct(KeyColumn(rows[Min(BC14_ROWS, |rows|)..]))
  {
    SliceNonNegative(rows, 0, BC14_ROWS);
    SliceFrom(rows, BC14_ROWS);
    FromRowsKeys(rows[..Min(BC14_ROWS, |rows|)]);
    FromRowsKeys(rows[Min(BC14_ROWS, |rows|)..]);
    (FromRows(Slice(rows, 0, BC14_ROWS)), FromRows(Slice(rows, BC14_ROWS, |rows|)))
  }

  /** A sequence is a BC14 key exactly when it is in one of the first 100 rows. */
  lemma {:induction false} Bc14KeysFromHead(rows: seq<(string, string)>, k: string)
    ensures Get(TagDicts(rows).0, k).Some? <==> exists i :: 0 <= i < Min(BC14_ROWS, |rows|) && rows[i].0 == k
  {
    var n := Min(BC14_ROWS, |rows|);
    SliceNonNegative(rows, 0, BC14_ROWS);
    assert TagDicts(rows).0 == FromRows(rows[..n]);
    FromRowsHas(rows[..n], k);
    PrefixHasKey(rows, n, k);
  }

  /** A sequence is a BC30 key exactly when it is in a row after the first 100. */
  lemma {:induction false} Bc30KeysFromTail(rows: seq<(string, string)>, k: string)
    ensures Get(TagDicts(rows).1, k).Some? <==> exists i :: Min(BC14_ROWS, |rows|) <= i < |rows| && rows[i].0 == k
  {
    var n := Min(BC14_ROWS, |rows|);
    SliceFrom(rows, BC14_ROWS);
    assert TagDicts(rows).1 == FromRows(rows[n..]);
    FromRowsHas(rows[n..], k);
    SuffixHasKey(rows, n, k);
  }

  /** The notebook's `bc_type`: three independent `if`s, so when both tags are
      missing the second overwrites the first and the answer is "bc30_only". */
  function BcType(bc14: Option<string>, bc30: Option<string>): (t: A.TagType)
    ensures t == A.Bc30Only <==> bc30.None?
    ensures t == A.Bc14Only <==> bc14.None? && bc30.Some?
    ensures t == A.Bc14Bc30 <==> bc14.Some? && bc30.Some?
  {
    var t1: Option<A.TagType> := if bc14.None? then Some(A.Bc14Only) else None;
    var t2 := if bc30.None? then Some(A.Bc30Only) else t1;
    var t3 := if bc14.Some? && bc30.Some? then Some(A.Bc14Bc30) else t2;
    t3.value
  }

  /** The two `bc_type`s agree except when both tags are missing, where the
      script says "bc14_only" and the notebook "bc30_only". */
  lemma {:induction false} BcTypeVariants(bc14: Option<string>, bc30: Option<string>)
    ensures BcType(bc14, bc30) == A.BcType(bc14, bc30) <==> bc14.Some? || bc30.Some?
    ensures bc14.None? && bc30.None? ==> BcType(bc14, bc30).Text() == "bc30_only"
    ensures bc14.None? && bc30.None? ==> A.BcType(bc14, bc30).Text() == "bc14_only"
  {
  }

  /** Rows of the matching output always carry at least one tag, so on them
      both `bc_type`s agree. */
  lemma {:induction false} BcTypeOnMatchedRows(r: A.Row)
    requires r.bc14.Some? || r.bc30.Some?
    ensures BcType(r.bc14, r.bc30) == A.BcType(r.bc14, r.bc30)
  {
    BcTypeVariants(r.bc14, r.bc30);
  }

  /** A row the matching script writes, read back by the notebook, gets the
      same `bc_type` from both: the matcher only writes rows with a tag. */
  lemma {:induction false} BcTypeOnProcessedRow(cell: string, seqs: seq<string>, p14: seq<string>, p30: seq<string>,
                                                cutoff: int, k: nat)
    requires k < |Matcher.ProcessCell(cell, seqs, p14, p30, cutoff)|
    ensures var r := A.ReadBack(Matcher.ProcessCell(cell, seqs, p14, p30, cutoff)[k]);
      BcType(r.bc14, r.bc30) == A.BcType(r.bc14, r.bc30)
  {
    Matcher.ProcessCellRow(cell, seqs, p14, p30, cutoff, k);
    BcTypeOnMatchedRows(A.ReadBack(Matcher.ProcessCell(cell, seqs, p14, p30, cutoff)[k]));
  }

  /** Where the notebook looks for a missing BC30 id: `R2_seq[43:73]`. */
  const BC30_SLOT_START: int := 43
  const BC30_SLOT_END: int := 73

  /** `dict.get(tag)` without a default: `None` when absent; a missing tag
      (the value 0) is never a key. */
  function Lookup(d: Dict<string, string>, tag: Option<string>): Option<string>
  {
    match tag
    case None => None
    case Some(t) => Get(d, t)
  }

  /** The notebook's `barcode_name`. A lookup that finds nothing gives `None`,
      and `None + "_"` raises TypeError. Of the three `if`s at most one assigns
      before a raise, so they read as a chain. */
  function BarcodeName(bc14: Option<string>, bc30: Option<string>,
                       d14: Dict<string, string>, d30: Dict<string, string>, read: string): (r: Result<string>)
    ensures r.Err? ==> r.error == TypeError
    ensures r.Ok? ==> bc14.Some? || bc30.Some?
    ensures r.Ok? && bc14.Some? ==> Get(d14, bc14.value).Some?
    ensures r.Ok? && bc30.Some? ==> Get(d30, bc30.value).Some?
  {
    if bc14.Some? && bc30.Some? then
      (match (Lookup(d14, bc14), Lookup(d30, bc30))
       case (Some(i14), Some(i30)) => Ok(i14 + "_" + i30)
       case _ => Err(TypeError))
    else if bc14.None? then
      (match Lookup(d30, bc30)
       case Some(i30) => Ok(Slice(read, A.BC14_SLOT_START, A.BC14_SLOT_END) + "_" + i30)
       case None => Err(TypeError))
    else
      (match Lookup(d14, bc14)
       case Some(i14) => Ok(i14 + "_" + Slice(read, BC30_SLOT_START, BC30_SLOT_END))
       case None => Err(TypeError))
  }

  /** The notebook's name fails exactly when a present tag has no id, or when
      both tags are missing; where the script's name uses the same parts the
      two agree, and a missing BC30 id is replaced by characters 43..72 of the
      read instead of its last 30. */
  lemma {:induction false} BarcodeNameVariants(bc14: Option<string>, bc30: Option<string>,
                            d14: Dict<string, string>, d30: Dict<string, string>, read: string)
    ensures BarcodeName(bc14, bc30, d14, d30, read).Ok? <==>
      && (bc14.Some? || bc30.Some?)
      && (bc14.Some? ==> Get(d14, bc14.value).Some?)
      && (bc30.Some? ==> Get(d30, bc30.value).Some?)
    ensures BarcodeName(bc14, bc30, d14, d30, read).Ok? && bc30.Some? ==>
      BarcodeName(bc14, bc30, d14, d30, read).value == A.BarcodeName(bc14, bc30, d14, d30, read)
    ensures BarcodeName(bc14, bc30, d14, d30, read).Ok? && bc30.None? ==>
      BarcodeName(bc14, bc30, d14, d30, read).value
        == Get(d14, bc14.value).value + "_" + read[Min(43, |read|)..Min(73, |read|)]
  {
    SliceNonNegative(read, 43, 73);
  }

  /** The notebook's `final_assgined_barcode_func`, statement by statement.
      The half-total rule assigns the misspelled `final_assigned_barocode`, so
      it changes nothing; the 70% rules after it are independent `if`s, so on
      sorted input they would overwrite its result anyway (SpellingMasked).
      When no statement assigns the result, returning it raises
      UnboundLocalError. */
  function Decide(cands: seq<A.Candidate>): (r: Result<string>)
    requires |cands| > 0
    requires A.Positive(cands)
    ensures r.Ok? ==> r.value == A.NA || r.value == A.MULTI || r.value == cands[0].name
    ensures Max(A.Umis(cands)) < A.MIN_UMI ==> r == Ok(A.NA)
    ensures r.Err? ==> r.error == UnboundLocalError
  {
    var counts := A.Umis(cands);
    var top := Max(counts);
    var n := |counts|;
    var f1: Option<string> := if top < A.MIN_UMI then Some(A.NA) else None;
    var f2 := if n > 1 && 10 * counts[1] >= 7 * counts[0] && counts[0] >= A.MIN_UMI then Some(A.MULTI) else f1;
    var f3 := if n > 1 && 10 * counts[1] < 7 * counts[0] && counts[0] >= A.MIN_UMI then Some(cands[0].name) else f2;
    var f4 := if n == 1 && counts[0] >= A.MIN_UMI then Some(cands[0].name) else f3;
    if f4.Some? then Ok(f4.value) else Err(UnboundLocalError)
  }

  /** The notebook's decider with the half-total rule assigning the right
      variable; the later `if`s still run after it. */
  function SpelledDecide(cands: seq<A.Candidate>): (r: Result<string>)
    requires |cands| > 0
    requires A.Positive(cands)
    ensures r.Ok? ==> r.value == A.NA || r.value == A.MULTI || r.value == cands[0].name
    ensures Max(A.Umis(cands)) < A.MIN_UMI ==> r == Ok(A.NA)
    ensures r.Err? ==> r.error == UnboundLocalError
  {
    var counts := A.Umis(cands);
    var top := Max(counts);
    var n := |counts|;
    var f1: Option<string> := if top < A.MIN_UMI then Some(A.NA) else None;
    var f1b := if top >= A.MIN_UMI && 2 * top >= Sum(counts) && n > 1 then Some(cands[0].name) else f1;
    var f2 := if n > 1 && 10 * counts[1] >= 7 * counts[0] && counts[0] >= A.MIN_UMI then Some(A.MULTI) else f1b;
    var f3 := if n > 1 && 10 * counts[1] < 7 * counts[0] && counts[0] >= A.MIN_UMI then Some(cands[0].name) else f2;
    var f4 := if n == 1 && counts[0] >= A.MIN_UMI then Some(cands[0].name) else f3;
    if f4.Some? then Ok(f4.value) else Err(UnboundLocalError)
  }

  /** On sorted candidates the misspelling makes no difference: whenever the
      half-total rule fires, one of the 70% rules after it fires too and
      overwrites its result. */
  lemma {:induction false} SpellingMasked(cands: seq<A.Candidate>)
    requires |cands| > 0 && A.Positive(cands)
    requires Descending(A.Umis(cands))
    ensures SpelledDecide(cands) == Decide(cands)
  {
    A.MaxOfDescending(A.Umis(cands));
  }

  /** The misspelling shows only on unsorted input with a first count below 5
      and a larger one later: counts 4 and 6 give the first label with the
      right spelling, and UnboundLocalError as written. */
  lemma {:induction false} SpellingMattersUnsorted(x: string, y: string)
    ensures SpelledDecide([A.Candidate(x, 4), A.Candidate(y, 6)]) == Ok(x)
    ensures Decide([A.Candidate(x, 4), A.Candidate(y, 6)]) == Err(UnboundLocalError)
  {
    var cands := [A.Candidate(x, 4), A.Candidate(y, 6)];
    assert A.Umis(cands) == [4, 6];
    A.SumOfPair([4, 6]);
    assert Max([4, 6]) == 6 by {
      assert [4, 6][..1] == [4];
    }
  }

  /** The notebook decider fails exactly when some count reaches 5 but the
      first does not, which sorted input rules out. */
  lemma {:induction false} DecideFailsIff(cands: seq<A.Candidate>)
    requires |cands| > 0 && A.Positive(cands)
    ensures Decide(cands).Err? <==> Max(A.Umis(cands)) >= A.MIN_UMI && cands[0].umi < A.MIN_UMI
  {
  }

  /** On sorted candidates the notebook calls "NA" below 5 UMIs at the top,
      otherwise "multi_barcode" exactly when the second count is at least 70%
      of the first, and otherwise the first label: the total plays no part. */
  lemma {:induction false} DecideDescending(cands: seq<A.Candidate>)
    requires |cands| > 0 && A.Positive(cands)
    requires Descending(A.Umis(cands))
    ensures Decide(cands) == Ok(
      if cands[0].umi < A.MIN_UMI then A.NA
      else if |cands| >= 2 && 10 * cands[1].umi >= 7 * cands[0].umi then A.MULTI
      else cands[0].name)
  {
    A.MaxOfDescending(A.Umis(cands));
  }

  /** On sorted candidates the two deciders disagree exactly when the half-total
      rule would have fired in the notebook too: at least two candidates, a top
      of at least 5 holding half the total, and a runner-up of at least 70% of
      it. The script then calls the first label, the notebook "multi_barcode". */
  lemma {:induction false} DecidersAgreeIff(cands: seq<A.Candidate>)
    requires |cands| > 0 && A.Positive(cands)
    requires Descending(A.Umis(cands))
    requires cands[0].name != A.MULTI
    ensures Decide(cands) == Ok(A.Decide(cands)) <==>
      !(|cands| >= 2 && cands[0].umi >= A.MIN_UMI
        && 2 * cands[0].umi >= Sum(A.Umis(cands))
        && 10 * cands[1].umi >= 7 * cands[0].umi)
  {
    DecideDescending(cands);
    A.DecideDescending(cands);
  }

  /** Counts 5 and 4: the script calls the first label (the top holds more than
      half of 9), the notebook "multi_barcode" (4 is 80% of 5). */
  lemma {:induction false} FiveFourDiffers(x: string, y: string)
    requires x != A.MULTI
    ensures A.Decide([A.Candidate(x, 5), A.Candidate(y, 4)]) == x
    ensures Decide([A.Candidate(x, 5), A.Candidate(y, 4)]) == Ok(A.MULTI)
  {
    var cands := [A.Candidate(x, 5), A.Candidate(y, 4)];
    assert A.Umis(cands) == [5, 4];
    A.SumOfPair([5, 4]);
  }

  /** The notebook's output line for a cell: written exactly when the notebook's
      call succeeds, carrying that call and its `final_assigned_type`, but with
      `umi_count` the first (top) count instead of the number of rows. */
  function AssignCell(cell: string, cands: seq<A.Candidate>): (r: Result<A.CellAssignment>)
    requires |cands| > 0 && A.Positive(cands)
    ensures r.Ok? <==> Decide(cands).Ok?
    ensures r.Err? ==> r.error == Decide(cands).error
    ensures r.Ok? ==> r.value.cell == cell && r.value.umiCount == cands[0].umi
    ensures r.Ok? ==> r.value.final == Decide(cands).value && r.value.kind == A.FinalAssignedType(r.value.final)
  {
    match Decide(cands)
    case Ok(final) => Ok(A.CellAssignment(cell, final, cands[0].umi, A.FinalAssignedType(final)))
    case Err(e) => Err(e)
  }

  /** The candidates of a cell's rows, or TypeError from the first row whose
      name cannot be built. */
  function Candidates(rows: seq<A.Row>, d14: Dict<string, string>, d30: Dict<string, string>): (r: Result<seq<A.Candidate>>)
    ensures r.Ok? <==> forall k :: 0 <= k < |rows| ==> BarcodeName(rows[k].bc14, rows[k].bc30, d14, d30, rows[k].read).Ok?
    ensures r.Ok? ==> |r.value| == |rows|
    ensures r.Ok? ==> forall k :: 0 <= k < |rows| ==>
      r.value[k] == A.Candidate(BarcodeName(rows[k].bc14, rows[k].bc30, d14, d30, rows[k].read).value, rows[k].umi)
  {
    if |rows| == 0 then Ok([])
    else
      match BarcodeName(rows[0].bc14, rows[0].bc30, d14, d30, rows[0].read)
      case Err(e) => Err(e)
      case Ok(name) =>
        match Candidates(rows[1..], d14, d30)
        case Err(e) => Err(e)
        case Ok(rest) => Ok([A.Candidate(name, rows[0].umi)] + rest)
  }

  /** With sorted rows whose names all resolve, the notebook's line for a cell
      exists, its `umi_count` is the cell's largest count, and the script's
      `umi_count` for the same rows is the number of rows instead. */
  lemma {:induction false} UmiCountVariants(cell: string, rows: seq<A.Row>, d14: Dict<string, string>, d30: Dict<string, string>)
    requires |rows| > 0 && A.PositiveRows(rows)
    requires forall i, j :: 0 <= i < j < |rows| ==> rows[i].umi >= rows[j].umi
    requires Candidates(rows, d14, d30).Ok?
    ensures var cands := Candidates(rows, d14, d30).value;
      && A.Positive(cands)
      && AssignCell(cell, cands).Ok?
      && AssignCell(cell, cands).value.umiCount == Max(A.Umis(cands)) == rows[0].umi
      && A.AssignCell(cell, rows, d14, d30).umiCount == |rows|
  {
    var cands := Candidates(rows, d14, d30).value;
    assert Descending(A.Umis(cands));
    A.MaxOfDescending(A.Umis(cands));
    DecideDescending(cands);
  }
}
