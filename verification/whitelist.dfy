/** Whitelist loading: a tag table of (sequence, id) rows, optionally
    reverse-complemented, either as a sequence-to-id dict (the assignment
    script) or as the plain list of sequences (the matching script). */
module Whitelist {
  import opened Seqs
  import opened PyDict
  import opened Wrappers

  /** One row of a tag table: the tag sequence and its identifier. */
  type TagRow = (string, string)

  /** The base map `{'A': 'T', 'C': 'G', 'G': 'C', 'T': 'A'}` applied with
      `.get(base, base)`: any other character is left as it is. */
  function Complement(b: char): char
  {
    if b == 'A' then 'T'
    else if b == 'T' then 'A'
    else if b == 'C' then 'G'
    else if b == 'G' then 'C'
    else b
  }

  /** `"".join(complement.get(base, base) for base in reversed(seq))`. */
  function ReverseComplement(s: string): (r: string)
    ensures |r| == |s|
    ensures forall i :: 0 <= i < |s| ==> r[i] == Complement(s[|s| - 1 - i])
  {
    seq(|s|, i requires 0 <= i < |s| => Complement(s[|s| - 1 - i]))
  }

  /** Complementing twice gives the base back, for every character. */
  lemma {:induction false} ComplementInvolution(b: char)
    ensures Complement(Complement(b)) == b
  {
  }

  /** Reverse complement is an involution on every string, not only on A/C/G/T. */
  lemma {:induction false} ReverseComplementInvolution(s: string)
    ensures ReverseComplement(ReverseComplement(s)) == s
  {
    var r := ReverseComplement(s);
    forall i | 0 <= i < |s|
      ensures ReverseComplement(r)[i] == s[i]
    {
      ComplementInvolution(s[i]);
    }
  }

  /** A tag sequence as the scripts index it: reverse-complemented when `rc` is set. */
  function Orient(s: string, rc: bool): string
  {
    if rc then ReverseComplement(s) else s
  }

  /** The rows with their sequences oriented. */
  function OrientRows(rows: seq<TagRow>, rc: bool): (r: seq<TagRow>)
    ensures |r| == |rows|
    ensures forall i :: 0 <= i < |rows| ==> r[i] == (Orient(rows[i].0, rc), rows[i].1)
  {
    seq(|rows|, i requires 0 <= i < |rows| => (Orient(rows[i].0, rc), rows[i].1))
  }

  /** `load_barcode_file`: the sequence-to-id dict of a tag table. */
  function LoadBarcodeFile(rows: seq<TagRow>, rc: bool): (d: Dict<string, string>)
    ensures Keys(d) == Distinct(KeyColumn(OrientRows(rows, rc)))
  {
    FromRowsKeys(OrientRows(rows, rc));
    FromRows(OrientRows(rows, rc))
  }

  /** `load_barcodes`: the sequence column, in row order with duplicates,
      each entry reverse-complemented when `rc` is set. */
  function LoadBarcodes(sequences: seq<string>, rc: bool): (patterns: seq<string>)
    ensures |patterns| == |sequences|
    ensures forall i :: 0 <= i < |sequences| ==> patterns[i] == Orient(sequences[i], rc)
  {
    seq(|sequences|, i requires 0 <= i < |sequences| => Orient(sequences[i], rc))
  }

  /** A key of the dict is an (oriented) table sequence, and it maps to the id
      of the LAST row carrying that sequence; any other string is absent. */
  lemma {:induction false} LoadBarcodeFileGet(rows: seq<TagRow>, rc: bool, k: string)
    ensures k in KeyColumn(OrientRows(rows, rc)) ==>
      exists i :: 0 <= i < |rows| && Orient(rows[i].0, rc) == k
        && Get(LoadBarcodeFile(rows, rc), k) == Some(rows[i].1)
        && (forall j :: i < j < |rows| ==> Orient(rows[j].0, rc) != k)
    ensures (forall i :: 0 <= i < |rows| ==> Orient(rows[i].0, rc) != k) ==>
      Get(LoadBarcodeFile(rows, rc), k) == None
  {
    var o := OrientRows(rows, rc);
    FromRowsGet(o, k);
    if k in KeyColumn(o) {
      var i := LastIndex(KeyColumn(o), k);
      assert Orient(rows[i].0, rc) == k;
    } else {
      assert forall i :: 0 <= i < |rows| ==> KeyColumn(o)[i] == Orient(rows[i].0, rc);
    }
  }

  /** With `rc` set, the dict knows a string exactly when its reverse complement
      is a sequence of the table. */
  lemma {:induction false} LoadBarcodeFileRcKeys(rows: seq<TagRow>, k: string)
    ensures Get(LoadBarcodeFile(rows, true), k).Some? <==>
      exists i :: 0 <= i < |rows| && rows[i].0 == ReverseComplement(k)
  {
    var o := OrientRows(rows, true);
    FromRowsGet(o, k);
    if exists i :: 0 <= i < |rows| && rows[i].0 == ReverseComplement(k) {
      var i :| 0 <= i < |rows| && rows[i].0 == ReverseComplement(k);
      ReverseComplementInvolution(k);
      assert KeyColumn(o)[i] == k;
    }
    if k in KeyColumn(o) {
      var i := FirstIndex(KeyColumn(o), k);
      ReverseComplementInvolution(rows[i].0);
    }
  }

  /** Every pattern the matching script searches for has an id in the dict the
      assignment script builds from the same table with the same `rc` flag. */
  lemma {:induction false} PatternsHaveIds(rows: seq<TagRow>, rc: bool, p: string)
    requires p in LoadBarcodes(KeyColumn(rows), rc)
    ensures Get(LoadBarcodeFile(rows, rc), p).Some?
  {
    var patterns := LoadBarcodes(KeyColumn(rows), rc);
    var i :| 0 <= i < |patterns| && patterns[i] == p;
    assert KeyColumn(OrientRows(rows, rc))[i] == p;
    FromRowsGet(OrientRows(rows, rc), p);
  }
}
