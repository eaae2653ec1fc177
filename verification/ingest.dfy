/** The read-ingestion step: every sequencing record is keyed by the cell
    barcode and UMI that an earlier extraction step wrote into its header,
    the sequences of each key are tallied, and each key's most frequent
    sequence is written out with its count. */
module Ingest {
  import opened Seqs
  import opened PyStr
  import opened PyDict
  import opened Counter
  import opened Wrappers
  import Matcher

  /** The header field separator. */
  const FIELD_SEP: char := '_'

  /** `extract_umi_from_header`: the second `_`-field followed by the third
      `_`-field up to its first space; an IndexError when the header has fewer
      than two underscores. */
  function ExtractUmi(header: string): (r: Result<string>)
    ensures r.Err? <==> Count(header, FIELD_SEP) < 2
    ensures r.Err? ==> r.error == IndexError
    ensures r.Ok? ==> FIELD_SEP !in r.value
  {
    SplitFieldCount(header, FIELD_SEP);
    var fields := Split(header, FIELD_SEP);
    if |fields| < 3 then Err(IndexError)
    else
      var umi := Split(fields[2], ' ')[0];
      SplitFirstField(fields[2], ' ');
      assert forall k :: 0 <= k < |umi| ==> umi[k] == fields[2][k];
      Ok(fields[1] + umi)
  }

  /** A header laid out as `<name>_<cell>_<umi><tail>`, where the tail is
      empty or starts with a space or an underscore, yields cell followed by
      umi. */
  lemma {:induction false} ExtractUmiOfHeader(name: string, cell: string, umi: string, tail: string)
    requires FIELD_SEP !in name && FIELD_SEP !in cell
    requires FIELD_SEP !in umi && ' ' !in umi
    requires |tail| == 0 || tail[0] == ' ' || tail[0] == FIELD_SEP
    ensures ExtractUmi(name + [FIELD_SEP] + cell + [FIELD_SEP] + umi + tail) == Ok(cell + umi)
  {
    var header := name + [FIELD_SEP] + cell + [FIELD_SEP] + umi + tail;
    assert header == name + [FIELD_SEP] + cell + [FIELD_SEP] + (umi + tail);
    HeaderFields(name, cell, umi + tail);
    FirstWordOfFirstField(umi, tail, FIELD_SEP, ' ');
    var fields := Split(header, FIELD_SEP);
    assert fields[1] == cell;
    assert fields[2] == Split(umi + tail, FIELD_SEP)[0];
  }

  /** The first two fields of `<name>_<cell>_<rest>` are name and cell. */
  lemma {:induction false} HeaderFields(name: string, cell: string, rest: string)
    requires FIELD_SEP !in name && FIELD_SEP !in cell
    ensures Split(name + [FIELD_SEP] + cell + [FIELD_SEP] + rest, FIELD_SEP)
      == [name, cell] + Split(rest, FIELD_SEP)
  {
    assert name + [FIELD_SEP] + cell + [FIELD_SEP] + rest == name + [FIELD_SEP] + (cell + [FIELD_SEP] + rest);
    SplitPrefixField(name, cell + [FIELD_SEP] + rest, FIELD_SEP);
    SplitPrefixField(cell, rest, FIELD_SEP);
  }

  /** With a 16-character cell field, the 16-character split of the key
      downstream gives back the cell and the UMI. */
  lemma {:induction false} KeySplitsBack(cell: string, umi: string)
    requires |cell| == Matcher.CELL_LENGTH
    ensures Matcher.CellOf(cell + umi) == cell
    ensures Matcher.UmiOf(cell + umi) == umi
  {
    SliceNonNegative(cell + umi, 0, Matcher.CELL_LENGTH);
    SliceFrom(cell + umi, Matcher.CELL_LENGTH);
  }

  /** One record of the FASTQ file: its description line and its sequence. */
  datatype Record = Record(description: string, sequence: string)

  /** Each record's key and sequence, or the error of the first header that
      has no key (the record loop stops there). */
  function Keyed(records: seq<Record>): (r: Result<seq<(string, string)>>)
    ensures r.Err? <==> exists i :: 0 <= i < |records| && ExtractUmi(records[i].description).Err?
    ensures r.Ok? ==> |r.value| == |records|
    ensures r.Ok? ==> forall i :: 0 <= i < |records| ==>
      r.value[i] == (ExtractUmi(records[i].description).value, records[i].sequence)
  {
    if |records| == 0 then Ok([])
    else
      match ExtractUmi(records[0].description)
      case Err(e) => Err(e)
      case Ok(key) =>
        match Keyed(records[1..])
        case Err(e) =>
          var i :| 0 <= i < |records[1..]| && ExtractUmi(records[1..][i].description).Err?;
          assert ExtractUmi(records[i + 1].description).Err?;
          Err(e)
        case Ok(rest) =>
          assert forall i :: 1 <= i < |records| ==> records[i] == records[1..][i - 1];
          Ok([(key, records[0].sequence)] + rest)
  }

  /** `umi_sequences[key][seq] += 1` on the nested `defaultdict`. */
  function Bump(d: Dict<string, Tally<string>>, key: string, s: string): Dict<string, Tally<string>>
  {
    Put(d, key, Increment(GetOr(d, key, []), s))
  }

  /** The nested tally after the whole loop. */
  function Tallies(keyed: seq<(string, string)>): (t: Dict<string, Tally<string>>)
    ensures |t| <= |keyed|
    ensures forall i :: 0 <= i < |t| ==> t[i].0 in KeyColumn(keyed)
  {
    if |keyed| == 0 then []
    else
      var last := keyed[|keyed| - 1];
      Bump(Tallies(keyed[..|keyed| - 1]), last.0, last.1)
  }

  /** The keys of the nested tally are the distinct keys, in order of first record. */
  lemma {:induction false} TalliesKeys(keyed: seq<(string, string)>)
    ensures Keys(Tallies(keyed)) == Distinct(KeyColumn(keyed))
  {
    if |keyed| > 0 {
      var init := keyed[..|keyed| - 1];
      TalliesKeys(init);
      assert KeyColumn(keyed)[..|keyed| - 1] == KeyColumn(init);
    }
  }

  /** Under every key the nested tally holds the Counter of that key's
      sequences: the stored count for (key, sequence) is the number of records
      with that key and that sequence. */
  lemma {:induction false} TalliesGet(keyed: seq<(string, string)>, key: string)
    ensures GetOr(Tallies(keyed), key, []) == Of(GroupValues(keyed, key))
  {
    if |keyed| == 0 {
      assert Keys(Tallies(keyed)) == [];
      assert GetOr(Tallies(keyed), key, []) == [];
      assert |Keys(Of(GroupValues(keyed, key)))| == 0;
      assert Of(GroupValues(keyed, key)) == [];
    } else {
      var init := keyed[..|keyed| - 1];
      var last := keyed[|keyed| - 1];
      var before := GroupValues(init, key);
      TalliesGet(init, key);
      assert Tallies(keyed) == Bump(Tallies(init), last.0, last.1);
      BumpGet(Tallies(init), last.0, last.1, key);
      if last.0 == key {
        assert GroupValues(keyed, key) == before + [last.1];
        IncrementOf(before, last.1);
        assert GetOr(Tallies(keyed), key, []) == Increment(Of(before), last.1);
      } else {
        assert GroupValues(keyed, key) == before;
        assert GetOr(Tallies(keyed), key, []) == Of(before);
      }
    }
  }

  /** One step of the loop changes only the tally of the record's own key. */
  lemma {:induction false} BumpGet(d: Dict<string, Tally<string>>, k: string, s: string, key: string)
    ensures GetOr(Bump(d, k, s), key, []) ==
      if k == key then Increment(GetOr(d, key, []), s) else GetOr(d, key, [])
  {
    if k != key {
      PutOther(d, k, Increment(GetOr(d, k, []), s), key);
    }
  }

  /** Every entry of the nested tally is the Counter of a key that occurs. */
  lemma {:induction false} TalliesEntries(keyed: seq<(string, string)>)
    ensures forall i :: 0 <= i < |Tallies(keyed)| ==>
      && Tallies(keyed)[i].1 == Of(GroupValues(keyed, Tallies(keyed)[i].0))
      && |GroupValues(keyed, Tallies(keyed)[i].0)| > 0
  {
    var t := Tallies(keyed);
    TalliesKeys(keyed);
    forall i | 0 <= i < |t|
      ensures t[i].1 == Of(GroupValues(keyed, t[i].0))
      ensures |GroupValues(keyed, t[i].0)| > 0
    {
      var key := t[i].0;
      assert Keys(t)[i] == key;
      assert FirstIndex(Keys(t), key) == i;
      TalliesGet(keyed, key);
      assert key in KeyColumn(keyed);
    }
  }

  /** One line of `cell_umi.xls`. */
  datatype BestRow = BestRow(cellUmi: string, sequence: string, readsCount: nat)

  /** The output lines: per key, in order of first record, the sequence with
      the highest count (`max(..., key=get)`, so the first seen on ties) and
      that count, as the output loop writes them. */
  function BestRows(records: seq<Record>): (r: Result<seq<BestRow>>)
    ensures r.Err? <==> exists i :: 0 <= i < |records| && ExtractUmi(records[i].description).Err?
  {
    match Keyed(records)
    case Err(e) => Err(e)
    case Ok(keyed) =>
      var t := Tallies(keyed);
      TalliesEntries(keyed);
      Ok(seq(|t|, i requires 0 <= i < |t| =>
        var best := MostCommonOne(t[i].1);
        BestRow(t[i].0, best.0, best.1)))
  }

  /** There is one line per distinct key, in order of first record, and each
      line carries a sequence seen under its key at least as often as any
      other, the first seen among those, with its count. */
  lemma {:induction false} BestRowsSpec(records: seq<Record>, keyed: seq<(string, string)>, i: nat)
    requires Keyed(records) == Ok(keyed)
    requires i < |BestRows(records).value|
    ensures var rows := BestRows(records).value;
      var ss := GroupValues(keyed, rows[i].cellUmi);
      && |rows| == |Distinct(KeyColumn(keyed))|
      && rows[i].cellUmi == Distinct(KeyColumn(keyed))[i]
      && rows[i].sequence in ss
      && rows[i].readsCount == Count(ss, rows[i].sequence) >= 1
      && (forall j :: 0 <= j < |ss| ==> Count(ss, ss[j]) <= rows[i].readsCount)
      && (forall j :: 0 <= j < FirstIndex(ss, rows[i].sequence) ==> Count(ss, ss[j]) < rows[i].readsCount)
  {
    var t := Tallies(keyed);
    TalliesKeys(keyed);
    TalliesEntries(keyed);
    assert Keys(t)[i] == t[i].0;
    var ss := GroupValues(keyed, t[i].0);
    assert t[i].1 == Of(ss);
    var best := MostCommonOne(Of(ss));
    assert BestRows(records).value[i] == BestRow(t[i].0, best.0, best.1);
    MostCommonOfList(ss);
  }
}
