# CloneTracker single-cell barcode assignment, modelled in Dafny

CloneTracker tags every cell with a lineage barcode, built from a BC14 tag and
a BC30 tag, and optionally with a guide RNA (sgRNA). Its scripts turn
sequencing reads into one call per cell. This project models the per-cell
logic of those scripts as pure functions over sequences, strings and small
maps, and proves what each step promises.

- **Ingestion** (`best_sequence_umi.py`, module `Ingest`):
  - each FASTQ record is keyed by cell barcode plus UMI, taken from its header;
  - the sequences under each key are tallied;
  - the most frequent sequence per key is written out with its count.
- **Whitelists** (module `Whitelist`):
  - tag tables of (sequence, id) rows, optionally reverse-complemented;
  - read either as a sequence-to-id dict (`load_barcode_file`) or as a list of sequences (`load_barcodes`).
- **Barcode matching** (`barcode_process_umi_5.py`, module `Matcher`):
  - per whitelisted cell, the distinct reads are ranked by `Counter.most_common()`;
  - a strict `>` UMI cutoff keeps a prefix of the ranking;
  - every kept read is searched for BC14 and BC30 tags of exact width 14 and 30;
  - each read with a hit becomes one output row that reports the first hit, in whitelist order.
- **Final assignment** (`barcode_final_assignment.py`, module `Assignment`):
  - each matched row gets a label `id14_id30`; a missing id is replaced by a slice of the read;
  - a rule cascade over the cell's per-row UMI counts calls one label, `"multi_barcode"` or `"NA"`;
  - a four-way classifier rates the call.
- **Notebook variant** (`umi_distribution_analysis_umi_5.py`, module `Notebook`):
  - the same steps with different edge behaviour;
  - each difference is proved against the script.
- **Guide assignment** (`sgRNA_assignment.py`, module `SgRna`):
  - every read is tagged with the first reference guide found in it, followed by `TTTT`;
  - a cell keeps the guide that holds a strict majority of its tagged reads.

Python semantics the scripts rely on are modelled once, in support modules:
- clamped slicing and `str.split` (`PyStr`);
- the insertion-ordered `dict` built by `dict(zip(...))`, where a repeated key keeps its first position and its last value (`PyDict`);
- `collections.Counter` and `most_common` as a stable sort by descending count (`Counter`);
- sequence facts (`Seqs`);
- the exceptions the scripts can raise (`Wrappers`).

Modelling choices:
- A missing tag (an empty field read back as NaN, then `fillna(0)`) is `None`.
- The float comparisons are exact integer cross-multiplications: `max >= sum / 2` becomes `2 * max >= sum`, and `u1 / u0 >= 0.7` becomes `10 * u1 >= 7 * u0`.
- Exceptions are `Err` values.
- An empty whitelist builds an empty dict.
- The deciders get one count per row, in sorted row order. The counts of rows that share a label are not added up.
- The script's `umi_count` is the number of the cell's rows. The notebook's is the top count.

## Model

| member | source | states |
|---|---|---|
| Whitelist.ReverseComplement | barcode_final_assignment.py:21-23 | the result has the input's length, and position i holds the complement of the mirrored base; bases other than A/C/G/T pass through |
| Whitelist.ComplementInvolution | barcode_final_assignment.py:22-23 | the base map is its own inverse on every character |
| Whitelist.ReverseComplementInvolution | barcode_final_assignment.py:21-23 | reverse-complementing twice gives back any string, not only A/C/G/T strings |
| Whitelist.OrientRows | barcode_final_assignment.py:21-23 | every row keeps its id and its position; only its sequence is oriented |
| Whitelist.LoadBarcodeFileGet | barcode_final_assignment.py:13-25 | a dict key is an oriented table sequence and maps to the id of the LAST row with that sequence; any other string is absent |
| Whitelist.LoadBarcodeFile | barcode_final_assignment.py:13-25 | the dict's keys are the distinct oriented table sequences, in order of first row |
| Whitelist.LoadBarcodeFileRcKeys | barcode_final_assignment.py:21-25 | with reverse complement on, a string is a key exactly when its reverse complement is a table sequence |
| Whitelist.LoadBarcodes | barcode_process_umi_5.py:44-52 | the pattern list keeps row order, length and duplicates, and each entry is the oriented row sequence |
| Whitelist.PatternsHaveIds | barcode_process_umi_5.py:48-52 | every pattern the matcher searches for has an id in the assignment script's dict built from the same table |
| PyDict.Put | barcode_final_assignment.py:25 | after assignment the key maps to the new value; an existing key keeps its position, and a new key is appended |
| PyDict.PutOther | best_sequence_umi.py:19 | assigning one key leaves every other key's lookup unchanged |
| PyDict.FromRowsKeys | barcode_final_assignment.py:25 | the keys of `dict(zip(...))` are the distinct key-column values, in order of first occurrence |
| PyDict.FromRowsGet | barcode_final_assignment.py:25 | a key maps to the value of its last row; a string not in the key column is absent |
| PyDict.FromRowsHas | sgRNA_assignment.py:62 | a string is a key exactly when some row carries it |
| Seqs.Distinct | barcode_process_umi_5.py:72 | the key list of a Counter has no duplicates, holds exactly the list's elements, and is no longer than the list |
| Seqs.DistinctFirstOccurrenceOrder | barcode_process_umi_5.py:72 | the distinct elements come in increasing order of first occurrence |
| Seqs.Max | barcode_final_assignment.py:48 | `max` of a non-empty list is an element of it, and no element exceeds it |
| Seqs.Filter | sgRNA_assignment.py:68 | a row mask keeps only rows of the input that pass, and every passing row; multiplicity and order are stated by Seqs.FilterCount and Seqs.FilterAppend |
| Seqs.FilterCount | sgRNA_assignment.py:68 | a row mask keeps every passing row exactly as often as the input has it, and no other row |
| Seqs.FilterAppend | sgRNA_assignment.py:68 | the mask of a concatenation is the mask of each part, in order, so kept rows stay in input order |
| PyDict.GroupValues | sgRNA_assignment.py:71 | a group lists one value per row with its key, and each value exactly as often as the table has that (key, value) row |
| PyDict.GroupValuesAppend | sgRNA_assignment.py:71 | the group of a concatenation is the group of each part, in order, so a group keeps row order |
| PyStr.SliceNonNegative | barcode_final_assignment.py:42 | `s[i:j]` with non-negative bounds is the existing part of `s[i..j]`, with length `min(j,len)-min(i,len)` |
| PyStr.SliceLast | barcode_final_assignment.py:43 | `s[-k:]` is the last `min(k, len(s))` characters |
| PyStr.SplitAtRoundTrip | barcode_process_umi_5.py:63-64 | `s[:n] + s[n:] == s`, and the first part has `min(n, len(s))` characters |
| PyStr.JoinSplit | best_sequence_umi.py:10 | joining the fields of `split(sep)` with `sep` gives back the string |
| PyStr.SplitJoin | best_sequence_umi.py:10 | splitting a join of separator-free fields gives back the fields |
| PyStr.SplitFieldCount | best_sequence_umi.py:10 | a split has one field more than the string has separators |
| PyStr.SplitFirstField | best_sequence_umi.py:10 | the first field is the prefix before the first separator, or the whole string when there is none |
| PyStr.FirstWordOfFirstField | best_sequence_umi.py:10 | cutting at the first `_`, then at the first space, gives back a prefix free of both when a separator or the end follows it |
| Counter.Of | barcode_process_umi_5.py:72 | `Counter(xs)` has the distinct elements as keys in first-occurrence order, each with its occurrence count of at least 1 |
| Counter.TallyTotal | sgRNA_assignment.py:41-42 | the counts of a Counter add up to the length of the list |
| Counter.MostCommonOne | sgRNA_assignment.py:31 | `most_common(1)[0]` is an entry of the Counter with a count no other entry exceeds |
| Counter.MostCommonOfList | sgRNA_assignment.py:30-32 | the most common element occurs in the list with maximal count, and every element seen before it is strictly less frequent (ties go to the first seen) |
| Counter.MostCommon | barcode_process_umi_5.py:81-82 | `most_common()` is a permutation of the Counter's entries in non-increasing count order |
| Counter.InsertByCountSorted | barcode_process_umi_5.py:81-82 | inserting an entry into a count-sorted list keeps it sorted |
| Counter.InsertByCountShape | barcode_process_umi_5.py:81-82 | insertion places the entry after every entry of at least its count and shifts the rest by one |
| Counter.MostCommonKeepsTies | barcode_process_umi_5.py:81-82 | entries of equal count keep their Counter order; the sort is stable |
| Counter.RankedEntries | barcode_process_umi_5.py:81-82 | every ranked entry is an element of the list with its true count |
| Counter.MostCommonOrder | barcode_process_umi_5.py:81-82 | the ranking is by descending count, and equally frequent elements come in order of first occurrence in the list |
| Counter.IncrementOf | best_sequence_umi.py:19 | `c[x] += 1` on the Counter of `xs` gives the Counter of `xs + [x]` |
| Matcher.LastIndexAbove | barcode_process_umi_5.py:10-17 | -1 exactly when no value exceeds the target; otherwise an index whose value exceeds it, with no later index that does |
| Matcher.Kept | barcode_process_umi_5.py:28-29 | the kept reads are a prefix of the read list |
| Matcher.KeptOnDescending | barcode_process_umi_5.py:28-29 | on descending counts a read is kept exactly when its count is strictly above the cutoff |
| Matcher.Windows | barcode_process_umi_5.py:32 | window i is the w-character substring at i; there are `len-w+1` of them, or none for a shorter read |
| Matcher.InWindowsIff | barcode_process_umi_5.py:32-35 | a tag is among the windows exactly when it has the window width and occurs in the read |
| Matcher.Matches | barcode_process_umi_5.py:33 | every match is a whitelist entry of the right width that occurs in the read |
| Matcher.MatchesCount | barcode_process_umi_5.py:33 | a hitting tag appears among the matches as often as in the whitelist; a tag that does not hit never appears |
| Matcher.MatchesNonEmpty | barcode_process_umi_5.py:33-35 | there is a match exactly when some whitelist entry hits the read |
| Matcher.MatchesHead | barcode_process_umi_5.py:33 | the first match is the first whitelist entry, in whitelist order, that hits the read |
| Matcher.ShortReadNoMatches | barcode_process_umi_5.py:32-35 | a read shorter than the width yields no match and no error |
| Matcher.HitIndices | barcode_process_umi_5.py:39-41 | the forwarded indices are ascending and are exactly the kept reads with a BC14 or BC30 match |
| Matcher.BcSearch | barcode_process_umi_5.py:20-41 | at most one hit per read; each hit is a read of the list with a count of the list and at least one match |
| Matcher.ProcessCell | barcode_process_umi_5.py:71-96 | every row written for a cell carries that cell |
| Matcher.BcSearchOnDescending | barcode_process_umi_5.py:20-41 | on descending counts, `bc_search` yields in input order exactly the reads above the cutoff that hit a tag, each with its own count and match lists |
| Matcher.ReportIsFirstHit | barcode_process_umi_5.py:94-95 | the reported tag is "" exactly when no entry hits; otherwise it is the first hitting whitelist entry |
| Matcher.ReportOfMatches | barcode_process_umi_5.py:94-95 | a non-empty report is a whitelist entry that hits the read |
| Matcher.ProcessCellRows | barcode_process_umi_5.py:79-96 | every row of a cell names one of its reads, with the read's true occurrence count above the cutoff and at least one reported tag that occurs in the read |
| Matcher.ProcessCellRow | barcode_process_umi_5.py:79-96 | the same, for one row |
| Matcher.ProcessCellOrder | barcode_process_umi_5.py:79-96 | a cell's rows come by descending count, and equally counted reads in order of first occurrence |
| Matcher.ProcessCellSource | barcode_process_umi_5.py:79-96 | the k-th row is the entry of the `most_common()` ranking at the k-th forwarded index |
| Matcher.CellUmiRoundTrip | barcode_process_umi_5.py:63-64 | `cell + umi` gives back `cell_umi`, and the cell has `min(16, len)` characters |
| Matcher.ProcessCells | barcode_process_umi_5.py:63-71 | only whitelisted cells with reads have an entry, and every such cell has a possibly empty entry (no line is written for a cell whose reads hit no tag) |
| Matcher.CellPairs | barcode_process_umi_5.py:63 | each row becomes its `cell_umi[:16]` and its read, in row order |
| Matcher.CellReads | barcode_process_umi_5.py:63-71 | a whitelisted cell gets each read exactly as often as its rows carry it; a cell outside the whitelist gets nothing |
| Matcher.CellReadsAppend | barcode_process_umi_5.py:68-71 | a cell's reads keep file order |
| Matcher.Process | barcode_process_umi_5.py:63-96 | only whitelisted cells have an entry, and every row of an entry carries that entry's cell |
| Matcher.ProcessRowsBelong | barcode_process_umi_5.py:92-96 | every output row carries its own cell and a count above the cutoff |
| Assignment.BcType | barcode_final_assignment.py:28-34 | "bc14_only" exactly when BC14 is missing; "bc30_only" exactly when BC14 is present and BC30 missing; "bc14_bc30" exactly when both are present |
| Assignment.BarcodeName | barcode_final_assignment.py:37-43 | the label is the left part, "_", then the right part; its length is the id lengths plus one, with a missing BC14 id taking the `min(39,len)-min(25,len)` characters of the read window and a missing BC30 id `min(30, len)` characters |
| Assignment.BarcodeNameCases | barcode_final_assignment.py:37-43 | the label is `id14_id30` when both tags are present, with unknown ids read as ""; a missing BC14 id is replaced by characters 25..38 of the read that exist, and a missing BC30 id by the last `min(30, len)` characters |
| Assignment.Decide | barcode_final_assignment.py:46-56 | the call is "NA", "multi_barcode" or the FIRST label, never another one, and it is "NA" whenever the top count is below 5 |
| Assignment.DecideDescending | barcode_final_assignment.py:46-56 | on sorted counts: "NA" below 5, "multi_barcode" exactly when the top is below half the total and the runner-up is at least 70% of it, and otherwise the first label |
| Assignment.MultiNeedsThree | barcode_final_assignment.py:50-53 | on sorted counts a "multi_barcode" call needs at least three candidates, a top below half the total, and a runner-up of at least 70% of the top |
| Assignment.HalfRulePrecedes | barcode_final_assignment.py:50-52 | when the top holds half the total, the first label wins even if the 70% rule would also fire |
| Assignment.SingleCandidate | barcode_final_assignment.py:48-56 | a single candidate is called exactly when it has at least 5 UMIs |
| Assignment.DigitRun | barcode_final_assignment.py:61 | the run starting at i is all digits and stops at a non-digit or at the end |
| Assignment.IdPatternIff | barcode_final_assignment.py:61-66 | the greedy regex matcher accepts exactly the strings that start with `bc14-`, digits, `_bc30-` and a digit, with anything after |
| Assignment.IdPatternSound | barcode_final_assignment.py:61-66 | what the matcher accepts has that prefix shape |
| Assignment.IdPatternComplete | barcode_final_assignment.py:61-66 | every string with that prefix shape is accepted |
| Assignment.FinalAssignedType | barcode_final_assignment.py:59-68 | "NA" maps to Undetermined, "multi_barcode" to MultiBarcode, any other label with the id prefix to One Barcode, and all else to One Barcode with mutant (each both ways) |
| Assignment.Candidates | barcode_final_assignment.py:112-118 | one candidate per row, in row order, whose label is the row's `barcode_name` and whose count is the row's count |
| Assignment.AssignCell | barcode_final_assignment.py:117-125 | a cell's line carries the cell, `umi_count` equal to the NUMBER of its rows, and a call that is "NA", "multi_barcode" or the first row's label, and `barcode_type` equal to `final_assigned_type` of that call (so "One Barcode" implies the id prefix) |
| Assignment.Summarize | barcode_final_assignment.py:116-125 | exactly one line per cell of the table, with `umi_count` the length of the cell's group, which Assignment.RowsOfCount pins to the cell's rows |
| Assignment.RowsOfCount | barcode_final_assignment.py:116-117 | a cell's group holds each of its rows exactly as often as the table does, and no row of another cell |
| Assignment.RowsOfAppend | barcode_final_assignment.py:116-117 | grouping keeps table order within a cell |
| Assignment.RowsOfSorted | barcode_final_assignment.py:111-117 | grouping a table sorted by descending count within each cell keeps each cell's rows sorted |
| Assignment.AssignCellSorted | barcode_final_assignment.py:111-123 | on sorted rows the cell's call follows the sorted reading of the cascade |
| Assignment.SummarizeSorted | barcode_final_assignment.py:105-125 | on a table sorted within cells, every cell's line follows the sorted reading of the cascade |
| Notebook.TagDicts | umi_distribution_analysis_umi_5.py:29-45 | the BC14 dict's keys are the distinct sequences of the first 100 tag rows and the BC30 dict's those of the rest, each in order of first row |
| Notebook.Bc14KeysFromHead | umi_distribution_analysis_umi_5.py:29-45 | a sequence is a BC14 key exactly when it is in one of the first 100 tag rows |
| Notebook.Bc30KeysFromTail | umi_distribution_analysis_umi_5.py:29-45 | a sequence is a BC30 key exactly when it is in a row after the first 100 |
| Notebook.BcTypeVariants | umi_distribution_analysis_umi_5.py:51-58 | the notebook's `bc_type` agrees with the script's exactly when a tag is present; with both tags missing the notebook says "bc30_only" and the script says "bc14_only" |
| Notebook.BcType | umi_distribution_analysis_umi_5.py:51-58 | "bc30_only" exactly when BC30 is missing, whatever BC14 is; "bc14_only" exactly when only BC14 is missing; "bc14_bc30" when both are present |
| Notebook.BcTypeOnMatchedRows | umi_distribution_analysis_umi_5.py:51-58 | on matcher output rows, which always carry a tag, the two `bc_type`s agree |
| Notebook.BcTypeOnProcessedRow | umi_distribution_analysis_umi_5.py:51-58 | any row the matching script writes, read back with "" as missing, gets the same `bc_type` from the notebook and the script |
| Notebook.BarcodeName | umi_distribution_analysis_umi_5.py:61-68 | the only failure is TypeError; a label needs a present tag, and each present tag must have an id |
| Notebook.BarcodeNameVariants | umi_distribution_analysis_umi_5.py:61-68 | the notebook label raises exactly when a present tag has no id or both tags are missing; otherwise it equals the script's label, except that a missing BC30 id is replaced by characters 43..72 of the read |
| Notebook.Decide | umi_distribution_analysis_umi_5.py:70-81 | a result, when there is one, is "NA", "multi_barcode" or the first label, and a top count below 5 gives "NA"; the only failure is UnboundLocalError |
| Notebook.DecideFailsIff | umi_distribution_analysis_umi_5.py:70-81 | the notebook decider raises UnboundLocalError exactly when some count reaches 5 but the first does not |
| Notebook.DecideDescending | umi_distribution_analysis_umi_5.py:70-81 | on sorted counts: "NA" below 5, "multi_barcode" exactly when the runner-up is at least 70% of the top, and otherwise the first label; the total plays no part |
| Notebook.DecidersAgreeIff | umi_distribution_analysis_umi_5.py:73-78 | on sorted counts the two deciders disagree exactly when the top is at least 5 and holds half the total, and the runner-up is at least 70% of the top |
| Notebook.SpelledDecide | umi_distribution_analysis_umi_5.py:70-81 | the notebook decider with the half-total rule assigning the right variable: the same three outcomes, "NA" below 5, UnboundLocalError the only failure |
| Notebook.SpellingMasked | umi_distribution_analysis_umi_5.py:73-78 | on sorted counts the spelling of the half-total rule changes nothing, because the 70% rules after it overwrite its result |
| Notebook.SpellingMattersUnsorted | umi_distribution_analysis_umi_5.py:71-81 | counts [4, 6] give the first label with the right spelling and UnboundLocalError as written |
| Notebook.FiveFourDiffers | umi_distribution_analysis_umi_5.py:73-76 | counts [5, 4] give the first label in the script and "multi_barcode" in the notebook |
| Notebook.Candidates | umi_distribution_analysis_umi_5.py:169-176 | the candidates exist exactly when every row's label resolves, one per row in row order |
| Notebook.AssignCell | umi_distribution_analysis_umi_5.py:183-195 | a line exists exactly when Notebook.Decide succeeds (otherwise the same error); it carries the cell, that call, `barcode_type` equal to `final_assigned_type` of the call, and `umi_count` equal to the FIRST count |
| Notebook.UmiCountVariants | umi_distribution_analysis_umi_5.py:189 | on sorted rows the notebook's `umi_count` is the largest count, while the script's is the row count |
| SgRna.FindSgRna | sgRNA_assignment.py:17-24 | "NA" when no reference sequence followed by TTTT occurs in the read; otherwise the id of the first such reference in dict order |
| SgRna.FindMostCommonElement | sgRNA_assignment.py:26-32 | an element of maximal count with that count; elements seen before it are strictly less frequent |
| SgRna.SingleEntry | sgRNA_assignment.py:38-39 | a Counter with one key holds every element of the list |
| SgRna.EntryPlusOthers | sgRNA_assignment.py:42 | an entry's count plus the sum over the other entries is the Counter's total |
| SgRna.TopAndOthers | sgRNA_assignment.py:41-42 | the most common count plus the sum of the others is the number of guides |
| SgRna.FindSpecialItem | sgRNA_assignment.py:34-44 | a one-entry Counter gives its only key; any returned guide is a key of the Counter |
| SgRna.SpecialItemIsMajority | sgRNA_assignment.py:34-44 | `find_special_item` returns x exactly when x holds a strict majority of the cell's guides (so {a: 2, b: 2} gives None) |
| SgRna.NoMajority | sgRNA_assignment.py:80-81 | without a special item, no guide holds a strict majority |
| SgRna.Tagged | sgRNA_assignment.py:57-65 | each read is tagged with `cell_umi[:16]` and its `find_sgRNA` result, in row order |
| SgRna.CellGuides | sgRNA_assignment.py:68-71 | a cell's guide list never contains "NA", and holds every other guide exactly as often as the cell's reads are tagged with it |
| SgRna.CellGuidesAppend | sgRNA_assignment.py:68-71 | a cell's guides keep table order |
| SgRna.CellGuidesNonEmpty | sgRNA_assignment.py:68-71 | a cell with a tagged read has a non-empty guide list |
| SgRna.References | sgRNA_assignment.py:62 | the reference keys are the distinct target sequences in first-occurrence order |
| SgRna.DistinctCardinality | sgRNA_assignment.py:76 | `len(set(x))` is the number of distinct guides |
| SgRna.CallCell | sgRNA_assignment.py:74-81 | a cell keeps a line exactly when a guide holds a strict majority, which is then the assigned guide; the line's top guide has a maximal count, and `number` counts the distinct guides |
| SgRna.Assign | sgRNA_assignment.py:56-81 | only cells with a tagged read have a line, and each line carries its own cell |
| SgRna.AssignSpec | sgRNA_assignment.py:56-81 | a cell is in the output exactly when it has a tagged read and a strict-majority guide, and its guide list excludes "NA" |
| Ingest.ExtractUmi | best_sequence_umi.py:9-10 | the key is an IndexError exactly when the header has fewer than two underscores; otherwise it contains no underscore |
| Ingest.ExtractUmiOfHeader | best_sequence_umi.py:9-10 | a header `<name>_<cell>_<umi><tail>`, with a tail that is empty or starts with a space or underscore, yields `cell + umi` |
| Ingest.HeaderFields | best_sequence_umi.py:10 | the first two `_`-fields of `<name>_<cell>_<rest>` are name and cell |
| Ingest.KeySplitsBack | best_sequence_umi.py:10 | with a 16-character cell field, the downstream `[:16]` / `[16:]` split gives back cell and UMI |
| Ingest.Keyed | best_sequence_umi.py:13-16 | the loop fails exactly when some header has no key; otherwise every record gets its key and sequence, in record order |
| Ingest.Tallies | best_sequence_umi.py:13-19 | the nested tally has at most one entry per record, and each key is a record's key |
| Ingest.TalliesKeys | best_sequence_umi.py:19-22 | the nested tally has the distinct keys in order of first record |
| Ingest.BumpGet | best_sequence_umi.py:19 | one loop step changes only the tally of the record's own key |
| Ingest.TalliesGet | best_sequence_umi.py:19 | the tally under a key is the Counter of that key's group, so by PyDict.GroupValues the count stored for (key, sequence) is the number of records with that key and that sequence |
| Ingest.TalliesEntries | best_sequence_umi.py:19 | every entry of the nested tally is the Counter of a key that occurs |
| Ingest.BestRows | best_sequence_umi.py:22-27 | the output fails exactly when some header has no key |
| Ingest.BestRowsSpec | best_sequence_umi.py:22-27 | one line per distinct key, in order of first record, with a sequence of maximal count under its key (the first seen on ties) and that count, which is at least 1 |

## Left out

- Reading and writing files (pandas, CSV/TSV, gzip, Bio.SeqIO FASTQ parsing), argparse, file-existence checks and column-name selection are left out. Records and table rows are sequences of datatypes.
- Plotting and the summary statistics (`final_barcode_distribution`, `umi_distribution_pie`) are left out. They are reporting code that needs matplotlib and numpy.
- Floating point: the two ratio tests are integer cross-multiplications. These agree with Python's float division for every count below about 10^15.
- Assignment.Decide: requires every count to be at least 1, as a UMI tally always is. With a zero first count the source would divide by zero at `barcode_final_assignment.py:52`; that error path is not modelled.
- Notebook.Decide: requires every count to be at least 1, for the same reason.
- Seqs.Max: requires a non-empty list. Python's `max` raises on an empty one, but every caller passes a cell's group, and a group is never empty.
- Counter.MostCommonOne: requires a non-empty Counter. `most_common(1)[0]` raises IndexError on an empty one, but it is only applied to Counters of non-empty groups.
- SgRna.FindMostCommonElement: requires a non-empty guide list, for the same reason.
- Table order is not modelled:
  - The outputs are maps keyed by cell, not tables in pandas' order of cells.
  - The sort by descending count within a cell (`sort_values`) is a precondition of the sorted-input lemmas; pandas' sort algorithm and its tie order are not modelled.
- `bc_search` is a lazy generator; the model computes its whole output at once.
- Python's `\d` also matches non-ASCII digits. The model accepts ASCII digits only.
- Matcher.ProcessCells: states only membership of cells in the output. What each cell's rows hold is stated by Matcher.ProcessCellRows and Matcher.ProcessCellOrder.
- Bases are characters. No encoding or case folding is modelled.
- Seqs.Filter: its own contract gives membership only; multiplicity and order are the lemmas Seqs.FilterCount and Seqs.FilterAppend, kept out of the function contract because that quantifier made every caller's proof too expensive.
- Matcher.BcSearch: its own contract gives only which reads and counts can appear; the exact yields are stated by Matcher.BcSearchOnDescending, for the descending counts `most_common()` supplies.
- Matcher.ProcessCell: its own contract gives only the cell of each row; the rows' contents and order are Matcher.ProcessCellRows and Matcher.ProcessCellOrder.
- Matcher.Process: its own contract gives only keys and cells; Matcher.ProcessCells, Matcher.ProcessAt and Matcher.ProcessRowsBelong state the rest.
- SgRna.FindSpecialItem: its own contract gives only the one-key case and that the result is a key; the majority rule is SgRna.SpecialItemIsMajority.
- SgRna.Assign: its own contract gives only keys and cells; which cells have a line and which guide they get is SgRna.AssignSpec.
- Ingest.Tallies: its own contract gives only a size bound and the keys' origin; key order and contents are Ingest.TalliesKeys and Ingest.TalliesGet.
- Notebook.BarcodeName: its own contract gives one direction of when a label exists; the exact condition and the label itself are Notebook.BarcodeNameVariants.

## Findings

| source | as written | input that shows it | evidently intended | confidence | as-written member | corrected member |
|---|---|---|---|---|---|---|
| umi_distribution_analysis_umi_5.py:73-78 | the half-total rule is followed by independent `if`s (lines 75-78), not an early return, so on sorted counts a 70% rule always runs after it and overwrites its result; line 74 also assigns the misspelled `final_assigned_barocode`, which on its own changes only unsorted input whose first count is below 5 (Notebook.SpellingMasked, Notebook.SpellingMattersUnsorted) | sorted counts [5, 4]: the top holds more than half of 9, yet 4 is 80% of 5, so the notebook calls "multi_barcode" | the first label wins whenever the top count holds half the total, as in `barcode_final_assignment.py:50-51` | not executed | Notebook.Decide (shown by Notebook.FiveFourDiffers and Notebook.DecidersAgreeIff) | Assignment.Decide (proved by Assignment.HalfRulePrecedes and Assignment.DecideDescending) |
