# Somatic consensus merger

This project models the consensus step of the somatic variant combiner
(`somatic-combiner.py`). Several variant callers each produce a filtered
variant table: Mutect2, MuSE, Strelka SNVs and indels, and VarScan SNVs and
indels. The combiner reads every table into a map from variant key
`(CHROM, POS, REF, ALT)` to record `(INFO, FORMAT, samples)`. It keeps each
key that at least two caller entries report. For each such key it merges the
callers' sample fields into one row with NORMAL and TUMOR columns. It writes a
fixed header and the rows, sorted by chromosome and position.

The model is split into these modules:

- `Text` (text.dfy): the Python string operations the program relies on.
  These are `startswith`, `isspace`, `rstrip`, `strip`, `split` and `join`
  with a one-character separator, `int()` and `str()` on decimal numbers, and
  string `<`.
- `Chromosomes` (chromosomes.dfy): `chr_sort_key` and the tuple order on its
  results.
- `FilteredTable` (table.dfy): `parse_filtered_vcf`, over the file's lines.
  It has a function specification (`ParseTable`) and a method with the
  program's two loops (`ParseFilteredVcf`).
- `FieldMerge` (fields.dfy): `merge_variant_fields`. It has a function
  specification (`MergeSpec`) and a method with the caller loop and the
  dictionary-update loop (`MergeVariantFields`).
- `MergedRecord` (records.dfy): the per-key part of `main`. This covers the
  present callers, the INFO column, the FORMAT union, the value columns and
  the output row.
- `MergedHeader` (header.dfy): the fixed header and the column line.
- `Combiner` (combiner.dfy): the key union, the sort, and the output loop
  over the sorted keys (`CombineTables`).

The model follows what the code does, even where its comments and docstring
say otherwise:

- No field is averaged. Among the present callers in caller order, the last
  one to supply a TUMOR field wins. The NORMAL data is never written, so its
  only entry is GT ".", and every NORMAL value in a row is ".".
- CC counts caller entries, so Strelka SNVs and Strelka indels count as two.
  CL lists the entry names in the order the entries are registered.
- The FORMAT column is the union of the present callers' FORMAT keys. It
  lists those in `GT,DP,AF,SB,GQ,MQ,MQ0` first, in that order, then the
  remaining keys sorted. It is not a fixed list.
- The header has 37 lines: the file format line, 25 contig lines, 3 INFO
  definitions and 8 FORMAT definitions. The column line follows them.

Lines are modelled without their line terminator. Python exceptions are
modelled as error values:

- `ParseError` covers an `IndexError` on a short data line and a `ValueError`
  from `int()` on POS.
- `MergeError` covers an `IndexError` on a record without a sample column or
  with fewer sample values than FORMAT keys.

An error ends the run. `CombineTables` returns the lines written up to that
point together with the error.

## Model

| member | source | states |
|---|---|---|
| Chromosomes.StripChrPrefix | ngs-pipelines/dna-seq/somatic-combiner/somatic-combiner.py:13-15 | a label with a case-insensitive `chr` prefix is that prefix followed by the result; any other label is returned unchanged |
| Chromosomes.ChrSortKey | ngs-pipelines/dna-seq/somatic-combiner/somatic-combiner.py:12-24 | `chr_sort_key` itself: `(0, n)` for a number, 23/24/25 for X, Y and M/MT, `(1, label)` otherwise; its properties are stated by NumberedRank, SexAndMitoRanks, PrefixCaseInsensitive, PrefixOptional and ConventionalOrder |
| Chromosomes.RankLessStrictTotal | ngs-pipelines/dna-seq/somatic-combiner/somatic-combiner.py:12-24 | the tuple order on `chr_sort_key` results is irreflexive, total, asymmetric and transitive |
| Chromosomes.PrefixCaseInsensitive | ngs-pipelines/dna-seq/somatic-combiner/somatic-combiner.py:14-15 | any case of the `chr` prefix gives the same rank as `chr` |
| Chromosomes.PrefixOptional | ngs-pipelines/dna-seq/somatic-combiner/somatic-combiner.py:13-15 | a label without the prefix ranks the same as `chr` followed by that label |
| Chromosomes.NumberedRank | ngs-pipelines/dna-seq/somatic-combiner/somatic-combiner.py:16-17 | `chr<n>` has standard rank n for every n |
| Chromosomes.SexAndMitoRanks | ngs-pipelines/dna-seq/somatic-combiner/somatic-combiner.py:18-24 | chrX, chrY and chrM/chrMT rank 23, 24 and 25; lower-case x and m fall into the non-standard bucket |
| Chromosomes.ConventionalOrder | ngs-pipelines/dna-seq/somatic-combiner/somatic-combiner.py:12-24 | chr2 < chr10 < chrX < chrY < chrM < any non-standard contig |
| FilteredTable.ParseDataLine | ngs-pipelines/dna-seq/somatic-combiner/somatic-combiner.py:46-55 | a data line fails exactly when it has fewer than 9 tab fields or a POS that is not a decimal number; it fails with the POS error exactly when it has at least 2 fields and a bad POS; a parsed key and record hold no tab |
| FilteredTable.ScanHeader | ngs-pipelines/dna-seq/somatic-combiner/somatic-combiner.py:37-42 | the first loop as a function: the right-stripped `##` lines, the `#CHROM` line and where the second loop resumes; stated by HeaderBeforeColumnLine and HeaderWithoutColumnLine |
| FilteredTable.ParseRecords | ngs-pipelines/dna-seq/somatic-combiner/somatic-combiner.py:43-55 | the second loop as a function: skip, overwrite, first error; stated by RecordsLastWins, RecordsCoverDataLines, RecordsFailAtFirstBadLine and RecordsWithoutBadLine |
| FilteredTable.ParseTable | ngs-pipelines/dna-seq/somatic-combiner/somatic-combiner.py:26-56 | the whole parse: header scan, then the records from where the scan stopped; stated by HeaderBeforeColumnLine and HeaderWithoutColumnLine |
| FilteredTable.ParseFilteredVcf | ngs-pipelines/dna-seq/somatic-combiner/somatic-combiner.py:26-56 | the two-loop parse returns the header, the column line and the records that `ParseTable` specifies, or its error |
| FilteredTable.ReadHeader | ngs-pipelines/dna-seq/somatic-combiner/somatic-combiner.py:37-42 | the first loop collects the right-stripped `##` lines, stops at the `#CHROM` line and resumes after it, as `ScanHeader` specifies |
| FilteredTable.ReadRecords | ngs-pipelines/dna-seq/somatic-combiner/somatic-combiner.py:43-55 | the second loop skips blank and `#` lines, lets a later line overwrite an earlier one with the same key, and stops at the first malformed line, as `ParseRecords` specifies |
| FilteredTable.HeaderBeforeColumnLine | ngs-pipelines/dna-seq/somatic-combiner/somatic-combiner.py:37-43 | with a `#CHROM` line at j, the header is exactly the right-stripped `##` lines before j in order, the column header is that line right-stripped, and the records come from the lines after it only |
| FilteredTable.HeaderWithoutColumnLine | ngs-pipelines/dna-seq/somatic-combiner/somatic-combiner.py:37-43 | without a `#CHROM` line every `##` line is header, there is no column header and no record |
| FilteredTable.RecordsLastWins | ngs-pipelines/dna-seq/somatic-combiner/somatic-combiner.py:44-55 | every stored record comes from a non-skipped data line with that key, and from the last such line |
| FilteredTable.RecordsCoverDataLines | ngs-pipelines/dna-seq/somatic-combiner/somatic-combiner.py:44-55 | after a successful parse every non-skipped line parses and its key is stored |
| FilteredTable.RecordsFailAtFirstBadLine | ngs-pipelines/dna-seq/somatic-combiner/somatic-combiner.py:46-48 | the parse fails with the error of the first malformed data line |
| FilteredTable.RecordsWithoutBadLine | ngs-pipelines/dna-seq/somatic-combiner/somatic-combiner.py:43-55 | without a malformed data line the parse succeeds |
| FilteredTable.RecordsTabFree | ngs-pipelines/dna-seq/somatic-combiner/somatic-combiner.py:46-55 | every stored key and record is free of tabs |
| FilteredTable.DataLineRoundTrip | ngs-pipelines/dna-seq/somatic-combiner/somatic-combiner.py:46-55 | tab-joined fields (at least 9, decimal POS, no trailing whitespace) parse back to the key and record those fields give |
| FieldMerge.PairFields | ngs-pipelines/dna-seq/somatic-combiner/somatic-combiner.py:71 | every FORMAT key is in `val_map`, and a key's last position gives its value |
| FieldMerge.PairFieldsDomain | ngs-pipelines/dna-seq/somatic-combiner/somatic-combiner.py:71 | `val_map` holds exactly the FORMAT keys and nothing else |
| FieldMerge.SampleFields | ngs-pipelines/dna-seq/somatic-combiner/somatic-combiner.py:67-71 | `val_map` for one caller, or the IndexError of a missing sample column or too few sample values; stated by SuppliesIffListed and TumorFailsAtFirstCaller |
| FieldMerge.SuppliesIffListed | ngs-pipelines/dna-seq/somatic-combiner/somatic-combiner.py:68-71 | a readable record supplies a field exactly when its FORMAT column lists it, so TumorLastWriter and TumorUnsupplied speak of the callers whose FORMAT includes the field |
| FieldMerge.Overwrite | ngs-pipelines/dna-seq/somatic-combiner/somatic-combiner.py:95-97 | one caller's update of `tumor_data`: a tracked key takes the `val_map` value when there is one; computed by UpdateFields |
| FieldMerge.TumorData | ngs-pipelines/dna-seq/somatic-combiner/somatic-combiner.py:63-97 | `tumor_data` after the caller loop, or the first caller's error; stated by TumorDataKeys, TumorLastWriter, TumorUnsupplied and TumorFailsAtFirstCaller |
| FieldMerge.Finish | ngs-pipelines/dna-seq/somatic-combiner/somatic-combiner.py:103-121 | the `result` dict: NORMAL holds GT "." only, TUMOR holds GT and the numeric fields that are not "."; stated by MergedLookups |
| FieldMerge.MergeSpec | ngs-pipelines/dna-seq/somatic-combiner/somatic-combiner.py:58-124 | `merge_variant_fields` as a function; computed by MergeVariantFields and stated by MergedLookups and MergedValuesClean |
| FieldMerge.MergeVariantFields | ngs-pipelines/dna-seq/somatic-combiner/somatic-combiner.py:58-124 | the caller loop returns the NORMAL/TUMOR data or the error that `MergeSpec` specifies over the present callers' records in order |
| FieldMerge.UpdateFields | ngs-pipelines/dna-seq/somatic-combiner/somatic-combiner.py:95-97 | the inner loop overwrites exactly the tracked fields `val_map` supplies and leaves the rest |
| FieldMerge.TumorDataKeys | ngs-pipelines/dna-seq/somatic-combiner/somatic-combiner.py:64-97 | `tumor_data` keeps exactly the six tracked fields, and no value holds a colon |
| FieldMerge.TumorLastWriter | ngs-pipelines/dna-seq/somatic-combiner/somatic-combiner.py:66-97 | a tracked TUMOR field holds the value of the last present caller that supplies it |
| FieldMerge.TumorUnsupplied | ngs-pipelines/dna-seq/somatic-combiner/somatic-combiner.py:64-97 | a tracked field that no present caller supplies stays "." |
| FieldMerge.TumorFailsAtFirstCaller | ngs-pipelines/dna-seq/somatic-combiner/somatic-combiner.py:67-71 | the merge fails with the error of the first caller whose record has no sample column or too few sample values |
| FieldMerge.TumorSucceeds | ngs-pipelines/dna-seq/somatic-combiner/somatic-combiner.py:66-97 | when every present record can be read, the merge succeeds |
| FieldMerge.MergedLookups | ngs-pipelines/dna-seq/somatic-combiner/somatic-combiner.py:103-121 | every NORMAL lookup gives "."; a TUMOR lookup gives the last-writer value of a tracked field and "." for any other key |
| FieldMerge.MergedValuesClean | ngs-pipelines/dna-seq/somatic-combiner/somatic-combiner.py:103-121 | merged values from tab-free records hold neither a tab nor a colon |
| MergedRecord.PresentCallers | ngs-pipelines/dna-seq/somatic-combiner/somatic-combiner.py:244 | the present callers are exactly the entries whose table holds the key, in registration order, each once |
| MergedRecord.BuildInfo | ngs-pipelines/dna-seq/somatic-combiner/somatic-combiner.py:254-267 | the loop with its early `break` builds the INFO column that `MergedInfo` specifies |
| MergedRecord.MergedInfo | ngs-pipelines/dna-seq/somatic-combiner/somatic-combiner.py:254-267 | the INFO column `CC=..;CL=..[;SOMATIC]`; stated by ReadInfo |
| MergedRecord.ReadInfo | ngs-pipelines/dna-seq/somatic-combiner/somatic-combiner.py:254-267 | INFO splits on `;` into CC, CL and possibly SOMATIC; CC reads back as the number of entries, CL splits into their names, and SOMATIC appears exactly when some present INFO has that exact token |
| MergedRecord.NamesClean | ngs-pipelines/dna-seq/somatic-combiner/somatic-combiner.py:256 | no caller name holds `;`, `,` or a tab, so CL is unambiguous |
| MergedRecord.BuildFormat | ngs-pipelines/dna-seq/somatic-combiner/somatic-combiner.py:270-281 | the appending loops build the FORMAT list that `FormatUnion` specifies over the union of the present FORMAT keys |
| MergedRecord.FormatUnion | ngs-pipelines/dna-seq/somatic-combiner/somatic-combiner.py:270-281 | `fmt_union`: the preferred keys in the union, then the other keys sorted; stated by FormatUnionElements, FormatUnionOrder and FormatUnionClean |
| MergedRecord.PreferredFrom | ngs-pipelines/dna-seq/somatic-combiner/somatic-combiner.py:276-277 | the preferred part holds exactly the preferred keys in the union, in preferred order |
| MergedRecord.FormatUnionElements | ngs-pipelines/dna-seq/somatic-combiner/somatic-combiner.py:270-280 | the FORMAT list holds exactly the union's keys |
| MergedRecord.FormatUnionOrder | ngs-pipelines/dna-seq/somatic-combiner/somatic-combiner.py:276-280 | preferred keys come first in preferred order, then the rest in ascending string order, so no key repeats |
| MergedRecord.FormatUnionClean | ngs-pipelines/dna-seq/somatic-combiner/somatic-combiner.py:270-281 | FORMAT keys hold no colon, hold no tab when the records hold none, and there is at least one |
| MergedRecord.Values | ngs-pipelines/dna-seq/somatic-combiner/somatic-combiner.py:284-285 | `normal_vals`/`tumor_vals`: the sample value of each FORMAT key, "." when absent; stated by MergedLookups and RowColumns |
| MergedRecord.RowFields | ngs-pipelines/dna-seq/somatic-combiner/somatic-combiner.py:288-300 | the 11 fields of an output row |
| MergedRecord.Row | ngs-pipelines/dna-seq/somatic-combiner/somatic-combiner.py:287-301 | the tab-joined output row; stated by RowColumns and ReadRow |
| MergedRecord.ReadRow | ngs-pipelines/dna-seq/somatic-combiner/somatic-combiner.py:287-301 | a row read back by the table parser gives its key, INFO, FORMAT and the NORMAL and TUMOR columns |
| MergedRecord.RowColumns | ngs-pipelines/dna-seq/somatic-combiner/somatic-combiner.py:284-301 | a row has 11 tab fields: CHROM, POS (reads back as the position), ".", REF, ALT, ".", "PASS", INFO, FORMAT, and one NORMAL and one TUMOR value per FORMAT key |
| MergedRecord.MergeReadable | ngs-pipelines/dna-seq/somatic-combiner/somatic-combiner.py:249-301 | the merged row of tab-free records meets what `RowColumns` needs, and every NORMAL value in it is "." |
| MergedHeader.HeaderShape | ngs-pipelines/dna-seq/somatic-combiner/somatic-combiner.py:196-219 | the header has 37 lines, each a `##` line the parser keeps unchanged |
| MergedHeader.HeaderLines | ngs-pipelines/dna-seq/somatic-combiner/somatic-combiner.py:196-219 | `merged_header`; stated by HeaderShape, ContigRanks and HeaderReadsBack |
| MergedHeader.ColumnHeader | ngs-pipelines/dna-seq/somatic-combiner/somatic-combiner.py:222-224 | `column_header`; stated by ColumnHeaderRecognised and ColumnHeaderNames |
| MergedHeader.ContigRanks | ngs-pipelines/dna-seq/somatic-combiner/somatic-combiner.py:202-204 | there are 25 contig lines, the i-th has rank i + 1 under `chr_sort_key` |
| MergedHeader.ColumnHeaderRecognised | ngs-pipelines/dna-seq/somatic-combiner/somatic-combiner.py:222-224 | the column line starts with `#CHROM` |
| MergedHeader.ColumnHeaderNames | ngs-pipelines/dna-seq/somatic-combiner/somatic-combiner.py:222-224 | the column line splits into 11 names, the last two NORMAL and TUMOR |
| MergedHeader.HeaderReadsBack | ngs-pipelines/dna-seq/somatic-combiner/somatic-combiner.py:196-224 | a file made of the header, the column line and any rows parses exactly when the rows do, giving back this header and column line |
| Combiner.AllKeys | ngs-pipelines/dna-seq/somatic-combiner/somatic-combiner.py:228-230 | the key union holds every key of every table and nothing else |
| Combiner.CollectKeys | ngs-pipelines/dna-seq/somatic-combiner/somatic-combiner.py:228-230 | the update loop computes `AllKeys` |
| Combiner.SortLess | ngs-pipelines/dna-seq/somatic-combiner/somatic-combiner.py:232 | the sort key `(chr_sort_key(chrom), pos)` of the program compared as a tuple; stated by KeyLessRefines, SortedKeysAsWritten and TiedKeysEitherOrder |
| Combiner.KeyLessStrictTotal | ngs-pipelines/dna-seq/somatic-combiner/somatic-combiner.py:232 | the row order is a strict total order on variant keys |
| Combiner.KeyLessRefines | ngs-pipelines/dna-seq/somatic-combiner/somatic-combiner.py:232 | a key before another in row order never has a greater `(chr_sort_key, pos)` |
| Combiner.SortedKeys | ngs-pipelines/dna-seq/somatic-combiner/somatic-combiner.py:232 | the sorted keys are exactly the set's keys, strictly increasing |
| Combiner.SortedKeysUnique | ngs-pipelines/dna-seq/somatic-combiner/somatic-combiner.py:232 | any strictly increasing listing of a key set equals `SortedKeys`, so the row order is determined |
| Combiner.SortedKeysAsWritten | ngs-pipelines/dna-seq/somatic-combiner/somatic-combiner.py:232 | the corrected order is one that `sorted` may produce as written |
| Combiner.TiedKeysEitherOrder | ngs-pipelines/dna-seq/somatic-combiner/somatic-combiner.py:232 | two distinct keys with the same sort key are sorted as written in both orders |
| Combiner.TiedAlleles | ngs-pipelines/dna-seq/somatic-combiner/somatic-combiner.py:232 | chr1:100 A>G and chr1:100 A>T are such a pair: distinct, and sorted as written in both orders |
| Combiner.SortKeys | ngs-pipelines/dna-seq/somatic-combiner/somatic-combiner.py:232 | the selection loop returns `SortedKeys` |
| Combiner.RenderKey | ngs-pipelines/dna-seq/somatic-combiner/somatic-combiner.py:243-246 | a key is skipped exactly when fewer than two entries report it |
| Combiner.MergeKey | ngs-pipelines/dna-seq/somatic-combiner/somatic-combiner.py:243-301 | the loop body for one key skips it, writes its merged row or reports the merge error, as `RenderKey` specifies |
| Combiner.Merged | ngs-pipelines/dna-seq/somatic-combiner/somatic-combiner.py:242-246 | the written keys are exactly the keys that are not skipped |
| Combiner.WriteMerged | ngs-pipelines/dna-seq/somatic-combiner/somatic-combiner.py:242-301 | the output loop writes the rows and stops at the error that `WriteRows` specifies |
| Combiner.WriteRows | ngs-pipelines/dna-seq/somatic-combiner/somatic-combiner.py:242-301 | the output loop as a function: skipped keys write nothing, rows in order, the first failure stops it; stated by RowsOfMerged and RowsBeforeFailure |
| Combiner.Combined | ngs-pipelines/dna-seq/somatic-combiner/somatic-combiner.py:228-301 | the rows and the error of a whole run; stated by MergedKeys and CompletedRun |
| Combiner.CombineTables | ngs-pipelines/dna-seq/somatic-combiner/somatic-combiner.py:228-301 | the output is the header, the column line and the rows of `Combined`, and the run's error is that of `Combined` |
| Combiner.RowsOfMerged | ngs-pipelines/dna-seq/somatic-combiner/somatic-combiner.py:242-301 | when the loop completes, its i-th row is the row of the i-th key it does not skip |
| Combiner.RowsBeforeFailure | ngs-pipelines/dna-seq/somatic-combiner/somatic-combiner.py:242-301 | when the loop stops, the error is that of some key, and the rows written are those of the keys before it, which all render without error |
| Combiner.MergedAscending | ngs-pipelines/dna-seq/somatic-combiner/somatic-combiner.py:242-246 | skipping keys keeps the written keys in row order |
| Combiner.MergedKeys | ngs-pipelines/dna-seq/somatic-combiner/somatic-combiner.py:228-246 | a key is written exactly when at least two entries report it, once, and in row order |
| Combiner.CompletedRun | ngs-pipelines/dna-seq/somatic-combiner/somatic-combiner.py:228-301 | a completed run writes one merged row per key that at least two entries report, in row order |
| Combiner.EmittedReadable | ngs-pipelines/dna-seq/somatic-combiner/somatic-combiner.py:244-301 | a row merged from parsed, tab-free tables reads back column by column, and its NORMAL values are all "." |

## Left out

- Command-line parsing, creating the output directory, and opening, reading
  and writing files (lines 127-141 and 235-240) are not modelled. A table is
  given as its list of lines, and the output is returned as a list of lines.
- The filter step (lines 143-169) is not modelled. It loads the filter
  modules dynamically and calls them, and the filter modules themselves are
  not part of this model. A caller entry is present when its table is given.
- The per-entry parse loop (lines 177-181) is not modelled as such: no member
  runs `ParseTable` over every entry's lines. `CombineTables` starts from
  tables that have already been parsed. In the program, a parse error in any
  entry ends the run before the output file is opened (line 236), so nothing
  is written.
- The scraping of contig and FORMAT definitions from the callers' headers
  (lines 182-192) is not modelled. Its results are never read. Its error path
  is dropped too: a `##contig` line without `ID=` (line 185) or a `##FORMAT`
  line without `<ID=` (line 191) raises an IndexError that ends the run
  before anything is written.
- `timestamp`, the progress messages and the `tqdm` progress bar are not
  modelled. They only log.
- The averaging branch in `merge_variant_fields` (lines 111-117) is
  unreachable, because the NORMAL data is never written. It would need
  floating point, so it is not modelled.
- `int()` on POS accepts only ASCII decimal digits in the model. Python also
  accepts signs, surrounding whitespace, underscores and other Unicode
  decimal digits.
- Chromosomes.ChrSortKey: treats only ASCII digits as a number. Python's
  `isdigit` also accepts other Unicode digits. For decimal digits of other
  scripts the program ranks the label by its value, while the model ranks it
  as a non-standard label. For characters such as `²`, `isdigit` is true but
  `int()` raises a ValueError (line 17), so the program's sort (line 232)
  fails, while the model ranks `chr²` as the non-standard label `²`.
- The helper script that generates a configuration file for the HRD score
  pipeline is not part of this model.
- Combiner.SortKeys: breaks ties between keys with equal
  `(chr_sort_key, pos)` by chromosome label, REF and ALT. The program leaves
  such ties in the iteration order of a Python set (see Findings).
- Combiner.CombineTables: returns the lines written before a merge error
  instead of raising an exception with a partly written file.

## Findings

| source | as written | input that shows it | evidently intended | confidence | as-written member | corrected member |
|---|---|---|---|---|---|---|
| ngs-pipelines/dna-seq/somatic-combiner/somatic-combiner.py:232 | `sorted(all_keys, key=(chr_sort_key, pos))` orders only by chromosome rank and position, so keys at the same position keep the iteration order of the `all_keys` set, which varies between runs | `("chr1", 100, "A", "G")` and `("chr1", 100, "A", "T")` present in two callers each: both row orders are sorted as written (Combiner.TiedAlleles) | a deterministic row order: ties broken by the rest of the key | not executed | Combiner.TiedKeysEitherOrder | Combiner.SortedKeysUnique |
