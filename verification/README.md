# CSV key-join comparator, modelled in Dafny

The `compare_utility` package compares two CSV files that share a key column.
It first indexes each file by key: it reads the header line, finds the key
column, and records for every key value the character offset of the last
line that carries it. It then builds one unified column list: the key,
then file1's other columns, then the columns only file2 has. The keys are
split into three parts: keys in both files, keys only in file1, and keys
only in file2. Each part gets a section of rows:

- a matched key gets two rows, one per file;
- a cell is highlighted when the column is in both headers and the two values differ;
- an only-in key gets a single row.

There are two versions of the writing phase:

- `compare_csv_files.py` writes each section to one sheet and counts matched keys;
- `comparator.py` sends every row through `append_row_with_split`. This sink starts a new sheet, headed by the header row again, whenever the current sheet holds `EXCEL_MAX_ROWS` rows. This version counts matched rows.

The model is pure. A file is its text (`string`), and an offset is a
character position in it. The header and each data line are
`line.strip().split(',')`. An index is a `map<string, nat>`. A cell is a
value plus a highlight flag. A sheet section is a list of (sheet, row
count) pairs.

Modules:

- `Prelude` (`prelude.dfy`) holds the shared pieces: `Option`, `Result`, duplicate-free lists, `list.index` and `str()` of a natural number.
- `Text` (`text.dfy`) models `str.strip()` over the full `str.isspace()` set, `str.split(',')` and `readline()`.
- `CsvIndexer` (`csv_indexer.dfy`) models the indexer and the row fetcher.
- `ExcelWriter` (`excel_writer.dfy`) models the page-splitting sink.
- `Comparator` (`comparator.dfy`) models the column list, the partitions, the row shapes and both writing phases.

The index has a declarative meaning, `IsKeyIndex`:

- every entry points at the start of a data line carrying that key;
- every data line carrying a key lies at or before its key's entry.

So each entry is the last line that carries its key, and such an index is unique.

## Model

| member | source | states |
|---|---|---|
| `Prelude.IndexOf` | compare_utility/csv_indexer.py:7 | `header.index(keycol)`: None exactly when the name is absent (where Python raises); otherwise the first position holding it |
| `Prelude.NatToString` | compare_utility/excel_writer.py:12 | the `{idx}` of a sheet title: non-empty decimal digits without a leading zero that read back as the number |
| `Text.StripMeaning` | compare_utility/csv_indexer.py:6 | `strip()` keeps the infix left after removing the whitespace at both ends; the result neither starts nor ends with whitespace |
| `Text.StripBlank` | compare_utility/csv_indexer.py:13 | a line made only of whitespace strips to '' |
| `Text.Split` | compare_utility/csv_indexer.py:6 | `split(',')` never returns an empty list |
| `Text.SplitMeaning` | compare_utility/csv_indexer.py:13 | the fields hold no comma, and joining them with commas gives the input back |
| `Text.SplitJoin` | compare_utility/csv_indexer.py:13 | splitting comma-free fields joined by commas gives the same fields: split and join are inverse |
| `Text.LineEnd` | compare_utility/csv_indexer.py:10 | the end of the line read at an offset lies past that offset, and comes just after a '\n' or at the end of the text |
| `Text.LineEndMeaning` | compare_utility/csv_indexer.py:10 | a line holds no '\n' before its end |
| `Text.NoLineStartInside` | compare_utility/csv_indexer.py:9-10 | no line begins strictly inside another line, so `tell()` before each `readline()` only sees line starts |
| `Text.ReadLineMeaning` | compare_utility/csv_indexer.py:21 | `readline()` after `seek(o)` returns the text from o up to and including the next '\n', or up to the end of the text; it returns '' at or past the end |
| `Text.BlankLineFields` | compare_utility/csv_indexer.py:13 | a blank line splits to `['']` |
| `CsvIndexer.DataLineIndexed` | compare_utility/csv_indexer.py:13-15 | in the built index, a data line whose split has more than `key_idx` fields puts its key field in the index, at its own offset or a later one; a line with at most `key_idx` fields is no key's entry |
| `CsvIndexer.ScanIsKeyIndex` | compare_utility/csv_indexer.py:8-15 | the offset loop over the data lines produces an index with the declarative meaning `IsKeyIndex` |
| `CsvIndexer.ScanComplete` | compare_utility/csv_indexer.py:8-15 | every line at or after the loop's position that carries a key lies at or before that key's entry: the last occurrence wins |
| `CsvIndexer.ScanSound` | compare_utility/csv_indexer.py:9-15 | every entry the loop adds is the offset of a line start at or after its position that carries that key |
| `CsvIndexer.KeyIndexUnique` | compare_utility/csv_indexer.py:8-15 | a text has exactly one index with that meaning for a given key position |
| `CsvIndexer.BuildKeyIndexAndHeader` | compare_utility/csv_indexer.py:1-16 | fails, naming the key column, exactly when the key column is not in the header; otherwise returns the first line stripped and split, and the index of the data lines at the key column's first position |
| `CsvIndexer.BuildKeyIndexStreaming` | compare_utility/compare_csv_files.py:10-29 | the streaming loop (explicit missing-key check, then remember the offset, read a line, record its key) returns the same result |
| `CsvIndexer.ZipToMapKeys` | compare_utility/csv_indexer.py:23 | the keys of `dict(zip(names, values))` are exactly the names that are paired with a value |
| `CsvIndexer.ZipToMapValues` | compare_utility/csv_indexer.py:23 | a name that does not repeat later among the names paired with a value maps to its own value, so a repeated name keeps the value of its last paired position |
| `CsvIndexer.ZipToMapValueAt` | compare_utility/csv_indexer.py:23 | a paired name at position i with no later repeat among the paired names maps to the value at i in `dict(zip(names, values))` |
| `CsvIndexer.GetRowDictByOffset` | compare_utility/csv_indexer.py:18-23 | the fetched map has exactly the header names at positions below min(\|header\|, \|fields\|); each such name maps to the field at its last position below that bound |
| `CsvIndexer.FetchKeyedLine` | compare_utility/csv_indexer.py:21-23 | fetching a line that carries key k gives k under the key column's name |
| `CsvIndexer.IndexFetchRoundTrip` | compare_utility/csv_indexer.py:1-23 | for every key k in the index, if the key column occurs once in the header, the row fetched at k's offset maps the key column to k |
| `CsvIndexer.BlankLineKey` | compare_utility/csv_indexer.py:13-15 | a blank data line is indexed under '' when the key is column 0 and skipped otherwise |
| `CsvIndexer.HeaderLineRead` | compare_utility/csv_indexer.py:5-6 | the data lines start just after the header line, and `readline()` at 0 returns the header line |
| `CsvIndexer.IndexAfterHeaderLine` | compare_utility/csv_indexer.py:5-15 | the index of a header line followed by a body is the body's own index moved by the header line's length |
| `CsvIndexer.HeaderFixesOnlyKeyPosition` | compare_utility/csv_indexer.py:5-7 | two header lines that put the key at the same position give indexes with the same keys and the same offsets relative to the data |
| `CsvIndexer.DuplicateKeyColumn` | compare_utility/csv_indexer.py:7-23 | with header `k,k` the line indexed under `a` is fetched with `b` under `k`, because the index uses the first `k` and the fetched map keeps the last |
| `ExcelWriter.InitialSheets` | compare_utility/comparator.py:23-31 | a section opens as one sheet titled after the section, holding only the header row, with count 1 |
| `ExcelWriter.AppendRowWithSplit` | compare_utility/excel_writer.py:8-17 | the list grows by at most one entry; every entry but the last is unchanged; the last sheet ends with the new row |
| `ExcelWriter.AppendBelowLimit` | compare_utility/excel_writer.py:9-17 | below the limit the row joins the last sheet, whose count grows by exactly one, and no sheet is created |
| `ExcelWriter.AppendAtLimit` | compare_utility/excel_writer.py:10-17 | at the limit a new sheet named `<base>_<len+1>` is added, holding the header and the row, with count 2 |
| `ExcelWriter.RowCounterIrrelevant` | compare_utility/excel_writer.py:8 | the result does not depend on the row counter |
| `ExcelWriter.InitialWellFormed` | compare_utility/comparator.py:23-31 | a freshly opened section satisfies the sheet-list invariant |
| `ExcelWriter.AppendPreservesWellFormed` | compare_utility/excel_writer.py:10-17 | the invariant is preserved: each count equals its sheet's rows and stays between 1 and `EXCEL_MAX_ROWS`; each sheet opens with the header and has its positional title; every sheet but the last is full |
| `ExcelWriter.AppendContent` | compare_utility/excel_writer.py:14-16 | each call adds its row at the end of the rows kept after each sheet's header |
| `ExcelWriter.AppendAllContent` | compare_utility/excel_writer.py:8-17 | appending rows one call at a time keeps the invariant, and the sheets' rows after the headers are exactly the appended rows, in call order |
| `ExcelWriter.ContentSize` | compare_utility/excel_writer.py:10-17 | the counts account for every row: the full sheets plus the last one hold (sheets−1)·(`EXCEL_MAX_ROWS`−1) + (last count−1) rows besides their headers |
| `ExcelWriter.SheetCount` | compare_utility/excel_writer.py:10-15 | n rows need one sheet if n = 0, and ⌊(n−1)/(`EXCEL_MAX_ROWS`−1)⌋+1 sheets otherwise |
| `ExcelWriter.TitlesDistinct` | compare_utility/excel_writer.py:11-12 | different positions get different sheet titles |
| `ExcelWriter.WellFormedTitlesDistinct` | compare_utility/excel_writer.py:11-12 | the sheets of a section have pairwise different titles |
| `Comparator.Erase` | compare_utility/compare_csv_files.py:45 | a filtering comprehension keeps exactly the entries that are not dropped |
| `Comparator.EraseAppend` | compare_utility/compare_csv_files.py:45 | filtering distributes over concatenation, so it keeps order |
| `Comparator.EraseNoDup` | compare_utility/compare_csv_files.py:45 | filtering keeps a list duplicate-free |
| `Comparator.AllColumns` | compare_utility/compare_csv_files.py:45 | `all_columns` starts with the key; its columns are exactly the key plus both headers' columns; the key does not recur; next come header1's other columns in header1 order, then the header2 columns that are neither the key nor in header1, in header2 order |
| `Comparator.AllColumnsNoDup` | compare_utility/comparator.py:17 | with duplicate-free headers, `all_columns` has no duplicate |
| `Comparator.Partitions` | compare_utility/compare_csv_files.py:62-101 | the three key sets are pairwise disjoint; the matched and only-in-file1 sets make up file1's keys, and likewise for file2 |
| `Comparator.PartitionSizes` | compare_utility/comparator.py:36-73 | matched plus only-in-file1 keys are as many as file1's keys, and likewise for file2 |
| `Comparator.ProjectedValue` | compare_utility/compare_csv_files.py:68-69 | `row.get(col, '')` on a fetched row gives '' for a column the header lacks; for a column named once it gives the line's field at that position, or '' past the line's end |
| `Comparator.HeaderRow` | compare_utility/compare_csv_files.py:46 | the header row is `SourceFile` followed by the unified columns, with no highlight |
| `Comparator.MatchPair` | compare_utility/compare_csv_files.py:65-76 | two rows of width 1+\|columns\|, tagged with each file's name; each column cell holds that file's value, and both cells are highlighted exactly when the column is in both headers and the values differ |
| `Comparator.OneSidedNeverFlagged` | compare_utility/comparator.py:46 | a column present in only one header is never highlighted |
| `Comparator.MatchPairSymmetric` | compare_utility/comparator.py:41-48 | swapping the files swaps the two rows and keeps every highlight |
| `Comparator.OnlyRow` | compare_utility/compare_csv_files.py:90 | an only-in row is the tag, then the row's value (or '') for every unified column, never highlighted |
| `Comparator.PlanComparison` | compare_utility/comparator.py:14-17 | fails exactly when the key column is missing from either header, naming file1 if it lacks it and file2 otherwise; else both headers are the files' first lines, the column list is `all_columns`, and each index has the declarative meaning |
| `Comparator.KeyPairs` | compare_utility/compare_csv_files.py:62-78 | one pair of rows per visited matched key |
| `Comparator.KeyOnlyRows` | compare_utility/compare_csv_files.py:88-91 | one row per visited only-in key |
| `Comparator.FlattenIndex` | compare_utility/compare_csv_files.py:77-78 | the flattened rows alternate first and second row of each pair, in pair order |
| `Comparator.MatchRowsShape` | compare_utility/compare_csv_files.py:62-78 | a matched key gives exactly two rows, each of width 1+\|columns\|; even rows carry file1's tag and odd rows file2's |
| `Comparator.OnlyRowsShape` | compare_utility/compare_csv_files.py:88-104 | an only-in key gives one row of width 1+\|columns\|, tagged with its file and with no highlight |
| `Comparator.FlatMatchingMeaning` | compare_utility/compare_csv_files.py:61-79 | the single-sheet matching loop appends every pair's rows in order and counts one per key |
| `Comparator.FlatOnlyMeaning` | compare_utility/compare_csv_files.py:87-92 | a single-sheet only-in loop appends its rows in order and counts one per key |
| `Comparator.CompareCsvFiles` | compare_utility/compare_csv_files.py:38-46 | a key column missing from either header yields an error naming the first file that lacks it, and no report |
| `Comparator.FlatWriteMeaning` | compare_utility/compare_csv_files.py:51-104 | for any rows, each single sheet is the header row followed by its section's rows in order; the match counter counts pairs, the other counters rows |
| `Comparator.FlatReportMeaning` | compare_utility/compare_csv_files.py:51-104 | every sheet opens with the header row, followed by the matched pairs or the only-in rows; the counters equal the sizes of the three key sets; the matching sheet has 1 + 2·count rows |
| `Comparator.CompareLargeCsv` | compare_utility/comparator.py:10-20 | the paged version fails on the same inputs, with the same error, before any sheet exists |
| `Comparator.PagedWriteMeaning` | compare_utility/comparator.py:23-77 | for any rows, each paged section satisfies the sheet-list invariant and holds exactly its section's rows after the headers, in order; match_count is two per pair, the other counters count rows |
| `Comparator.PagedReportMeaning` | compare_utility/comparator.py:23-77 | every section satisfies the sheet-list invariant; the sections hold exactly the matched pairs and the only-in rows; match_count = 2·\|keys1 ∩ keys2\|, only1_count = \|keys1 − keys2\|, only2_count = \|keys2 − keys1\| |
| `Comparator.PagedAgreesWithFlat` | compare_utility/comparator.py:36-77 | both versions write the same rows; the paged matching counter is twice the single-sheet one |
| `Comparator.MatchedKeyColumn` | compare_utility/comparator.py:37-50 | when the key column occurs once in each header and the key's two entries point at data lines that carry it (true of every entry of an index by `IsKeyIndex`), both rows of the key show the key itself in the key column, without highlight |

## Left out

- openpyxl is left out: the workbook, `WriteOnlyCell`, `PatternFill`, `create_sheet`, removing the default sheet and `wb.save`. Cells are (value, highlighted) pairs, and a header row of plain strings is a row of cells without highlight. The order in which the workbook interleaves sheets of different sections is not modelled.
- Opening files, `seek` and `tell` are left out. A file is its text, and an offset is a character index. `newline=''` would also end a line at a lone '\r' or at "\r\n"; only '\n' is modelled as a line terminator.
- `logging`, `time.time()`, the progress messages and `main()` are left out. They are observability and error-message plumbing. A raised `ValueError` becomes an `Err` value.
- `os.path.basename` is left out: each file carries its tag (`Source.name`) as an opaque string.
- Python's iteration order over a set is unspecified, so each loop takes its order as a parameter (`Orders`). The only requirement is that the order visits its key set once per key (`OrdersFit`).
- `csv_indexer.py` raises the `ValueError` of `list.index`, while `compare_csv_files.py` raises its own `ValueError` whose message names the file. Both become `MissingKeyColumn(keycol)`, and the comparator reports which file failed (`KeyColumnMissing`). Message texts are not modelled.
- Excel's 31-character limit on sheet titles is not modelled. The titles written here are well below it.
- `Comparator.PagedMatching` / `Comparator.PagedOnly` are written as the fold `AppendAll` of the sink over the rows in visiting order. A separate counter advances by two or by one per key. This is the same computation as the source's loops, which fetch, append and count per key, because fetching is pure.
- `CsvIndexer.IndexFetchRoundTrip` requires the key column to occur exactly once in the header. `CsvIndexer.DuplicateKeyColumn` shows the behaviour when it occurs twice.
