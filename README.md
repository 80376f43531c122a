# South Australian crime statistics: merge, filter and dashboard logic

The repository prepares SAPOL crime statistics for a Streamlit dashboard.
Three pieces of it are modelled here.

- `merge_csv_files.py` merges monthly incident tables into one table. Each
  file must carry the seven required columns (`Reported Date`, `Suburb -
  Incident`, `Postcode - Incident`, `Offence Level 1/2/3 Description`,
  `Offence count`). Only those columns are kept, and the count is coerced to
  an integer. Exact duplicate rows are dropped, keeping the first
  occurrence. Rows that agree on the six descriptive fields are collapsed
  into one row carrying the sum of their counts. The result is sorted by
  (`Reported Date`, `Suburb - Incident`).
- `filter_crime_data.py` reads the files chunk by chunk and checks every
  chunk's header. It keeps the records whose suburb is in a requested list,
  coerces their counts, and concatenates the kept chunks in file order.
  When nothing matched it returns an empty table with the seven required
  columns. `save_to_csv` sorts the result before writing it. The chunked
  reader yields one empty chunk for a header-only file, so that file's
  header is checked like any other.
- `app.py` supplies the dashboard's pure helpers:
  - the `yyyy-mm` month key derived from a `dd/mm/yyyy` date;
  - the "All Data" plus sorted-distinct-values option lists for suburb
    and offence levels 1 to 3, where levels 2 and 3 cascade from the
    selection above them;
  - the cascading offence-level filter and the level-3 selection;
  - the total-offences metric and the per-month sums;
  - `sanitize_filename`.

Files arrive already split into a header and records, or chunks of records.
They can also arrive as "completely empty" (pandas `EmptyDataError`) or as
"unparsable" (`ParserError`). Each `sys.exit(1)` is an error value. Rows are
the `Records.Row` datatype: six text fields and an integer count. A table is
a `seq<Row>`.

The project has these modules:

- `Results` (`results.dfy`): `Option` and `Result`.
- `Seqs` (`seqs.dfy`): first-occurrence de-duplication, `duplicated()`
  counts, boolean-mask filtering, concatenation, and per-group sums.
- `Text` (`text.dfy`): Python's `str` ordering, `sorted(unique())`, and
  decimal integer parsing and formatting.
- `Records` (`records.dfy`): the row, the required columns, cell lookup,
  count coercion, and the (date, suburb) sort.
- `MergeCsv` (`merge.dfy`): the merge script.
- `FilterCrime` (`filter.dfy`): the suburb filter.
- `Dashboard` (`dashboard.dfy`): the `app.py` helpers.

The two scripts' loops are methods (`MergeCsv.MergeCsvFiles`,
`FilterCrime.FilterCrimeData`, `FilterCrime.FilterChunks`). Each is proved
equal to a function (`Merge`, `FilterCrime`, `FileParts`), and the scripts'
promises are proved as lemmas about those functions.

Where the scripts' descriptions and their code differ, the model follows
the code:

- A file or chunk that lacks a required column stops the whole run. It is
  not skipped.
- A header-only file counts as read. "No data to merge" happens only when
  every input is completely empty.
- The final sort compares `Reported Date` as text. `dd/mm/yyyy` text is not
  in calendar order, so `01/02/2024` sorts before `31/01/2024`
  (`Records.DatesSortAsText`).
- The level-3 options depend on the level-2 selection alone, not on the
  level-1 selection.

## Model

| member | source | states |
|---|---|---|
| Records.MissingRequired | merge_csv_files.py:87-88 | the missing list holds exactly the required columns absent from the header, in `REQUIRED_COLUMNS` order, and is empty iff the header has all seven |
| Records.ParseCount | merge_csv_files.py:115 | a cell that is not an integer text gives 0; a digit string, with or without a leading `+` or `-`, gives its signed decimal value (leading zeros allowed); a cell written from integer m reads back as m |
| Records.ParseCountOfPaddedText | merge_csv_files.py:115 | `007` reads as 7, `+5` as 5 and `-0` as 0 |
| Records.LeadingZeroIgnored | merge_csv_files.py:115 | a leading zero in front of a digit string does not change the value read |
| Records.Cell | merge_csv_files.py:112 | the cell under a named column is one of the record's cells, or empty text when the record is too short |
| Records.CellAt | merge_csv_files.py:112 | the cell under a column is the record's cell at that column's first position in the header |
| Records.ProjectRow | merge_csv_files.py:112-115 | each of the six text fields is the record's cell under the required column of that name, and the count is the coerced `Offence count` cell |
| Records.Project | merge_csv_files.py:112-115 | one row per record, each the record's seven required cells with the count coerced |
| Records.ReadWrittenRow | merge_csv_files.py:108-115 | reading a written row under the required header gives back the same row |
| Records.Insert | merge_csv_files.py:164 | inserting into a (date text, suburb)-sorted table keeps it sorted and adds exactly that row |
| Records.SortRows | merge_csv_files.py:164 | the sorted table is ordered by (Reported Date text, suburb) and is a permutation of the input |
| Records.SortRowsOfSorted | merge_csv_files.py:164 | sorting an already sorted table leaves it unchanged |
| Records.SortRowsKeepsKeysUnique | merge_csv_files.py:164 | sorting a table without logical duplicates creates none |
| Records.SortRowsKeepsTotal | merge_csv_files.py:164 | sorting keeps the total offence count |
| Records.DatesSortAsText | merge_csv_files.py:164 | 01/02/2024 sorts before 31/01/2024: the order is textual, not chronological |
| MergeCsv.ReadSource | merge_csv_files.py:106-129 | one file fails iff it is rejected (unparsable or missing a column), with that file's error; it is skipped iff it is completely empty; otherwise it gives the projection of its records onto the required columns, one row per record |
| MergeCsv.Collect | merge_csv_files.py:104-129 | the loop succeeds iff no file is rejected, collects at most one table per file, and never fails with "no data" |
| MergeCsv.Merge | merge_csv_files.py:101-164 | it fails with a file's error iff some file is rejected; on success the table has no exact and no logical duplicates, is sorted, and at least one file was merged |
| MergeCsv.LogicalDuplicateCount | merge_csv_files.py:156 | `duplicated(subset=..., keep=False)` marks rows in groups of at least two, so the count is never 1 |
| MergeCsv.SharedKeysComeInPairs | merge_csv_files.py:156 | a row marked as sharing its key always has a partner, so exactly one marked row is impossible |
| MergeCsv.ValidateColumns | merge_csv_files.py:76-90 | no error iff every required column is present; otherwise the error names this file and exactly the missing columns |
| MergeCsv.Aggregate | merge_csv_files.py:146-161 | one row per distinct six-field key of the input and no other; each row's count is the sum of the counts of the input rows with its key; count total conserved |
| MergeCsv.Canonicalize | merge_csv_files.py:139-164 | the cleaned table has no exact and no logical duplicates, is sorted, is a permutation of the aggregate of the de-duplicated rows, keeps their count total and the input's keys |
| MergeCsv.CleanMerged | merge_csv_files.py:139-164 | the in-place dedup, aggregate and sort steps produce the canonical table and report the exact and logical duplicate counts of the table at each step |
| MergeCsv.MergeCsvFiles | merge_csv_files.py:101-164 | the loop over the files with its early exits and the cleaning steps returns exactly the outcome of the whole script `Merge` |
| MergeCsv.Report | merge_csv_files.py:131-164 | after the loop: "no data" when nothing was read, otherwise the cleaned table, files merged and rows counted |
| MergeCsv.DroppingDuplicatesIsAlwaysDistinct | merge_csv_files.py:140-143 | dropping exact duplicates only when some are counted gives the same table as always dropping them |
| MergeCsv.NoLogicalDuplicatesIffKeyUnique | merge_csv_files.py:156-157 | the logical-duplicate count is zero iff no two rows share the six grouping fields |
| MergeCsv.AggregateOfKeyUnique | merge_csv_files.py:156-161 | with no logical duplicates the grouping would change nothing, so skipping it is only a shortcut |
| MergeCsv.GroupingIsAlwaysAggregate | merge_csv_files.py:156-161 | grouping only when logical duplicates are counted gives the same table as always grouping |
| MergeCsv.CollectStopsAtError | merge_csv_files.py:104-129 | once a file stops the loop, later files do not change the outcome |
| MergeCsv.CollectWithoutRejection | merge_csv_files.py:104-119 | with no rejected file the loop collects the projected tables of exactly the files that have a header, in order |
| MergeCsv.CollectStopsAtFirstRejection | merge_csv_files.py:104-129 | the loop ends with the error of the first rejected file |
| MergeCsv.MergeFailsAtFirstRejectedFile | merge_csv_files.py:109 | a missing column or parse failure in a file after only accepted files makes the merge fail with that file's error |
| MergeCsv.MergeFailsOnAnyRejectedFile | merge_csv_files.py:87-90 | any rejected file anywhere means the merge fails, and not with "no data" |
| MergeCsv.ReadFramesEmpty | merge_csv_files.py:118 | nothing is appended iff no file has a complete header |
| MergeCsv.ReadFramesSize | merge_csv_files.py:119 | the concatenated rows number exactly the records of the files read |
| MergeCsv.MergeNoDataIffAllFilesEmpty | merge_csv_files.py:122-133 | "no data to merge" happens exactly when every input file is completely empty |
| MergeCsv.MergeReportsWhatWasRead | merge_csv_files.py:102-143 | on success no file was rejected; the table is the cleaned concatenation; files merged, total rows and exact duplicates (rows before minus rows after dedup) are as read |
| MergeCsv.HeaderOnlyFilesGiveEmptyTable | merge_csv_files.py:122-133 | header-only files with no rejected file give an empty table, not an error |
| MergeCsv.MergedTableIsCanonical | merge_csv_files.py:140-164 | the merged table has no duplicates of either kind, is sorted, is a permutation of the aggregated de-duplicated rows, and keeps their count total |
| MergeCsv.OneKeyCollapsesToOneRow | merge_csv_files.py:140-161 | rows sharing one key collapse into one row whose count is the total of the distinct rows |
| MergeCsv.ExactAndLogicalDuplicates | merge_csv_files.py:140-161 | a row read twice and a row with the same key and count 5 give one row with count 3 + 5 |
| MergeCsv.ReadWrittenTable | merge_csv_files.py:168 | reading back the written table under its header gives the same rows |
| MergeCsv.MergeOfMergedOutputIsUnchanged | merge_csv_files.py:140-168 | merging the written merged output alone returns the same table, reporting no duplicates |
| MergeCsv.CanonicalizeOfCanonical | merge_csv_files.py:140-164 | a sorted table without logical duplicates passes through the cleaning steps unchanged |
| Seqs.Distinct | merge_csv_files.py:143 | the result holds each element of the input exactly once |
| Seqs.DistinctInFirstOccurrenceOrder | merge_csv_files.py:143 | the kept rows are the first occurrences, in the order of those occurrences |
| Seqs.DistinctSize | merge_csv_files.py:140-143 | the counted exact duplicates equal the rows removed by dropping them |
| Seqs.NoDuplicatesIffNoneRepeated | merge_csv_files.py:140-141 | no position is marked duplicated iff no two rows are equal |
| Seqs.DuplicateCount | merge_csv_files.py:140 | the exact-duplicate count is zero iff no two rows are equal, and is smaller than the row count of a nonempty table |
| Seqs.RepeatedPositionsBound | merge_csv_files.py:140 | the first row is never marked, so fewer rows are marked than there are |
| Text.StrLe | merge_csv_files.py:164 | a prefix sorts before every text it begins |
| Text.StrLeTotal | merge_csv_files.py:164 | any two texts are comparable |
| Text.StrLeTransitive | merge_csv_files.py:164 | the text order is transitive |
| Text.StrLeAntisymmetric | merge_csv_files.py:164 | two texts each not after the other are equal |
| Text.SortedUnique | app.py:112 | `sorted(unique())` is strictly ascending and holds exactly the values of the column |
| Seqs.GroupSumsAddUp | merge_csv_files.py:161 | per-group sums over all keys add up to the plain total |
| Seqs.FilterAppend | filter_crime_data.py:95-112 | filtering chunk by chunk equals filtering the concatenation |
| FilterCrime.Matching | filter_crime_data.py:112 | the kept records are a subsequence holding each record whose suburb is in the list as often as the chunk does, and no other |
| FilterCrime.FileParts | filter_crime_data.py:95-119 | one file fails iff it has a chunk and its header lacks a required column, with exactly the missing columns; otherwise every frame it appends holds rows and every required column |
| FilterCrime.Gather | filter_crime_data.py:90-127 | the loop over the files succeeds iff no file is faulty, and then every appended frame holds rows and every required column |
| FilterCrime.ConcatFrames | filter_crime_data.py:133-134 | the concatenated columns are without repeats and are exactly the columns of some frame; the rows number the frames' rows together |
| FilterCrime.FilterCrime | filter_crime_data.py:90-147 | the run succeeds iff no file is faulty, and its result then carries every required column |
| FilterCrime.HeaderOnlyFileIsChecked | filter_crime_data.py:95-109 | a header-only file whose header lacks a required column stops the run, with that file's error when the earlier files are sound |
| FilterCrime.FilterCrimeData | filter_crime_data.py:87-147 | the nested loops return exactly the outcome of `FilterCrime`, and the filtered-rows counter equals the returned rows |
| FilterCrime.FilterChunks | filter_crime_data.py:95-119 | the chunk loop of one file returns exactly `FileParts`, and its row counter equals the rows it kept |
| FilterCrime.FilePartsOfSoundFile | filter_crime_data.py:95-118 | a file whose chunks all pass the check yields the matching coerced rows of the whole file, in nonempty frames with every required column |
| FilterCrime.FilePartsOfFaultyFile | filter_crime_data.py:106-109 | a file with a chunk and a missing column fails with exactly the missing columns |
| FilterCrime.GatherOfSoundFiles | filter_crime_data.py:90-119 | with no faulty file the loop collects the matching rows of every file, in file order |
| FilterCrime.GatherAtFirstFault | filter_crime_data.py:90-127 | the loop ends with the error of the first faulty file |
| FilterCrime.FilterFailsAtFirstFaultyFile | filter_crime_data.py:106-124 | the run aborts with the first faulty file's error |
| FilterCrime.FilterOutcome | filter_crime_data.py:129-147 | success iff no file is faulty; then the rows are the matching rows of all files, the columns include the seven required ones, and no rows means exactly the seven-column empty table |
| FilterCrime.FirstFault | filter_crime_data.py:106-109 | any faulty file makes the run fail |
| FilterCrime.WholeFilesInSuburbs | filter_crime_data.py:112 | every matching row's suburb is in the list |
| FilterCrime.FilteredRowsAreInSuburbs | filter_crime_data.py:112-136 | every returned row's suburb is in the list |
| FilterCrime.WholeFilesAppend | filter_crime_data.py:90 | the matching rows of two runs of files are those of each, one after the other |
| FilterCrime.EmptyFilesAreSkipped | filter_crime_data.py:120-121 | removing a completely empty file changes neither success nor the rows returned |
| FilterCrime.SortForSave | filter_crime_data.py:160 | the saved table keeps its columns, is sorted by (Reported Date text, suburb) and is a permutation of the filtered rows |
| Dashboard.MonthKey | app.py:31-33 | the key of `dd/mm/yyyy` is `yyyy-mm`, year from the date's year and month from its month |
| Dashboard.MonthKeySameMonth | app.py:31-33 | two dates get the same key iff they fall in the same month of the same year |
| Dashboard.MonthKeysSortChronologically | app.py:33 | month keys compare as text exactly as their months compare in time |
| Dashboard.LoadData | app.py:29-34 | every row is kept in order and gets the month key of its own date; two rows share a key iff their dates share month and year |
| Dashboard.FilterOffenceLevels | app.py:48-52 | both 'All Data' returns the input; the result is a subsequence holding each admitted row as often as the input and no other row |
| Dashboard.FilterOffenceLevelsIdempotent | app.py:48-52 | filtering twice with the same selections gives the once-filtered data |
| Dashboard.SelectIncidents | app.py:149-152 | the selected rows are a subsequence holding exactly the rows of the suburb that the three level selections admit |
| Dashboard.OptionList | app.py:112 | 'All Data' first, then the distinct values in strictly ascending order, exactly those of the column |
| Dashboard.SuburbOptions | app.py:103 | every suburb of the data once, strictly ascending |
| Dashboard.Level1Options | app.py:112 | 'All Data' then every level-1 description once, strictly ascending |
| Dashboard.Level2Options | app.py:121-126 | 'All Data' then exactly the level-2 descriptions occurring with the selected level 1 (all of them for 'All Data'), strictly ascending |
| Dashboard.Level3Options | app.py:135-140 | 'All Data' then exactly the level-3 descriptions occurring with the selected level 2 (all of them for 'All Data'), strictly ascending |
| Dashboard.MonthlyTotals | app.py:179 | one row per month present, months strictly ascending, each carrying the sum of that month's counts |
| Dashboard.TotalOffences | app.py:158 | the total of no rows is 0 |
| Dashboard.TotalOffencesNonNegative | app.py:158 | a total of non-negative counts is non-negative |
| Dashboard.MonthlyTotalsAddUp | app.py:158 | the monthly sums add up to the Total Offences metric |
| Dashboard.MonthlyTotalsInCalendarOrder | app.py:179 | consecutive rows of the monthly sums belong to strictly increasing calendar months |
| Dashboard.CollapseWhitespace | app.py:65 | no whitespace is left and the text never grows |
| Dashboard.Extend | app.py:65 | one more character keeps a whitespace-free collapsed text free of whitespace and grows it by at most one |
| Dashboard.ExtendAfterJoin | app.py:65 | with no whitespace run across the seam, extending a joined collapsed text is extending its right-hand part |
| Dashboard.CollapseKeepsOtherChars | app.py:65 | every character that is neither whitespace nor `_` is kept, as often as it occurs |
| Dashboard.CollapseAppend | app.py:65 | two texts with no whitespace run across their seam collapse separately |
| Dashboard.CollapseRun | app.py:65 | a whitespace run on its own becomes exactly one underscore |
| Dashboard.CollapseJoin | app.py:65 | a whole whitespace run between two texts becomes one underscore, and each side collapses on its own |
| Dashboard.SanitizeFilename | app.py:65-67 | only letters, digits, `_` and `-`, no whitespace, never longer than the input; a subsequence of the collapsed name keeping each of its letters, digits, `_` and `-` as often as they occur; every letter, digit and hyphen of the name is kept as often as it occurs; a name made of those characters is unchanged |
| Dashboard.SanitizeJoinsWords | app.py:65-66 | text on either side of a whole whitespace run is sanitised on its own and the halves are joined by one underscore |
| Dashboard.SanitizeIdempotent | app.py:65-67 | sanitising twice is sanitising once |

## Left out

- Reading and writing CSV text (`pd.read_csv`, `to_csv`) is outside the
  model. Each file arrives already split into a header and records, or into
  chunks of records. A parse error midway through a chunked file is
  modelled as a whole-file parse failure.
- Also left out: `argparse`, the `os.path.isfile` checks in
  `validate_files`, every `print`, and the Streamlit, plotly and `BytesIO`
  work in `app.py` (widgets, tabs, charts, `download_csv`,
  `@st.cache_data`).
- `convert_to_parquet.py` is not part of this model.
- The catch-all `except Exception` branches are left out, and with them
  every unexpected error they turn into an exit.
- Records.ParseCount: only optionally signed decimal integers are read as
  numbers. Float texts such as `3.7`, which pandas truncates to 3, and
  NaN handling are not modelled. Counts are unbounded integers, with no
  64-bit overflow.
- Records.ParseCount: a count text that `pd.to_numeric` reads as infinite
  (`inf`, `1e999`) makes `astype(int)` raise, and the scripts then exit
  through the catch-all branch (merge_csv_files.py:127-129,
  filter_crime_data.py:125-127). The model reads such a text as 0 and
  does not exit.
- Records.Cell: every cell is kept as its text. `pd.read_csv` keeps its
  default NA handling even with `dtype=str`, so pandas reads as NaN a
  position missing from a short record, an empty cell, and NA-like texts
  such as `NA`, `N/A`, `null` and `None`. When logical duplicates exist,
  the `groupby` step (merge_csv_files.py:161) drops every row with such a
  key cell, and NA-like texts are written back as empty. The model reads
  those cells as their text (empty text for a missing position), and
  `MergeCsv.Aggregate` and `MergeCsv.Canonicalize` keep those rows.
- FilterCrime.Filtered: the chunked read in `filter_crime_data`
  (filter_crime_data.py:95) has no `dtype=str`, so pandas infers each
  column's type per chunk; a postcode column with an empty cell becomes
  floating point and is written back as `5000.0`. The model keeps every
  cell as text.
- Records.SortRows: stability is not claimed; only sortedness and
  permutation are. The model's
  insertion sort is one stable instance. It works on values, not in place.
- MergeCsv.Aggregate: pandas emits groups in sorted key order; the model
  emits them in first-occurrence order. The final sort follows, and only
  the multiset of the grouped rows is claimed.
- FilterCrime.Filtered: `filter_crime_data` keeps every column of the
  files. The model keeps the column names but projects each row onto the
  seven required fields. The concatenated frame's columns are modelled as
  the distinct header names in order of first appearance.
- Dashboard.LoadData and Dashboard.MonthKey require zero-padded
  `dd/mm/yyyy` dates. Calendar validation by `pd.to_datetime`, and the
  error it raises on a malformed date, are not modelled.
- Dashboard.IsWhitespace and Dashboard.IsFilenameChar follow Python's `\s`
  and `\w` over ASCII only. Unicode letters and Unicode whitespace are not
  modelled.
- The dashboard's "Unique Offence Types" and "Number of Months" metrics,
  the distribution pie chart and the per-suburb trend grouping are not
  modelled. They are display-only counts outside the listed helpers.
