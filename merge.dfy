/** The merge script (`merge_csv_files.py`): read each input file, check its
    header, keep the seven required columns with the count coerced to an
    integer, concatenate, drop exact duplicate rows, sum the counts of rows
    that agree on the six descriptive fields, and sort by (Reported Date,
    Suburb - Incident). Reading and writing CSV text are outside the model:
    each file arrives already split into a header and records. */
module MergeCsv {
  import opened Results
  import opened Seqs
  import opened Records

  /** One input file as the CSV reader delivers it. */
  datatype Source =
    | EmptyFile                                            // the reader raised EmptyDataError
    | Unparsable                                           // the reader raised ParserError
    | Frame(columns: seq<string>, rows: seq<seq<string>>)  // a header and its records

  /** The ways the script ends with `sys.exit(1)`. `file` is the position of
      the offending file among the inputs. */
  datatype MergeError =
    | MissingColumns(file: nat, missing: seq<string>)
    | ParseFailure(file: nat)
    | NoData

  /** The merged table and the numbers the script reports about it. */
  datatype MergeReport = MergeReport(table: Table, filesMerged: nat, totalRows: nat,
                                     exactDuplicates: nat, logicalDuplicates: nat)

  /** `validate_columns`: nothing when the header has every required column,
      otherwise the error that names the missing ones. */
  function ValidateColumns(columns: seq<string>, file: nat): (r: Option<MergeError>)
    ensures r.None? <==> HasRequiredColumns(columns)
    ensures r.Some? ==> r.value == MissingColumns(file, MissingRequired(columns))
  {
    var missing := MissingRequired(columns);
    if missing == [] then None else Some(MissingColumns(file, missing))
  }

  /** One pass of the loop over input files: skip an empty file, stop on a
      parse error or a missing column, else yield the projected rows. */
  function ReadSource(src: Source, file: nat): (r: Result<Option<Table>, MergeError>)
    ensures r.Err? <==> Rejected(src)
    ensures r.Err? ==> r.error == Rejection(src, file)
    ensures r == Ok(None) <==> src.EmptyFile?
    ensures r.Ok? && r.value.Some? ==> |r.value.value| == |src.rows|
    ensures r.Ok? && r.value.Some? ==> src.Frame? && r.value.value == Project(src.columns, src.rows)
  {
    match src
    case EmptyFile => Ok(None)
    case Unparsable => Err(ParseFailure(file))
    case Frame(columns, rows) =>
      match ValidateColumns(columns, file)
      case Some(e) => Err(e)
      case None => Ok(Some(Project(columns, rows)))
  }

  /** The `merged_data` list after the loop over the inputs, or the error
      that stopped it. */
  function Collect(sources: seq<Source>): (r: Result<seq<Table>, MergeError>)
    ensures r.Ok? <==> forall j :: 0 <= j < |sources| ==> !Rejected(sources[j])
    ensures r.Ok? ==> |r.value| <= |sources|
    ensures r.Err? ==> !r.error.NoData?
  {
    if sources == [] then Ok([])
    else
      var init := sources[..|sources| - 1];
      assert forall j :: 0 <= j < |init| ==> init[j] == sources[j];
      match Collect(init)
      case Err(e) => Err(e)
      case Ok(frames) =>
        match ReadSource(sources[|sources| - 1], |sources| - 1)
        case Err(e) => Err(e)
        case Ok(None) => Ok(frames)
        case Ok(Some(df)) => Ok(frames + [df])
  }

  /** `duplicated(subset=grouping_columns, keep=False).sum()`: the number of
      rows whose six descriptive fields equal those of some other row. */
  function LogicalDuplicateCount(t: Table): (n: nat)
    ensures n != 1
  {
    SharedKeysComeInPairs(t);
    |SharedKeyPositions(t)|
  }

  /** A row marked as a logical duplicate has a partner row that is marked
      too, so the marks never number exactly one. */
  lemma SharedKeysComeInPairs(t: Table)
    ensures |SharedKeyPositions(t)| != 1
  {
    var marked := SharedKeyPositions(t);
    if marked != {} {
      var i :| i in marked;
      var j :| 0 <= j < |t| && j != i && KeyOf(t[j]) == KeyOf(t[i]);
      assert j in marked;
      assert marked == {i, j} + (marked - {i, j});
    }
  }

  /** The positions `duplicated(subset=grouping_columns, keep=False)` marks. */
  function SharedKeyPositions(t: Table): set<nat> {
    set i: nat | i < |t| && exists j :: 0 <= j < |t| && j != i && KeyOf(t[j]) == KeyOf(t[i])
  }

  /** `groupby(grouping_columns, as_index=False)["Offence count"].sum()`: one
      row per distinct key, carrying the sum of the counts of the rows with
      that key. Groups come in the order of their keys' first occurrence. */
  function Aggregate(t: Table): (r: Table)
    ensures KeyUnique(r)
    ensures forall k :: k in Keys(r) <==> k in Keys(t)
    ensures forall i :: 0 <= i < |r| ==> r[i].offenceCount == SumWhere(t, KeyOf, CountOf, KeyOf(r[i]))
    ensures TotalCount(r) == TotalCount(t)
  {
    var ks := Distinct(Keys(t));
    var r := seq(|ks|, i requires 0 <= i < |ks| => WithCount(ks[i], SumWhere(t, KeyOf, CountOf, ks[i])));
    assert Keys(r) == ks;
    assert forall i :: 0 <= i < |t| ==> KeyOf(t[i]) in ks by {
      forall i | 0 <= i < |t| ensures KeyOf(t[i]) in ks {
        assert Keys(t)[i] in Keys(t);
      }
    }
    TotalOfGroupRows(r, CountOf, t, KeyOf, CountOf, ks);
    GroupSumsAddUp(t, KeyOf, CountOf, ks);
    r
  }

  /** Steps after the concatenation: drop exact duplicates if there are any,
      aggregate logical duplicates if there are any, sort. */
  function Canonicalize(all: Table): (r: Table)
    ensures KeyUnique(r) && NoDuplicates(r)
    ensures SortedByDateSuburb(r)
    ensures multiset(r) == multiset(Aggregate(Distinct(all)))
    ensures TotalCount(r) == TotalCount(Distinct(all))
    ensures forall k :: k in Keys(r) <==> k in Keys(all)
  {
    var deduped := if DuplicateCount(all) > 0 then Distinct(all) else all;
    var grouped := if LogicalDuplicateCount(deduped) > 0 then Aggregate(deduped) else deduped;
    DroppingDuplicatesIsAlwaysDistinct(all);
    GroupingIsAlwaysAggregate(deduped);
    SortedAggregate(deduped);
    KeysOfSameRows(deduped, all);
    SortRows(grouped)
  }

  lemma SortedAggregate(d: Table)
    ensures var r := SortRows(Aggregate(d));
            && KeyUnique(r) && NoDuplicates(r)
            && TotalCount(r) == TotalCount(d)
            && forall k :: k in Keys(r) <==> k in Keys(d)
  {
    var grouped := Aggregate(d);
    var r := SortRows(grouped);
    SortRowsKeepsKeysUnique(grouped);
    KeyUniqueHasNoDuplicateRows(r);
    SortRowsKeepsTotal(grouped);
    SameElementsOfPermutation(r, grouped);
    KeysOfSameRows(r, grouped);
  }

  lemma SameElementsOfPermutation(a: Table, b: Table)
    requires multiset(a) == multiset(b)
    ensures forall x :: x in a <==> x in b
  {
    forall x ensures x in a <==> x in b {
      assert x in a <==> x in multiset(a);
      assert x in b <==> x in multiset(b);
    }
  }

  /** The whole script on already-read inputs: the merged table and its
      report, or the error it exits with. */
  function Merge(sources: seq<Source>): (r: Result<MergeReport, MergeError>)
    ensures (r.Err? && !r.error.NoData?) <==> exists j :: 0 <= j < |sources| && Rejected(sources[j])
    ensures r.Ok? ==> var t := r.value.table;
                      KeyUnique(t) && NoDuplicates(t) && SortedByDateSuburb(t) && r.value.filesMerged > 0
  {
    match Collect(sources)
    case Err(e) => Err(e)
    case Ok(frames) =>
      if frames == [] then Err(NoData)
      else
        var all := Concat(frames);
        var deduped := if DuplicateCount(all) > 0 then Distinct(all) else all;
        Ok(MergeReport(Canonicalize(all), |frames|, |all|,
                       DuplicateCount(all), LogicalDuplicateCount(deduped)))
  }

  /** What `Merge` yields once the loop has read every file. */
  lemma MergeOfCollected(sources: seq<Source>, frames: seq<Table>)
    requires Collect(sources) == Ok(frames) && frames != []
    ensures var all := Concat(frames);
            var deduped := if DuplicateCount(all) > 0 then Distinct(all) else all;
            Merge(sources) == Ok(MergeReport(Canonicalize(all), |frames|, |all|,
                                             DuplicateCount(all), LogicalDuplicateCount(deduped)))
  {
  }

  /** The cleaning steps of `merge_csv_files` after the concatenation: count
      and drop exact duplicates, count logical duplicates and aggregate them
      if there are any, sort. */
  method CleanMerged(all: Table) returns (mergedDf: Table, exactDuplicates: nat, duplicateCounts: nat)
    ensures mergedDf == Canonicalize(all)
    ensures exactDuplicates == DuplicateCount(all)
    ensures duplicateCounts == LogicalDuplicateCount(if DuplicateCount(all) > 0 then Distinct(all) else all)
  {
    mergedDf := all;
    exactDuplicates := DuplicateCount(mergedDf);
    if exactDuplicates > 0 {
      mergedDf := Distinct(mergedDf);
    }
    duplicateCounts := LogicalDuplicateCount(mergedDf);
    if duplicateCounts > 0 {
      mergedDf := Aggregate(mergedDf);
    }
    mergedDf := SortRows(mergedDf);
  }

  /** `merge_csv_files`, up to the point where the table is written out. */
  method MergeCsvFiles(sources: seq<Source>) returns (r: Result<MergeReport, MergeError>)
    ensures r == Merge(sources)
  {
    var mergedData: seq<Table> := [];
    var totalRows := 0;
    for i := 0 to |sources|
      invariant Collect(sources[..i]) == Ok(mergedData)
      invariant totalRows == |Concat(mergedData)|
    {
      CollectNext(sources, i, mergedData);
      // Reading one file: skipped when empty, fatal when unparsable or
      // lacking a required column, projected onto its columns otherwise.
      match ReadSource(sources[i], i)
      case Err(e) =>
        StopMerge(sources, i + 1);
        return Err(e);
      case Ok(None) =>
      case Ok(Some(df)) =>
        ConcatAppend(mergedData, df);
        mergedData := mergedData + [df];
        totalRows := totalRows + |df|;
    }
    assert sources[..|sources|] == sources;
    r := Report(sources, mergedData, totalRows);
  }

  /** What `merge_csv_files` does once every file has been read. */
  method Report(sources: seq<Source>, mergedData: seq<Table>, totalRows: nat)
    returns (r: Result<MergeReport, MergeError>)
    requires Collect(sources) == Ok(mergedData)
    requires totalRows == |Concat(mergedData)|
    ensures r == Merge(sources)
  {
    if mergedData == [] {
      return Err(NoData);
    }
    MergeOfCollected(sources, mergedData);
    var mergedDf, exactDuplicates, duplicateCounts := CleanMerged(Concat(mergedData));
    r := Ok(MergeReport(mergedDf, |mergedData|, totalRows, exactDuplicates, duplicateCounts));
  }

  // ---------------------------------------------------------------------------
  // Duplicates

  /** Dropping exact duplicates only when some were counted gives the same
      table as dropping them unconditionally. */
  lemma DroppingDuplicatesIsAlwaysDistinct(all: Table)
    ensures (if DuplicateCount(all) > 0 then Distinct(all) else all) == Distinct(all)
  {
    NoDuplicatesIffNoneRepeated(all);
    if DuplicateCount(all) == 0 {
      DistinctOfDistinctElements(all);
    }
  }

  /** No logical duplicates are counted exactly when no two rows share the
      six grouping fields. */
  lemma NoLogicalDuplicatesIffKeyUnique(t: Table)
    ensures LogicalDuplicateCount(t) == 0 <==> KeyUnique(t)
  {
    var marked := SharedKeyPositions(t);
    if KeyUnique(t) {
      forall i: nat | i < |t| ensures i !in marked {
        forall j | 0 <= j < |t| && j != i ensures KeyOf(t[j]) != KeyOf(t[i]) {
          if j < i { assert Keys(t)[j] != Keys(t)[i]; } else { assert Keys(t)[i] != Keys(t)[j]; }
        }
      }
      assert marked == {};
    } else {
      var i, j :| 0 <= i < j < |t| && Keys(t)[i] == Keys(t)[j];
      assert KeyOf(t[j]) == KeyOf(t[i]);
      assert i in marked;
    }
  }

  /** Aggregating a table without logical duplicates changes nothing: the
      script's skipping of the `groupby` in that case is only a shortcut. */
  lemma AggregateOfKeyUnique(t: Table)
    requires KeyUnique(t)
    ensures Aggregate(t) == t
  {
    DistinctOfDistinctElements(Keys(t));
    var r := Aggregate(t);
    forall i | 0 <= i < |t| ensures r[i] == t[i] {
      forall j | 0 <= j < |t| && j != i ensures KeyOf(t[j]) != KeyOf(t[i]) {
        if j < i { assert Keys(t)[j] != Keys(t)[i]; } else { assert Keys(t)[i] != Keys(t)[j]; }
      }
      SumWhereOfUniqueKey(t, KeyOf, CountOf, i);
    }
  }

  lemma GroupingIsAlwaysAggregate(t: Table)
    ensures (if LogicalDuplicateCount(t) > 0 then Aggregate(t) else t) == Aggregate(t)
  {
    NoLogicalDuplicatesIffKeyUnique(t);
    if LogicalDuplicateCount(t) == 0 {
      AggregateOfKeyUnique(t);
    }
  }

  lemma KeysOfSameRows(a: Table, b: Table)
    requires forall x :: x in a <==> x in b
    ensures forall k :: k in Keys(a) <==> k in Keys(b)
  {
    forall k | k in Keys(a) ensures k in Keys(b) {
      var i :| 0 <= i < |a| && Keys(a)[i] == k;
      assert a[i] in b;
      var j :| 0 <= j < |b| && b[j] == a[i];
      assert Keys(b)[j] == k;
    }
    forall k | k in Keys(b) ensures k in Keys(a) {
      var j :| 0 <= j < |b| && Keys(b)[j] == k;
      assert b[j] in a;
      var i :| 0 <= i < |a| && a[i] == b[j];
      assert Keys(a)[i] == k;
    }
  }

  // ---------------------------------------------------------------------------
  // The loop over the input files

  /** A file the script exits on. */
  predicate Rejected(src: Source) {
    src.Unparsable? || (src.Frame? && !HasRequiredColumns(src.columns))
  }

  function Rejection(src: Source, file: nat): MergeError
    requires Rejected(src)
  {
    if src.Unparsable? then ParseFailure(file) else MissingColumns(file, MissingRequired(src.columns))
  }

  /** The projected tables of the files that have a complete header, in input
      order; a header-only file contributes an empty table. */
  function ReadFrames(sources: seq<Source>): seq<Table> {
    if sources == [] then []
    else
      var last := sources[|sources| - 1];
      if last.Frame? && HasRequiredColumns(last.columns)
      then ReadFrames(sources[..|sources| - 1]) + [Project(last.columns, last.rows)]
      else ReadFrames(sources[..|sources| - 1])
  }

  /** Records in all files that have a header. */
  function RowsRead(sources: seq<Source>): nat {
    if sources == [] then 0
    else
      var last := sources[|sources| - 1];
      RowsRead(sources[..|sources| - 1]) + (if last.Frame? then |last.rows| else 0)
  }

  /** One more pass of the loop over the inputs. */
  lemma CollectNext(sources: seq<Source>, i: nat, frames: seq<Table>)
    requires i < |sources| && Collect(sources[..i]) == Ok(frames)
    ensures Collect(sources[..i + 1]) ==
            match ReadSource(sources[i], i)
            case Err(e) => Err(e)
            case Ok(None) => Ok(frames)
            case Ok(Some(df)) => Ok(frames + [df])
  {
    assert sources[..i + 1][..i] == sources[..i];
  }

  /** Once the loop stops with an error, that error is the script's outcome. */
  lemma StopMerge(sources: seq<Source>, n: nat)
    requires n <= |sources| && Collect(sources[..n]).Err?
    ensures Merge(sources) == Err(Collect(sources[..n]).error)
  {
    CollectStopsAtError(sources, n);
  }

  lemma {:induction false} CollectStopsAtError(sources: seq<Source>, n: nat)
    requires n <= |sources| && Collect(sources[..n]).Err?
    ensures Collect(sources) == Collect(sources[..n])
  {
    if n < |sources| {
      var init := sources[..|sources| - 1];
      assert init[..n] == sources[..n];
      CollectStopsAtError(init, n);
    } else {
      assert sources[..n] == sources;
    }
  }

  lemma {:induction false} CollectWithoutRejection(sources: seq<Source>)
    requires forall j :: 0 <= j < |sources| ==> !Rejected(sources[j])
    ensures Collect(sources) == Ok(ReadFrames(sources))
  {
    if sources != [] {
      CollectWithoutRejection(sources[..|sources| - 1]);
    }
  }

  lemma {:induction false} CollectStopsAtFirstRejection(sources: seq<Source>, i: nat)
    requires i < |sources| && Rejected(sources[i])
    requires forall j :: 0 <= j < i ==> !Rejected(sources[j])
    ensures Collect(sources) == Err(Rejection(sources[i], i))
  {
    var prefix := sources[..i + 1];
    assert prefix[..i] == sources[..i];
    CollectWithoutRejection(sources[..i]);
    CollectStopsAtError(sources, i + 1);
  }

  /** A file with a missing required column (or one that fails to parse)
      stops the whole merge with that file's error, provided every earlier
      file was accepted. */
  lemma MergeFailsAtFirstRejectedFile(sources: seq<Source>, i: nat)
    requires i < |sources| && Rejected(sources[i])
    requires forall j :: 0 <= j < i ==> !Rejected(sources[j])
    ensures Merge(sources) == Err(Rejection(sources[i], i))
  {
    CollectStopsAtFirstRejection(sources, i);
  }

  /** Any rejected file anywhere means no merged table at all. */
  /** Any rejected file makes the merge fail, and not with "no data"; this
      is `Merge`'s own contract, with the rejected file as the witness. */
  lemma MergeFailsOnAnyRejectedFile(sources: seq<Source>, i: nat)
    requires i < |sources| && Rejected(sources[i])
    ensures Merge(sources).Err? && !Merge(sources).error.NoData?
  {
  }

  lemma {:induction false} ReadFramesEmpty(sources: seq<Source>)
    ensures ReadFrames(sources) == [] <==>
            forall j :: 0 <= j < |sources| ==> !(sources[j].Frame? && HasRequiredColumns(sources[j].columns))
  {
    if sources != [] {
      ReadFramesEmpty(sources[..|sources| - 1]);
    }
  }

  lemma {:induction false} ReadFramesSize(sources: seq<Source>)
    requires forall j :: 0 <= j < |sources| ==> !Rejected(sources[j])
    ensures |Concat(ReadFrames(sources))| == RowsRead(sources)
  {
    if sources != [] {
      var init := sources[..|sources| - 1];
      var last := sources[|sources| - 1];
      ReadFramesSize(init);
      if last.Frame? {
        ConcatAppend(ReadFrames(init), Project(last.columns, last.rows));
      }
    }
  }

  /** "No data to merge" happens exactly when every input was an empty file:
      a header-only file counts as read. */
  lemma MergeNoDataIffAllFilesEmpty(sources: seq<Source>)
    ensures Merge(sources) == Err(NoData) <==> forall j :: 0 <= j < |sources| ==> sources[j].EmptyFile?
  {
    ReadFramesEmpty(sources);
    if j :| 0 <= j < |sources| && Rejected(sources[j]) {
      MergeFailsOnAnyRejectedFile(sources, j);
    } else {
      CollectWithoutRejection(sources);
    }
  }

  /** On success the report counts the files read and their records, the
      exact duplicates dropped, and the table is the canonical form of the
      concatenated records of the files read. */
  lemma MergeReportsWhatWasRead(sources: seq<Source>)
    requires Merge(sources).Ok?
    ensures forall j :: 0 <= j < |sources| ==> !Rejected(sources[j])
    ensures var report := Merge(sources).value;
            var all := Concat(ReadFrames(sources));
            && report.table == Canonicalize(all)
            && report.filesMerged == |ReadFrames(sources)|
            && report.totalRows == RowsRead(sources)
            && report.exactDuplicates == |all| - |Distinct(all)|
  {
    if j :| 0 <= j < |sources| && Rejected(sources[j]) {
      MergeFailsOnAnyRejectedFile(sources, j);
    }
    CollectWithoutRejection(sources);
    ReadFramesSize(sources);
    DistinctSize(Concat(ReadFrames(sources)));
  }

  /** A header-only file is read like any other: with nothing else to read
      the merge succeeds with an empty table. */
  lemma HeaderOnlyFilesGiveEmptyTable(sources: seq<Source>)
    requires forall j :: 0 <= j < |sources| ==> !Rejected(sources[j])
    requires forall j :: 0 <= j < |sources| ==> sources[j].Frame? ==> sources[j].rows == []
    requires exists j :: 0 <= j < |sources| && sources[j].Frame?
    ensures Merge(sources).Ok?
    ensures Merge(sources).value.table == [] && Merge(sources).value.totalRows == 0
  {
    ReadFramesEmpty(sources);
    CollectWithoutRejection(sources);
    ReadFramesSize(sources);
    assert RowsRead(sources) == 0 by { NoRowsRead(sources); }
    var all := Concat(ReadFrames(sources));
    assert all == [];
    assert multiset(Canonicalize(all)) == multiset{};
  }

  lemma {:induction false} NoRowsRead(sources: seq<Source>)
    requires forall j :: 0 <= j < |sources| ==> sources[j].Frame? ==> sources[j].rows == []
    ensures RowsRead(sources) == 0
  {
    if sources != [] {
      NoRowsRead(sources[..|sources| - 1]);
    }
  }

  // ---------------------------------------------------------------------------
  // The merged table

  /** The merged table has no exact duplicates, no two rows sharing the six
      grouping fields, is sorted by (Reported Date, Suburb - Incident), holds
      exactly the aggregated rows, and keeps the count total of the
      de-duplicated input: identical rows count once, rows with the same key
      and different counts are added up. */
  lemma MergedTableIsCanonical(sources: seq<Source>)
    requires Merge(sources).Ok?
    ensures var t := Merge(sources).value.table;
            var deduped := Distinct(Concat(ReadFrames(sources)));
            && NoDuplicates(t) && KeyUnique(t)
            && SortedByDateSuburb(t)
            && multiset(t) == multiset(Aggregate(deduped))
            && TotalCount(t) == TotalCount(deduped)
  {
    MergeReportsWhatWasRead(sources);
  }

  /** When all rows share one key, the merge yields a single row whose count
      sums the counts of the distinct rows: a row repeated verbatim counts
      once, rows differing only in their count are added up. */
  lemma {:induction false} OneKeyCollapsesToOneRow(all: Table)
    requires all != []
    requires forall i :: 0 <= i < |all| ==> KeyOf(all[i]) == KeyOf(all[0])
    ensures Canonicalize(all) == [WithCount(KeyOf(all[0]), TotalCount(Distinct(all)))]
  {
    var r := Canonicalize(all);
    var k := KeyOf(all[0]);
    assert Keys(all)[0] == k;
    assert |r| == 1 by {
      assert k in Keys(r);
      assert |r| > 1 ==> Keys(r)[0] != Keys(r)[1];
      OnlyKey(all, r, k, 0);
      if |r| > 1 {
        OnlyKey(all, r, k, 1);
      }
    }
    OnlyKey(all, r, k, 0);
    assert r == [] + [r[0]];
    TotalCountAppend([], r[0]);
  }

  /** Every row of the merged table carries a key of the input. */
  lemma OnlyKey(all: Table, r: Table, k: Key, i: nat)
    requires r == Canonicalize(all) && i < |r|
    requires forall j :: 0 <= j < |all| ==> KeyOf(all[j]) == k
    ensures KeyOf(r[i]) == k
  {
    assert Keys(r)[i] in Keys(r);
    assert Keys(r)[i] in Keys(all);
  }

  /** The scenario of a row read twice plus a row with the same key and
      another count: the duplicate is dropped, the two counts are added. */
  lemma ExactAndLogicalDuplicates(a: Row, b: Row)
    requires a.offenceCount == 3 && b == a.(offenceCount := 5)
    ensures Canonicalize([a, a, b]) == [a.(offenceCount := 8)]
  {
    DistinctOfRepeatedRow(a, b);
    TotalCountAppend([], a);
    TotalCountAppend([a], b);
    assert [] + [a] == [a] && [a] + [b] == [a, b];
    OneKeyCollapsesToOneRow([a, a, b]);
  }

  lemma DistinctOfRepeatedRow(a: Row, b: Row)
    requires a != b
    ensures Distinct([a, a, b]) == [a, b]
  {
    assert Distinct([a]) == [a];
    assert [a, a][..1] == [a];
    assert Distinct([a, a]) == [a];
    assert [a, a, b][..2] == [a, a];
  }

  // ---------------------------------------------------------------------------
  // Merging the merged file again

  /** The file `to_csv` writes for a table: the required header and one
      record per row. */
  function Written(t: Table): Source {
    Frame(RequiredColumns, Map(t, RowCells))
  }

  lemma ReadWrittenTable(t: Table)
    ensures HasRequiredColumns(RequiredColumns)
    ensures Project(RequiredColumns, Map(t, RowCells)) == t
  {
    if t == [] {
      ReadWrittenRow(Row("", "", "", "", "", "", 0));
    }
    forall i | 0 <= i < |t| ensures Project(RequiredColumns, Map(t, RowCells))[i] == t[i] {
      ReadWrittenRow(t[i]);
    }
  }

  /** Merging the merged output file on its own gives the same table back,
      with no duplicates of either kind reported. */
  lemma MergeOfMergedOutputIsUnchanged(sources: seq<Source>)
    requires Merge(sources).Ok?
    ensures var t := Merge(sources).value.table;
            Merge([Written(t)]) == Ok(MergeReport(t, 1, |t|, 0, 0))
  {
    var t := Merge(sources).value.table;
    MergedTableIsCanonical(sources);
    CollectWritten(t);
    assert Concat([t]) == t by { assert [t][..0] == []; }
    NoDuplicatesIffNoneRepeated(t);
    NoLogicalDuplicatesIffKeyUnique(t);
    CanonicalizeOfCanonical(t);
  }

  lemma CollectWritten(t: Table)
    ensures Collect([Written(t)]) == Ok([t])
  {
    ReadWrittenTable(t);
    var w := [Written(t)];
    assert w[..0] == [];
    assert ValidateColumns(RequiredColumns, 0).None?;
    assert ReadSource(Written(t), 0) == Ok(Some(t));
    assert Collect(w[..0]) == Ok([]);
    assert [] + [t] == [t];
  }

  /** A table that is already free of duplicates of both kinds and sorted
      comes out of the cleaning steps unchanged. */
  lemma CanonicalizeOfCanonical(t: Table)
    requires KeyUnique(t) && SortedByDateSuburb(t)
    ensures Canonicalize(t) == t
  {
    KeyUniqueHasNoDuplicateRows(t);
    NoDuplicatesIffNoneRepeated(t);
    NoLogicalDuplicatesIffKeyUnique(t);
    SortRowsOfSorted(t);
  }
}
