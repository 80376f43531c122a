/** The suburb filter (`filter_crime_data.py`): read each input file chunk
    by chunk, check every chunk's header, keep the records whose suburb is
    in the requested list with their count coerced to an integer, and
    concatenate the kept chunks in file order; `save_to_csv` then sorts by
    (Reported Date, Suburb - Incident). Each file arrives already split into
    a header and its chunks of records. */
module FilterCrime {
  import opened Results
  import opened Seqs
  import opened Records

  /** One input file as the chunked CSV reader delivers it. `chunks` are
      the frames the reader yields, all under the file's header. The reader
      yields at least one frame for a file with a header: a header-only file
      yields a single empty frame, `Chunked(columns, [[]])`, which the
      script checks like any other. */
  datatype CsvFile =
    | EmptyFile                                                       // EmptyDataError
    | Unparsable                                                      // ParserError
    | Chunked(columns: seq<string>, chunks: seq<seq<seq<string>>>)    // a header and its chunks

  /** The ways the script ends with `sys.exit(1)`; `file` is the position of
      the offending file among the inputs. */
  datatype FilterError =
    | MissingColumns(file: nat, missing: seq<string>)
    | ParseFailure(file: nat)

  /** A data frame as far as the model follows it: its column names and its
      rows reduced to the seven required fields. */
  datatype Filtered = Filtered(columns: seq<string>, rows: Table)

  /** The frame returned when nothing matched: no rows, the seven required
      columns in order. */
  const NoMatch: Filtered := Filtered(RequiredColumns, [])

  /** `chunk['Suburb - Incident'].isin(suburbs)` for one record. */
  predicate InSuburbs(columns: seq<string>, suburbs: seq<string>, cells: seq<string>)
    requires HasRequiredColumns(columns)
  {
    Cell(columns, cells, SuburbIncident) in suburbs
  }

  /** The records of a chunk whose suburb is in the list, in order. */
  function Matching(columns: seq<string>, suburbs: seq<string>, rows: seq<seq<string>>): (r: seq<seq<string>>)
    requires HasRequiredColumns(columns)
    ensures forall x :: x in r <==> x in rows && InSuburbs(columns, suburbs, x)
    ensures forall x :: multiset(r)[x] == if InSuburbs(columns, suburbs, x) then multiset(rows)[x] else 0
    ensures IsSubsequence(r, rows)
  {
    Filter(rows, cells => InSuburbs(columns, suburbs, cells))
  }

  lemma MatchingAppend(columns: seq<string>, suburbs: seq<string>, a: seq<seq<string>>, b: seq<seq<string>>)
    requires HasRequiredColumns(columns)
    ensures Matching(columns, suburbs, a + b) == Matching(columns, suburbs, a) + Matching(columns, suburbs, b)
  {
    FilterAppend(a, b, cells => InSuburbs(columns, suburbs, cells));
  }

  /** The frames appended to `filtered_chunks` while reading the chunks of
      one file, or the error that stopped the script. */
  function FileParts(file: nat, columns: seq<string>, chunks: seq<seq<seq<string>>>, suburbs: seq<string>)
    : (r: Result<seq<Filtered>, FilterError>)
    ensures r.Err? <==> chunks != [] && !HasRequiredColumns(columns)
    ensures r.Err? ==> r.error == MissingColumns(file, MissingRequired(columns))
    ensures r.Ok? ==> GoodParts(r.value)
  {
    if chunks == [] then Ok([])
    else
      match FileParts(file, columns, chunks[..|chunks| - 1], suburbs)
      case Err(e) => Err(e)
      case Ok(parts) =>
        if !HasRequiredColumns(columns) then Err(MissingColumns(file, MissingRequired(columns)))
        else
          AddChunkPart(parts, columns, suburbs, chunks[|chunks| - 1]);
          Ok(parts + ChunkPart(columns, suburbs, chunks[|chunks| - 1]))
  }

  /** What one chunk adds to `filtered_chunks`: its matching records, if
      there are any. */
  function ChunkPart(columns: seq<string>, suburbs: seq<string>, chunk: seq<seq<string>>): seq<Filtered>
    requires HasRequiredColumns(columns)
  {
    var kept := Project(columns, Matching(columns, suburbs, chunk));
    if |kept| > 0 then [Filtered(columns, kept)] else []
  }

  /** `filtered_chunks` after the loop over the files, or the error that
      stopped the script. */
  function Gather(files: seq<CsvFile>, suburbs: seq<string>): (r: Result<seq<Filtered>, FilterError>)
    ensures r.Ok? <==> forall j :: 0 <= j < |files| ==> !Faulty(files[j])
    ensures r.Ok? ==> GoodParts(r.value)
  {
    if files == [] then Ok([])
    else
      var i := |files| - 1;
      assert forall j :: 0 <= j < i ==> files[..i][j] == files[j];
      match Gather(files[..i], suburbs)
      case Err(e) => Err(e)
      case Ok(parts) =>
        match files[i]
        case EmptyFile => Ok(parts)
        case Unparsable => Err(ParseFailure(i))
        case Chunked(columns, chunks) =>
          match FileParts(i, columns, chunks, suburbs)
          case Err(e) => Err(e)
          case Ok(more) => Ok(parts + more)
  }

  /** The column names of the frames, one after the other. */
  function ColumnsOfParts(parts: seq<Filtered>): seq<string> {
    if parts == [] then [] else ColumnsOfParts(parts[..|parts| - 1]) + parts[|parts| - 1].columns
  }

  /** The rows of the frames, one after the other. */
  function RowsOfParts(parts: seq<Filtered>): Table {
    if parts == [] then [] else RowsOfParts(parts[..|parts| - 1]) + parts[|parts| - 1].rows
  }

  lemma RowsOfPartsAppend(a: seq<Filtered>, b: seq<Filtered>)
    ensures RowsOfParts(a + b) == RowsOfParts(a) + RowsOfParts(b)
    decreases |b|
  {
    if b != [] {
      assert (a + b)[..|a + b| - 1] == a + b[..|b| - 1];
      RowsOfPartsAppend(a, b[..|b| - 1]);
    } else {
      assert a + b == a;
    }
  }

  /** A column name occurs in the concatenated headers exactly when some
      frame carries it. */
  lemma {:induction false} ColumnsOfPartsMembership(parts: seq<Filtered>)
    ensures forall c :: c in ColumnsOfParts(parts) <==> exists k :: 0 <= k < |parts| && c in parts[k].columns
  {
    if parts != [] {
      var init := parts[..|parts| - 1];
      ColumnsOfPartsMembership(init);
      forall c | c in ColumnsOfParts(parts)
        ensures exists k :: 0 <= k < |parts| && c in parts[k].columns
      {
        if c in ColumnsOfParts(init) {
          var k :| 0 <= k < |init| && c in init[k].columns;
          assert parts[k] == init[k];
        } else {
          assert c in parts[|parts| - 1].columns;
        }
      }
      forall c | exists k :: 0 <= k < |parts| && c in parts[k].columns
        ensures c in ColumnsOfParts(parts)
      {
        var k :| 0 <= k < |parts| && c in parts[k].columns;
        if k < |init| {
          assert init[k] == parts[k];
        }
      }
    }
  }

  /** `pd.concat(filtered_chunks, ignore_index=True)`: the rows one frame
      after another, under the union of the frames' columns in order of
      first appearance. */
  function ConcatFrames(parts: seq<Filtered>): (r: Filtered)
    ensures NoDuplicates(r.columns)
    ensures forall c :: c in r.columns <==> exists k :: 0 <= k < |parts| && c in parts[k].columns
    ensures |r.rows| == |RowsOfParts(parts)|
  {
    ColumnsOfPartsMembership(parts);
    Filtered(Distinct(ColumnsOfParts(parts)), RowsOfParts(parts))
  }

  /** The whole of `filter_crime_data` on already-read inputs. */
  function FilterCrime(files: seq<CsvFile>, suburbs: seq<string>): (r: Result<Filtered, FilterError>)
    ensures r.Ok? <==> forall j :: 0 <= j < |files| ==> !Faulty(files[j])
    ensures r.Ok? ==> HasRequiredColumns(r.value.columns)
  {
    match Gather(files, suburbs)
    case Err(e) => Err(e)
    case Ok(parts) =>
      if parts == [] then Ok(NoMatch)
      else
        assert HasRequiredColumns(parts[0].columns);
        Ok(ConcatFrames(parts))
  }

  /** `filter_crime_data`: the loop over the files. The count of filtered
      rows is the size of the returned frame. */
  method FilterCrimeData(files: seq<CsvFile>, suburbs: seq<string>)
    returns (r: Result<Filtered, FilterError>, totalFilteredRows: nat)
    ensures r == FilterCrime(files, suburbs)
    ensures r.Ok? ==> totalFilteredRows == |r.value.rows|
  {
    var filteredChunks: seq<Filtered> := [];
    totalFilteredRows := 0;
    for f := 0 to |files|
      invariant Gather(files[..f], suburbs) == Ok(filteredChunks)
      invariant totalFilteredRows == |RowsOfParts(filteredChunks)|
    {
      GatherNext(files, f, suburbs);
      match files[f]
      case EmptyFile =>
      case Unparsable =>
        StopFilter(files, f + 1, suburbs);
        return Err(ParseFailure(f)), totalFilteredRows;
      case Chunked(columns, chunks) =>
        var fileResult, rowsKept := FilterChunks(f, columns, chunks, suburbs);
        if fileResult.Err? {
          StopFilter(files, f + 1, suburbs);
          return Err(fileResult.error), totalFilteredRows;
        }
        RowsOfPartsAppend(filteredChunks, fileResult.value);
        filteredChunks := filteredChunks + fileResult.value;
        totalFilteredRows := totalFilteredRows + rowsKept;
    }
    assert files[..|files|] == files;
    if filteredChunks == [] {
      return Ok(NoMatch), totalFilteredRows;
    }
    r := Ok(ConcatFrames(filteredChunks));
  }

  /** The inner loop of `filter_crime_data` over the chunks of one file: the
      frames it appends and the number of rows they hold. */
  method FilterChunks(f: nat, columns: seq<string>, chunks: seq<seq<seq<string>>>, suburbs: seq<string>)
    returns (r: Result<seq<Filtered>, FilterError>, rowsKept: nat)
    ensures r == FileParts(f, columns, chunks, suburbs)
    ensures r.Ok? ==> rowsKept == |RowsOfParts(r.value)|
  {
    var parts: seq<Filtered> := [];
    rowsKept := 0;
    for c := 0 to |chunks|
      invariant FileParts(f, columns, chunks[..c], suburbs) == Ok(parts)
      invariant rowsKept == |RowsOfParts(parts)|
    {
      var missing := MissingRequired(columns);
      if missing != [] {
        ChunkWithoutColumns(f, columns, chunks, c, suburbs, parts);
        return Err(MissingColumns(f, missing)), rowsKept;
      }
      var filteredChunk := Project(columns, Matching(columns, suburbs, chunks[c]));
      var rowsBefore := |filteredChunk|;
      ChunkWithColumns(f, columns, chunks, c, suburbs, parts);
      if rowsBefore > 0 {
        parts := parts + [Filtered(columns, filteredChunk)];
        rowsKept := rowsKept + rowsBefore;
      }
    }
    assert chunks[..|chunks|] == chunks;
    r := Ok(parts);
  }

  /** One more pass of the loop over the files. */
  lemma GatherNext(files: seq<CsvFile>, f: nat, suburbs: seq<string>)
    requires f < |files|
    ensures Gather(files[..f + 1], suburbs) ==
            match Gather(files[..f], suburbs)
            case Err(e) => Err(e)
            case Ok(parts) =>
              match files[f]
              case EmptyFile => Ok(parts)
              case Unparsable => Err(ParseFailure(f))
              case Chunked(columns, chunks) =>
                match FileParts(f, columns, chunks, suburbs)
                case Err(e) => Err(e)
                case Ok(more) => Ok(parts + more)
  {
    assert files[..f + 1][..f] == files[..f];
  }

  /** A pass of the loop over the chunks that finds the header complete. */
  lemma ChunkWithColumns(file: nat, columns: seq<string>, chunks: seq<seq<seq<string>>>, c: nat,
                         suburbs: seq<string>, parts: seq<Filtered>)
    requires c < |chunks| && FileParts(file, columns, chunks[..c], suburbs) == Ok(parts)
    requires HasRequiredColumns(columns)
    ensures var kept := Project(columns, Matching(columns, suburbs, chunks[c]));
            var next := if |kept| > 0 then parts + [Filtered(columns, kept)] else parts;
            && FileParts(file, columns, chunks[..c + 1], suburbs) == Ok(next)
            && |RowsOfParts(next)| == |RowsOfParts(parts)| + |kept|
  {
    assert chunks[..c + 1][..c] == chunks[..c];
    var kept := Project(columns, Matching(columns, suburbs, chunks[c]));
    if |kept| > 0 {
      RowsOfPartsAppend(parts, [Filtered(columns, kept)]);
      assert [Filtered(columns, kept)][..0] == [];
    } else {
      assert parts + ChunkPart(columns, suburbs, chunks[c]) == parts;
    }
  }

  /** A pass of the loop over the chunks that finds a column missing: the
      file, and so the script, stops with that error. */
  lemma ChunkWithoutColumns(file: nat, columns: seq<string>, chunks: seq<seq<seq<string>>>, c: nat,
                            suburbs: seq<string>, parts: seq<Filtered>)
    requires c < |chunks| && FileParts(file, columns, chunks[..c], suburbs) == Ok(parts)
    requires !HasRequiredColumns(columns)
    ensures FileParts(file, columns, chunks, suburbs) == Err(MissingColumns(file, MissingRequired(columns)))
  {
    assert chunks[..c + 1][..c] == chunks[..c];
    FilePartsStopAtError(file, columns, chunks, c + 1, suburbs);
  }

  lemma FilePartsStopAtError(file: nat, columns: seq<string>, chunks: seq<seq<seq<string>>>,
                                                n: nat, suburbs: seq<string>)
    requires n <= |chunks| && FileParts(file, columns, chunks[..n], suburbs).Err?
    ensures FileParts(file, columns, chunks, suburbs) == FileParts(file, columns, chunks[..n], suburbs)
  {
    assert |chunks[..n]| == n;
  }

  lemma {:induction false} GatherStopsAtError(files: seq<CsvFile>, n: nat, suburbs: seq<string>)
    requires n <= |files| && Gather(files[..n], suburbs).Err?
    ensures Gather(files, suburbs) == Gather(files[..n], suburbs)
  {
    if n < |files| {
      var init := files[..|files| - 1];
      assert init[..n] == files[..n];
      GatherStopsAtError(init, n, suburbs);
    } else {
      assert files[..n] == files;
    }
  }

  /** Once the loops stop with an error, that error is the script's outcome. */
  lemma StopFilter(files: seq<CsvFile>, n: nat, suburbs: seq<string>)
    requires n <= |files| && Gather(files[..n], suburbs).Err?
    ensures FilterCrime(files, suburbs) == Err(Gather(files[..n], suburbs).error)
  {
    GatherStopsAtError(files, n, suburbs);
  }

  // ---------------------------------------------------------------------------
  // What the filter returns

  /** A file that stops the script: one that fails to parse, or one with at
      least one chunk whose header lacks a required column. Since the reader
      yields an empty frame for a header-only file, such a file is faulty
      exactly when its header lacks a required column. */
  predicate Faulty(file: CsvFile) {
    file.Unparsable? || (file.Chunked? && file.chunks != [] && !HasRequiredColumns(file.columns))
  }

  /** The error a faulty file at position `i` stops the script with. */
  function FaultOf(file: CsvFile, i: nat): FilterError
    requires Faulty(file)
  {
    if file.Unparsable? then ParseFailure(i) else MissingColumns(i, MissingRequired(file.columns))
  }

  /** The rows of one file whose suburb is in the list, filtering the file
      as a whole rather than chunk by chunk. */
  function FileMatches(file: CsvFile, suburbs: seq<string>): Table {
    if file.Chunked? && HasRequiredColumns(file.columns)
    then Project(file.columns, Matching(file.columns, suburbs, Concat(file.chunks)))
    else []
  }

  /** The matching rows of every file, in file order. */
  function WholeFiles(files: seq<CsvFile>, suburbs: seq<string>): Table {
    if files == [] then []
    else WholeFiles(files[..|files| - 1], suburbs) + FileMatches(files[|files| - 1], suburbs)
  }

  /** Every frame appended holds rows and carries every required column. */
  predicate GoodParts(parts: seq<Filtered>) {
    forall k :: 0 <= k < |parts| ==> HasRequiredColumns(parts[k].columns) && parts[k].rows != []
  }

  lemma {:induction false} FilePartsOfSoundFile(file: nat, columns: seq<string>, chunks: seq<seq<seq<string>>>,
                                                suburbs: seq<string>)
    requires !Faulty(Chunked(columns, chunks))
    ensures FileParts(file, columns, chunks, suburbs).Ok?
    ensures var parts := FileParts(file, columns, chunks, suburbs).value;
            && GoodParts(parts)
            && RowsOfParts(parts) == FileMatches(Chunked(columns, chunks), suburbs)
  {
    if chunks != [] {
      var init := chunks[..|chunks| - 1];
      var last := chunks[|chunks| - 1];
      FilePartsOfSoundFile(file, columns, init, suburbs);
      var parts := FileParts(file, columns, init, suburbs).value;
      AddChunkPart(parts, columns, suburbs, last);
      MatchingAppend(columns, suburbs, Concat(init), last);
      ProjectAppend(columns, Matching(columns, suburbs, Concat(init)), Matching(columns, suburbs, last));
      if init == [] {
        assert FileMatches(Chunked(columns, init), suburbs) == [];
      }
    }
  }

  lemma AddChunkPart(parts: seq<Filtered>, columns: seq<string>, suburbs: seq<string>, chunk: seq<seq<string>>)
    requires HasRequiredColumns(columns) && GoodParts(parts)
    ensures GoodParts(parts + ChunkPart(columns, suburbs, chunk))
    ensures RowsOfParts(parts + ChunkPart(columns, suburbs, chunk))
         == RowsOfParts(parts) + Project(columns, Matching(columns, suburbs, chunk))
  {
    var kept := Project(columns, Matching(columns, suburbs, chunk));
    if |kept| > 0 {
      RowsOfPartsAppend(parts, [Filtered(columns, kept)]);
      assert [Filtered(columns, kept)][..0] == [];
    } else {
      assert parts + ChunkPart(columns, suburbs, chunk) == parts;
    }
  }

  lemma {:induction false} FilePartsOfFaultyFile(file: nat, columns: seq<string>, chunks: seq<seq<seq<string>>>,
                                                 suburbs: seq<string>)
    requires Faulty(Chunked(columns, chunks))
    ensures FileParts(file, columns, chunks, suburbs) == Err(MissingColumns(file, MissingRequired(columns)))
  {
    var init := chunks[..|chunks| - 1];
    if init != [] {
      FilePartsOfFaultyFile(file, columns, init, suburbs);
    }
  }

  lemma {:induction false} GatherOfSoundFiles(files: seq<CsvFile>, suburbs: seq<string>)
    requires forall j :: 0 <= j < |files| ==> !Faulty(files[j])
    ensures Gather(files, suburbs).Ok?
    ensures var parts := Gather(files, suburbs).value;
            GoodParts(parts) && RowsOfParts(parts) == WholeFiles(files, suburbs)
  {
    if files != [] {
      var i := |files| - 1;
      GatherOfSoundFiles(files[..i], suburbs);
      var parts := Gather(files[..i], suburbs).value;
      match files[i]
      case EmptyFile =>
        assert RowsOfParts(parts) + [] == RowsOfParts(parts);
      case Unparsable =>
      case Chunked(columns, chunks) =>
        FilePartsOfSoundFile(i, columns, chunks, suburbs);
        RowsOfPartsAppend(parts, FileParts(i, columns, chunks, suburbs).value);
    }
  }

  lemma {:induction false} GatherAtFirstFault(files: seq<CsvFile>, i: nat, suburbs: seq<string>)
    requires i < |files| && Faulty(files[i])
    requires forall j :: 0 <= j < i ==> !Faulty(files[j])
    ensures Gather(files, suburbs) == Err(FaultOf(files[i], i))
  {
    GatherOfSoundFiles(files[..i], suburbs);
    GatherNext(files, i, suburbs);
    if files[i].Chunked? {
      FilePartsOfFaultyFile(i, files[i].columns, files[i].chunks, suburbs);
    }
    GatherStopsAtError(files, i + 1, suburbs);
  }

  /** A file that fails to parse, or whose header lacks a required column,
      stops the script with that file's error provided every earlier file
      was sound. */
  lemma FilterFailsAtFirstFaultyFile(files: seq<CsvFile>, suburbs: seq<string>, i: nat)
    requires i < |files| && Faulty(files[i])
    requires forall j :: 0 <= j < i ==> !Faulty(files[j])
    ensures FilterCrime(files, suburbs) == Err(FaultOf(files[i], i))
  {
    GatherAtFirstFault(files, i, suburbs);
  }

  /** The script succeeds exactly when no file is faulty. It then returns
      the matching rows of each whole file in file order, under columns that
      include the seven required ones; with no match it returns the empty
      frame with exactly the seven required columns. */
  lemma FilterOutcome(files: seq<CsvFile>, suburbs: seq<string>)
    ensures FilterCrime(files, suburbs).Ok? <==> forall j :: 0 <= j < |files| ==> !Faulty(files[j])
    ensures FilterCrime(files, suburbs).Ok? ==>
              var df := FilterCrime(files, suburbs).value;
              && df.rows == WholeFiles(files, suburbs)
              && HasRequiredColumns(df.columns)
              && (df.rows == [] ==> df == NoMatch)
  {
    if i :| 0 <= i < |files| && Faulty(files[i]) {
      FirstFault(files, i, suburbs);
    } else {
      GatherOfSoundFiles(files, suburbs);
      var parts := Gather(files, suburbs).value;
      if parts != [] {
        var last := parts[|parts| - 1];
        assert HasRequiredColumns(last.columns) && last.rows != [];
        assert forall c :: c in last.columns ==> c in ColumnsOfParts(parts);
      }
    }
  }

  /** Any faulty file makes the run fail; this is `FilterCrime`'s own
      contract, with the faulty file as the witness. */
  lemma FirstFault(files: seq<CsvFile>, i: nat, suburbs: seq<string>)
    requires i < |files| && Faulty(files[i])
    ensures FilterCrime(files, suburbs).Err?
  {
  }

  /** A header-only file arrives as one empty chunk, so a header lacking a
      required column stops the script even though the file has no record;
      when every earlier file is sound, the error names that file. */
  lemma HeaderOnlyFileIsChecked(files: seq<CsvFile>, i: nat, suburbs: seq<string>)
    requires i < |files| && files[i].Chunked? && files[i].chunks == [[]]
    requires !HasRequiredColumns(files[i].columns)
    ensures FilterCrime(files, suburbs).Err?
    ensures (forall j :: 0 <= j < i ==> !Faulty(files[j])) ==>
              FilterCrime(files, suburbs) == Err(MissingColumns(i, MissingRequired(files[i].columns)))
  {
    FirstFault(files, i, suburbs);
    if forall j :: 0 <= j < i ==> !Faulty(files[j]) {
      FilterFailsAtFirstFaultyFile(files, suburbs, i);
    }
  }

  lemma {:induction false} WholeFilesInSuburbs(files: seq<CsvFile>, suburbs: seq<string>)
    ensures forall row :: row in WholeFiles(files, suburbs) ==> row.suburb in suburbs
  {
    if files != [] {
      WholeFilesInSuburbs(files[..|files| - 1], suburbs);
      var file := files[|files| - 1];
      if file.Chunked? && HasRequiredColumns(file.columns) {
        var m := Matching(file.columns, suburbs, Concat(file.chunks));
        forall k | 0 <= k < |m| ensures Project(file.columns, m)[k].suburb in suburbs {
          assert m[k] in m;
        }
      }
    }
  }

  /** Every returned row's suburb is one of the requested suburbs. */
  lemma FilteredRowsAreInSuburbs(files: seq<CsvFile>, suburbs: seq<string>)
    requires FilterCrime(files, suburbs).Ok?
    ensures forall row :: row in FilterCrime(files, suburbs).value.rows ==> row.suburb in suburbs
  {
    FilterOutcome(files, suburbs);
    WholeFilesInSuburbs(files, suburbs);
  }

  lemma {:induction false} WholeFilesAppend(a: seq<CsvFile>, b: seq<CsvFile>, suburbs: seq<string>)
    ensures WholeFiles(a + b, suburbs) == WholeFiles(a, suburbs) + WholeFiles(b, suburbs)
    decreases |b|
  {
    if b != [] {
      assert (a + b)[..|a + b| - 1] == a + b[..|b| - 1];
      WholeFilesAppend(a, b[..|b| - 1], suburbs);
    } else {
      assert a + b == a;
    }
  }

  /** An empty input file is skipped: removing it changes neither whether
      the script succeeds nor the rows it returns. */
  lemma EmptyFilesAreSkipped(files: seq<CsvFile>, suburbs: seq<string>, i: nat)
    requires i < |files| && files[i] == EmptyFile
    ensures var rest := files[..i] + files[i + 1..];
            && (FilterCrime(files, suburbs).Ok? <==> FilterCrime(rest, suburbs).Ok?)
            && (FilterCrime(files, suburbs).Ok? ==>
                  FilterCrime(files, suburbs).value.rows == FilterCrime(rest, suburbs).value.rows)
  {
    FilterOutcome(files, suburbs);
    FilterOutcome(files[..i] + files[i + 1..], suburbs);
    SoundWithoutEmptyFile(files, i);
    WholeFilesWithoutEmptyFile(files, suburbs, i);
  }

  lemma SoundWithoutEmptyFile(files: seq<CsvFile>, i: nat)
    requires i < |files| && files[i] == EmptyFile
    ensures var rest := files[..i] + files[i + 1..];
            (forall j :: 0 <= j < |files| ==> !Faulty(files[j])) <==>
            (forall j :: 0 <= j < |rest| ==> !Faulty(rest[j]))
  {
    var rest := files[..i] + files[i + 1..];
    assert forall j :: 0 <= j < i ==> rest[j] == files[j];
    assert forall j :: i <= j < |rest| ==> rest[j] == files[j + 1];
    if forall j :: 0 <= j < |rest| ==> !Faulty(rest[j]) {
      forall j | 0 <= j < |files| ensures !Faulty(files[j]) {
        if j > i {
          assert files[j] == rest[j - 1];
        }
      }
    }
  }

  lemma WholeFilesWithoutEmptyFile(files: seq<CsvFile>, suburbs: seq<string>, i: nat)
    requires i < |files| && files[i] == EmptyFile
    ensures WholeFiles(files, suburbs) == WholeFiles(files[..i] + files[i + 1..], suburbs)
  {
    assert files == files[..i] + [EmptyFile] + files[i + 1..];
    WholeFilesSkipEmpty(files[..i], files[i + 1..], suburbs);
  }

  lemma WholeFilesSkipEmpty(a: seq<CsvFile>, b: seq<CsvFile>, suburbs: seq<string>)
    ensures WholeFiles(a + [EmptyFile] + b, suburbs) == WholeFiles(a + b, suburbs)
  {
    WholeFilesAppend(a + [EmptyFile], b, suburbs);
    WholeFilesOfEmptyFile(a, suburbs);
    WholeFilesAppend(a, b, suburbs);
  }

  lemma WholeFilesOfEmptyFile(a: seq<CsvFile>, suburbs: seq<string>)
    ensures WholeFiles(a + [EmptyFile], suburbs) == WholeFiles(a, suburbs)
  {
    var left := a + [EmptyFile];
    assert left[..|left| - 1] == a;
    assert FileMatches(EmptyFile, suburbs) == [];
  }

  /** The sort step of `save_to_csv`: the same columns, the rows ordered by
      (Reported Date, Suburb - Incident) as text and a permutation of the
      filtered rows. */
  function SortForSave(df: Filtered): (r: Filtered)
    ensures r.columns == df.columns
    ensures SortedByDateSuburb(r.rows)
    ensures multiset(r.rows) == multiset(df.rows)
  {
    Filtered(df.columns, SortRows(df.rows))
  }
}
