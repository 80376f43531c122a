/** The incident row shared by the merge script, the filter script and the
    dashboard: seven required columns, six descriptive text fields that
    together identify a row, and an integer offence count. */
module Records {
  import opened Results
  import opened Seqs
  import opened Text

  /** The six grouping columns: the identity of a logical duplicate. */
  datatype Key = Key(reportedDate: string, suburb: string, postcode: string,
                     level1: string, level2: string, level3: string)

  /** One row restricted to the seven required columns. `reportedDate` stays
      the `dd/mm/yyyy` text it was read as. */
  datatype Row = Row(reportedDate: string, suburb: string, postcode: string,
                     level1: string, level2: string, level3: string,
                     offenceCount: int)

  type Table = seq<Row>

  const ReportedDate := "Reported Date"
  const SuburbIncident := "Suburb - Incident"
  const PostcodeIncident := "Postcode - Incident"
  const OffenceLevel1 := "Offence Level 1 Description"
  const OffenceLevel2 := "Offence Level 2 Description"
  const OffenceLevel3 := "Offence Level 3 Description"
  const OffenceCount := "Offence count"

  /** `REQUIRED_COLUMNS`, in header order. */
  const RequiredColumns: seq<string> :=
    [ReportedDate, SuburbIncident, PostcodeIncident,
     OffenceLevel1, OffenceLevel2, OffenceLevel3, OffenceCount]

  /** The six text fields of a row, in `RequiredColumns` order. */
  function TextFields(r: Row): seq<string> {
    [r.reportedDate, r.suburb, r.postcode, r.level1, r.level2, r.level3]
  }

  function KeyOf(r: Row): Key {
    Key(r.reportedDate, r.suburb, r.postcode, r.level1, r.level2, r.level3)
  }

  function CountOf(r: Row): int {
    r.offenceCount
  }

  /** The row of an aggregated group: its key fields and the summed count. */
  function WithCount(k: Key, n: int): (r: Row)
    ensures KeyOf(r) == k && CountOf(r) == n
  {
    Row(k.reportedDate, k.suburb, k.postcode, k.level1, k.level2, k.level3, n)
  }

  function Keys(t: Table): seq<Key> {
    Map(t, KeyOf)
  }

  function TotalCount(t: Table): int {
    Total(t, CountOf)
  }

  lemma TotalCountAppend(t: Table, x: Row)
    ensures TotalCount(t + [x]) == TotalCount(t) + x.offenceCount
  {
    assert (t + [x])[..|t|] == t;
  }

  /** No two rows share the six grouping fields. */
  predicate KeyUnique(t: Table) {
    NoDuplicates(Keys(t))
  }

  lemma KeyUniqueHasNoDuplicateRows(t: Table)
    requires KeyUnique(t)
    ensures NoDuplicates(t)
  {
    forall i, j | 0 <= i < j < |t| ensures t[i] != t[j] {
      assert Keys(t)[i] != Keys(t)[j];
    }
  }

  // ---------------------------------------------------------------------------
  // Reading a record

  predicate HasRequiredColumns(columns: seq<string>) {
    forall c :: c in RequiredColumns ==> c in columns
  }

  /** `missing_cols` in `validate_columns` and in the chunk check of
      `filter_crime_data`: the required columns absent from the header, in
      `REQUIRED_COLUMNS` order. */
  function MissingRequired(columns: seq<string>): (missing: seq<string>)
    ensures forall c :: c in missing <==> c in RequiredColumns && c !in columns
    ensures IsSubsequence(missing, RequiredColumns)
    ensures missing == [] <==> HasRequiredColumns(columns)
  {
    Filter(RequiredColumns, c => c !in columns)
  }

  /** The text under the named column of one record. A record shorter than
      its header reads as empty in the missing positions. */
  function Cell(columns: seq<string>, cells: seq<string>, name: string): (v: string)
    requires name in columns
    ensures v in cells || v == ""
  {
    var i := FirstIndex(columns, name);
    if i < |cells| then cells[i] else ""
  }

  /** The cell under a column is the record's cell at the first position
      carrying that column's name. */
  lemma CellAt(columns: seq<string>, cells: seq<string>, i: nat)
    requires i < |columns| && columns[i] !in columns[..i]
    ensures Cell(columns, cells, columns[i]) == if i < |cells| then cells[i] else ""
  {
    var j := FirstIndex(columns, columns[i]);
    assert columns[j] in columns[..j + 1];
  }

  /** `pd.to_numeric(cell, errors='coerce').fillna(0).astype(int)`: the value
      of an integer text, and 0 for anything else. */
  function ParseCount(cell: string): (n: int)
    ensures !IsIntegerText(cell) ==> n == 0
    ensures AllDigits(cell) ==> n == DigitsValue(cell)
    ensures cell != [] && cell[0] == '+' && AllDigits(cell[1..]) ==> n == DigitsValue(cell[1..])
    ensures cell != [] && cell[0] == '-' && AllDigits(cell[1..]) ==> n == -(DigitsValue(cell[1..]) as int)
    ensures forall m :: cell == FormatInt(m) ==> n == m
  {
    ParseOfWrittenInt(cell);
    match ParseInt(cell)
    case Some(v) => v
    case None => 0
  }

  /** Leading zeros and an explicit plus sign do not change the count, and
      a negated zero is zero. */
  lemma ParseCountOfPaddedText()
    ensures ParseCount("007") == 7 && ParseCount("+5") == 5 && ParseCount("-0") == 0
  {
    assert AllDigits("007") && DigitsValue("007") == 7 by {
      assert "007"[..2] == "00" && "00"[..1] == "0" && "0"[..0] == "";
    }
    assert "+5"[1..] == "5" && "5"[..0] == "";
    assert "-0"[1..] == "0" && "0"[..0] == "";
  }

  /** A leading zero never changes the value of a count. */
  lemma {:induction false} LeadingZeroIgnored(digits: string)
    requires AllDigits(digits)
    ensures ParseCount("0" + digits) == ParseCount(digits)
  {
    var s := "0" + digits;
    assert AllDigits(s);
    DigitsValueFront(s);
    assert s[1..] == digits;
  }

  lemma ParseOfWrittenInt(cell: string)
    ensures forall m :: cell == FormatInt(m) ==> ParseInt(cell) == Some(m)
  {
    forall m | cell == FormatInt(m) ensures ParseInt(cell) == Some(m) {
      ParseFormatRoundTrip(m);
    }
  }

  /** `df[REQUIRED_COLUMNS]` on one record, with the count coerced. */
  function ProjectRow(columns: seq<string>, cells: seq<string>): (r: Row)
    requires HasRequiredColumns(columns)
    ensures forall k :: 0 <= k < 6 ==> TextFields(r)[k] == Cell(columns, cells, RequiredColumns[k])
    ensures r.offenceCount == ParseCount(Cell(columns, cells, OffenceCount))
  {
    var r := Row(Cell(columns, cells, ReportedDate), Cell(columns, cells, SuburbIncident),
                 Cell(columns, cells, PostcodeIncident), Cell(columns, cells, OffenceLevel1),
                 Cell(columns, cells, OffenceLevel2), Cell(columns, cells, OffenceLevel3),
                 ParseCount(Cell(columns, cells, OffenceCount)));
    assert RequiredColumns[0] == ReportedDate && RequiredColumns[1] == SuburbIncident
        && RequiredColumns[2] == PostcodeIncident && RequiredColumns[3] == OffenceLevel1
        && RequiredColumns[4] == OffenceLevel2 && RequiredColumns[5] == OffenceLevel3;
    r
  }

  /** The required columns of every record, in record order. */
  function Project(columns: seq<string>, rows: seq<seq<string>>): (t: Table)
    requires HasRequiredColumns(columns)
    ensures |t| == |rows|
    ensures forall i :: 0 <= i < |rows| ==> t[i] == ProjectRow(columns, rows[i])
  {
    seq(|rows|, i requires 0 <= i < |rows| => ProjectRow(columns, rows[i]))
  }

  lemma ProjectAppend(columns: seq<string>, a: seq<seq<string>>, b: seq<seq<string>>)
    requires HasRequiredColumns(columns)
    ensures Project(columns, a + b) == Project(columns, a) + Project(columns, b)
  {
  }

  /** The record `to_csv` writes for a row, in `RequiredColumns` order. */
  function RowCells(r: Row): seq<string> {
    TextFields(r) + [FormatInt(r.offenceCount)]
  }

  lemma RequiredColumnsDistinct()
    ensures NoDuplicates(RequiredColumns)
  {
  }

  lemma FirstIndexOfUnique(s: seq<string>, k: nat)
    requires NoDuplicates(s) && k < |s|
    ensures FirstIndex(s, s[k]) == k
  {
    var i := FirstIndex(s, s[k]);
    assert s[i] == s[k];
  }

  /** Reading back a written row under the required header gives the row. */
  lemma ReadWrittenRow(r: Row)
    ensures HasRequiredColumns(RequiredColumns)
    ensures ProjectRow(RequiredColumns, RowCells(r)) == r
  {
    var cs := RequiredColumns;
    RequiredColumnsDistinct();
    FirstIndexOfUnique(cs, 0);
    FirstIndexOfUnique(cs, 1);
    FirstIndexOfUnique(cs, 2);
    FirstIndexOfUnique(cs, 3);
    FirstIndexOfUnique(cs, 4);
    FirstIndexOfUnique(cs, 5);
    FirstIndexOfUnique(cs, 6);
  }

  // ---------------------------------------------------------------------------
  // Ordering by (Reported Date, Suburb - Incident)

  /** `sort_values(by=["Reported Date", "Suburb - Incident"])` order: the
      date TEXT first, then the suburb. `dd/mm/yyyy` text puts the day first,
      so this order is not chronological. */
  predicate RowLe(a: Row, b: Row) {
    if a.reportedDate != b.reportedDate then StrLe(a.reportedDate, b.reportedDate)
    else StrLe(a.suburb, b.suburb)
  }

  lemma RowLeTotal(a: Row, b: Row)
    ensures RowLe(a, b) || RowLe(b, a)
  {
    StrLeTotal(a.reportedDate, b.reportedDate);
    StrLeTotal(a.suburb, b.suburb);
  }

  lemma RowLeTransitive(a: Row, b: Row, c: Row)
    requires RowLe(a, b) && RowLe(b, c)
    ensures RowLe(a, c)
  {
    if a.reportedDate == b.reportedDate == c.reportedDate {
      StrLeTransitive(a.suburb, b.suburb, c.suburb);
    } else if a.reportedDate == c.reportedDate {
      StrLeAntisymmetric(a.reportedDate, b.reportedDate);
    } else if a.reportedDate == b.reportedDate || b.reportedDate == c.reportedDate {
    } else {
      StrLeTransitive(a.reportedDate, b.reportedDate, c.reportedDate);
    }
  }

  predicate SortedByDateSuburb(t: Table) {
    forall i, j :: 0 <= i < j < |t| ==> RowLe(t[i], t[j])
  }

  /** Inserts `x` after every row that does not sort after it. */
  function Insert(s: Table, x: Row): (r: Table)
    requires SortedByDateSuburb(s)
    ensures SortedByDateSuburb(r)
    ensures multiset(r) == multiset(s) + multiset{x}
  {
    if s == [] then [x]
    else
      var last := s[|s| - 1];
      assert s == s[..|s| - 1] + [last];
      if RowLe(last, x) then
        assert forall i :: 0 <= i < |s| ==> RowLe(s[i], x) by {
          forall i | 0 <= i < |s| ensures RowLe(s[i], x) {
            if i < |s| - 1 { RowLeTransitive(s[i], last, x); }
          }
        }
        s + [x]
      else
        RowLeTotal(last, x);
        var q := Insert(s[..|s| - 1], x);
        assert forall i :: 0 <= i < |q| ==> RowLe(q[i], last) by {
          forall i | 0 <= i < |q| ensures RowLe(q[i], last) {
            assert q[i] in multiset(q);
          }
        }
        q + [last]
  }

  /** The table in (Reported Date, Suburb - Incident) order: a permutation of
      its input, sorted. */
  function SortRows(t: Table): (r: Table)
    ensures SortedByDateSuburb(r)
    ensures multiset(r) == multiset(t)
  {
    if t == [] then []
    else
      assert t == t[..|t| - 1] + [t[|t| - 1]];
      Insert(SortRows(t[..|t| - 1]), t[|t| - 1])
  }

  /** Sorting an already sorted table leaves it as it is. */
  lemma {:induction false} SortRowsOfSorted(t: Table)
    requires SortedByDateSuburb(t)
    ensures SortRows(t) == t
  {
    if t != [] {
      SortRowsOfSorted(t[..|t| - 1]);
      assert t == t[..|t| - 1] + [t[|t| - 1]];
    }
  }

  lemma KeyUniqueAppend(q: Table, y: Row)
    requires KeyUnique(q)
    requires forall i :: 0 <= i < |q| ==> KeyOf(q[i]) != KeyOf(y)
    ensures KeyUnique(q + [y])
  {
    var t := q + [y];
    forall i, j | 0 <= i < j < |t| ensures Keys(t)[i] != Keys(t)[j] {
      if j < |q| {
        assert Keys(q)[i] != Keys(q)[j];
      }
    }
  }

  lemma {:induction false} InsertKeepsKeysUnique(s: Table, x: Row)
    requires SortedByDateSuburb(s) && KeyUnique(s)
    requires forall i :: 0 <= i < |s| ==> KeyOf(s[i]) != KeyOf(x)
    ensures KeyUnique(Insert(s, x))
  {
    if s == [] {
      KeyUniqueAppend([], x);
    } else {
      var last := s[|s| - 1];
      if RowLe(last, x) {
        KeyUniqueAppend(s, x);
      } else {
        var init := s[..|s| - 1];
        assert KeyUnique(init) by {
          forall i, j | 0 <= i < j < |init| ensures Keys(init)[i] != Keys(init)[j] {
            assert Keys(s)[i] != Keys(s)[j];
          }
        }
        InsertKeepsKeysUnique(init, x);
        var q := Insert(init, x);
        forall i | 0 <= i < |q| ensures KeyOf(q[i]) != KeyOf(last) {
          assert q[i] in multiset(init) + multiset{x};
          if q[i] != x {
            var k :| 0 <= k < |init| && init[k] == q[i];
            assert Keys(s)[k] != Keys(s)[|s| - 1];
          }
        }
        KeyUniqueAppend(q, last);
      }
    }
  }

  /** Sorting never brings two rows with the same key together: a table
      without logical duplicates stays without them. */
  lemma {:induction false} SortRowsKeepsKeysUnique(t: Table)
    requires KeyUnique(t)
    ensures KeyUnique(SortRows(t))
  {
    if t != [] {
      var init := t[..|t| - 1];
      var last := t[|t| - 1];
      assert KeyUnique(init) by {
        forall i, j | 0 <= i < j < |init| ensures Keys(init)[i] != Keys(init)[j] {
          assert Keys(t)[i] != Keys(t)[j];
        }
      }
      SortRowsKeepsKeysUnique(init);
      var q := SortRows(init);
      forall i | 0 <= i < |q| ensures KeyOf(q[i]) != KeyOf(last) {
        assert q[i] in multiset(init);
        var k :| 0 <= k < |init| && init[k] == q[i];
        assert Keys(t)[k] != Keys(t)[|t| - 1];
      }
      InsertKeepsKeysUnique(q, last);
    }
  }

  lemma {:induction false} InsertKeepsTotal(s: Table, x: Row)
    requires SortedByDateSuburb(s)
    ensures TotalCount(Insert(s, x)) == TotalCount(s) + x.offenceCount
  {
    if s != [] && !RowLe(s[|s| - 1], x) {
      InsertKeepsTotal(s[..|s| - 1], x);
      var q := Insert(s[..|s| - 1], x);
      assert (q + [s[|s| - 1]])[..|q|] == q;
    }
  }

  /** Sorting does not change the count total. */
  lemma {:induction false} SortRowsKeepsTotal(t: Table)
    ensures TotalCount(SortRows(t)) == TotalCount(t)
  {
    if t != [] {
      SortRowsKeepsTotal(t[..|t| - 1]);
      InsertKeepsTotal(SortRows(t[..|t| - 1]), t[|t| - 1]);
    }
  }

  /** The sort compares dates as text: 1 February 2024 sorts before
      31 January 2024. */
  lemma DatesSortAsText(a: Row, b: Row)
    requires a.reportedDate == "01/02/2024" && b.reportedDate == "31/01/2024"
    ensures RowLe(a, b) && !RowLe(b, a)
  {
  }
}
