/** The data logic of the dashboard (`app.py`): the month key derived when
    the filtered file is loaded, the cascading offence-level filter, the
    option lists of the sidebar, the suburb and level-3 selection, the
    summary total and the per-month sums, and the file-name sanitiser. The
    widgets, charts and downloads themselves are not modelled. */
module Dashboard {
  import opened Seqs
  import opened Text
  import opened Records

  /** The sentinel option meaning "no restriction". */
  const AllData := "All Data"

  // ---------------------------------------------------------------------------
  // Loading: the month key

  /** A `dd/mm/yyyy` date with zero-padded day and month. */
  predicate IsDayMonthYear(date: string) {
    && |date| == 10 && date[2] == '/' && date[5] == '/'
    && AllDigits(date[..2]) && AllDigits(date[3..5]) && AllDigits(date[6..])
  }

  /** A `yyyy-mm` period label. */
  predicate IsYearMonth(m: string) {
    |m| == 7 && m[4] == '-' && AllDigits(m[..4]) && AllDigits(m[5..])
  }

  /** `to_datetime(format='%d/%m/%Y').dt.to_period('M').astype(str)`: the
      year and month of a date as `yyyy-mm`. */
  function MonthKey(date: string): (m: string)
    requires IsDayMonthYear(date)
    ensures IsYearMonth(m)
    ensures m[..4] == date[6..] && m[5..] == date[3..5]
  {
    date[6..] + "-" + date[3..5]
  }

  /** Two `dd/mm/yyyy` dates fall in the same calendar month. */
  predicate SameMonth(a: string, b: string)
    requires IsDayMonthYear(a) && IsDayMonthYear(b)
  {
    a[3..5] == b[3..5] && a[6..] == b[6..]
  }

  /** Two dates get the same month key exactly when they agree on month and
      year; the day plays no part. */
  lemma MonthKeySameMonth(a: string, b: string)
    requires IsDayMonthYear(a) && IsDayMonthYear(b)
    ensures MonthKey(a) == MonthKey(b) <==> SameMonth(a, b)
  {
    if MonthKey(a) == MonthKey(b) {
      assert MonthKey(a)[..4] == MonthKey(b)[..4];
      assert MonthKey(a)[5..] == MonthKey(b)[5..];
    }
  }

  /** The year of a `dd/mm/yyyy` date. */
  function YearOf(date: string): nat
    requires IsDayMonthYear(date)
  {
    DigitsValue(date[6..])
  }

  /** The month number of a `dd/mm/yyyy` date. */
  function MonthNumberOf(date: string): nat
    requires IsDayMonthYear(date)
  {
    DigitsValue(date[3..5])
  }

  /** The month of `a` is not later than the month of `b`. */
  predicate NotLaterMonth(a: string, b: string)
    requires IsDayMonthYear(a) && IsDayMonthYear(b)
  {
    YearOf(a) < YearOf(b) || (YearOf(a) == YearOf(b) && MonthNumberOf(a) <= MonthNumberOf(b))
  }

  /** Month keys compare as text exactly as their months compare in time,
      so the `groupby('Month')` result, whose keys are sorted, runs in
      calendar order (unlike the `dd/mm/yyyy` text itself). */
  lemma MonthKeysSortChronologically(a: string, b: string)
    requires IsDayMonthYear(a) && IsDayMonthYear(b)
    ensures StrLe(MonthKey(a), MonthKey(b)) <==> NotLaterMonth(a, b)
  {
    var ya, yb := a[6..], b[6..];
    var ma, mb := a[3..5], b[3..5];
    assert MonthKey(a) == ya + ("-" + ma);
    assert MonthKey(b) == yb + ("-" + mb);
    DigitsOrder(ya, yb);
    DigitsOrder(yb, ya);
    if ya != yb {
      StrLeDifferentPrefix(ya, yb, "-" + ma, "-" + mb);
      if DigitsValue(ya) == DigitsValue(yb) {
        StrLeAntisymmetric(ya, yb);
      }
    } else {
      StrLeCommonPrefix(ya, "-" + ma, "-" + mb);
      StrLeCommonPrefix("-", ma, mb);
      DigitsOrder(ma, mb);
    }
  }

  /** A row of the loaded data: the record and its derived `Month` column. */
  datatype Incident = Incident(row: Row, month: string)

  /** `load_data` after the file is read: every record with its month key. */
  function LoadData(t: Table): (data: seq<Incident>)
    requires forall i :: 0 <= i < |t| ==> IsDayMonthYear(t[i].reportedDate)
    ensures |data| == |t|
    ensures forall i :: 0 <= i < |t| ==> data[i].row == t[i] && IsYearMonth(data[i].month)
    ensures forall i :: 0 <= i < |t| ==> data[i].month == MonthKey(t[i].reportedDate)
    ensures forall i, j :: 0 <= i < |t| && 0 <= j < |t| ==>
              (data[i].month == data[j].month <==> SameMonth(t[i].reportedDate, t[j].reportedDate))
  {
    var data := seq(|t|, i requires 0 <= i < |t| => Incident(t[i], MonthKey(t[i].reportedDate)));
    assert forall i, j :: 0 <= i < |t| && 0 <= j < |t| ==>
             (data[i].month == data[j].month <==> SameMonth(t[i].reportedDate, t[j].reportedDate)) by {
      forall i, j | 0 <= i < |t| && 0 <= j < |t|
        ensures data[i].month == data[j].month <==> SameMonth(t[i].reportedDate, t[j].reportedDate)
      {
        MonthKeySameMonth(t[i].reportedDate, t[j].reportedDate);
      }
    }
    data
  }

  function SuburbOf(x: Incident): string { x.row.suburb }
  function Level1Of(x: Incident): string { x.row.level1 }
  function Level2Of(x: Incident): string { x.row.level2 }
  function Level3Of(x: Incident): string { x.row.level3 }
  function MonthOf(x: Incident): string { x.month }
  function OffencesOf(x: Incident): int { x.row.offenceCount }

  // ---------------------------------------------------------------------------
  // Filtering

  /** Whether a selection admits a value: 'All Data' admits everything. */
  predicate Admits(selected: string, value: string) {
    selected == AllData || value == selected
  }

  /** `filter_offence_levels`: narrow to the selected level-1 description
      unless it is 'All Data', then likewise for level 2. */
  function FilterOffenceLevels(data: seq<Incident>, level1: string, level2: string): (r: seq<Incident>)
    ensures level1 == AllData && level2 == AllData ==> r == data
    ensures IsSubsequence(r, data)
    ensures forall x :: multiset(r)[x] ==
              if Admits(level1, x.row.level1) && Admits(level2, x.row.level2) then multiset(data)[x] else 0
    ensures forall i :: 0 <= i < |r| ==> Admits(level1, r[i].row.level1) && Admits(level2, r[i].row.level2)
  {
    var byLevel1 := if level1 != AllData then Filter(data, (x: Incident) => x.row.level1 == level1) else data;
    var byLevel2 := if level2 != AllData then Filter(byLevel1, (x: Incident) => x.row.level2 == level2) else byLevel1;
    SubsequenceReflexive(data);
    SubsequenceReflexive(byLevel1);
    SubsequenceTransitive(byLevel2, byLevel1, data);
    assert forall i :: 0 <= i < |byLevel2| ==>
             Admits(level1, byLevel2[i].row.level1) && Admits(level2, byLevel2[i].row.level2) by {
      forall i | 0 <= i < |byLevel2|
        ensures Admits(level1, byLevel2[i].row.level1) && Admits(level2, byLevel2[i].row.level2)
      {
        assert byLevel2[i] in byLevel2;
      }
    }
    byLevel2
  }

  /** Filtering a second time with the same selections changes nothing. */
  lemma FilterOffenceLevelsIdempotent(data: seq<Incident>, level1: string, level2: string)
    ensures var once := FilterOffenceLevels(data, level1, level2);
            FilterOffenceLevels(once, level1, level2) == once
  {
    var once := FilterOffenceLevels(data, level1, level2);
    var byLevel1 := if level1 != AllData then Filter(once, (x: Incident) => x.row.level1 == level1) else once;
    if level1 != AllData {
      FilterKeepsAll(once, (x: Incident) => x.row.level1 == level1);
    }
    if level2 != AllData {
      FilterKeepsAll(byLevel1, (x: Incident) => x.row.level2 == level2);
    }
  }

  /** The "Apply Filters" step of `main`: the selected suburb, then the
      offence-level filter, then the level-3 selection unless 'All Data'. */
  function SelectIncidents(data: seq<Incident>, suburb: string, level1: string, level2: string, level3: string)
    : (r: seq<Incident>)
    ensures IsSubsequence(r, data)
    ensures forall x :: multiset(r)[x] ==
              if && x.row.suburb == suburb && Admits(level1, x.row.level1)
                 && Admits(level2, x.row.level2) && Admits(level3, x.row.level3)
              then multiset(data)[x] else 0
  {
    var inSuburb := Filter(data, (x: Incident) => x.row.suburb == suburb);
    var byLevels := FilterOffenceLevels(inSuburb, level1, level2);
    var byLevel3 := if level3 != AllData then Filter(byLevels, (x: Incident) => x.row.level3 == level3) else byLevels;
    SubsequenceTransitive(byLevels, inSuburb, data);
    SubsequenceReflexive(byLevels);
    SubsequenceTransitive(byLevel3, byLevels, data);
    byLevel3
  }

  // ---------------------------------------------------------------------------
  // Option lists

  /** `['All Data'] + sorted(column.unique().tolist())`. */
  function OptionList(values: seq<string>): (r: seq<string>)
    ensures r != [] && r[0] == AllData
    ensures StrictlyAscending(r[1..])
    ensures forall v :: v in r[1..] <==> v in values
  {
    [AllData] + SortedUnique(values)
  }

  /** `sorted(data['Suburb - Incident'].unique().tolist())`: every suburb of
      the data once, in ascending order. */
  function SuburbOptions(data: seq<Incident>): (r: seq<string>)
    ensures StrictlyAscending(r)
    ensures forall v :: v in r <==> exists x :: x in data && x.row.suburb == v
  {
    MapMembership(data, SuburbOf);
    SortedUnique(Map(data, SuburbOf))
  }

  /** The level-1 options: 'All Data', then every level-1 description. */
  function Level1Options(data: seq<Incident>): (r: seq<string>)
    ensures r != [] && r[0] == AllData && StrictlyAscending(r[1..])
    ensures forall v :: v in r[1..] <==> exists x :: x in data && x.row.level1 == v
  {
    MapMembership(data, Level1Of);
    OptionList(Map(data, Level1Of))
  }

  /** The level-2 options: 'All Data', then the level-2 descriptions that
      occur in rows with the selected level-1 description (all of them when
      level 1 is 'All Data'). */
  function Level2Options(data: seq<Incident>, level1: string): (r: seq<string>)
    ensures r != [] && r[0] == AllData && StrictlyAscending(r[1..])
    ensures forall v :: v in r[1..] <==> exists x :: x in data && Admits(level1, x.row.level1) && x.row.level2 == v
  {
    var rows := if level1 == AllData then data else Filter(data, (x: Incident) => x.row.level1 == level1);
    MapMembership(rows, Level2Of);
    OptionList(Map(rows, Level2Of))
  }

  /** The level-3 options: 'All Data', then the level-3 descriptions that
      occur in rows with the selected level-2 description (all of them when
      level 2 is 'All Data'). */
  function Level3Options(data: seq<Incident>, level2: string): (r: seq<string>)
    ensures r != [] && r[0] == AllData && StrictlyAscending(r[1..])
    ensures forall v :: v in r[1..] <==> exists x :: x in data && Admits(level2, x.row.level2) && x.row.level3 == v
  {
    var rows := if level2 == AllData then data else Filter(data, (x: Incident) => x.row.level2 == level2);
    MapMembership(rows, Level3Of);
    OptionList(Map(rows, Level3Of))
  }

  lemma MapMembership<T, U>(s: seq<T>, f: T -> U)
    ensures forall y :: y in Map(s, f) <==> exists x :: x in s && f(x) == y
  {
    forall y | y in Map(s, f) ensures exists x :: x in s && f(x) == y {
      var i :| 0 <= i < |s| && Map(s, f)[i] == y;
      assert s[i] in s;
    }
    forall y | exists x :: x in s && f(x) == y ensures y in Map(s, f) {
      var x :| x in s && f(x) == y;
      var i :| 0 <= i < |s| && s[i] == x;
      assert Map(s, f)[i] == y;
    }
  }

  // ---------------------------------------------------------------------------
  // Totals

  /** The "Total Offences" metric: `filtered_data['Offence count'].sum()`. */
  function TotalOffences(data: seq<Incident>): (n: int)
    ensures data == [] ==> n == 0
  {
    Total(data, OffencesOf)
  }

  /** With no negative count the metric is not negative. */
  lemma TotalOffencesNonNegative(data: seq<Incident>)
    requires forall i :: 0 <= i < |data| ==> data[i].row.offenceCount >= 0
    ensures TotalOffences(data) >= 0
  {
    TotalNonNegative(data, OffencesOf);
  }

  /** One row of `groupby('Month')['Offence count'].sum()`. */
  datatype MonthTotal = MonthTotal(month: string, offences: int)

  function MonthOfTotal(m: MonthTotal): string { m.month }
  function OffencesOfTotal(m: MonthTotal): int { m.offences }

  /** `groupby('Month')['Offence count'].sum()`: one row per month that
      occurs, in ascending month order, carrying the sum of that month's
      counts. */
  function MonthlyTotals(data: seq<Incident>): (r: seq<MonthTotal>)
    ensures StrictlyAscending(Map(r, MonthOfTotal))
    ensures forall m :: m in Map(r, MonthOfTotal) <==> exists x :: x in data && x.month == m
    ensures forall i :: 0 <= i < |r| ==> r[i].offences == SumWhere(data, MonthOf, OffencesOf, r[i].month)
  {
    var months := SortedUnique(Map(data, MonthOf));
    var r := seq(|months|, i requires 0 <= i < |months| => MonthTotal(months[i], SumWhere(data, MonthOf, OffencesOf, months[i])));
    assert Map(r, MonthOfTotal) == months;
    MapMembership(data, MonthOf);
    r
  }

  /** The monthly sums add up to the "Total Offences" metric. */
  lemma MonthlyTotalsAddUp(data: seq<Incident>)
    ensures Total(MonthlyTotals(data), OffencesOfTotal) == TotalOffences(data)
  {
    var r := MonthlyTotals(data);
    var months := Map(r, MonthOfTotal);
    forall i | 0 <= i < |data| ensures MonthOf(data[i]) in months {
      assert data[i] in data;
    }
    TotalOfGroupRows(r, OffencesOfTotal, data, MonthOf, OffencesOf, months);
    GroupSumsAddUp(data, MonthOf, OffencesOf, months);
  }

  // ---------------------------------------------------------------------------
  // File names

  /** Python's `\s` over ASCII: space, tab, line feed, vertical tab, form
      feed, carriage return and the separators 0x1c to 0x1f. */
  predicate IsWhitespace(c: char) {
    c == ' ' || '\t' <= c <= '\r' || '\U{1c}' <= c <= '\U{1f}'
  }

  /** `[\w\-]` over ASCII: letters, digits, underscore and hyphen. */
  predicate IsFilenameChar(c: char) {
    'a' <= c <= 'z' || 'A' <= c <= 'Z' || '0' <= c <= '9' || c == '_' || c == '-'
  }

  /** `re.sub(r'\s+', '_', s)`: every maximal run of whitespace becomes a
      single underscore. */
  function CollapseWhitespace(s: string): (r: string)
    ensures forall i :: 0 <= i < |r| ==> !IsWhitespace(r[i])
    ensures |r| <= |s|
  {
    if s == [] then []
    else
      var init := s[..|s| - 1];
      Extend(CollapseWhitespace(init), init, s[|s| - 1])
  }

  /** The collapsed text `done` of `before`, extended by the character `c`
      that follows `before`: a non-whitespace character is kept, whitespace
      that continues a run is absorbed, and whitespace that starts a run
      becomes an underscore. */
  function Extend(done: string, before: string, c: char): (r: string)
    ensures (forall i :: 0 <= i < |done| ==> !IsWhitespace(done[i])) ==>
            forall i :: 0 <= i < |r| ==> !IsWhitespace(r[i])
    ensures |r| <= |done| + 1
  {
    if !IsWhitespace(c) then done + [c]
    else if before != [] && IsWhitespace(before[|before| - 1]) then done
    else done + ['_']
  }

  /** `sanitize_filename`: whitespace runs to underscores, then every
      character other than a letter, digit, underscore or hyphen dropped.
      Every letter, digit and hyphen of the name is kept, as often as it
      occurs; a name already made of those characters comes back unchanged. */
  function SanitizeFilename(name: string): (r: string)
    ensures forall i :: 0 <= i < |r| ==> IsFilenameChar(r[i]) && !IsWhitespace(r[i])
    ensures |r| <= |name|
    ensures IsSubsequence(r, CollapseWhitespace(name))
    ensures forall c :: multiset(r)[c] == if IsFilenameChar(c) then multiset(CollapseWhitespace(name))[c] else 0
    ensures forall c :: IsFilenameChar(c) && c != '_' ==> multiset(r)[c] == multiset(name)[c]
    ensures (forall i :: 0 <= i < |name| ==> IsFilenameChar(name[i])) ==> r == name
  {
    SanitizedChars(name);
    SanitizeKeepsOtherChars(name);
    PlainNameUnchanged(name);
    Filter(CollapseWhitespace(name), IsFilenameChar)
  }

  lemma SanitizedChars(name: string)
    ensures var r := Filter(CollapseWhitespace(name), IsFilenameChar);
            forall i :: 0 <= i < |r| ==> IsFilenameChar(r[i])
  {
    var r := Filter(CollapseWhitespace(name), IsFilenameChar);
    forall i | 0 <= i < |r| ensures IsFilenameChar(r[i]) {
      assert r[i] in r;
    }
  }

  lemma SanitizeKeepsOtherChars(name: string)
    ensures forall c :: IsFilenameChar(c) && c != '_' ==>
              multiset(Filter(CollapseWhitespace(name), IsFilenameChar))[c] == multiset(name)[c]
  {
    CollapseKeepsOtherChars(name);
  }

  lemma PlainNameUnchanged(name: string)
    ensures (forall i :: 0 <= i < |name| ==> IsFilenameChar(name[i])) ==>
            Filter(CollapseWhitespace(name), IsFilenameChar) == name
  {
    if forall i :: 0 <= i < |name| ==> IsFilenameChar(name[i]) {
      CollapseLeavesPlainText(name);
      FilterKeepsAll(name, IsFilenameChar);
    }
  }

  lemma {:induction false} CollapseLeavesPlainText(s: string)
    requires forall i :: 0 <= i < |s| ==> !IsWhitespace(s[i])
    ensures CollapseWhitespace(s) == s
  {
    if s != [] {
      CollapseLeavesPlainText(s[..|s| - 1]);
      assert s == s[..|s| - 1] + [s[|s| - 1]];
    }
  }

  /** Collapsing keeps every character that is neither whitespace nor an
      underscore, as often as it occurs. */
  lemma {:induction false} CollapseKeepsOtherChars(s: string)
    ensures forall c :: !IsWhitespace(c) && c != '_' ==> multiset(CollapseWhitespace(s))[c] == multiset(s)[c]
  {
    if s != [] {
      var init, last := s[..|s| - 1], s[|s| - 1];
      CollapseKeepsOtherChars(init);
      assert s == init + [last];
      CollapseStep(init, last);
      var before := CollapseWhitespace(init);
      assert multiset(before + [last]) == multiset(before) + multiset{last};
      assert multiset(before + ['_']) == multiset(before) + multiset{'_'};
    }
  }

  /** Collapsing text with one more character extends the collapsed text. */
  lemma CollapseStep(u: string, c: char)
    ensures CollapseWhitespace(u + [c]) == Extend(CollapseWhitespace(u), u, c)
  {
    assert (u + [c])[..|u|] == u;
  }

  /** No whitespace run straddles the point where `p` and `t` meet. */
  predicate NoRunAcross(p: string, t: string) {
    p == [] || t == [] || !IsWhitespace(p[|p| - 1]) || !IsWhitespace(t[0])
  }

  /** Text that meets without a whitespace run across the seam collapses
      piece by piece. */
  lemma {:induction false} CollapseAppend(p: string, t: string)
    requires NoRunAcross(p, t)
    ensures CollapseWhitespace(p + t) == CollapseWhitespace(p) + CollapseWhitespace(t)
    decreases |t|
  {
    if t == [] {
      assert p + t == p;
    } else {
      var init, last := t[..|t| - 1], t[|t| - 1];
      assert p + t == (p + init) + [last] && t == init + [last];
      assert init != [] ==> init[0] == t[0];
      CollapseAppend(p, init);
      CollapseStep(p + init, last);
      CollapseStep(init, last);
      ExtendAfterJoin(CollapseWhitespace(p), CollapseWhitespace(init), p, init, last);
    }
  }

  /** Extending collapsed text `a + b` of `p + init` is extending `b`
      after `a`, provided no run crosses the seam between `p` and `init`
      (and `b` is empty along with `init`). */
  lemma ExtendAfterJoin(a: string, b: string, p: string, init: string, c: char)
    requires NoRunAcross(p, init + [c])
    requires init == [] ==> b == []
    ensures Extend(a + b, p + init, c) == a + Extend(b, init, c)
  {
    if init != [] {
      assert (p + init)[|p + init| - 1] == init[|init| - 1];
    } else {
      assert p + init == p && a + b == a;
      assert (init + [c])[0] == c;
    }
    assert (a + b) + [c] == a + (b + [c]);
    assert (a + b) + ['_'] == a + (b + ['_']);
  }

  /** A run of whitespace on its own becomes a single underscore. */
  lemma {:induction false} CollapseRun(ws: string)
    requires ws != [] && forall i :: 0 <= i < |ws| ==> IsWhitespace(ws[i])
    ensures CollapseWhitespace(ws) == "_"
  {
    var init := ws[..|ws| - 1];
    if init != [] {
      CollapseRun(init);
    }
  }

  /** Text on either side of a whole whitespace run collapses on its own,
      and the run becomes one underscore between the two. */
  lemma CollapseJoin(s: string, ws: string, t: string)
    requires s == [] || !IsWhitespace(s[|s| - 1])
    requires ws != [] && forall i :: 0 <= i < |ws| ==> IsWhitespace(ws[i])
    requires t == [] || !IsWhitespace(t[0])
    ensures CollapseWhitespace(s + ws + t) == CollapseWhitespace(s) + "_" + CollapseWhitespace(t)
  {
    CollapseRun(ws);
    CollapseAppend(s, ws);
    CollapseAppend(s + ws, t);
  }

  /** Text on either side of a whole whitespace run is sanitised on its
      own, and the two halves are joined by a single underscore. */
  lemma SanitizeJoinsWords(s: string, ws: string, t: string)
    requires s == [] || !IsWhitespace(s[|s| - 1])
    requires ws != [] && forall i :: 0 <= i < |ws| ==> IsWhitespace(ws[i])
    requires t == [] || !IsWhitespace(t[0])
    ensures SanitizeFilename(s + ws + t) == SanitizeFilename(s) + "_" + SanitizeFilename(t)
  {
    var a, b := CollapseWhitespace(s), CollapseWhitespace(t);
    CollapseJoin(s, ws, t);
    calc {
      SanitizeFilename(s + ws + t);
      Filter(a + "_" + b, IsFilenameChar);
      { FilterAppend(a + "_", b, IsFilenameChar); }
      Filter(a + "_", IsFilenameChar) + Filter(b, IsFilenameChar);
      { FilterAppend(a, "_", IsFilenameChar); }
      Filter(a, IsFilenameChar) + Filter("_", IsFilenameChar) + Filter(b, IsFilenameChar);
      { FilterKeepsAll("_", IsFilenameChar); }
      SanitizeFilename(s) + "_" + SanitizeFilename(t);
    }
  }

  /** Sanitising twice is the same as sanitising once. */
  lemma SanitizeIdempotent(name: string)
    ensures SanitizeFilename(SanitizeFilename(name)) == SanitizeFilename(name)
  {
  }

  /** The monthly sums come in calendar order: of two rows of the result,
      the earlier one belongs to a strictly earlier month. */
  lemma MonthlyTotalsInCalendarOrder(data: seq<Incident>, i: nat, j: nat, a: string, b: string)
    requires i < j < |MonthlyTotals(data)|
    requires IsDayMonthYear(a) && IsDayMonthYear(b)
    requires MonthKey(a) == MonthlyTotals(data)[i].month && MonthKey(b) == MonthlyTotals(data)[j].month
    ensures NotLaterMonth(a, b) && !SameMonth(a, b)
  {
    var months := Map(MonthlyTotals(data), MonthOfTotal);
    assert StrLt(months[i], months[j]);
    MonthKeysSortChronologically(a, b);
    MonthKeySameMonth(a, b);
  }
}
