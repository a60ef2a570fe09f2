/**
 * The main sheet as the report engine reads it: a grid of string cells whose
 * first row holds the `dd.mm.yy` date headers, whose second row holds the
 * `TRUE` verification flags, whose rows from the third on hold one project
 * each, and whose cell C242 holds the deposit. The functions here say what the
 * report loops compute; the loops themselves are in module Reports.
 */
module Sheet {
  import opened Wrappers
  import opened Text
  import opened Dates

  type Row = seq<String>
  type Grid = seq<Row>

  /** Row numbers of the main sheet, counted from 1 as in the sheet. */
  const DateRow: nat := 1
  const VerifyRow: nat := 2
  const DataStartRow: nat := 3

  /** The daily and period reports read `data[DATA_START_ROW - 1:237]`. */
  const DataEndIndex: nat := 237

  /** The deposit cell C242, as 0-based row and column. */
  const DepositRowIndex: nat := 241
  const DepositColumn: nat := 2

  /** Columns A to C (name, phase, total) never hold dates. */
  const FirstDateColumn: nat := 3

  const WeekMarker: String := "нед."
  const TrueText: String := "TRUE"
  const DepositLabel: String := "Остаток депозита"

  /** `data[DATA_START_ROW - 1:237]`, with Python's clamping of slice bounds. */
  function DataRows(g: Grid): Grid {
    var hi := if |g| < DataEndIndex then |g| else DataEndIndex;
    if DataStartRow - 1 < hi then g[DataStartRow - 1..hi] else []
  }

  // ---------------------------------------------------------------------------
  // find_column_index
  // ---------------------------------------------------------------------------

  /** `data[DATE_ROW - 1]`, the row of date headers. */
  function Header(g: Grid): Row
    requires g != []
  {
    g[DateRow - 1]
  }

  /** A weekly-summary header: it holds a space or the marker `нед.`. */
  predicate IsSummaryHeader(t: String) {
    ' ' in t || Contains(t, WeekMarker)
  }

  /** The header cell, once stripped, is not a weekly summary and reads exactly `target`. */
  predicate IsDateHeaderFor(cell: String, target: String) {
    var t := Strip(cell);
    !IsSummaryHeader(t) && t == target
  }

  /** The first header column at or after `from` that is a date column for `target`. */
  function FirstDateHeader(header: Row, target: String, from: nat): (r: Option<nat>)
    ensures r.Some? ==> from <= r.value < |header| && IsDateHeaderFor(header[r.value], target)
    ensures forall j :: from <= j < |header| && (r.None? || j < r.value) ==> !IsDateHeaderFor(header[j], target)
    decreases |header| - from
  {
    if from >= |header| then None
    else if IsDateHeaderFor(header[from], target) then Some(from)
    else FirstDateHeader(header, target, from + 1)
  }

  /** A text without the first character of `sub` does not contain `sub`. */
  lemma {:induction false} MissingFirstCharNotContained(s: String, sub: String)
    requires sub != [] && sub[0] !in s
    ensures !Contains(s, sub)
    decreases |s|
  {
    if s != [] {
      MissingFirstCharNotContained(s[1..], sub);
    }
    if |sub| <= |s| {
      assert s[0..|sub|][0] == s[0];
    }
  }

  /** For a date target the summary test never hides a match: a header matches iff it strips to the date. */
  lemma DateHeaderIsExactMatch(cell: String, d: Date)
    ensures IsDateHeaderFor(cell, FormatShort(d)) <==> Strip(cell) == FormatShort(d)
  {
    var f := FormatShort(d);
    FormatShortAlphabet(d);
    assert ' ' !in f;
    assert WeekMarker[0] !in f;
    MissingFirstCharNotContained(f, WeekMarker);
  }

  /**
   * `find_column_index(data, d)`: the first column from D on of the date row
   * whose stripped header is exactly `d` as `dd.mm.yy`, skipping weekly
   * summaries; none for an empty grid or when no header matches.
   */
  function ColumnOf(g: Grid, d: Date): (r: Option<nat>)
    ensures r.None? <==>
            || g == []
            || forall j :: FirstDateColumn <= j < |Header(g)| ==> Strip(Header(g)[j]) != FormatShort(d)
    ensures r.Some? ==>
            && g != []
            && FirstDateColumn <= r.value < |Header(g)|
            && Strip(Header(g)[r.value]) == FormatShort(d)
            && !IsSummaryHeader(Strip(Header(g)[r.value]))
            && forall j :: FirstDateColumn <= j < r.value ==> Strip(Header(g)[j]) != FormatShort(d)
  {
    if g == [] || |g| < DateRow then None
    else
      var header := Header(g);
      var r := FirstDateHeader(header, FormatShort(d), FirstDateColumn);
      assert forall j :: 0 <= j < |header| ==>
        (IsDateHeaderFor(header[j], FormatShort(d)) <==> Strip(header[j]) == FormatShort(d)) by {
        forall j | 0 <= j < |header| {
          DateHeaderIsExactMatch(header[j], d);
        }
      }
      r
  }

  // ---------------------------------------------------------------------------
  // Cell values and column sums
  // ---------------------------------------------------------------------------

  /** How a report cleans a cell before its `isdigit()` test. */
  datatype Cleaning =
    | Trimmed          // daily report: `cell.strip()`
    | TrimmedUnspaced  // period report: `cell.strip().replace(' ', '')`
    | Unspaced         // project report: `cell.replace(' ', '')`

  function Clean(cell: String, how: Cleaning): String {
    match how
    case Trimmed => Strip(cell)
    case TrimmedUnspaced => RemoveChar(Strip(cell), ' ')
    case Unspaced => RemoveChar(cell, ' ')
  }

  /** The records a cell adds: `int(value)` when the cleaned value is non-empty and all digits, else nothing. */
  function CellRecords(cell: String, how: Cleaning): nat {
    var v := Clean(cell, how);
    if IsDigitString(v) then DigitsValue(v) else 0
  }

  /** The records one row adds in column `col`: nothing when the row is too short to reach it. */
  function RowRecords(row: Row, col: nat, how: Cleaning): nat {
    if |row| > col then CellRecords(row[col], how) else 0
  }

  /** The sum of a sequence of counts, adding the last one to the sum of the others. */
  function Sum(xs: seq<nat>): nat {
    if xs == [] then 0 else Sum(xs[..|xs| - 1]) + xs[|xs| - 1]
  }

  lemma {:induction false} SumAppend(a: seq<nat>, b: seq<nat>)
    ensures Sum(a + b) == Sum(a) + Sum(b)
    decreases |b|
  {
    if b == [] {
      assert a + b == a;
    } else {
      SumAppend(a, b[..|b| - 1]);
      assert (a + b)[..|a + b| - 1] == a + b[..|b| - 1];
    }
  }

  lemma {:induction false} SumZeroIff(xs: seq<nat>)
    ensures Sum(xs) == 0 <==> forall k :: 0 <= k < |xs| ==> xs[k] == 0
    decreases |xs|
  {
    if xs != [] {
      SumZeroIff(xs[..|xs| - 1]);
    }
  }

  /** `count` applied to each of `rows`, in sheet order. */
  function RowCounts(rows: Grid, count: Row -> nat): (v: seq<nat>)
    ensures |v| == |rows|
  {
    if rows == [] then [] else RowCounts(rows[..|rows| - 1], count) + [count(rows[|rows| - 1])]
  }

  lemma {:induction false} RowCountsAt(rows: Grid, count: Row -> nat, k: nat)
    requires k < |rows|
    ensures RowCounts(rows, count)[k] == count(rows[k])
    decreases |rows|
  {
    if k < |rows| - 1 {
      RowCountsAt(rows[..|rows| - 1], count, k);
    }
  }

  lemma {:induction false} RowCountsAppend(a: Grid, b: Grid, count: Row -> nat)
    ensures RowCounts(a + b, count) == RowCounts(a, count) + RowCounts(b, count)
    decreases |b|
  {
    if b == [] {
      assert a + b == a;
    } else {
      RowCountsAppend(a, b[..|b| - 1], count);
      assert (a + b)[..|a + b| - 1] == a + b[..|b| - 1];
    }
  }

  /** The records each of `rows` adds in column `col`, in sheet order. */
  function ColumnValues(rows: Grid, col: nat, how: Cleaning): seq<nat> {
    RowCounts(rows, row => RowRecords(row, col, how))
  }

  /** Entry `k` of the column values is what row `k` adds. */
  lemma ColumnValuesAt(rows: Grid, col: nat, how: Cleaning, k: nat)
    requires k < |rows|
    ensures ColumnValues(rows, col, how)[k] == RowRecords(rows[k], col, how)
  {
    RowCountsAt(rows, row => RowRecords(row, col, how), k);
  }

  /** The records of column `col` over `rows`. */
  function ColumnRecords(rows: Grid, col: nat, how: Cleaning): nat {
    Sum(ColumnValues(rows, col, how))
  }

  /** One more row adds its own records to the column sum. */
  lemma ColumnRecordsStep(rows: Grid, i: nat, col: nat, how: Cleaning)
    requires i < |rows|
    ensures ColumnRecords(rows[..i + 1], col, how) == ColumnRecords(rows[..i], col, how) + RowRecords(rows[i], col, how)
  {
    var count := row => RowRecords(row, col, how);
    assert rows[..i + 1][..i] == rows[..i];
    assert RowCounts(rows[..i + 1], count) == RowCounts(rows[..i], count) + [count(rows[i])];
  }

  /** Column sums add up over consecutive blocks of rows. */
  lemma ColumnRecordsAppend(a: Grid, b: Grid, col: nat, how: Cleaning)
    ensures ColumnRecords(a + b, col, how) == ColumnRecords(a, col, how) + ColumnRecords(b, col, how)
  {
    RowCountsAppend(a, b, row => RowRecords(row, col, how));
    SumAppend(ColumnValues(a, col, how), ColumnValues(b, col, how));
  }

  /** A column sums to zero exactly when every row adds zero records to it. */
  lemma ColumnRecordsZeroIff(rows: Grid, col: nat, how: Cleaning)
    ensures ColumnRecords(rows, col, how) == 0 <==> forall k :: 0 <= k < |rows| ==> RowRecords(rows[k], col, how) == 0
  {
    SumZeroIff(ColumnValues(rows, col, how));
    forall k | 0 <= k < |rows| {
      ColumnValuesAt(rows, col, how, k);
    }
  }

  /** Where no data cell holds an inner space after stripping, the daily and period cleanings sum alike. */
  lemma CleaningsAgreeWithoutSpaces(rows: Grid, col: nat)
    requires forall k :: 0 <= k < |rows| && |rows[k]| > col ==> ' ' !in Strip(rows[k][col])
    ensures ColumnRecords(rows, col, Trimmed) == ColumnRecords(rows, col, TrimmedUnspaced)
  {
    var daily, period := ColumnValues(rows, col, Trimmed), ColumnValues(rows, col, TrimmedUnspaced);
    forall k | 0 <= k < |rows|
      ensures daily[k] == period[k]
    {
      ColumnValuesAt(rows, col, Trimmed, k);
      ColumnValuesAt(rows, col, TrimmedUnspaced, k);
    }
    assert daily == period;
  }

  /**
   * The two cleanings do differ: digits grouped by a space, such as `1 000`, are
   * no number for the daily report but count in full for the period report.
   */
  lemma CleaningsDifferOnGroupedDigits(a: String, b: String)
    requires IsDigitString(a) && IsDigitString(b)
    ensures CellRecords(a + " " + b, Trimmed) == 0
    ensures CellRecords(a + " " + b, TrimmedUnspaced) == DigitsValue(a + b)
  {
    var s := a + " " + b;
    assert s[0] == a[0] && s[|s| - 1] == b[|b| - 1];
    StripKeepsTrimmed(s);
    assert Clean(s, Trimmed) == s;
    assert s[|a|] == ' ';
    assert !IsDigitString(s);
    DropSeparatingSpace(a, b);
    assert Clean(s, TrimmedUnspaced) == a + b;
    assert AllDigits(a + b);
  }

  /** Dropping the one space between two space-free texts joins them. */
  lemma DropSeparatingSpace(a: String, b: String)
    requires ' ' !in a && ' ' !in b
    ensures RemoveChar(a + " " + b, ' ') == a + b
  {
    var sp: String := [' '];
    assert sp[1..] == [];
    assert RemoveChar(sp, ' ') == [];
    RemoveCharAppend(a, sp, ' ');
    assert RemoveChar(a + sp, ' ') == a;
    RemoveCharAppend(a + sp, b, ' ');
  }

  // ---------------------------------------------------------------------------
  // The verification flag and the deposit of the daily report
  // ---------------------------------------------------------------------------

  /** `len(verify_row) > idx and verify_row[idx] == 'TRUE'`, the cell compared without stripping. */
  predicate IsVerified(g: Grid, col: nat)
    requires |g| >= VerifyRow
  {
    var row := g[VerifyRow - 1];
    |row| > col && row[col] == TrueText
  }

  /** `data[241][2]` when that cell exists, else `'0'`. */
  function DepositCell(g: Grid): String {
    if |g| > DepositRowIndex && |g[DepositRowIndex]| > DepositColumn then g[DepositRowIndex][DepositColumn] else "0"
  }

  /**
   * `int(float(cell.replace('\xa0', '').replace(' ', '')))` of the deposit cell
   * (`'0'` for an empty cell); none where `float()` raises ValueError.
   */
  function DailyDeposit(g: Grid): Option<int> {
    var cell := DepositCell(g);
    var cleaned := if cell != [] then RemoveChar(RemoveChar(cell, '\U{A0}'), ' ') else "0";
    match ParseFloat(cleaned)
    case Some(d) => Some(Truncate(d))
    case None => None
  }

  /** The text `0` reads as the number zero. */
  lemma ZeroTextIsZero()
    ensures ParseFloat("0") == Some(Decimal(false, 0, []))
  {
    assert Strip("0") == "0";
    SplitWithoutSeparator("0", '.');
    assert "0"[..0] == [];
  }

  /** A sheet that ends before row 242 has deposit 0. */
  lemma DepositDefaultsToZero(g: Grid)
    requires |g| <= DepositRowIndex
    ensures DailyDeposit(g) == Some(0)
  {
    var zero: String := "0";
    assert DepositCell(g) == zero;
    assert '\U{A0}' !in zero && ' ' !in zero;
    assert RemoveChar(RemoveChar(zero, '\U{A0}'), ' ') == zero;
    ZeroTextIsZero();
  }

  /** A deposit cell holding only spaces leaves `float('')`, which raises: the daily report then fails. */
  lemma BlankDepositFails(g: Grid)
    requires |g| > DepositRowIndex && |g[DepositRowIndex]| > DepositColumn
    requires g[DepositRowIndex][DepositColumn] == " "
    ensures DailyDeposit(g) == None
  {
    assert RemoveChar(" ", '\U{A0}') == " ";
    assert RemoveChar(" ", ' ') == [];
    assert Strip([]) == [];
    assert Split([], '.') == [[]];
  }

  // ---------------------------------------------------------------------------
  // get_deposit_amount
  // ---------------------------------------------------------------------------

  predicate IsDepositRow(row: Row) {
    |row| > 0 && Strip(row[0]) == DepositLabel
  }

  /** The first row at or after `from` whose first cell strips to the deposit label. */
  function FirstDepositRow(g: Grid, from: nat): (r: Option<nat>)
    ensures r.Some? ==> from <= r.value < |g| && IsDepositRow(g[r.value])
    ensures forall i :: from <= i < |g| && (r.None? || i < r.value) ==> !IsDepositRow(g[i])
    decreases |g| - from
  {
    if from >= |g| then None
    else if IsDepositRow(g[from]) then Some(from)
    else FirstDepositRow(g, from + 1)
  }

  /** The deposit value cleaned of no-break, ordinary and narrow no-break spaces, then stripped. */
  function CleanDeposit(s: String): String {
    Strip(RemoveChar(RemoveChar(RemoveChar(s, '\U{A0}'), ' '), '\U{202F}'))
  }

  /** The cleaned text holds none of the three space characters. */
  lemma CleanDepositHasNoSpaces(s: String)
    ensures var c := CleanDeposit(s); '\U{A0}' !in c && ' ' !in c && '\U{202F}' !in c
  {
    var a := RemoveChar(s, '\U{A0}');
    var b := RemoveChar(a, ' ');
    var c := RemoveChar(b, '\U{202F}');
    RemoveCharMembers(b, '\U{202F}', '\U{A0}');
    RemoveCharMembers(a, ' ', '\U{A0}');
    RemoveCharMembers(b, '\U{202F}', ' ');
    var t0 := TrimStart(c);
    var t := TrimEnd(t0);
    assert t == Strip(c);
    assert forall x :: x in t ==> x in t0;
    assert forall x :: x in t0 ==> x in c;
  }

  // ---------------------------------------------------------------------------
  // Records per day and over a range of days
  // ---------------------------------------------------------------------------

  /** Which rows a day's records come from: all data rows (period report) or one project's row. */
  datatype Scope = AllRows | OneRow(row: Row)

  /** The records of day `d`: zero when the day has no column. */
  function DayRecords(g: Grid, scope: Scope, d: Date): nat {
    match ColumnOf(g, d)
    case None => 0
    case Some(col) =>
      match scope
      case AllRows => ColumnRecords(DataRows(g), col, TrimmedUnspaced)
      case OneRow(row) => if |row| > col then CellRecords(row[col], Unspaced) else 0
  }

  /** The sum of `perDay` over every day from `from` to `to` inclusive, stepping one day at a time. */
  function DaysSum(perDay: Date -> nat, from: Date, to: Date): nat
    decreases Rank(to) - Rank(from)
  {
    RankOrder(to, from);
    if Before(to, from) then 0
    else
      perDay(from) +
      match NextDay(from)
      case None => 0
      case Some(next) => RankOrder(from, next); DaysSum(perDay, next, to)
  }

  /** The records of every day from `from` to `to` inclusive. */
  function RangeRecords(g: Grid, scope: Scope, from: Date, to: Date): nat {
    DaysSum(d => DayRecords(g, scope, d), from, to)
  }

  /** The walk from `from` to `to` would step past 31.12.9999, where Python raises OverflowError. */
  predicate RangeOverflows(from: Date, to: Date) {
    NotAfter(from, to) && to == LastDate
  }

  /** One step of the walk: a range that starts before 31.12.9999 holds its first day, then the rest. */
  lemma RangeRecordsStep(g: Grid, scope: Scope, from: Date, to: Date)
    requires NotAfter(from, to) && from != LastDate
    ensures RangeRecords(g, scope, from, to) == DayRecords(g, scope, from) + RangeRecords(g, scope, NextDay(from).value, to)
  {
  }

  /** Only a range ending on 31.12.9999 makes the walk step past it. */
  lemma LastStepOverflows(from: Date, current: Date, to: Date)
    requires NotAfter(from, current) && NotAfter(current, to) && current == LastDate
    ensures RangeOverflows(from, to)
  {
  }

  /** A one-day range holds that day's records. */
  lemma RangeOfOneDay(g: Grid, scope: Scope, d: Date)
    ensures RangeRecords(g, scope, d, d) == DayRecords(g, scope, d)
  {
    DaysSumOfOneDay(e => DayRecords(g, scope, e), d);
  }

  lemma DaysSumOfOneDay(perDay: Date -> nat, d: Date)
    ensures DaysSum(perDay, d, d) == perDay(d)
  {
    if NextDay(d).Some? {
      assert Before(d, NextDay(d).value);
    }
  }

  lemma {:induction false} DaysSumSplit(perDay: Date -> nat, from: Date, mid: Date, to: Date)
    requires NotAfter(from, mid) && NotAfter(mid, to) && mid != LastDate
    ensures DaysSum(perDay, from, to) == DaysSum(perDay, from, mid) + DaysSum(perDay, NextDay(mid).value, to)
    decreases Rank(mid) - Rank(from)
  {
    RankOrder(from, mid);
    var next := NextDay(from).value;
    if from == mid {
      assert Before(mid, next);
      assert DaysSum(perDay, next, mid) == 0;
    } else {
      RankOrder(from, next);
      assert NotAfter(next, mid);
      DaysSumSplit(perDay, next, mid, to);
    }
  }

  /** The records of a range are the records up to `mid` plus those after it. */
  lemma RangeRecordsSplit(g: Grid, scope: Scope, from: Date, mid: Date, to: Date)
    requires NotAfter(from, mid) && NotAfter(mid, to) && mid != LastDate
    ensures RangeRecords(g, scope, from, to) ==
            RangeRecords(g, scope, from, mid) + RangeRecords(g, scope, NextDay(mid).value, to)
  {
    DaysSumSplit(d => DayRecords(g, scope, d), from, mid, to);
  }

  lemma {:induction false} DaysSumCountsEachDay(perDay: Date -> nat, from: Date, d: Date, to: Date)
    requires NotAfter(from, d) && NotAfter(d, to)
    ensures perDay(d) <= DaysSum(perDay, from, to)
    decreases Rank(d) - Rank(from)
  {
    RankOrder(from, d);
    if from != d {
      var next := NextDay(from).value;
      RankOrder(from, next);
      DaysSumCountsEachDay(perDay, next, d, to);
    }
  }

  /** Every day of a range is counted: no day's records exceed the range's. */
  lemma RangeRecordsCountsEachDay(g: Grid, scope: Scope, from: Date, d: Date, to: Date)
    requires NotAfter(from, d) && NotAfter(d, to)
    ensures DayRecords(g, scope, d) <= RangeRecords(g, scope, from, to)
  {
    DaysSumCountsEachDay(e => DayRecords(g, scope, e), from, d, to);
  }

  lemma {:induction false} DaysSumOfZeros(perDay: Date -> nat, from: Date, to: Date)
    requires forall d: Date :: NotAfter(from, d) && NotAfter(d, to) ==> perDay(d) == 0
    ensures DaysSum(perDay, from, to) == 0
    decreases Rank(to) - Rank(from)
  {
    RankOrder(to, from);
    if !Before(to, from) && NextDay(from).Some? {
      var next := NextDay(from).value;
      RankOrder(from, next);
      DaysSumOfZeros(perDay, next, to);
    }
  }

  /** A range none of whose days has a column holds no records. */
  lemma RangeWithoutColumnsIsEmpty(g: Grid, scope: Scope, from: Date, to: Date)
    requires forall d: Date :: NotAfter(from, d) && NotAfter(d, to) ==> ColumnOf(g, d).None?
    ensures RangeRecords(g, scope, from, to) == 0
  {
    DaysSumOfZeros(d => DayRecords(g, scope, d), from, to);
  }

  /**
   * A one-day period counts what the daily report counts for that day, when
   * no data cell of its column has an inner space.
   */
  lemma OneDayPeriodMatchesDaily(g: Grid, d: Date)
    requires ColumnOf(g, d).Some?
    requires var col := ColumnOf(g, d).value;
             forall k :: 0 <= k < |DataRows(g)| && |DataRows(g)[k]| > col ==> ' ' !in Strip(DataRows(g)[k][col])
    ensures RangeRecords(g, AllRows, d, d) == ColumnRecords(DataRows(g), ColumnOf(g, d).value, Trimmed)
  {
    RangeOfOneDay(g, AllRows, d);
    CleaningsAgreeWithoutSpaces(DataRows(g), ColumnOf(g, d).value);
  }

  // ---------------------------------------------------------------------------
  // The project row of generate_project_report
  // ---------------------------------------------------------------------------

  /** `row and row[0].startswith(tag)`. */
  predicate IsProjectRow(row: Row, tag: String) {
    row != [] && StartsWith(row[0], tag)
  }

  /** The first row at or after `from` that is a row of project `tag`. */
  function FirstProjectRow(g: Grid, tag: String, from: nat): (r: Option<nat>)
    ensures r.Some? ==> from <= r.value < |g| && IsProjectRow(g[r.value], tag)
    ensures forall i :: from <= i < |g| && (r.None? || i < r.value) ==> !IsProjectRow(g[i], tag)
    decreases |g| - from
  {
    if from >= |g| then None
    else if IsProjectRow(g[from], tag) then Some(from)
    else FirstProjectRow(g, tag, from + 1)
  }

  /** The row `generate_project_report` picks: the first project row from row 3 on, to the end of the sheet. */
  function ProjectRowOf(g: Grid, tag: String): Option<nat> {
    FirstProjectRow(g, tag, DataStartRow - 1)
  }
}
