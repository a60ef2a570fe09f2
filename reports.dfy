/**
 * `DataProcessor`'s report generators over a grid that has already been
 * fetched. Each generator keeps the source's loops (the column scan, the row
 * sums, the walk from one day to the next) and is proved against the
 * functions of modules Sheet and SecondarySheet.
 */
module Reports {
  import opened Wrappers
  import opened Text
  import opened Dates
  import opened DateRange
  import opened Sheet
  import opened SecondarySheet

  /** The Python exceptions the modelled code can meet. */
  datatype PyException = IndexError | ValueError | OverflowError

  /** Why a report returns `{'success': False, 'error': ...}`. */
  datatype ReportError =
    | NoDataInSheet                   // 'No data in sheet'
    | NoDataInSecondarySheet          // 'No data in secondary sheet'
    | NoData                          // ERROR_MESSAGES['no_data']
    | InvalidDateRange                // 'Invalid date range'
    | InvalidDateFormat               // ERROR_MESSAGES['invalid_date_format']
    | SheetError                      // ERROR_MESSAGES['sheet_error']
    | InvalidProjectTag               // ERROR_MESSAGES['invalid_project_tag']
    | NoDataFor(date: String)         // f'Не найдены данные за {yesterday_str}'
    | NoActiveProjects                // 'Нет активных проектов'
    | Caught(exception: PyException)  // str(e) of an exception caught by the generator

  /** A generator's result: a report, a failure dictionary, or an exception it lets escape. */
  datatype Outcome<T> = Success(value: T) | Failure(error: ReportError) | Raises(exception: PyException)

  datatype DailyReport = DailyReport(date: Date, records: nat, deposit: int, verified: bool)

  /** `warning` is `ERROR_MESSAGES['no_data_period']` when `noDataWarning` holds, else empty. */
  datatype PeriodReport = PeriodReport(start: Date, end: Date, totalRecords: nat, noDataWarning: bool)

  datatype ProjectReport = ProjectReport(projectName: String, start: Date, end: Date, totalRecords: nat, noDataWarning: bool)

  datatype SecondaryReport = SecondaryReport(date: Date, projects: seq<ProjectSnapshot>, projectsText: String)

  // ---------------------------------------------------------------------------
  // find_column_index and get_deposit_amount: early-return scans
  // ---------------------------------------------------------------------------

  /** `find_column_index(data, d)`. */
  method FindColumnIndex(g: Grid, d: Date) returns (r: Option<nat>)
    ensures r == ColumnOf(g, d)
  {
    if g == [] || |g| < DateRow {
      return None;
    }
    var header := g[DateRow - 1];
    var target := FormatShort(d);
    var i := FirstDateColumn;
    while i < |header|
      invariant FirstDateColumn <= i
      invariant FirstDateHeader(header, target, FirstDateColumn) == FirstDateHeader(header, target, i)
      decreases |header| - i
    {
      var cell := Strip(header[i]);
      if !(' ' in cell || Contains(cell, WeekMarker)) && cell == target {
        return Some(i);
      }
      i := i + 1;
    }
    return None;
  }

  /**
   * `get_deposit_amount(data)`: the value beside the first `Остаток депозита`
   * label, cleaned of three kinds of space; 0 when the label is missing, the
   * row has no column C, or the value does not parse.
   */
  method GetDepositAmount(g: Grid) returns (r: Decimal)
    ensures FirstDepositRow(g, 0).None? ==> r == Zero
    ensures FirstDepositRow(g, 0).Some? ==>
              var row := g[FirstDepositRow(g, 0).value];
              if |row| <= DepositColumn then r == Zero
              else r == ParseFloat(CleanDeposit(row[DepositColumn])).GetOr(Zero)
  {
    var i := 0;
    while i < |g|
      invariant i <= |g|
      invariant FirstDepositRow(g, 0) == FirstDepositRow(g, i)
    {
      var row := g[i];
      if |row| > 0 && Strip(row[0]) == DepositLabel {
        if |row| <= DepositColumn {
          return Zero;
        }
        var cleaned := CleanDeposit(row[DepositColumn]);
        var deposit := ParseFloat(cleaned);
        if deposit.None? {
          return Zero;
        }
        return deposit.value;
      }
      i := i + 1;
    }
    return Zero;
  }

  // ---------------------------------------------------------------------------
  // generate_daily_report
  // ---------------------------------------------------------------------------

  /**
   * `generate_daily_report()` for the day `yesterday`: the sum of the
   * digit-only cells of its column over rows 3 to 237, the `TRUE` flag of row
   * 2 and the deposit of C242.
   */
  method GenerateDailyReport(g: Grid, yesterday: Date) returns (r: Outcome<DailyReport>)
    ensures g == [] ==> r == Failure(NoDataInSheet)
    ensures g != [] && ColumnOf(g, yesterday).None? ==> r == Failure(NoData)
    ensures g != [] && ColumnOf(g, yesterday).Some? ==>
              var col := ColumnOf(g, yesterday).value;
              if |g| < VerifyRow then r == Failure(Caught(IndexError))
              else if DailyDeposit(g).None? then r == Failure(Caught(ValueError))
              else r == Success(DailyReport(yesterday, ColumnRecords(DataRows(g), col, Trimmed),
                                            DailyDeposit(g).value, IsVerified(g, col)))
  {
    if g == [] {
      return Failure(NoDataInSheet);
    }
    var found := FindColumnIndex(g, yesterday);
    if found.None? {
      return Failure(NoData);
    }
    var col := found.value;
    if |g| < VerifyRow {
      return Failure(Caught(IndexError));
    }
    var verifyRow := g[VerifyRow - 1];
    var verified := |verifyRow| > col && verifyRow[col] == TrueText;

    var total := DailyTotal(DataRows(g), col);

    var deposit := DailyDeposit(g);
    if deposit.None? {
      return Failure(Caught(ValueError));
    }
    return Success(DailyReport(yesterday, total, deposit.value, verified));
  }

  /** The row loop of the daily report: the digit-only stripped cells of column `col`, summed. */
  method DailyTotal(rows: Grid, col: nat) returns (total: nat)
    ensures total == ColumnRecords(rows, col, Trimmed)
  {
    total := 0;
    var i := 0;
    while i < |rows|
      invariant i <= |rows|
      invariant total == ColumnRecords(rows[..i], col, Trimmed)
    {
      var row := rows[i];
      ColumnRecordsStep(rows, i, col, Trimmed);
      if |row| > col && row[col] != [] {
        var value := Strip(row[col]);
        if value != [] && IsDigitString(value) {
          total := total + DigitsValue(value);
        }
      }
      i := i + 1;
    }
    assert rows[..|rows|] == rows;
  }

  // ---------------------------------------------------------------------------
  // generate_period_report
  // ---------------------------------------------------------------------------

  /**
   * `generate_period_report(text)`: the records of every day of the range, one
   * day at a time, with the warning exactly when there are none. Stepping past
   * 31.12.9999 raises OverflowError, which the generator catches.
   */
  method GeneratePeriodReport(text: String, currentYear: nat, g: Grid) returns (r: Outcome<PeriodReport>)
    ensures ParseDateRange(text, currentYear).None? ==> r == Failure(InvalidDateRange)
    ensures ParseDateRange(text, currentYear).Some? && g == [] ==> r == Failure(NoDataInSheet)
    ensures ParseDateRange(text, currentYear).Some? && g != [] ==>
              var start, end := ParseDateRange(text, currentYear).value.0, ParseDateRange(text, currentYear).value.1;
              var total := RangeRecords(g, AllRows, start, end);
              if RangeOverflows(start, end) then r == Failure(Caught(OverflowError))
              else r == Success(PeriodReport(start, end, total, total == 0))
  {
    var range := ParseDateRange(text, currentYear);
    if range.None? {
      return Failure(InvalidDateRange);
    }
    if g == [] {
      return Failure(NoDataInSheet);
    }
    var start, end := range.value.0, range.value.1;
    var total := PeriodWalk(g, start, end);
    if total.None? {
      return Failure(Caught(OverflowError));
    }
    return Success(PeriodReport(start, end, total.value, total.value == 0));
  }

  /**
   * The day-by-day loop of the period report: the records of every day from
   * `start` to `end`, or none where `current_date += timedelta(days=1)` steps
   * past 31.12.9999.
   */
  method PeriodWalk(g: Grid, start: Date, end: Date) returns (total: Option<nat>)
    ensures total == if RangeOverflows(start, end) then None else Some(RangeRecords(g, AllRows, start, end))
  {
    var sum := 0;
    var current := start;
    while NotAfter(current, end)
      invariant NotAfter(start, current)
      invariant sum + RangeRecords(g, AllRows, current, end) == RangeRecords(g, AllRows, start, end)
      decreases Rank(end) - Rank(current)
    {
      RankOrder(current, end);
      var dayRecords := PeriodDayRecords(g, current);
      sum := sum + dayRecords;
      var next := NextDay(current);
      if next.None? {
        LastStepOverflows(start, current, end);
        return None;
      }
      RangeRecordsStep(g, AllRows, current, end);
      RankOrder(current, next.value);
      current := next.value;
    }
    return Some(sum);
  }

  /** One day of the period loop: that day's column summed over the data rows, or nothing without a column. */
  method PeriodDayRecords(g: Grid, day: Date) returns (n: nat)
    ensures n == DayRecords(g, AllRows, day)
  {
    n := 0;
    var found := FindColumnIndex(g, day);
    if found.Some? {
      n := PeriodDayTotal(DataRows(g), found.value);
    }
  }

  /** The inner loop of the period report: one day's `daily_total` over the data rows. */
  method PeriodDayTotal(rows: Grid, col: nat) returns (dailyTotal: nat)
    ensures dailyTotal == ColumnRecords(rows, col, TrimmedUnspaced)
  {
    dailyTotal := 0;
    var i := 0;
    while i < |rows|
      invariant i <= |rows|
      invariant dailyTotal == ColumnRecords(rows[..i], col, TrimmedUnspaced)
    {
      var row := rows[i];
      ColumnRecordsStep(rows, i, col, TrimmedUnspaced);
      if |row| > col {
        var value := RemoveChar(Strip(row[col]), ' ');
        if value != [] && IsDigitString(value) {
          dailyTotal := dailyTotal + DigitsValue(value);
        }
      }
      i := i + 1;
    }
    assert rows[..|rows|] == rows;
  }

  // ---------------------------------------------------------------------------
  // generate_project_report
  // ---------------------------------------------------------------------------

  /**
   * `generate_project_report(tag, text)`: the records of the first row from
   * row 3 on whose name starts with `tag`, over every day of the range. This
   * generator catches nothing, so stepping past 31.12.9999 escapes as
   * OverflowError.
   */
  method GenerateProjectReport(tag: String, text: String, currentYear: nat, g: Grid) returns (r: Outcome<ProjectReport>)
    ensures ParseDateRange(text, currentYear).None? ==> r == Failure(InvalidDateFormat)
    ensures ParseDateRange(text, currentYear).Some? && g == [] ==> r == Failure(SheetError)
    ensures ParseDateRange(text, currentYear).Some? && g != [] && ProjectRowOf(g, tag).None? ==>
              r == Failure(InvalidProjectTag)
    ensures ParseDateRange(text, currentYear).Some? && g != [] && ProjectRowOf(g, tag).Some? ==>
              var start, end := ParseDateRange(text, currentYear).value.0, ParseDateRange(text, currentYear).value.1;
              var row := g[ProjectRowOf(g, tag).value];
              var total := RangeRecords(g, OneRow(row), start, end);
              if RangeOverflows(start, end) then r == Raises(OverflowError)
              else r == Success(ProjectReport(row[0], start, end, total, total == 0))
  {
    var range := ParseDateRange(text, currentYear);
    if range.None? {
      return Failure(InvalidDateFormat);
    }
    if g == [] {
      return Failure(SheetError);
    }

    var found := FindProjectRow(g, tag);
    if found.None? {
      return Failure(InvalidProjectTag);
    }
    var row := g[found.value];
    var start, end := range.value.0, range.value.1;
    var total := ProjectWalk(g, row, start, end);
    if total.None? {
      return Raises(OverflowError);
    }
    return Success(ProjectReport(row[0], start, end, total.value, total.value == 0));
  }

  /** The scan for the project row: `for row in data[2:]`, stopping at the first match. */
  method FindProjectRow(g: Grid, tag: String) returns (found: Option<nat>)
    ensures found == ProjectRowOf(g, tag)
  {
    var k := DataStartRow - 1;
    while k < |g|
      invariant DataStartRow - 1 <= k
      invariant ProjectRowOf(g, tag) == FirstProjectRow(g, tag, k)
      decreases |g| - k
    {
      if g[k] != [] && StartsWith(g[k][0], tag) {
        return Some(k);
      }
      k := k + 1;
    }
    return None;
  }

  /**
   * The day-by-day loop of the project report over one row, or none where the
   * step past 31.12.9999 raises.
   */
  method ProjectWalk(g: Grid, row: Row, start: Date, end: Date) returns (total: Option<nat>)
    ensures total == if RangeOverflows(start, end) then None else Some(RangeRecords(g, OneRow(row), start, end))
  {
    var sum := 0;
    var current := start;
    while NotAfter(current, end)
      invariant NotAfter(start, current)
      invariant sum + RangeRecords(g, OneRow(row), current, end) == RangeRecords(g, OneRow(row), start, end)
      decreases Rank(end) - Rank(current)
    {
      RankOrder(current, end);
      var dayRecords := ProjectDayRecords(g, row, current);
      sum := sum + dayRecords;
      var next := NextDay(current);
      if next.None? {
        LastStepOverflows(start, current, end);
        return None;
      }
      RangeRecordsStep(g, OneRow(row), current, end);
      RankOrder(current, next.value);
      current := next.value;
    }
    return Some(sum);
  }

  /** One day of the project loop: the row's cell in that day's column, spaces removed, if it is all digits. */
  method ProjectDayRecords(g: Grid, row: Row, day: Date) returns (n: nat)
    ensures n == DayRecords(g, OneRow(row), day)
  {
    n := 0;
    var col := FindColumnIndex(g, day);
    if col.Some? && |row| > col.value {
      var value := RemoveChar(row[col.value], ' ');
      if IsDigitString(value) {
        n := DigitsValue(value);
      }
    }
  }

  // ---------------------------------------------------------------------------
  // generate_secondary_report
  // ---------------------------------------------------------------------------

  /** `projects_text`: each project's block in turn, as `+=` builds it. */
  function ProjectsText(projects: seq<ProjectSnapshot>, format: ProjectSnapshot -> String): String {
    if projects == [] then []
    else ProjectsText(projects[..|projects| - 1], format) + format(projects[|projects| - 1])
  }

  /** The text of two lists of projects is the text of the first followed by that of the second. */
  lemma {:induction false} ProjectsTextAppend(a: seq<ProjectSnapshot>, b: seq<ProjectSnapshot>, format: ProjectSnapshot -> String)
    ensures ProjectsText(a + b, format) == ProjectsText(a, format) + ProjectsText(b, format)
    decreases |b|
  {
    if b == [] {
      assert a + b == a;
    } else {
      ProjectsTextAppend(a, b[..|b| - 1], format);
      assert (a + b)[..|a + b| - 1] == a + b[..|b| - 1];
    }
  }

  /** What `generate_secondary_report()` returns for the day `yesterday`; `format` fills one project's template. */
  function SecondaryOutcome(g: Grid, yesterday: Date, format: ProjectSnapshot -> String): Outcome<SecondaryReport> {
    if g == [] then Failure(NoDataInSecondarySheet)
    else
      match YesterdayColumn(g, yesterday)
      case None => Failure(NoDataFor(FormatShort(yesterday)))
      case Some(col) =>
        var projects := ActiveProjects(g[1..], col);
        if projects == [] then Failure(NoActiveProjects)
        else Success(SecondaryReport(yesterday, projects, ProjectsText(projects, format)))
  }

  /** `generate_secondary_report()`, with its two loops: the header scan and the row filter. */
  method GenerateSecondaryReport(g: Grid, yesterday: Date, format: ProjectSnapshot -> String)
    returns (r: Outcome<SecondaryReport>)
    ensures r == SecondaryOutcome(g, yesterday, format)
  {
    if g == [] {
      return Failure(NoDataInSecondarySheet);
    }
    var headers := g[0];
    var target := FormatShort(yesterday);
    var found: Option<nat> := None;
    var j := 0;
    while j < |headers|
      invariant j <= |headers|
      invariant YesterdayColumn(g, yesterday) == FirstHeaderContaining(headers, target, j)
    {
      if Contains(headers[j], target) {
        found := Some(j);
        break;
      }
      j := j + 1;
    }
    if found.None? {
      return Failure(NoDataFor(target));
    }
    var col := found.value;

    var rows := g[1..];
    var active: seq<ProjectSnapshot> := [];
    var i := 0;
    while i < |rows|
      invariant i <= |rows|
      invariant active == ActiveProjects(rows[..i], col)
    {
      var row := rows[i];
      ActiveProjectsStep(rows, i, col);
      if |row| > StatusColumn && row[StatusColumn] == TrueText {
        var snapshot := Snapshot(row, col);
        if snapshot.Some? {
          active := active + [snapshot.value];
        }
      }
      i := i + 1;
    }
    assert rows[..|rows|] == rows;
    if active == [] {
      return Failure(NoActiveProjects);
    }

    var text: String := [];
    var p := 0;
    while p < |active|
      invariant p <= |active|
      invariant text == ProjectsText(active[..p], format)
    {
      assert active[..p + 1][..p] == active[..p];
      text := text + format(active[p]);
      p := p + 1;
    }
    assert active[..|active|] == active;
    return Success(SecondaryReport(yesterday, active, text));
  }

  // ---------------------------------------------------------------------------
  // Properties of the secondary report
  // ---------------------------------------------------------------------------

  /**
   * A successful secondary report is for `yesterday`, lists at least one
   * project, lists exactly the projects of the active rows below the header,
   * and its text is their blocks in sheet order.
   */
  lemma SecondarySuccess(g: Grid, yesterday: Date, format: ProjectSnapshot -> String, p: ProjectSnapshot)
    requires SecondaryOutcome(g, yesterday, format).Success?
    ensures var report := SecondaryOutcome(g, yesterday, format).value;
            && report.date == yesterday
            && report.projects != []
            && report.projectsText == ProjectsText(report.projects, format)
            && (p in report.projects <==>
                exists k :: 1 <= k < |g| && IsActiveRow(g[k]) && Snapshot(g[k], YesterdayColumn(g, yesterday).value) == Some(p))
  {
    var col := YesterdayColumn(g, yesterday).value;
    var rows := g[1..];
    ActiveProjectsMembers(rows, col, p);
    assert forall k :: 0 <= k < |rows| ==> rows[k] == g[k + 1];
    if exists k :: 1 <= k < |g| && IsActiveRow(g[k]) && Snapshot(g[k], col) == Some(p) {
      var k :| 1 <= k < |g| && IsActiveRow(g[k]) && Snapshot(g[k], col) == Some(p);
      assert rows[k - 1] == g[k];
    }
  }

  /** The secondary report fails with `Нет активных проектов` exactly when no row below the header yields a project. */
  lemma SecondaryNoActiveProjects(g: Grid, yesterday: Date, format: ProjectSnapshot -> String)
    requires g != [] && YesterdayColumn(g, yesterday).Some?
    ensures SecondaryOutcome(g, yesterday, format) == Failure(NoActiveProjects) <==>
            forall k :: 1 <= k < |g| && IsActiveRow(g[k]) ==> Snapshot(g[k], YesterdayColumn(g, yesterday).value).None?
  {
    var col := YesterdayColumn(g, yesterday).value;
    var rows := g[1..];
    var projects := ActiveProjects(rows, col);
    if projects != [] {
      ActiveProjectsMembers(rows, col, projects[0]);
      var k :| 0 <= k < |rows| && IsActiveRow(rows[k]) && Snapshot(rows[k], col) == Some(projects[0]);
      assert g[k + 1] == rows[k];
    } else {
      forall k | 1 <= k < |g| && IsActiveRow(g[k])
        ensures Snapshot(g[k], col).None?
      {
        if Snapshot(g[k], col).Some? {
          assert rows[k - 1] == g[k];
          ActiveProjectsMembers(rows, col, Snapshot(g[k], col).value);
        }
      }
    }
  }

  /** Without a header containing yesterday's `dd.mm.yy`, the report fails naming that text. */
  lemma SecondaryNeedsYesterdayHeader(g: Grid, yesterday: Date, format: ProjectSnapshot -> String)
    requires g != []
    requires forall j :: 0 <= j < |g[0]| ==> !Contains(g[0][j], FormatShort(yesterday))
    ensures SecondaryOutcome(g, yesterday, format) == Failure(NoDataFor(FormatShort(yesterday)))
  {
  }
}
