# Report engine and daily send guard of a Telegram sheet-reporting bot

This project is a Dafny model of two parts of a Telegram bot that reports on a Google Sheets workbook:

- **The report engine**, `DataProcessor` in `src/data_processor.py`. It works over a grid of text cells. Rows may have different lengths.
  - `find_column_index` finds the column of a day from its `dd.mm.yy` header. It skips columns A–C and the weekly-summary headers.
  - The daily report sums one day's digit-only cells over rows 3–237. It also reads the `TRUE` verification flag in row 2 and the deposit in cell C242.
  - The period report walks from the first day to the last, one day at a time, and sums each day's column. It warns when the total is zero.
  - The project report does the same sums, but only over the first row whose name starts with the project tag.
  - `parse_date_range` reads `DD.MM-DD.MM`, adding the current year to a part that has none.
  - `get_deposit_amount` finds the `Остаток депозита` row and reads the value beside it.
  - The secondary report finds yesterday's column by substring, keeps the rows marked `TRUE`, and drops any row whose amounts do not parse.
- **The once-a-day send guard**, `TelegramBot.check_and_send_reports` in `src/telegram_bot.py`. At 09:00 it sends the secondary report, at most once per calendar day, and records the day in `last_report_date`. If the Markdown send fails, it retries as plain text.

The model has eight modules:

- `Wrappers`: `Option`.
- `Text`: Python's `strip`, `in`, `startswith`, `replace(c, '')`, `split`, `isdigit`, `int` and `str`, and the decimal subset of `float`.
- `Dates`: Gregorian dates from 01.01.0001 to 31.12.9999, `± timedelta(days=1)`, and the `%d.%m.%y` / `%d.%m.%Y` formats.
- `DateRange`: `parse_date_range`.
- `Sheet`: the main sheet's layout constants, and functions stating what the column scan and the sums compute.
- `SecondarySheet`: the same for the secondary sheet.
- `Reports`: the generators as methods. They keep the source's loops, and each is proved against the functions above.
- `Scheduler`: a class `ReportScheduler` whose field `lastReportDate` is updated by `CheckAndSendReports`.

The clock, the fetched grids, the message templates and how each `send_message` call ends are parameters. A failure the source returns as `{'success': False, 'error': ...}` is `Failure(reason)`. An exception that escapes a generator is `Raises(exception)`.

Points of the code worth knowing, which the model follows:

- The three reports clean count cells differently. The daily report only strips the cell (`cell.strip()`), so a count written as `1 000` is skipped. The period report strips and then removes inner spaces. The project report removes spaces without stripping. None of them removes an inner no-break space, and the project report removes no no-break space at all. `Sheet.CleaningsDifferOnGroupedDigits` shows the daily and period cleanings disagreeing.
- The daily report reads its deposit from the fixed cell C242 (`data[241][2]`), not from the labelled row. A missing or empty cell counts as 0. A non-empty cell that `float()` rejects makes the report fail; so does a cell holding only spaces (`Sheet.BlankDepositFails`).
- `get_deposit_amount` returns the parsed float, not a truncated integer.
- The verification flag compares the cell with `TRUE` without stripping it.

## Model

| member | source | states |
|---|---|---|
| Text.Strip | src/data_processor.py:98 | `str.strip()`: the result is the text from some index on with only whitespace before and after it, has no Python whitespace at either end, is empty exactly when the text is all whitespace, and is the text itself when the text has none |
| Text.IsSpace | src/data_processor.py:98 | the characters `str.strip()` removes: Python's whitespace, among them U+00A0 and U+202F |
| Text.TrimBothEnds | src/data_processor.py:98 | stripping keeps the part of the text after the leading whitespace and before the trailing whitespace, and cuts nothing else |
| Text.StripIdempotent | src/data_processor.py:60-67 | stripping an already stripped value again (as `float()` does after the `.strip()` of line 65) changes nothing |
| Text.StripKeepsTrimmed | src/data_processor.py:98 | text with no whitespace at either end is left unchanged by `strip()` |
| Text.ContainsIff | src/data_processor.py:100 | `sub in s` holds exactly when `sub` occurs in `s` at some index |
| Text.ContainsHasChars | src/data_processor.py:100 | a text that contains `sub` contains each character of `sub` |
| Text.Contains | src/data_processor.py:100 | `sub in s` (defined by a scan; its meaning is `Text.ContainsIff`) |
| Text.StartsWith | src/data_processor.py:259 | `name.startswith(tag)`: the tag is a prefix of the name |
| Text.RemoveChar | src/data_processor.py:62-64 | `replace(c, '')`: `c` no longer occurs, nothing is added, and a text without `c` is unchanged |
| Text.RemoveCharMembers | src/data_processor.py:62-64 | exactly the characters other than `c` survive `replace(c, '')` |
| Text.RemoveCharAppend | src/data_processor.py:209 | `replace(c, '')` of a concatenation is the concatenation of the parts' replacements |
| Text.Split | src/data_processor.py:168 | `split(sep)`: at least one part, no part contains `sep`, and joining the parts with `sep` gives back the text |
| Text.SplitJoin | src/data_processor.py:168-173 | `split` inverts `sep.join` on `sep`-free parts |
| Text.SplitLastPiece | src/data_processor.py:172-178 | the last piece of `split(sep)` is the text after the last `sep` |
| Text.NatToString | src/data_processor.py:172-175 | `str(n)` is a non-empty digit string that starts with `0` exactly when n = 0 |
| Text.NatToStringRoundTrip | src/data_processor.py:172-177 | `int(str(n)) == n` |
| Text.NatToStringOfDigits | src/data_processor.py:177-178 | digit text without a leading zero is `str` of the number it stands for |
| Text.NatToStringFourDigits | src/data_processor.py:172-177 | a year from 1000 to 9999 prints as four digits, as `%Y` needs |
| Text.ParseFormatDecimal | src/data_processor.py:68 | `float()` reads the canonical text of a decimal back to the same decimal |
| Text.ParseIntegerText | src/data_processor.py:151 | `int(float(str(i))) == i` for every integer, negative ones included |
| Text.ParseDecimal | src/data_processor.py:68 | `float()` on decimal text: an optional sign, then digits with at most one point and at least one digit; anything else raises ValueError (round trip in `Text.ParseFormatDecimal`) |
| Text.ParseFloat | src/data_processor.py:68 | `float(s)` ignores whitespace around the number |
| Text.IsDigitString | src/data_processor.py:142 | `value and value.isdigit()`: non-empty and all digits |
| Text.DigitsValue | src/data_processor.py:143 | `int(value)` of a digit string (its inverse in `Text.NatToStringRoundTrip`) |
| Text.Truncate | src/data_processor.py:151 | `int(float(...))` truncates toward zero |
| Dates.NextDay | src/data_processor.py:220 | `+ timedelta(days=1)`: fails exactly at 31.12.9999, and otherwise gives the next later date, with no date in between |
| Dates.PrevDay | src/data_processor.py:122 | `- timedelta(days=1)`: fails exactly at 01.01.0001, and otherwise gives the date whose next day is the given one |
| Dates.PrevDayOfNextDay | src/data_processor.py:122 | going forward a day and back again returns the same date |
| Dates.IsValidDate | src/data_processor.py:177-178 | the days `datetime` can hold: years 1 to 9999, months 1 to 12, days up to the month's length |
| Dates.Before | src/telegram_bot.py:225 | `<` on dates, by year, then month, then day |
| Dates.NotAfter | src/data_processor.py:201 | `<=` on dates |
| Dates.TwoDigits | src/data_processor.py:88 | `%02d` of a number below 100 is two digits that read back as the number |
| Dates.TwoDigitsOfValue | src/data_processor.py:177-178 | a two-digit text is the `%02d` form of its value |
| Dates.FormatShortFields | src/data_processor.py:88 | `%d.%m.%y` is eight characters: day, point, month, point, year modulo 100 |
| Dates.FormatShortInjective | src/data_processor.py:88 | two dates have the same header text exactly when they agree on day, month and year modulo 100 |
| Dates.FormatShortAlphabet | src/data_processor.py:88 | header text holds only digits and points |
| Dates.FormatShort | src/data_processor.py:88 | `strftime('%d.%m.%y')` (its fields in `Dates.FormatShortFields`) |
| Dates.FormatLong | src/data_processor.py:231-232 | `strftime('%d.%m.%Y')` for four-digit years (read back in `DateRange.ParseFormatLong`) |
| DateRange.ParseDayMonthYear | src/data_processor.py:177-178 | a text `strptime('%d.%m.%Y')` accepts is three point-separated fields and 8 to 10 characters long |
| DateRange.IsDayToken | src/data_processor.py:177-178 | what `%d` accepts: `01`..`31`, `1`..`9` or a space and `1`..`9` |
| DateRange.IsMonthToken | src/data_processor.py:177-178 | what `%m` accepts: `01`..`12` or `1`..`9` |
| DateRange.TokenValue | src/data_processor.py:177-178 | the number a day or month token stands for |
| DateRange.ParseCanonicalLong | src/data_processor.py:177-178 | a ten-character text that `strptime` accepts and that does not start with the space `%d` allows is `strftime('%d.%m.%Y')` of the day it reads, for four-digit years |
| DateRange.UnpaddedToken | src/data_processor.py:177-178 | `%d` and `%m` accept unpadded numbers such as `5` and read them back |
| DateRange.ParseUnpaddedLong | src/data_processor.py:177-178 | an unpadded `d.m.YYYY` reads as the same day as its padded form |
| DateRange.YearIsLastField | src/data_processor.py:177-178 | the year is read from the text after the last point |
| DateRange.RangeNeedsExactlyOneDash | src/data_processor.py:168 | a range text that parses is two dash-free parts around exactly one dash |
| DateRange.TwoDigitTokens | src/data_processor.py:177-178 | two-digit day and month fields of a valid date are accepted by `%d` and `%m` and read back |
| DateRange.ParseFormatLong | src/data_processor.py:177-178 | `strptime('%d.%m.%Y')` reads back what `strftime('%d.%m.%Y')` writes, for four-digit years |
| DateRange.DayMonthGetsYear | src/data_processor.py:172-175 | a `dd.mm` part has the current year appended, whatever the year |
| DateRange.WithYear | src/data_processor.py:172-175 | a part with exactly one point gets `.` and the current year appended; any other part is left as is |
| DateRange.ReadPart | src/data_processor.py:170-178 | one half: completed with the year, stripped and read with `strptime` |
| DateRange.LongFormKeepsItsYear | src/data_processor.py:172-175 | a `dd.mm.YYYY` part is left as it is |
| DateRange.SplitAtDash | src/data_processor.py:168 | two dash-free parts joined by a dash split back into those two parts |
| DateRange.StripFormatLong | src/data_processor.py:177-178 | `strip()` leaves a formatted date unchanged |
| DateRange.ShortPartReads | src/data_processor.py:170-178 | a `dd.mm` part typed for a day of the current year is completed, stripped and read back as that day |
| DateRange.LongPartReads | src/data_processor.py:170-178 | a `dd.mm.YYYY` part is read back as its day whatever the current year |
| DateRange.StripBeforeYear | src/data_processor.py:172-178 | stripping a part with the year appended cuts only leading whitespace |
| DateRange.ReadPartYear | src/data_processor.py:170-178 | a part with exactly one point, however spelled, is read in the current year |
| DateRange.DayMonthPartsGetCurrentYear | src/data_processor.py:165-181 | in every range that parses, each half typed without a year is a day of the current year |
| DateRange.ParseDateRange | src/data_processor.py:165-181 | `parse_date_range`: exactly one dash, each half completed with the year if it has one point, stripped and read with `strptime`; none otherwise (round trips in `ParseShortRange` and `ParseLongRange`) |
| DateRange.ParseShortRange | src/data_processor.py:165-181 | `dd.mm-dd.mm` for two days of the current year parses to exactly those two days |
| DateRange.ParseLongRange | src/data_processor.py:165-181 | `dd.mm.YYYY-dd.mm.YYYY` parses to exactly those two days, whatever the current year |
| Sheet.FirstDateHeader | src/data_processor.py:97-105 | the scan's result is a date-header column, and no column before it (from the scan's start) is one |
| Sheet.IsSummaryHeader | src/data_processor.py:100 | a stripped header holding a space or `нед.` is a weekly summary and is skipped |
| Sheet.IsDateHeaderFor | src/data_processor.py:98-102 | a header matches when, stripped, it is no summary and equals the target |
| Sheet.MissingFirstCharNotContained | src/data_processor.py:100 | a text lacking the first character of `sub` does not contain `sub` |
| Sheet.DateHeaderIsExactMatch | src/data_processor.py:98-103 | for a `dd.mm.yy` target the weekly-summary test never hides a match: a header matches exactly when it strips to the target |
| Sheet.ColumnOf | src/data_processor.py:80-112 | `find_column_index`: none exactly when the grid is empty or no header from column 3 on strips to `dd.mm.yy`; otherwise an index of at least 3 whose stripped header equals the target, has no space and no `нед.`, with no earlier matching column from 3 on |
| Sheet.DataRows | src/data_processor.py:138 | rows 3 to 237 (`data[2:237]`) |
| Sheet.Clean | src/data_processor.py:141 | the three cleanings: strip (daily), strip then remove spaces (period, line 209), remove spaces (project, line 277) |
| Sheet.CellRecords | src/data_processor.py:141-143 | a cell adds `int(value)` when its cleaned value is non-empty and all digits, else nothing |
| Sheet.RowRecords | src/data_processor.py:139 | a row too short to reach the column adds nothing |
| Sheet.ColumnValues | src/data_processor.py:138-145 | what each row adds, in row order (`Sheet.ColumnValuesAt`) |
| Sheet.ColumnRecords | src/data_processor.py:138-145 | the daily total, and with the period cleaning the day total at lines 205-215 (`Sheet.ColumnRecordsStep`) |
| Sheet.ColumnValuesAt | src/data_processor.py:138-146 | entry k of the per-row counts of a column is what row k adds |
| Sheet.ColumnRecordsStep | src/data_processor.py:138-146 | one more row adds its own records to the column sum |
| Sheet.ColumnRecordsAppend | src/data_processor.py:138-146 | a column's sum over two blocks of rows is the sum of the two blocks' sums |
| Sheet.ColumnRecordsZeroIff | src/data_processor.py:138-146 | a column sums to zero exactly when every row adds zero records |
| Sheet.CleaningsAgreeWithoutSpaces | src/data_processor.py:141-142 | where no stripped cell holds an inner space, the daily cleaning (strip) and the period cleaning (strip, then remove spaces) give the same sum |
| Sheet.CleaningsDifferOnGroupedDigits | src/data_processor.py:141-142 | digits grouped by a space count 0 under the daily cleaning but their full value under the period cleaning of line 209 |
| Sheet.ZeroTextIsZero | src/data_processor.py:148-151 | the default text `'0'` reads as zero |
| Sheet.IsVerified | src/data_processor.py:134 | `verified` holds when row 2 reaches the column and its cell there is exactly `TRUE` |
| Sheet.DepositCell | src/data_processor.py:148 | C242 when it exists, else `'0'` |
| Sheet.DailyDeposit | src/data_processor.py:148-151 | the deposit is `int(float(...))` of C242 with no-break and ordinary spaces removed, `'0'` for an empty cell, none where `float()` raises (cases in `DepositDefaultsToZero` and `BlankDepositFails`) |
| Sheet.DepositDefaultsToZero | src/data_processor.py:148-151 | a grid of at most 241 rows has a daily deposit of 0 |
| Sheet.BlankDepositFails | src/data_processor.py:150-151 | a C242 cell holding only a space cleans to `''`, which `float()` rejects, so there is no deposit |
| Sheet.FirstDepositRow | src/data_processor.py:47-48 | the chosen row's first cell strips to `Остаток депозита`, and no earlier row's does |
| Sheet.IsDepositRow | src/data_processor.py:48 | a row whose first cell strips to `Остаток депозита` |
| Sheet.CleanDeposit | src/data_processor.py:61-65 | the deposit text with no-break, ordinary and narrow no-break spaces removed, then stripped (`Sheet.CleanDepositHasNoSpaces`) |
| Sheet.CleanDepositHasNoSpaces | src/data_processor.py:60-65 | the cleaned deposit text holds no no-break, ordinary or narrow no-break space |
| Sheet.RangeRecordsStep | src/data_processor.py:201-220 | a walk that can step on holds its first day's records plus those of the rest |
| Sheet.DayRecords | src/data_processor.py:202-218 | a day adds its column's records, or nothing when it has no column |
| Sheet.DaysSum | src/data_processor.py:201-220 | a per-day count summed over each day of a range |
| Sheet.RangeRecords | src/data_processor.py:201-220 | the records of every day of a range (properties in the `RangeRecords…` lemmas) |
| Sheet.LastStepOverflows | src/data_processor.py:220 | reaching 31.12.9999 inside the range means the range ends there and the step raises |
| Sheet.RangeOverflows | src/data_processor.py:220 | `current_date += timedelta(days=1)` raises OverflowError exactly when a non-empty range ends on 31.12.9999 |
| Sheet.RangeOfOneDay | src/data_processor.py:201-220 | a one-day range holds exactly that day's records |
| Sheet.RangeRecordsSplit | src/data_processor.py:201-220 | a range's records are those up to any middle day plus those after it |
| Sheet.RangeRecordsCountsEachDay | src/data_processor.py:201-220 | every day of the range is counted: no day's records exceed the range's |
| Sheet.RangeWithoutColumnsIsEmpty | src/data_processor.py:202-204 | days without a column add nothing, so a range none of whose days has a column totals zero |
| Sheet.OneDayPeriodMatchesDaily | src/data_processor.py:138-143 | a one-day period counts what the daily report counts for that day when no cell of its column holds an inner space |
| Sheet.FirstProjectRow | src/data_processor.py:257-261 | the chosen row is non-empty and its name starts with the tag, and no earlier row from index 2 on is such a row |
| Sheet.IsProjectRow | src/data_processor.py:259 | `row and row[0].startswith(project_tag)` |
| Sheet.ProjectRowOf | src/data_processor.py:257-261 | the project row is the first one from index 2 on whose name starts with the tag |
| SecondarySheet.FirstHeaderContaining | src/data_processor.py:310-315 | the chosen header contains the target as a substring, and no earlier header does |
| SecondarySheet.YesterdayColumn | src/data_processor.py:310-315 | yesterday's column is the first header of row 0 that contains its `dd.mm.yy` |
| SecondarySheet.IsActiveRow | src/data_processor.py:323 | a row is active when it has a status cell that is exactly `TRUE` |
| SecondarySheet.ReadAmount | src/data_processor.py:328-331 | `int(float(...))` of a cell with no-break and ordinary spaces removed; none where `float()` raises |
| SecondarySheet.GuardedAmount | src/data_processor.py:328-330 | an amount is 0 when its guard cell is empty, and none where a cell is missing or does not parse |
| SecondarySheet.YesterdayAmount | src/data_processor.py:331 | yesterday's amount is 0 when the row is too short or the cell empty |
| SecondarySheet.Snapshot | src/data_processor.py:326-332 | the `project_data` of an active row, or none when building it raises |
| SecondarySheet.RowProject | src/data_processor.py:322-336 | what one row adds: its snapshot when it is active and builds without raising, else nothing |
| SecondarySheet.ActiveProjects | src/data_processor.py:322-336 | the snapshots of the active rows that build without raising, in sheet order (properties in the `ActiveProjects…` lemmas) |
| SecondarySheet.ActiveProjectsStep | src/data_processor.py:322-336 | one more row appends its project, if it yields one, at the end of the list |
| SecondarySheet.ActiveProjectsAppend | src/data_processor.py:322-336 | projects keep sheet order: two blocks of rows give the first block's projects, then the second's |
| SecondarySheet.ActiveProjectsMembers | src/data_processor.py:322-336 | a project is listed exactly when some row marked `TRUE` yields it without raising |
| SecondarySheet.ActiveProjectsBounded | src/data_processor.py:322-336 | there are never more projects than rows |
| SecondarySheet.FiveCellRowDropped | src/data_processor.py:329-336 | an active row of exactly five cells with its fifth cell filled is dropped, because that cell sends `total_issued` to the missing `row[5]` |
| SecondarySheet.EmptyAmountsReadAsZero | src/data_processor.py:328-331 | an active row whose guard cells are empty is listed with zero amounts |
| Reports.FindColumnIndex | src/data_processor.py:80-112 | the early-return scan returns exactly the column `Sheet.ColumnOf` describes |
| Reports.GetDepositAmount | src/data_processor.py:43-78 | the float beside the first `Остаток депозита` label, after removing the three kinds of space and stripping; 0 when the label is missing, the row has at most two cells, or the value does not parse |
| Reports.GenerateDailyReport | src/data_processor.py:114-163 | `No data in sheet` for an empty grid; `no_data` when the day has no column; an IndexError failure when row 2 is missing; a ValueError failure when C242 does not parse; otherwise the column's stripped digit-only sum over rows 3–237, the deposit, and `verified` exactly when row 2 reaches the column and holds `TRUE` there |
| Reports.DailyTotal | src/data_processor.py:137-145 | `total_records` is the column's sum over the data rows with cells stripped only |
| Reports.GeneratePeriodReport | src/data_processor.py:183-238 | `Invalid date range` when the range does not parse; `No data in sheet` for an empty grid; a caught OverflowError when the walk must step past 31.12.9999; otherwise the records of every day of the range, with the warning exactly when they total zero |
| Reports.PeriodWalk | src/data_processor.py:197-222 | the `while current_date <= end_date` loop totals the records of every day from start to end, or fails when the range ends on 31.12.9999 |
| Reports.PeriodDayRecords | src/data_processor.py:202-218 | one day of the period loop adds that day's column sum, or nothing when the day has no column |
| Reports.PeriodDayTotal | src/data_processor.py:203-218 | `daily_total` is the column's sum over the data rows with cells stripped and spaces removed |
| Reports.GenerateProjectReport | src/data_processor.py:240-294 | `invalid_date_format`, `sheet_error` or `invalid_project_tag` in that order of checks; an escaping OverflowError when the walk must step past 31.12.9999; otherwise the chosen row's name and records over the range, with the warning exactly when they total zero |
| Reports.FindProjectRow | src/data_processor.py:257-261 | the scan over `data[2:]` returns the first row whose name starts with the tag, with no upper bound of 237 |
| Reports.ProjectWalk | src/data_processor.py:270-282 | the loop totals one row's digit-only cells (spaces removed, not stripped) over the resolved columns of each day of the range |
| Reports.ProjectDayRecords | src/data_processor.py:274-280 | one day of the project loop adds the row's digit-only cell in that day's column, spaces removed, or nothing |
| Reports.ProjectsTextAppend | src/data_processor.py:341-343 | `projects_text` of two lists of projects is the text of the first followed by that of the second |
| Reports.ProjectsText | src/data_processor.py:341-343 | each project's formatted line, in list order |
| Reports.GenerateSecondaryReport | src/data_processor.py:296-352 | the header scan and the row filter return exactly the outcome `SecondaryOutcome` describes |
| Reports.SecondaryOutcome | src/data_processor.py:296-352 | the secondary report's outcome: no data, no header for yesterday, no active projects, or the projects and their text |
| Reports.SecondarySuccess | src/data_processor.py:321-348 | a successful secondary report is for yesterday, lists at least one project, lists exactly the projects of the `TRUE` rows below the header that parse, and its text is their blocks in order |
| Reports.SecondaryNoActiveProjects | src/data_processor.py:338-339 | the report fails with `Нет активных проектов` exactly when no active row below the header parses |
| Reports.SecondaryNeedsYesterdayHeader | src/data_processor.py:310-319 | without a header containing yesterday's `dd.mm.yy`, the report fails naming that text |
| Scheduler.StripMarkup | src/telegram_bot.py:249 | the plain-text fallback has no `*`, `_` or `` ` ``, keeps every other character that occurs in the text, is no longer than the text, and is the text itself when it had no markup |
| Scheduler.StripMarkupChar | src/telegram_bot.py:249 | one character is dropped exactly when it is `*`, `_` or `` ` `` |
| Scheduler.StripMarkupAppend | src/telegram_bot.py:249 | markup is removed piece by piece, so with `StripMarkupChar` the result is the text with exactly those characters removed, in order |
| Scheduler.StripMarkupIdempotent | src/telegram_bot.py:249 | stripping markup twice is stripping it once |
| Scheduler.ReportScheduler.constructor | src/telegram_bot.py:55 | `last_report_date` starts as none |
| Scheduler.ReportScheduler.CheckAndSendReports | src/telegram_bot.py:218-257 | nothing happens unless it is 09:00 and no report went out today. A failed report sends nothing but records today. A successful report goes out in Markdown, or else as plain text with the markup removed, and today is recorded. When both sends raise, `last_report_date` is left unchanged |
| Scheduler.IsDue | src/telegram_bot.py:223-225 | a tick is due at 09:00 when no report has been recorded yet or the last one is for an earlier day |
| Scheduler.AttemptCompletes | src/telegram_bot.py:232-253 | line 253 is reached when the report failed, or one of the two sends went through |
| Scheduler.NextReportDate | src/telegram_bot.py:223-253 | the new `last_report_date`: today when due and the attempt reaches line 253, else unchanged |
| Scheduler.DueReport | src/telegram_bot.py:228-231 | a due tick builds the secondary report for the day before today |
| Scheduler.NextReportDateMonotone | src/telegram_bot.py:223-253 | a tick never moves `last_report_date` back, and changes it only when due and only to today |
| Scheduler.FailedReportRecordsDay | src/telegram_bot.py:231-253 | a failed report still records the day |
| Scheduler.BothSendsFailingKeepsGuardOpen | src/telegram_bot.py:237-257 | when both sends raise, the guard stays open, so a later tick may retry |
| Scheduler.ReplayMonotone | src/telegram_bot.py:225-253 | over any run of ticks, `last_report_date` never decreases |
| Scheduler.AtMostOncePerDay | src/telegram_bot.py:223-253 | over any run of ticks, the report is recorded at most once per calendar day, and never on a day no later than the one already recorded |
| Scheduler.Step | src/telegram_bot.py:218-253 | one tick of `check_and_send_reports` on `last_report_date` |
| Scheduler.Replay | src/telegram_bot.py:218-253 | `last_report_date` after a run of ticks |
| Scheduler.RecordsOn | src/telegram_bot.py:253 | how many ticks of a run record a given day |

## Left out

- Fetching the sheets (`get_sheet_data`), the credentials, and `sheets/data_fetch.py`: these are network calls. The grids are inputs, and an empty grid stands for a failed fetch.
- The aiogram handlers, keyboards and commands, and the `check_reports_periodically` loop that calls the guard every 55 seconds: these are UI and asyncio transport. A run of ticks is modelled as a sequence of inputs.
- `datetime.now`, `pytz` and the Moscow time zone: the clock reading, yesterday and the current year are parameters.
- Logging.
- The templates of `src/config.py` and `str.format`. The secondary report takes the per-project template and the whole-message template as function parameters.
- `float()` is modelled only on decimal text: an optional sign, digits, an optional point and digits, with Python whitespace around. Exponents, `inf`, `nan`, underscores and binary rounding are not modelled. So the OverflowError that `int(float('inf'))` would raise is not modelled either.
- Reports.GetDepositAmount: returns the decimal as written instead of the nearest binary float.
- Sheet.CellRecords: the model reads `str.isdigit()` as ASCII digits only. Python's `isdigit()` also holds for characters such as `²`, for which `int()` raises: the daily and period loops would skip such a cell, and the project loop's `continue` would skip the date step and loop forever. Neither behaviour is modelled.
- DateRange.ParseDayMonthYear: the model reads strptime's digits as ASCII only. Python's `\d` also accepts other Unicode decimal digits in the year and in the day's second digit (`05.03.٢٠٢٤` reads as 5 March 2024), which the model rejects.
- Reports.GenerateDailyReport: `str(e)` of a caught exception is kept as the exception's kind, not its message text. The same holds for the other generators.
- `strftime('%d.%m.%Y')` for years below 1000 is not modelled. Dates.FormatLong requires a four-digit year.
- The other handlers of `src/telegram_bot.py` that also strip markup (line 202) are not part of this model.
