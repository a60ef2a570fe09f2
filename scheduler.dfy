/**
 * `TelegramBot.check_and_send_reports`: once a minute-tick, if it is 09:00 in
 * Moscow and the secondary report has not yet gone out today, build it, send
 * it with Markdown, fall back to plain text if that send fails, and record
 * today in `last_report_date` unless both sends fail.
 */
module Scheduler {
  import opened Wrappers
  import opened Text
  import opened Dates
  import Sheet
  import SecondarySheet
  import opened Reports

  /** `REPORT_TIME['HOUR']` and `REPORT_TIME['MINUTE']`. */
  const ReportHour: int := 9
  const ReportMinute: int := 0

  /** The reading of the Moscow clock that a tick is given. */
  datatype Moment = Moment(date: Date, hour: int, minute: int)

  /** How a `send_message` call ends: it returns, or it raises. */
  datatype Delivery = Delivered | SendFailed

  /** What one tick did. */
  datatype TickEffect =
    | NotDue                   // not 09:00, or today's report already went out
    | NothingToSend            // the report failed; the day is recorded all the same
    | SentMarkdown(text: String)
    | SentPlain(text: String)  // the Markdown send raised and the plain retry went through
    | SendAborted              // both sends raised; the outer handler logged it

  /** The guard of line 223: the configured minute, and no report yet today. */
  predicate IsDue(now: Moment, last: Option<Date>) {
    now.hour == ReportHour && now.minute == ReportMinute && (last.None? || Before(last.value, now.date))
  }

  /** An attempt reaches `self.last_report_date = current_date` unless the report succeeded and both sends raised. */
  predicate AttemptCompletes(reportOk: bool, markdown: Delivery, plain: Delivery) {
    !reportOk || markdown == Delivered || plain == Delivered
  }

  /** The value of `last_report_date` after a tick. */
  function NextReportDate(last: Option<Date>, now: Moment, reportOk: bool, markdown: Delivery, plain: Delivery): Option<Date> {
    if IsDue(now, last) && AttemptCompletes(reportOk, markdown, plain) then Some(now.date) else last
  }

  /** `text.replace('*', '').replace('_', '').replace('`', '')`, the plain-text fallback. */
  function StripMarkup(text: String): (r: String)
    ensures '*' !in r && '_' !in r && '`' !in r
    ensures forall x :: x != '*' && x != '_' && x != '`' ==> (x in r <==> x in text)
    ensures '*' !in text && '_' !in text && '`' !in text ==> r == text
    ensures |r| <= |text|
  {
    var a := RemoveChar(text, '*');
    var b := RemoveChar(a, '_');
    var r := RemoveChar(b, '`');
    assert '*' !in b by {
      RemoveCharMembers(a, '_', '*');
    }
    assert '*' !in r && '_' !in r by {
      RemoveCharMembers(b, '`', '*');
      RemoveCharMembers(b, '`', '_');
    }
    forall x | x != '*' && x != '_' && x != '`'
      ensures x in r <==> x in text
    {
      RemoveCharMembers(text, '*', x);
      RemoveCharMembers(a, '_', x);
      RemoveCharMembers(b, '`', x);
    }
    r
  }

  /** A single character is dropped exactly when it is markup. */
  lemma StripMarkupChar(c: char)
    ensures StripMarkup([c]) == if c == '*' || c == '_' || c == '`' then [] else [c]
  {
    var one: String := [c];
    assert one[1..] == [];
    if c == '*' {
      assert RemoveChar(one, '*') == [];
    } else if c == '_' {
      assert RemoveChar(one, '*') == one && RemoveChar(one, '_') == [];
    } else if c == '`' {
      assert RemoveChar(RemoveChar(one, '*'), '_') == one && RemoveChar(one, '`') == [];
    }
  }

  /** Markup is removed piece by piece: with `StripMarkupChar` this fixes the result character by character, in order. */
  lemma StripMarkupAppend(a: String, b: String)
    ensures StripMarkup(a + b) == StripMarkup(a) + StripMarkup(b)
  {
    RemoveCharAppend(a, b, '*');
    var a1, b1 := RemoveChar(a, '*'), RemoveChar(b, '*');
    RemoveCharAppend(a1, b1, '_');
    var a2, b2 := RemoveChar(a1, '_'), RemoveChar(b1, '_');
    RemoveCharAppend(a2, b2, '`');
  }

  /** Stripping markup twice is stripping it once. */
  lemma StripMarkupIdempotent(text: String)
    ensures StripMarkup(StripMarkup(text)) == StripMarkup(text)
  {
  }

  /**
   * The report a due tick builds: for the day before `now`, or the failure
   * `generate_secondary_report` returns when that day is before 01.01.0001.
   */
  function DueReport(now: Moment, g: Sheet.Grid, format: SecondarySheet.ProjectSnapshot -> String): Outcome<SecondaryReport> {
    match PrevDay(now.date)
    case None => Failure(Caught(OverflowError))
    case Some(yesterday) => SecondaryOutcome(g, yesterday, format)
  }

  class ReportScheduler {
    /** The last day the secondary report went out, or none since start-up. */
    var lastReportDate: Option<Date>

    constructor()
      ensures lastReportDate == None
    {
      lastReportDate := None;
    }

    /**
     * One call of `check_and_send_reports`. The clock reading, the secondary
     * sheet, the two templates and how each send ends are its inputs.
     */
    method CheckAndSendReports(
      now: Moment,
      g: Sheet.Grid,
      format: SecondarySheet.ProjectSnapshot -> String,
      compose: SecondaryReport -> String,
      markdown: Delivery,
      plain: Delivery)
      returns (effect: TickEffect)
      modifies this
      ensures var report := DueReport(now, g, format);
              lastReportDate == NextReportDate(old(lastReportDate), now, report.Success?, markdown, plain)
      ensures !IsDue(now, old(lastReportDate)) ==> effect == NotDue
      ensures IsDue(now, old(lastReportDate)) ==>
                var report := DueReport(now, g, format);
                if !report.Success? then effect == NothingToSend
                else if markdown == Delivered then effect == SentMarkdown(compose(report.value))
                else if plain == Delivered then effect == SentPlain(StripMarkup(compose(report.value)))
                else effect == SendAborted
    {
      if !IsDue(now, lastReportDate) {
        return NotDue;
      }
      var yesterday := PrevDay(now.date);
      var report: Outcome<SecondaryReport>;
      if yesterday.None? {
        report := Failure(Caught(OverflowError));
      } else {
        report := GenerateSecondaryReport(g, yesterday.value, format);
      }
      if report.Success? {
        var text := compose(report.value);
        if markdown == Delivered {
          effect := SentMarkdown(text);
        } else if plain == Delivered {
          effect := SentPlain(StripMarkup(text));
        } else {
          return SendAborted;
        }
      } else {
        effect := NothingToSend;
      }
      lastReportDate := Some(now.date);
    }
  }

  // ---------------------------------------------------------------------------
  // Properties of the guard
  // ---------------------------------------------------------------------------

  /** A tick never moves `last_report_date` back, and only ever moves it to today. */
  lemma NextReportDateMonotone(last: Option<Date>, now: Moment, reportOk: bool, markdown: Delivery, plain: Delivery)
    ensures var next := NextReportDate(last, now, reportOk, markdown, plain);
            && (last.Some? ==> next.Some? && NotAfter(last.value, next.value))
            && (next != last ==> IsDue(now, last) && next == Some(now.date))
  {
  }

  /** A failed report still records the day: no retry until tomorrow. */
  lemma FailedReportRecordsDay(last: Option<Date>, now: Moment, markdown: Delivery, plain: Delivery)
    requires IsDue(now, last)
    ensures NextReportDate(last, now, false, markdown, plain) == Some(now.date)
  {
  }

  /** Both sends failing leaves the guard open, so a later tick of the same minute retries. */
  lemma BothSendsFailingKeepsGuardOpen(last: Option<Date>, now: Moment)
    requires IsDue(now, last)
    ensures NextReportDate(last, now, true, SendFailed, SendFailed) == last
    ensures IsDue(now, NextReportDate(last, now, true, SendFailed, SendFailed))
  {
  }

  /** The inputs of one tick, as far as the guard is concerned. */
  datatype Tick = Tick(now: Moment, reportOk: bool, markdown: Delivery, plain: Delivery)

  /** Whether a tick assigns `last_report_date`. */
  predicate Records(last: Option<Date>, t: Tick) {
    IsDue(t.now, last) && AttemptCompletes(t.reportOk, t.markdown, t.plain)
  }

  function Step(last: Option<Date>, t: Tick): Option<Date> {
    NextReportDate(last, t.now, t.reportOk, t.markdown, t.plain)
  }

  /** `last_report_date` after a run of ticks. */
  function Replay(last: Option<Date>, ticks: seq<Tick>): Option<Date>
    decreases |ticks|
  {
    if ticks == [] then last else Replay(Step(last, ticks[0]), ticks[1..])
  }

  /** How many ticks of a run record the day `d`. */
  function RecordsOn(last: Option<Date>, ticks: seq<Tick>, d: Date): nat
    decreases |ticks|
  {
    if ticks == [] then 0
    else
      (if Records(last, ticks[0]) && ticks[0].now.date == d then 1 else 0)
      + RecordsOn(Step(last, ticks[0]), ticks[1..], d)
  }

  /** Over any run of ticks, `last_report_date` never decreases. */
  lemma {:induction false} ReplayMonotone(last: Option<Date>, ticks: seq<Tick>)
    requires last.Some?
    ensures Replay(last, ticks).Some? && NotAfter(last.value, Replay(last, ticks).value)
    decreases |ticks|
  {
    if ticks != [] {
      var next := Step(last, ticks[0]);
      NextReportDateMonotone(last, ticks[0].now, ticks[0].reportOk, ticks[0].markdown, ticks[0].plain);
      ReplayMonotone(next, ticks[1..]);
    }
  }

  /**
   * The report goes out at most once per calendar day, over any run of ticks,
   * and not at all on a day no later than the one already recorded.
   */
  lemma {:induction false} AtMostOncePerDay(last: Option<Date>, ticks: seq<Tick>, d: Date)
    ensures RecordsOn(last, ticks, d) <= 1
    ensures last.Some? && NotAfter(d, last.value) ==> RecordsOn(last, ticks, d) == 0
    decreases |ticks|
  {
    if ticks != [] {
      var t := ticks[0];
      var next := Step(last, t);
      AtMostOncePerDay(next, ticks[1..], d);
      if Records(last, t) {
        assert next == Some(t.now.date);
        if t.now.date != d && last.Some? && NotAfter(d, last.value) {
          assert Before(last.value, t.now.date);
          assert NotAfter(d, t.now.date);
        }
      }
    }
  }
}
