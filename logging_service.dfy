/** The monthly Excel log and the monthly report scheduler
    (src/pitherm/logging_service.py). A workbook is modelled as its active
    sheet, a sequence of rows; the directory it lives in as a map from file
    name to sheet. The clock is a parameter of every operation. */
module Logging {
  import opened Builtins
  import opened Clock
  import Alert

  datatype Cell = Text(text: string) | Number(value: real)
  type Row = seq<Cell>
  type Sheet = seq<Row>
  type Files = map<string, Sheet>

  /** The header row a new monthly workbook starts with */
  const HeaderRow: Row := [Text("Date"), Text("Time"), Text("Temperature (°C)"), Text("Humidity (%)")]

  /** The row `log_to_excel` appends: date and time of the second clock read,
      then the temperature and humidity as given */
  function DataRow(temp: real, hum: real, t: DateTime): Row
    requires t.Valid()
  {
    [Text(DateStamp(t)), Text(TimeStamp(t)), Number(temp), Number(hum)]
  }

  /** `f"temp_log_{month_str}.xlsx"` */
  function LogFileName(monthKey: string): string {
    "temp_log_" + monthKey + ".xlsx"
  }

  /** The log file of the month t falls in; the writer and the report share it */
  function FileFor(t: DateTime): (name: string)
    requires t.Valid()
    ensures |name| == 21 && name[9..16] == MonthKey(t)
  {
    LogFileName(MonthKey(t))
  }

  /** Two times map to the same log file exactly when they are in the same month */
  lemma {:induction false} FileForSameMonth(a: DateTime, b: DateTime)
    requires a.Valid() && b.Valid()
    ensures FileFor(a) == FileFor(b) <==> MonthIndex(a) == MonthIndex(b)
  {
    MonthKeySameMonth(a, b);
    if FileFor(a) == FileFor(b) {
      assert MonthKey(a) == FileFor(a)[9..16] == FileFor(b)[9..16] == MonthKey(b);
    }
  }

  /** The sheet after one append: a missing file starts with the header row,
      an existing sheet keeps every row it had, and the new row comes last */
  function AppendRow(existing: Option<Sheet>, row: Row): (sheet: Sheet)
    ensures existing.None? ==> |sheet| == 2 && sheet[0] == HeaderRow
    ensures existing.Some? ==> |sheet| == |existing.value| + 1 && sheet[..|existing.value|] == existing.value
    ensures sheet[|sheet| - 1] == row
  {
    match existing
    case None => [HeaderRow, row]
    case Some(rows) => rows + [row]
  }

  /** The sheet after a run of appends, each to the result of the one before */
  function AppendRows(existing: Option<Sheet>, rows: seq<Row>): Option<Sheet>
    decreases |rows|
  {
    if rows == [] then existing
    else Some(AppendRow(AppendRows(existing, rows[..|rows| - 1]), rows[|rows| - 1]))
  }

  /** Appending is append-only: an existing sheet is extended by exactly the
      new rows in order; a missing file becomes the header row followed by them */
  lemma {:induction false} AppendRowsOrder(existing: Option<Sheet>, rows: seq<Row>)
    requires rows != []
    ensures existing.Some? ==> AppendRows(existing, rows) == Some(existing.value + rows)
    ensures existing.None? ==> AppendRows(existing, rows) == Some([HeaderRow] + rows)
    decreases |rows|
  {
    var init := rows[..|rows| - 1];
    var row := rows[|rows| - 1];
    assert AppendRows(existing, rows) == Some(AppendRow(AppendRows(existing, init), row));
    assert init + [row] == rows;
    if init != [] {
      AppendRowsOrder(existing, init);
      if existing.Some? {
        assert (existing.value + init) + [row] == existing.value + rows;
      } else {
        assert ([HeaderRow] + init) + [row] == [HeaderRow] + rows;
      }
    } else {
      assert AppendRows(existing, init) == existing;
      assert rows == [row];
      assert AppendRow(None, row) == [HeaderRow] + rows;
    }
  }

  function Lookup(files: Files, name: string): Option<Sheet> {
    if name in files then Some(files[name]) else None
  }

  /** The directory after `log_to_excel`: the file named by the first clock
      read gets one more row, dated by the second clock read; no other file
      changes */
  function Logged(files: Files, temp: real, hum: real, fileClock: DateTime, rowClock: DateTime): (files': Files)
    requires fileClock.Valid() && rowClock.Valid()
    ensures files'.Keys == files.Keys + {FileFor(fileClock)}
    ensures forall name :: name in files && name != FileFor(fileClock) ==> files'[name] == files[name]
    ensures files'[FileFor(fileClock)] == AppendRow(Lookup(files, FileFor(fileClock)), DataRow(temp, hum, rowClock))
  {
    var name := FileFor(fileClock);
    files[name := AppendRow(Lookup(files, name), DataRow(temp, hum, rowClock))]
  }

  /** The appended row holds the row clock's date and time and the readings
      unchanged; it is dated within the month its file is named after exactly
      when both clock reads fall in the same month */
  lemma {:induction false} LoggedRowInFileMonth(files: Files, temp: real, hum: real, fileClock: DateTime, rowClock: DateTime)
    requires fileClock.Valid() && rowClock.Valid()
    ensures var sheet := Logged(files, temp, hum, fileClock, rowClock)[FileFor(fileClock)];
      && sheet[|sheet| - 1] == [Text(DateStamp(rowClock)), Text(TimeStamp(rowClock)), Number(temp), Number(hum)]
      && (DateStamp(rowClock)[..7] == FileFor(fileClock)[9..16] <==> MonthIndex(fileClock) == MonthIndex(rowClock))
  {
    MonthKeySameMonth(fileClock, rowClock);
  }

  /** The two clock reads can straddle a month boundary: a row dated on the
      first of February is appended to January's file */
  lemma MonthBoundaryRow()
    ensures var jan := DateTime(2025, 1, 31, 23, 59, 59);
      var feb := DateTime(2025, 2, 1, 0, 0, 0);
      var sheet := Logged(map[], 21.5, 40.0, jan, feb)[FileFor(jan)];
      FileFor(jan) == "temp_log_2025-01.xlsx" && sheet[1][0] == Text("2025-02-01")
  {
  }

  /** The e-mail `send_montly_report` builds for a month's log */
  datatype Report = Report(attachment: string, subject: string, body: string, from: string, to: string, cc: Option<string>, envelope: seq<string>)

  function MonthlyReport(now: DateTime, sender: string, primary: string, smtpCc: Option<string>): (r: Report)
    requires now.Valid()
    ensures r.attachment == FileFor(now)
    ensures r.subject == "Monthly Temp Report - " + MonthKey(now)
    ensures r.envelope == [primary] + Alert.CcList(smtpCc)
    ensures r.cc.Some? <==> Alert.CcList(smtpCc) != []
  {
    var key := MonthKey(now);
    var rcpt := Alert.BuildRecipients(primary, smtpCc);
    Report(FileFor(now), "Monthly Temp Report - " + key,
           "Attached is the temperature and humidity log for " + key + ".\n\n- Raspberry Pi Monitor",
           sender, rcpt.primaryTo, Alert.CcHeader(rcpt.ccList), rcpt.all)
  }

  /** The guard of `check_and_send_monthly_report`: the first of the month,
      from 07:00 on, and not yet done for this month key */
  predicate ReportDue(last: Option<string>, now: DateTime)
    requires now.Valid()
  {
    now.day == 1 && now.hour >= 7 && last != Some(MonthKey(now))
  }

  /** `_last_report_month` after one check: the current month key when the
      report was invoked, whatever became of it; unchanged otherwise */
  function NextLastReport(last: Option<string>, now: DateTime): (next: Option<string>)
    requires now.Valid()
    ensures ReportDue(last, now) ==> next == Some(MonthKey(now))
    ensures !ReportDue(last, now) ==> next == last
    ensures now.day != 1 || now.hour < 7 ==> next == last
  {
    if ReportDue(last, now) then Some(MonthKey(now)) else last
  }

  predicate AllValid(times: seq<DateTime>) {
    forall i :: 0 <= i < |times| ==> times[i].Valid()
  }

  /** A sequence of scheduler checks: the final marker and the times at which
      `send_montly_report` was invoked */
  datatype SchedulerRun = SchedulerRun(last: Option<string>, invoked: seq<DateTime>)

  function RunChecks(last: Option<string>, times: seq<DateTime>): (run: SchedulerRun)
    requires AllValid(times)
    ensures forall x <- run.invoked :: x in times
    ensures AllValid(run.invoked)
    decreases |times|
  {
    if times == [] then SchedulerRun(last, [])
    else
      var prev := RunChecks(last, times[..|times| - 1]);
      var now := times[|times| - 1];
      if ReportDue(prev.last, now) then SchedulerRun(Some(MonthKey(now)), prev.invoked + [now])
      else prev
  }

  /** One more check extends a run by at most one invocation */
  lemma RunChecksSnoc(last: Option<string>, times: seq<DateTime>, now: DateTime)
    requires AllValid(times) && now.Valid()
    ensures AllValid(times + [now])
    ensures var prev := RunChecks(last, times);
      RunChecks(last, times + [now])
        == if ReportDue(prev.last, now) then SchedulerRun(Some(MonthKey(now)), prev.invoked + [now]) else prev
  {
    assert (times + [now])[..|times|] == times;
  }

  predicate IncreasingMonths(inv: seq<DateTime>) {
    forall i, j :: 0 <= i < j < |inv| ==> MonthIndex(inv[i]) < MonthIndex(inv[j])
  }

  lemma IncreasingSnoc(inv: seq<DateTime>, now: DateTime)
    requires IncreasingMonths(inv)
    requires inv != [] ==> MonthIndex(inv[|inv| - 1]) < MonthIndex(now)
    ensures IncreasingMonths(inv + [now])
  {
    var inv' := inv + [now];
    forall i, j | 0 <= i < j < |inv'| ensures MonthIndex(inv'[i]) < MonthIndex(inv'[j]) {
      if j == |inv| && i < |inv| - 1 {
        assert MonthIndex(inv[i]) < MonthIndex(inv[|inv| - 1]);
      }
    }
  }

  /** A later time with another month key lies in a later month */
  lemma LaterMonth(a: DateTime, b: DateTime)
    requires a.Valid() && b.Valid() && NotAfter(a, b) && MonthKey(a) != MonthKey(b)
    ensures MonthIndex(a) < MonthIndex(b)
  {
    NotAfterMonth(a, b);
    MonthKeySameMonth(a, b);
  }

  /** The marker names the month of the latest invocation, or is None before any */
  predicate MarksLatest(run: SchedulerRun)
    requires AllValid(run.invoked)
  {
    if run.invoked == [] then run.last == None
    else run.last == Some(MonthKey(run.invoked[|run.invoked| - 1]))
  }

  /** One check keeps the invocations in increasing months and the marker on
      the latest of them, when the clock has not gone back since that one */
  lemma CheckKeepsOrder(prev: SchedulerRun, now: DateTime)
    requires AllValid(prev.invoked) && now.Valid()
    requires IncreasingMonths(prev.invoked) && MarksLatest(prev)
    requires prev.invoked != [] ==> NotAfter(prev.invoked[|prev.invoked| - 1], now)
    ensures var next := if ReportDue(prev.last, now) then SchedulerRun(Some(MonthKey(now)), prev.invoked + [now]) else prev;
      AllValid(next.invoked) && IncreasingMonths(next.invoked) && MarksLatest(next)
  {
    if ReportDue(prev.last, now) {
      if prev.invoked != [] {
        var p := prev.invoked[|prev.invoked| - 1];
        assert MonthKey(p) != MonthKey(now) by {
          assert prev.last == Some(MonthKey(p));
        }
        LaterMonth(p, now);
      }
      IncreasingSnoc(prev.invoked, now);
    }
  }

  /** On a clock that never runs backwards, every earlier check time is not
      after the last one */
  lemma MonotoneLast(times: seq<DateTime>, x: DateTime)
    requires Monotone(times) && times != [] && x in times[..|times| - 1]
    ensures NotAfter(x, times[|times| - 1])
  {
    var k :| 0 <= k < |times| - 1 && times[k] == x;
    assert NotAfter(times[k], times[|times| - 1]);
  }

  lemma MonotoneInit(times: seq<DateTime>)
    requires Monotone(times) && times != []
    ensures Monotone(times[..|times| - 1])
  {
  }

  /** What the scheduler knows after a run of checks from `None` on a clock
      that never runs backwards: invocations are in strictly increasing
      months, and the marker names the month of the latest one */
  lemma {:induction false} RunChecksInvariant(times: seq<DateTime>)
    requires AllValid(times) && Monotone(times)
    ensures IncreasingMonths(RunChecks(None, times).invoked)
    ensures MarksLatest(RunChecks(None, times))
    decreases |times|
  {
    if times != [] {
      var init := times[..|times| - 1];
      var now := times[|times| - 1];
      MonotoneInit(times);
      RunChecksInvariant(init);
      RunChecksSnoc(None, init, now);
      assert times == init + [now];
      var prev := RunChecks(None, init);
      if prev.invoked != [] {
        MonotoneLast(times, prev.invoked[|prev.invoked| - 1]);
      }
      CheckKeepsOrder(prev, now);
    }
  }

  /** Over checks on a clock that never runs backwards, the report is invoked
      at most once per month key */
  lemma {:induction false} ReportAtMostOncePerMonth(times: seq<DateTime>)
    requires AllValid(times) && Monotone(times)
    ensures var inv := RunChecks(None, times).invoked;
      forall i, j :: 0 <= i < j < |inv| ==> MonthKey(inv[i]) != MonthKey(inv[j])
  {
    RunChecksInvariant(times);
    var inv := RunChecks(None, times).invoked;
    forall i, j | 0 <= i < j < |inv| ensures MonthKey(inv[i]) != MonthKey(inv[j]) {
      MonthKeySameMonth(inv[i], inv[j]);
    }
  }

  /** On any clock, even one that is set back, the marker names the month of
      the latest invocation, so two consecutive invocations never share a
      month key */
  lemma {:induction false} MarksLatestAlways(times: seq<DateTime>)
    requires AllValid(times)
    ensures MarksLatest(RunChecks(None, times))
    ensures var inv := RunChecks(None, times).invoked;
      forall i :: 0 <= i < |inv| - 1 ==> MonthKey(inv[i]) != MonthKey(inv[i + 1])
    decreases |times|
  {
    if times != [] {
      var init := times[..|times| - 1];
      var now := times[|times| - 1];
      assert times == init + [now];
      MarksLatestAlways(init);
      RunChecksSnoc(None, init, now);
      var prev := RunChecks(None, init);
      if ReportDue(prev.last, now) && prev.invoked != [] {
        var inv := prev.invoked + [now];
        assert inv[|inv| - 2] == prev.invoked[|prev.invoked| - 1];
        assert forall i :: 0 <= i < |prev.invoked| ==> inv[i] == prev.invoked[i];
      }
    }
  }

  /** When the clock is set back between checks, the report for a month is
      invoked twice: checks at 2025-02-01 08:00, 2025-01-01 08:00 and
      2025-02-01 09:00 invoke it three times, the first and the last for the
      same month key */
  lemma ReportTwiceOnClockJump()
    ensures var t1, t2, t3 := DateTime(2025, 2, 1, 8, 0, 0), DateTime(2025, 1, 1, 8, 0, 0), DateTime(2025, 2, 1, 9, 0, 0);
      && AllValid([t1, t2, t3])
      && !NotAfter(t1, t2)
      && var inv := RunChecks(None, [t1, t2, t3]).invoked;
         |inv| == 3 && MonthKey(inv[0]) == MonthKey(inv[2])
  {
    var t1, t2, t3 := DateTime(2025, 2, 1, 8, 0, 0), DateTime(2025, 1, 1, 8, 0, 0), DateTime(2025, 2, 1, 9, 0, 0);
    assert t1.Valid() && t2.Valid() && t3.Valid();
    MonthKeySameMonth(t1, t2);
    MonthKeySameMonth(t2, t3);
    MonthKeySameMonth(t1, t3);
    RunChecksSnoc(None, [], t1);
    assert [t1] == [] + [t1];
    var r1 := RunChecks(None, [t1]);
    assert r1 == SchedulerRun(Some(MonthKey(t1)), [t1]);
    RunChecksSnoc(None, [t1], t2);
    assert [t1, t2] == [t1] + [t2];
    var r2 := RunChecks(None, [t1, t2]);
    assert r2 == SchedulerRun(Some(MonthKey(t2)), [t1, t2]);
    RunChecksSnoc(None, [t1, t2], t3);
    assert [t1, t2, t3] == [t1, t2] + [t3];
    assert RunChecks(None, [t1, t2, t3]).invoked == [t1, t2, t3];
  }

  /** The reports a run of invocations hands to the SMTP block: one for each
      invocation whose month file exists */
  function ReportsSent(files: Files, invoked: seq<DateTime>, sender: string, primary: string, smtpCc: Option<string>): seq<Report>
    requires AllValid(invoked)
    decreases |invoked|
  {
    if invoked == [] then []
    else
      var now := invoked[|invoked| - 1];
      ReportsSent(files, invoked[..|invoked| - 1], sender, primary, smtpCc)
      + (if FileFor(now) in files then [MonthlyReport(now, sender, primary, smtpCc)] else [])
  }

  lemma ReportsSentSnoc(files: Files, invoked: seq<DateTime>, now: DateTime, sender: string, primary: string, smtpCc: Option<string>)
    requires AllValid(invoked) && now.Valid()
    ensures AllValid(invoked + [now])
    ensures ReportsSent(files, invoked + [now], sender, primary, smtpCc)
      == ReportsSent(files, invoked, sender, primary, smtpCc)
         + if FileFor(now) in files then [MonthlyReport(now, sender, primary, smtpCc)] else []
  {
    assert (invoked + [now])[..|invoked|] == invoked;
  }

  /** The check at times[i] moves the marker as `NextLastReport` says and
      adds at most the report for that time to those sent */
  lemma SchedulerStep(files: Files, last: Option<string>, times: seq<DateTime>, i: nat,
                      sender: string, primary: string, smtpCc: Option<string>)
    requires AllValid(times) && i < |times|
    ensures AllValid(times[..i]) && AllValid(times[..i + 1])
    ensures var before, after := RunChecks(last, times[..i]), RunChecks(last, times[..i + 1]);
      && after.last == NextLastReport(before.last, times[i])
      && ReportsSent(files, after.invoked, sender, primary, smtpCc)
         == ReportsSent(files, before.invoked, sender, primary, smtpCc)
            + if ReportDue(before.last, times[i]) && FileFor(times[i]) in files
              then [MonthlyReport(times[i], sender, primary, smtpCc)] else []
  {
    var before := RunChecks(last, times[..i]);
    assert times[..i + 1] == times[..i] + [times[i]];
    RunChecksSnoc(last, times[..i], times[i]);
    ReportsSentSnoc(files, before.invoked, times[i], sender, primary, smtpCc);
  }

  /** Regrouping the reports sent so far; stated on its own, because left
      inside the loop of `RunScheduler` the step is expensive to find */
  lemma AppendAssoc(a: seq<Report>, b: seq<Report>, c: seq<Report>)
    ensures a + b + c == a + (b + c)
  {
  }

  /** The module-level state of logging_service.py: the configured SMTP
      addresses, the log directory, `_last_report_month`, and the report
      e-mails that reached the SMTP block */
  class LoggingService {
    const smtpUser: string
    const smtpRecipient: string
    const smtpCc: Option<string>
    var files: Files
    var lastReportMonth: Option<string>
    var reportsSent: seq<Report>

    constructor (user: string, recipient: string, cc: Option<string>, existing: Files)
      ensures smtpUser == user && smtpRecipient == recipient && smtpCc == cc
      ensures files == existing && lastReportMonth == None && reportsSent == []
    {
      smtpUser, smtpRecipient, smtpCc := user, recipient, cc;
      files := existing;
      lastReportMonth := None;
      reportsSent := [];
    }

    /** `log_to_excel(temp, hum)`: the file name comes from the first clock
        read and the row's date and time from the second. When opening or
        saving the workbook fails, the error propagates and nothing is written. */
    method LogToExcel(temp: real, hum: real, fileClock: DateTime, rowClock: DateTime, ioError: bool) returns (ok: bool)
      requires fileClock.Valid() && rowClock.Valid()
      modifies this`files
      ensures ok == !ioError
      ensures files == if ok then Logged(old(files), temp, hum, fileClock, rowClock) else old(files)
    {
      var filename := FileFor(fileClock);
      if ioError {
        return false;
      }
      var sheet: Sheet;
      if filename in files {
        sheet := files[filename];
      } else {
        sheet := [HeaderRow];
      }
      sheet := sheet + [DataRow(temp, hum, rowClock)];
      assert sheet == AppendRow(Lookup(files, filename), DataRow(temp, hum, rowClock));
      files := files[filename := sheet];
      ok := true;
    }

    /** `send_montly_report()`: returns without sending when this month's
        file does not exist; otherwise the report reaches the SMTP block */
    method SendMonthlyReport(now: DateTime) returns (sent: bool)
      requires now.Valid()
      modifies this`reportsSent
      ensures sent == (FileFor(now) in files)
      ensures reportsSent == old(reportsSent) + if sent then [MonthlyReport(now, smtpUser, smtpRecipient, smtpCc)] else []
    {
      var filename := FileFor(now);
      if filename !in files {
        return false;
      }
      reportsSent := reportsSent + [MonthlyReport(now, smtpUser, smtpRecipient, smtpCc)];
      sent := true;
    }

    /** `check_and_send_monthly_report()` at wall-clock time now */
    method CheckAndSendMonthlyReport(now: DateTime)
      requires now.Valid()
      modifies this`lastReportMonth, this`reportsSent
      ensures lastReportMonth == NextLastReport(old(lastReportMonth), now)
      ensures reportsSent == old(reportsSent)
        + if ReportDue(old(lastReportMonth), now) && FileFor(now) in files
          then [MonthlyReport(now, smtpUser, smtpRecipient, smtpCc)] else []
    {
      var currentMonth := MonthKey(now);
      if now.day == 1 && now.hour >= 7 && lastReportMonth != Some(currentMonth) {
        var _ := SendMonthlyReport(now);
        lastReportMonth := Some(currentMonth);
      }
    }

    /** `run_scheduler()`, one check per wake-up time in times */
    method RunScheduler(times: seq<DateTime>)
      requires AllValid(times)
      modifies this`lastReportMonth, this`reportsSent
      ensures var run := RunChecks(old(lastReportMonth), times);
        lastReportMonth == run.last
        && reportsSent == old(reportsSent) + ReportsSent(files, run.invoked, smtpUser, smtpRecipient, smtpCc)
    {
      var i := 0;
      while i < |times|
        invariant 0 <= i <= |times|
        invariant var run := RunChecks(old(lastReportMonth), times[..i]);
          lastReportMonth == run.last
          && reportsSent == old(reportsSent) + ReportsSent(files, run.invoked, smtpUser, smtpRecipient, smtpCc)
      {
        SchedulerStep(files, old(lastReportMonth), times, i, smtpUser, smtpRecipient, smtpCc);
        ghost var before := RunChecks(old(lastReportMonth), times[..i]);
        ghost var sent := ReportsSent(files, before.invoked, smtpUser, smtpRecipient, smtpCc);
        CheckAndSendMonthlyReport(times[i]);
        AppendAssoc(old(reportsSent), sent,
          if ReportDue(before.last, times[i]) && FileFor(times[i]) in files
          then [MonthlyReport(times[i], smtpUser, smtpRecipient, smtpCc)] else []);
        i := i + 1;
      }
      assert times[..i] == times;
    }
  }
}
