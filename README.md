# PiTherm-Monitor in Dafny

PiTherm-Monitor watches a server room from a Raspberry Pi. In a loop it reads a
DHT sensor and shows each valid reading on an LCD. It appends the reading to a
monthly spreadsheet and uploads it to ThingSpeak. The `Monitor` class
(src/pitherm/monitor.py) writes a row at most once per log interval; the older
script server_room_iot.py writes every reading and sleeps 30 seconds between
reads. A temperature at or above the high threshold lights an LED and sends one
e-mail alert per run of high readings. The script does the same for low
readings, but the `Monitor` class raises on a low reading at a `set_lcd` call
the hardware controller does not have, before any LED call or e-mail. A
background thread checks every minute whether to hand the current month's
spreadsheet to the mail step, from 07:00 on the first of the month; that step
calls the misspelled `msg.as_strings()`, so it always raises and the error is
caught. A setup script writes and validates the `.env` file.

This project models the decision-making and parsing code of that system and
proves what it promises:

- `Monitoring` (monitor.dfy): the `Monitor` class of `src/pitherm/monitor.py`. It
  is a class whose fields `process_reading` updates in place, and its `run` loop.
  The class is modelled with its defects: the low branch raises on the missing
  `set_lcd`, and some writes go to the misspelled `alert_send_*` attributes. Each
  call it makes (LCD, log write, upload, LED, e-mail, cleanup) is recorded as an
  `Effect`.
- `ServerRoom` (server_room.dfy): the older script `server_room_iot.py`. It runs
  the same latch over module globals, without the defects and without a log
  rate limit. It serves as the correct reference latch.
- `Logging` (logging_service.dfy): the monthly workbook append, the shared
  `temp_log_YYYY-MM.xlsx` naming and the report scheduler. Its module state is a
  `LoggingService` object. A workbook is its active sheet, a sequence of rows,
  and the directory is a map from file name to sheet.
- `Alert` (alert.dfy): the recipient list, the subject and the Cc header of an
  alert e-mail.
- `Setup` (setup.dfy): the `.env` template, the `.env` validator and the choice
  of requirements file.
- `Clock` (clock.dfy): the `strftime` stamps these use.
- `Builtins` (builtins.dfy): the Python string methods they use (`strip`,
  `split`, `join`, `isspace`).

The clocks (`time.time()`, `datetime.now()`), the sensor, and the success or
failure of each spreadsheet write are parameters of the model.

## Model

| member | source | states |
|---|---|---|
| `Monitoring.ReadingStep` | src/pitherm/monitor.py:21-55 | one `process_reading` call. The LCD is always updated first. Only "high" alerts are ever sent. Cleanup never happens inside it. The misspelled high attribute is never written. The low latch never becomes set. |
| `Monitoring.LogDue` | src/pitherm/monitor.py:28 | the rate limiter: a write is due when at least the log interval has passed since the marker. `LogWriteIffDue` and `OneRowPerInterval` state its effect. |
| `Monitoring.Thresholds` | src/pitherm/monitor.py:34-55 | the calls made before are kept. Only a reading at or below the low threshold and below the high one raises. The marker and the misspelled high attribute are not touched. `ThresholdsCounts`, `HighReading`, `InBandReading` and `LowReadingRaises` state each branch. |
| `Monitoring.Iterate` | src/pitherm/monitor.py:62-74 | one pass of the loop only adds calls, and it changes the directory only on a due write that succeeds |
| `Monitoring.RunTicks` | src/pitherm/monitor.py:60-76 | the passes of the loop in order over the ticks. It has no contract of its own: `HighRunAlertsOnce`, `HighRunLatches`, `LowNeverAlerts`, `NoCleanupInLoop`, `OneRowPerInterval` and `FailedReadChangesNothing` state what holds of it. |
| `Monitoring.LogWriteIffDue` | src/pitherm/monitor.py:26-30 | a row is written exactly when the log interval has elapsed and the write succeeds. The log marker moves to `now` exactly then, and is otherwise unchanged. |
| `Monitoring.LogFailureAborts` | src/pitherm/monitor.py:28-32 | a due write that raises leaves the state unchanged and skips the upload and the alert logic, after the LCD update only |
| `Monitoring.HighReading` | src/pitherm/monitor.py:34-42 | a high reading uploads, turns the LED on and latches high. It sends the high alert exactly when high was not latched, and then clears the low latch. |
| `Monitoring.InBandReading` | src/pitherm/monitor.py:52-55 | a reading strictly between the thresholds sends no alert, turns the LED off and clears the high latch. It writes `False` to the misspelled `alert_send_low` and leaves the low latch as it was. |
| `Monitoring.InBandRearmsHigh` | src/pitherm/monitor.py:34-55 | after an in-band reading, the next high reading that gets past the log write sends a high alert |
| `Monitoring.LowReadingRaises` | src/pitherm/monitor.py:43-51 | a low reading raises at `set_lcd` right after the upload. There is no LED call and no e-mail, and both latches stay unchanged. |
| `Monitoring.FailedReadChangesNothing` | src/pitherm/monitor.py:63-74 | a read with a `None` value, or a DHT `RuntimeError`, changes no field, makes no call and writes no row |
| `Monitoring.HighRunAlertsOnce` | src/pitherm/monitor.py:38-41 | a run of high readings never clears the high latch. It sends exactly one high alert when high was not latched and the run sets it, and none otherwise. |
| `Monitoring.HighRunLatches` | src/pitherm/monitor.py:38-41 | in a run of high readings, once one of them gets past the log write the high latch is set at the end of the run |
| `Monitoring.LowNeverAlerts` | src/pitherm/monitor.py:43-51 | over any run, every alert sent is a "high" one. The low latch never becomes set, and the misspelled high attribute is never written. |
| `Monitoring.ThresholdsCounts` | src/pitherm/monitor.py:34-55 | the alert logic sends one e-mail exactly when the reading is high and high was not latched, and writes no row |
| `Monitoring.ReadingCounts` | src/pitherm/monitor.py:21-55 | one reading writes one row exactly when one is due and the write succeeds. It sends one e-mail exactly when it gets past the log write with a high reading and high not latched. |
| `Monitoring.HighIterate` | src/pitherm/monitor.py:38-42 | an iteration on a high reading never clears the high latch. It adds one e-mail exactly when it sets the latch, and it sets the latch whenever the log write does not raise. |
| `Monitoring.LogIterate` | src/pitherm/monitor.py:26-30 | an iteration on a valid reading adds one row exactly when one is due and the write succeeds, and moves the marker to the reading's time exactly then |
| `Monitoring.NoCleanupInLoop` | src/pitherm/monitor.py:60-76 | no iteration of the loop calls `cleanup` |
| `Monitoring.OneRowPerInterval` | src/pitherm/monitor.py:26-30 | valid readings within one log interval of a due, successful write produce exactly one row, and the marker stays at that write's time |
| `Monitoring.Monitor.constructor` | src/pitherm/monitor.py:15-19 | both latches are false, the marker is 0 and the misspelled attributes do not exist |
| `Monitoring.Monitor.ProcessReading` | src/pitherm/monitor.py:21-55 | the new fields, the calls made and the exception raised are those of `ReadingStep`. The directory gains this month's row exactly when a write was due and did not raise, and is otherwise unchanged. |
| `Monitoring.Monitor.ApplyThresholds` | src/pitherm/monitor.py:34-55 | the fields, the calls and the exception left by the alert logic are those of `Thresholds`, whose counts `ThresholdsCounts` states |
| `Monitoring.Monitor.Iteration` | src/pitherm/monitor.py:62-74 | one pass of the loop leaves the fields, the calls and the directory as `Iterate` says. A failed read changes nothing. A valid one is one `process_reading`, and its exception is swallowed with its effects kept. |
| `Monitoring.Monitor.Run` | src/pitherm/monitor.py:57-82 | the calls made are those of the loop's iterations followed by exactly one `cleanup`, which comes last. Fields and directory match the iterations. |
| `ServerRoom.LatchStep` | server_room_iot.py:35-57 | every valid reading is shown, logged and uploaded (no rate limit). Then the LED is set, and at most one alert follows, last. |
| `ServerRoom.LatchRun` | server_room_iot.py:40-57 | the globals after a sequence of valid readings. `LatchRunExclusive` and `LatchAfterReading` state what holds of it. |
| `ServerRoom.ScriptStep` | server_room_iot.py:29-61 | one pass of the loop only adds calls, and the loop is left only when a log write fails |
| `ServerRoom.ScriptRun` | server_room_iot.py:26-62 | the passes of the loop in order, with every tick after the loop has been left ignored. `ScriptFollowsLatch` and `StoppedStays` state what holds of it. |
| `ServerRoom.Latch` | server_room_iot.py:40-57 | the imperative latch code leaves the globals and makes the calls that `LatchStep` gives once the reading has been shown, logged and uploaded |
| `ServerRoom.StepKeepsExclusive` | server_room_iot.py:40-57 | the high and low latches are never set together after a step |
| `ServerRoom.LatchRunExclusive` | server_room_iot.py:40-57 | nor after any run of readings |
| `ServerRoom.LatchAfterReading` | server_room_iot.py:40-57 | after reading `t`, high is latched iff `t >= HIGH`, and low is latched iff `t <= LOW` and not `t >= HIGH`. The LED is on iff `t >= HIGH` or `t <= LOW`. |
| `ServerRoom.StepAlerts` | server_room_iot.py:43-53 | the high alert is sent iff the reading is high and high was not latched. The low alert is sent iff the reading is low, not high, and low was not latched. |
| `ServerRoom.HighAlertOnRisingEdge` | server_room_iot.py:43-46 | reading `i` sends a high alert iff it is high and it is the first reading or the previous one was not high |
| `ServerRoom.LowAlertOnFallingEdge` | server_room_iot.py:47-53 | reading `i` sends a low alert iff it is low and not high, and it is the first reading or the previous one was not low |
| `ServerRoom.StepLogsOnce` | server_room_iot.py:37-38 | each valid reading writes exactly one row |
| `ServerRoom.FailedReadChangesNothing` | server_room_iot.py:30-61 | a read with a `None` value, or a DHT `RuntimeError`, leaves the latches, the LED, the calls and the directory unchanged |
| `ServerRoom.LogFailureEndsLoop` | server_room_iot.py:35-37 | a `log_to_excel` that raises on a valid reading ends the loop after the LCD update: no upload, no LED change, no alert, and the latches are kept |
| `ServerRoom.MonitorAgreesAboveLow` | src/pitherm/monitor.py:34-55 | above the low threshold, the Monitor matches the script's alerts, high latch and LED. It also matches the low latch, except that an in-band reading does not clear it. |
| `ServerRoom.LowReadingDiverges` | src/pitherm/monitor.py:43-51 | at 18.0 degrees from a fresh start, the script sends a low alert and the Monitor does not |
| `ServerRoom.StoppedStays` | server_room_iot.py:26-68 | once a `log_to_excel` exception has left the loop, later readings change nothing |
| `ServerRoom.ScriptFollowsLatch` | server_room_iot.py:28-61 | while the loop runs, the globals are the latch run over the valid readings, and exactly one row was written per valid reading |
| `ServerRoom.LoopBody` | server_room_iot.py:29-61 | one imperative pass of the loop body does what `ScriptStep` says |
| `ServerRoom.MainLoop` | server_room_iot.py:26-68 | the loop's calls, followed by the `finally` cleanup. The directory is left as the iterations wrote it. |
| `Clock.MonthKey` | src/pitherm/logging_service.py:29 | `%Y-%m` is 7 characters with a dash at index 4 |
| `Clock.MonthKeyRoundTrip` | src/pitherm/logging_service.py:29 | the year and month read back from the key are the clock's |
| `Clock.MonthKeySameMonth` | src/pitherm/logging_service.py:54-55 | two clocks have the same key iff they are in the same month of the same year |
| `Clock.DateStamp` | src/pitherm/logging_service.py:45 | `%Y-%m-%d` is 10 characters and begins with the month key followed by a dash |
| `Clock.DateStampRoundTrip` | src/pitherm/logging_service.py:45 | `%Y-%m-%d` reads back to the clock's year, month and day |
| `Clock.TimeStamp` | src/pitherm/logging_service.py:46 | `%H:%M:%S` is 8 characters with colons at indices 2 and 5. `TimeStampRoundTrip` states that it reads back. |
| `Clock.TimeStampRoundTrip` | src/pitherm/logging_service.py:46 | `%H:%M:%S` reads back to the clock's hour, minute and second |
| `Logging.FileFor` | src/pitherm/logging_service.py:29-30 | the workbook name is `temp_log_` + month key + `.xlsx` |
| `Logging.LogFileName` | src/pitherm/logging_service.py:30 | the name `temp_log_` + month key + `.xlsx`. `FileFor` and `FileForSameMonth` state what holds of it. |
| `Logging.DataRow` | src/pitherm/logging_service.py:43-49 | the row `[date, time, temp, hum]` of the second clock read. `LoggedRowInFileMonth` states that it is the last row written and what its date says. |
| `Logging.FileForSameMonth` | src/pitherm/logging_service.py:54-55 | the writer and the report name the same file for two clocks iff the clocks are in the same month |
| `Logging.AppendRow` | src/pitherm/logging_service.py:32-49 | a missing workbook becomes the header and the row. An existing one keeps every row and gains exactly one at the end. |
| `Logging.AppendRowsOrder` | src/pitherm/logging_service.py:32-49 | a sequence of appends leaves the earlier rows, or the header, followed by the new rows in order |
| `Logging.Logged` | src/pitherm/logging_service.py:27-50 | only the current month's workbook changes, and it becomes `AppendRow` of the row `[date, time, temp, hum]`. Every other file is unchanged. |
| `Logging.LoggedRowInFileMonth` | src/pitherm/logging_service.py:43-49 | the last row of the written file is `[YYYY-MM-DD, HH:MM:SS, temp, hum]` of the row clock, with the readings unchanged. That date is in the file's month iff the two clock reads are in the same month. |
| `Logging.MonthBoundaryRow` | src/pitherm/logging_service.py:29-45 | a file chosen at 2025-01-31 23:59:59 can receive a row stamped 2025-02-01 |
| `Logging.MonthlyReport` | src/pitherm/logging_service.py:52-72 | the report attaches this month's file, has subject `Monthly Temp Report - YYYY-MM`, goes to the primary plus the Cc list, and has a Cc header iff the list is non-empty |
| `Logging.ReportDue` | src/pitherm/logging_service.py:99 | the guard: the first of the month, from 07:00 on, with a marker other than the current month key |
| `Logging.RunChecks` | src/pitherm/logging_service.py:99-106 | the checks in order: every invocation is at one of the check times and is a valid date. `RunChecksInvariant`, `MarksLatestAlways` and `ReportTwiceOnClockJump` state the rest. |
| `Logging.NextLastReport` | src/pitherm/logging_service.py:99-101 | a due check sets the last-report month to the current key. Any other check, including every one not on day 1 or before 07:00, leaves it unchanged. |
| `Logging.RunChecksInvariant` | src/pitherm/logging_service.py:99-101 | on a clock that never runs backwards, the invocations fall in strictly increasing months, and the last one is the remembered month |
| `Logging.ReportAtMostOncePerMonth` | src/pitherm/logging_service.py:99-101 | on such a clock, no two report invocations share a month key |
| `Logging.MarksLatestAlways` | src/pitherm/logging_service.py:96-101 | on any clock, even one that is set back, the marker names the month of the latest invocation, or is `None` before any, so two consecutive invocations never share a month key |
| `Logging.ReportTwiceOnClockJump` | src/pitherm/logging_service.py:96-101 | checks at 2025-02-01 08:00, 2025-01-01 08:00 and 2025-02-01 09:00 (a clock set back between the first two) invoke the report three times, the first and the last for the same month key |
| `Logging.LoggingService.constructor` | src/pitherm/logging_service.py:20 | `_last_report_month` starts as `None` and no report has been sent |
| `Logging.LoggingService.LogToExcel` | src/pitherm/logging_service.py:27-50 | a successful call applies `Logged`, and a raising one leaves the directory unchanged |
| `Logging.LoggingService.SendMonthlyReport` | src/pitherm/logging_service.py:52-59 | it returns without sending iff this month's file is missing. Otherwise exactly this month's report reaches the SMTP step. |
| `Logging.LoggingService.CheckAndSendMonthlyReport` | src/pitherm/logging_service.py:93-101 | the last-report month becomes `NextLastReport`. A report is sent iff the check is due and the file exists. The month is recorded whether or not the file existed. |
| `Logging.LoggingService.RunScheduler` | src/pitherm/logging_service.py:103-106 | a sequence of checks leaves the month of the run and sends one report per invocation whose file exists |
| `Alert.CcList` | src/pitherm/alert.py:14 | an absent or empty `SMTP_CC` gives no entries. Otherwise there is one entry per comma-separated segment, in order, with commas + 1 entries and empty segments kept. Each entry is its segment stripped. |
| `Alert.BuildRecipients` | src/pitherm/alert.py:13-15 | the recipients are the primary followed by the Cc list, so there is one more recipient than Cc entries |
| `Alert.Subject` | src/pitherm/alert.py:23 | "ALERT: High temperature" iff the type is "high", otherwise "ALERT: Low temperature" |
| `Alert.CcHeader` | src/pitherm/alert.py:36-37 | the header is set iff the Cc list is non-empty, and is then its entries joined by ", " |
| `Alert.AlertMessage` | src/pitherm/alert.py:17-38 | From, To, envelope, Cc presence and subject of the alert e-mail |
| `Alert.CcHeaderRoundTrip` | src/pitherm/alert.py:14-37 | parsing a written Cc header as `SMTP_CC` gives the same list back, for comma-free, stripped entries |
| `Builtins.IsSpace` | src/pitherm/alert.py:14 | the 29 characters `str.isspace` accepts, which `strip` removes |
| `Builtins.Strip` | src/pitherm/alert.py:14 | the result is trimmed, is the part of the input after its leading whitespace, and is followed in the input by whitespace only |
| `Builtins.Join` | src/pitherm/alert.py:37 | `sep.join(parts)`. `SplitJoin` states that splitting undoes it. |
| `Builtins.Split` | src/pitherm/alert.py:14 | one part per separator plus one, none of them holding the separator, and joining them with the separator gives the input back |
| `Builtins.SplitJoin` | src/pitherm/alert.py:14-37 | splitting a join undoes it when no part holds the separator |
| `Setup.TemplateLines` | setup.py:54-59 | one line `KEY=\n` per template key, in order |
| `Setup.FileLines` | setup.py:65-66 | iterating the file yields lines that concatenate back to it, each ending at its first newline |
| `Setup.FileLinesJoin` | setup.py:65-66 | a file written as newline-terminated lines is read back as the same lines |
| `Setup.CreateEnvFile` | setup.py:48-59 | an existing file is kept. Otherwise the file written reads back as the template's five lines. |
| `Setup.ParseEnvLine` | setup.py:66-69 | a line yields an entry iff it contains '='. The key has no '=' in it and the value is stripped. |
| `Setup.ParseEnvLineShape` | setup.py:68-69 | the key is what precedes the first '=' of the stripped line, and the value is the rest after it, stripped, so the value may hold '=' |
| `Setup.ReadEnvValues` | setup.py:64-69 | the loop builds the map of the parsed lines, with later lines overriding earlier ones |
| `Setup.Collect` | setup.py:64-69 | the dictionary filled from the parsed lines in order. `KeysFromEntries` and `LastDefinitionWins` state which keys it holds and which value wins. |
| `Setup.EnvValues` | setup.py:64-69 | `values` after reading the lines of `.env`: `Collect` of the parsed lines |
| `Setup.EnvValid` | setup.py:71-76 | every required key is present with a non-empty value, the test `not values.get(key)` fails for each |
| `Setup.ValidateEnv` | setup.py:61-76 | the result is true iff every required key maps to a non-empty value |
| `Setup.KeysFromEntries` | setup.py:67-69 | a key is in the map iff some line with '=' defines it |
| `Setup.LastDefinitionWins` | setup.py:69 | a key takes the value of the last line that defines it |
| `Setup.EnvLineRoundTrip` | setup.py:68-69 | `KEY=value\n` parses to that key and value |
| `Setup.SpacedKeyKeepsSpace` | setup.py:68-69 | `KEY = value\n` parses to key `KEY ` (trailing space kept) and value `value`, including the empty value of `KEY = \n` |
| `Setup.TemplateParses` | setup.py:54-59 | every template line parses to its key with the empty value |
| `Setup.TemplateFirstKeyEmpty` | setup.py:54-74 | the first key of a template without repeats reads as empty |
| `Setup.TemplateFailsValidation` | setup.py:54-74 | validating the freshly written template fails, because `THINGSPEAK_API_KEY` is present but empty |
| `Setup.InstallRequirements` | setup.py:33-42 | "Linux" selects requirements-pi.txt and "Windows" requirements-dev.txt. Any other system is an error. |

## Left out

- Sending mail, the ThingSpeak upload and spreadsheet file I/O are left out. A workbook is its sequence of rows, a write that raises is a boolean input, and sending mail is recorded as an effect or a report value. Fonts, the sheet title and the attachment bytes are not modelled.
- Logging.LoggingService.SendMonthlyReport: the SMTP block is not modelled. `msg.as_strings()` at src/pitherm/logging_service.py:87 is a misspelling, so in the source every send raises and the `except` swallows it. `reportsSent` records the reports that reach that block, not mail actually delivered.
- Logging.LoggingService.CheckAndSendMonthlyReport: `send_montly_report` reads the clock a second time (src/pitherm/logging_service.py:54), and the model uses the check's clock for both reads. The guard at line 99 passes only on day 1 from 07:00, so the two reads name different months only if the clock jumps between them. Such a jump is not captured.
- Logging.ReportAtMostOncePerMonth: holds only on a clock that never runs backwards. `datetime.now()` can be set back, for example by a time sync on a Pi without a real-time clock, and then a month's report is invoked again. `Logging.ReportTwiceOnClockJump` shows three invocations, the first and the last for the same month key. `Logging.MarksLatestAlways` states what holds on every clock: consecutive invocations never share a month key.
- Logging.RunChecksInvariant: likewise assumes a clock that never runs backwards. On any clock only the marker property of `Logging.MarksLatestAlways` holds.
- The `_excel_lock`, the daemon scheduler thread and `time.sleep` are left out. The model is sequential and takes the check times as input.
- Hardware drivers are left out. The Monitor runs against the development-mode controller, whose LCD and LED calls only get recorded. The real `GPIO.ouput` call, a misspelling of `GPIO.output` that would raise, is driver behaviour and is not part of this model.
- Temperatures are `real`. Console output, and the one-decimal formatting in prints and e-mail bodies, are left out. The e-mail body is not modelled.
- `LOG_INTERVAL_SECONDS` and `READ_INTERVAL_SECONDS` are imported from config.py but never defined there, so the log interval is a parameter (`Monitoring.Config`) and the sleep is left out. The Monitor takes the thresholds as parameters. The script uses config.py's values 25.0 and 19.0.
- Monitoring.Monitor.Run: `KeyboardInterrupt` can only end the loop between iterations, after the finite sequence of ticks. An interrupt inside an iteration is not modelled.
- ServerRoom.MainLoop: `start_scheduler()` at server_room_iot.py:21 is not called by the model. The scheduler is modelled on its own.
- Setup: process management (venv, pip, the systemd unit, `sys.exit`) and the file-existence checks are left out. The existing `.env` file is an `Option` input. The file is read with `\n` line ends only; universal-newline translation of `\r\n` is left out.
- `build_recipients` is duplicated verbatim at src/pitherm/logging_service.py:23-25. The one model, `Alert.BuildRecipients`, covers both copies.
- Dates are limited to years 1000-9999, so `%Y` is always four digits.
- PiTherm.py, dashboard.py and config.py's environment loading are not part of this model.

## Findings

| source | as written | input that shows it | evidently intended | confidence | as-written member | corrected member |
|---|---|---|---|---|---|---|
| src/pitherm/monitor.py:43-51 | the low branch calls `self.hardware.set_lcd(True)`, which the hardware controller does not define, and stores the latches in the misspelled `alert_send_low`/`alert_send_high` | a reading of 18.0 (at or below 19.0): the call raises before the e-mail, so the LED stays as it was, no low alert is ever sent and `alert_sent_low` never becomes true | turn the LED on, send one low alert per run of low readings, latch low and clear high, as server_room_iot.py:47-53 does | high; not executed | `ServerRoom.LowReadingDiverges` | `ServerRoom.LowAlertOnFallingEdge` |
