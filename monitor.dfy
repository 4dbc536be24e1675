/** The monitoring loop of src/pitherm/monitor.py: the `Monitor` class with
    its alert latch and log rate limiter, run against the development-mode
    hardware controller, whose LCD and LED calls do nothing and are only
    recorded here. `time.time()`, the sensor and the two `datetime.now()`
    reads inside `log_to_excel` are inputs. */
module Monitoring {
  import opened Builtins
  import opened Clock
  import Logging

  /** TEMP_THRESHOLD_HIGH, TEMP_THRESHOLD_LOW (25.0 and 19.0 in config.py) and
      LOG_INTERVAL_SECONDS (imported but never defined there) */
  datatype Config = Config(high: real, low: real, logInterval: real)

  /** A call the monitor makes on a collaborator, in the order made */
  datatype Effect =
    | LcdUpdate(temp: real, hum: real)                  // hardware.update_lcd
    | LogWrite(temp: real, hum: real)                   // log_to_excel, returned normally
    | Upload(temp: real, hum: real)                     // send_to_thingspeak
    | Led(on: bool)                                     // hardware.set_led
    | Email(alertType: string, temp: real, hum: real)   // send_email_alert
    | Cleanup                                           // hardware.cleanup

  /** The exception that leaves `process_reading` */
  datatype Fault =
    | LogFailed   // log_to_excel raised (the workbook could not be opened or saved)
    | NoSetLcd    // the controller has no `set_lcd` attribute

  /** The fields of a Monitor. `alertSendHigh` and `alertSendLow` are the
      misspelled attributes that `process_reading` assigns; None while the
      attribute does not exist. */
  datatype MonitorState = MonitorState(
    alertSentHigh: bool, alertSentLow: bool, lastLogTime: real,
    alertSendHigh: Option<bool>, alertSendLow: Option<bool>)

  /** A Monitor right after `__init__` */
  const Initial := MonitorState(false, false, 0.0, None, None)

  /** What one call of `process_reading` leaves behind */
  datatype Step = Step(state: MonitorState, effects: seq<Effect>, fault: Option<Fault>)

  /** The rate limiter: at least LOG_INTERVAL_SECONDS since the last write */
  predicate LogDue(cfg: Config, s: MonitorState, now: real) {
    now - s.lastLogTime >= cfg.logInterval
  }

  /** `process_reading(temperature, humidity)` at `time.time() == now`, where
      `logFails` says whether `log_to_excel` would raise */
  function ReadingStep(cfg: Config, s: MonitorState, temp: real, hum: real, now: real, logFails: bool): (r: Step)
    // the display is always updated first
    ensures r.effects != [] && r.effects[0] == LcdUpdate(temp, hum)
    // no low alert is ever sent, `cleanup` is left to `run`, and the misspelled high attribute is never assigned
    ensures forall e <- r.effects :: e.Email? ==> e.alertType == "high"
    ensures Cleanup !in r.effects
    ensures r.state.alertSendHigh == s.alertSendHigh
    ensures r.state.alertSentLow ==> s.alertSentLow
  {
    var shown := [LcdUpdate(temp, hum)];
    if LogDue(cfg, s, now) && logFails then Step(s, shown, Some(LogFailed))
    else
      var logged := LogDue(cfg, s, now);
      var s1 := if logged then s.(lastLogTime := now) else s;
      var written := if logged then shown + [LogWrite(temp, hum)] else shown;
      Thresholds(cfg, s1, temp, hum, written + [Upload(temp, hum)])
  }

  /** Lines 34-55 of `process_reading`: the LED, the alert and the latches,
      once the reading has been shown, logged when due and uploaded; `calls`
      are the calls made before */
  function Thresholds(cfg: Config, s: MonitorState, temp: real, hum: real, calls: seq<Effect>): (r: Step)
    // the calls made before are kept; only a low reading raises (at `set_lcd`)
    ensures calls <= r.effects
    ensures r.fault.Some? <==> temp < cfg.high && temp <= cfg.low
    // the log marker and the misspelled high attribute are not touched
    ensures r.state.lastLogTime == s.lastLogTime && r.state.alertSendHigh == s.alertSendHigh
  {
    if temp >= cfg.high then
      if !s.alertSentHigh then
        Step(s.(alertSentHigh := true, alertSentLow := false), calls + [Led(true)] + [Email("high", temp, hum)], None)
      else
        Step(s, calls + [Led(true)], None)
    else if temp <= cfg.low then
      Step(s, calls, Some(NoSetLcd))
    else
      Step(s.(alertSentHigh := false, alertSendLow := Some(false)), calls + [Led(false)], None)
  }

  /** A row is written exactly when one is due and the write succeeds, and
      only then does the log marker move */
  lemma LogWriteIffDue(cfg: Config, s: MonitorState, temp: real, hum: real, now: real, logFails: bool)
    ensures var r := ReadingStep(cfg, s, temp, hum, now, logFails);
      && (LogWrite(temp, hum) in r.effects <==> LogDue(cfg, s, now) && !logFails)
      && r.state.lastLogTime == if LogDue(cfg, s, now) && !logFails then now else s.lastLogTime
  {
  }

  /** A failed write aborts the reading: no upload, no alert logic, nothing changed */
  lemma LogFailureAborts(cfg: Config, s: MonitorState, temp: real, hum: real, now: real)
    requires LogDue(cfg, s, now)
    ensures ReadingStep(cfg, s, temp, hum, now, true) == Step(s, [LcdUpdate(temp, hum)], Some(LogFailed))
  {
  }

  /** A high reading lights the LED and latches high; it sends the high alert
      exactly when none was latched */
  lemma HighReading(cfg: Config, s: MonitorState, temp: real, hum: real, now: real, logFails: bool)
    requires temp >= cfg.high && !(LogDue(cfg, s, now) && logFails)
    ensures var r := ReadingStep(cfg, s, temp, hum, now, logFails);
      && r.fault == None && Upload(temp, hum) in r.effects && Led(true) in r.effects
      && r.state.alertSentHigh
      && (!s.alertSentHigh ==> !r.state.alertSentLow)
      && (Email("high", temp, hum) in r.effects <==> !s.alertSentHigh)
  {
  }

  /** A reading strictly between the thresholds turns the LED off and clears
      the high latch, but assigns the misspelled low attribute instead of the
      low latch */
  lemma InBandReading(cfg: Config, s: MonitorState, temp: real, hum: real, now: real, logFails: bool)
    requires cfg.low < temp < cfg.high && !(LogDue(cfg, s, now) && logFails)
    ensures var r := ReadingStep(cfg, s, temp, hum, now, logFails);
      && r.fault == None && r.effects[|r.effects| - 1] == Led(false)
      && !r.state.alertSentHigh && r.state.alertSentLow == s.alertSentLow
      && r.state.alertSendLow == Some(false)
      && forall e <- r.effects :: !e.Email?
  {
  }

  /** A low reading raises at the missing `set_lcd`, after the upload and
      before any LED change or low alert */
  lemma LowReadingRaises(cfg: Config, s: MonitorState, temp: real, hum: real, now: real, logFails: bool)
    requires temp < cfg.high && temp <= cfg.low && !(LogDue(cfg, s, now) && logFails)
    ensures var r := ReadingStep(cfg, s, temp, hum, now, logFails);
      && r.fault == Some(NoSetLcd) && r.effects[|r.effects| - 1] == Upload(temp, hum)
      && r.state.alertSentHigh == s.alertSentHigh && r.state.alertSentLow == s.alertSentLow
      && forall e <- r.effects :: !e.Email? && !e.Led?
  {
  }

  /** What `hardware.read_sensor()` gave: two values, either possibly None,
      or a RuntimeError from the DHT driver */
  datatype SensorRead = Values(temp: Option<real>, hum: Option<real>) | DhtError

  /** One iteration of the `while True` loop: the sensor result and the
      environment `process_reading` would see */
  datatype Tick = Tick(read: SensorRead, now: real, fileClock: DateTime, rowClock: DateTime, logFails: bool)

  predicate TicksValid(ticks: seq<Tick>) {
    forall i :: 0 <= i < |ticks| ==> ticks[i].fileClock.Valid() && ticks[i].rowClock.Valid()
  }

  /** The state, effects and log directory after a run of iterations */
  datatype Progress = Progress(state: MonitorState, effects: seq<Effect>, files: Logging.Files)

  /** One iteration of the loop in `run`: a read with a None value or a
      DHT error is skipped; an exception out of `process_reading` is caught
      and the loop goes on, keeping whatever the reading changed before it
      raised */
  function Iterate(cfg: Config, prev: Progress, t: Tick): (next: Progress)
    requires t.fileClock.Valid() && t.rowClock.Valid()
    // calls are only ever added, and the directory changes only on a due write that succeeds
    ensures prev.effects <= next.effects
    ensures next.files != prev.files ==> LogDue(cfg, prev.state, t.now) && !t.logFails
  {
    if t.read.Values? && t.read.temp.Some? && t.read.hum.Some? then
      var temp, hum := t.read.temp.value, t.read.hum.value;
      var r := ReadingStep(cfg, prev.state, temp, hum, t.now, t.logFails);
      var files' := if LogDue(cfg, prev.state, t.now) && !t.logFails
                    then Logging.Logged(prev.files, temp, hum, t.fileClock, t.rowClock) else prev.files;
      Progress(r.state, prev.effects + r.effects, files')
    else prev
  }

  /** The iterations of `run` over a sequence of ticks */
  function RunTicks(cfg: Config, s: MonitorState, files: Logging.Files, ticks: seq<Tick>): Progress
    requires TicksValid(ticks)
    decreases |ticks|
  {
    if ticks == [] then Progress(s, [], files)
    else Iterate(cfg, RunTicks(cfg, s, files, ticks[..|ticks| - 1]), ticks[|ticks| - 1])
  }

  lemma RunTicksSnoc(cfg: Config, s: MonitorState, files: Logging.Files, ticks: seq<Tick>, t: Tick)
    requires TicksValid(ticks) && t.fileClock.Valid() && t.rowClock.Valid()
    ensures TicksValid(ticks + [t])
    ensures RunTicks(cfg, s, files, ticks + [t]) == Iterate(cfg, RunTicks(cfg, s, files, ticks), t)
  {
    assert (ticks + [t])[..|ticks|] == ticks;
  }

  /** A failed read, with a None value or a DHT error, changes nothing */
  lemma FailedReadChangesNothing(cfg: Config, s: MonitorState, files: Logging.Files, ticks: seq<Tick>, t: Tick)
    requires TicksValid(ticks) && t.fileClock.Valid() && t.rowClock.Valid()
    requires t.read.DhtError? || t.read.temp.None? || t.read.hum.None?
    ensures TicksValid(ticks + [t])
    ensures RunTicks(cfg, s, files, ticks + [t]) == RunTicks(cfg, s, files, ticks)
  {
    RunTicksSnoc(cfg, s, files, ticks, t);
  }

  function CountEmails(effects: seq<Effect>): nat
    decreases |effects|
  {
    if effects == [] then 0
    else CountEmails(effects[..|effects| - 1]) + (if effects[|effects| - 1].Email? then 1 else 0)
  }

  function CountLogWrites(effects: seq<Effect>): nat
    decreases |effects|
  {
    if effects == [] then 0
    else CountLogWrites(effects[..|effects| - 1]) + (if effects[|effects| - 1].LogWrite? then 1 else 0)
  }

  lemma {:induction false} CountsAppend(a: seq<Effect>, b: seq<Effect>)
    ensures CountEmails(a + b) == CountEmails(a) + CountEmails(b)
    ensures CountLogWrites(a + b) == CountLogWrites(a) + CountLogWrites(b)
    decreases |b|
  {
    if b != [] {
      var b' := b[..|b| - 1];
      assert (a + b)[..|a + b| - 1] == a + b';
      CountsAppend(a, b');
    } else {
      assert a + b == a;
    }
  }

  lemma CountsSnoc(a: seq<Effect>, x: Effect)
    ensures CountEmails(a + [x]) == CountEmails(a) + (if x.Email? then 1 else 0)
    ensures CountLogWrites(a + [x]) == CountLogWrites(a) + (if x.LogWrite? then 1 else 0)
  {
    assert (a + [x])[..|a|] == a;
  }

  /** The alert logic sends one e-mail exactly when the reading is high and
      no high alert is latched, and writes no row */
  lemma ThresholdsCounts(cfg: Config, s: MonitorState, temp: real, hum: real, calls: seq<Effect>)
    ensures var r := Thresholds(cfg, s, temp, hum, calls);
      && CountEmails(r.effects) == CountEmails(calls) + (if temp >= cfg.high && !s.alertSentHigh then 1 else 0)
      && CountLogWrites(r.effects) == CountLogWrites(calls)
  {
    if temp >= cfg.high {
      CountsSnoc(calls, Led(true));
      CountsSnoc(calls + [Led(true)], Email("high", temp, hum));
    } else if temp > cfg.low {
      CountsSnoc(calls, Led(false));
    }
  }

  /** One reading writes one row exactly when one is due and the write
      succeeds, and sends one e-mail exactly when it gets past the log write
      with a high temperature and no high alert latched */
  lemma ReadingCounts(cfg: Config, s: MonitorState, temp: real, hum: real, now: real, logFails: bool)
    ensures var r := ReadingStep(cfg, s, temp, hum, now, logFails);
      && CountLogWrites(r.effects) == (if LogDue(cfg, s, now) && !logFails then 1 else 0)
      && CountEmails(r.effects) ==
           (if !(LogDue(cfg, s, now) && logFails) && temp >= cfg.high && !s.alertSentHigh then 1 else 0)
  {
    var shown := [LcdUpdate(temp, hum)];
    assert shown == [] + shown;
    CountsSnoc([], LcdUpdate(temp, hum));
    if !(LogDue(cfg, s, now) && logFails) {
      var logged := LogDue(cfg, s, now);
      var s1 := if logged then s.(lastLogTime := now) else s;
      var written := if logged then shown + [LogWrite(temp, hum)] else shown;
      if logged {
        CountsSnoc(shown, LogWrite(temp, hum));
      }
      CountsSnoc(written, Upload(temp, hum));
      ThresholdsCounts(cfg, s1, temp, hum, written + [Upload(temp, hum)]);
    }
  }

  /** One iteration on a high reading, counted */
  lemma HighIterate(cfg: Config, prev: Progress, t: Tick)
    requires t.fileClock.Valid() && t.rowClock.Valid()
    requires t.read.Values? && t.read.temp.Some? && t.read.hum.Some? && t.read.temp.value >= cfg.high
    ensures var next := Iterate(cfg, prev, t);
      && (prev.state.alertSentHigh ==> next.state.alertSentHigh)
      && CountEmails(next.effects) == CountEmails(prev.effects) + (if !prev.state.alertSentHigh && next.state.alertSentHigh then 1 else 0)
      && (!t.logFails ==> next.state.alertSentHigh)
  {
    var r := ReadingStep(cfg, prev.state, t.read.temp.value, t.read.hum.value, t.now, t.logFails);
    CountsAppend(prev.effects, r.effects);
    ReadingCounts(cfg, prev.state, t.read.temp.value, t.read.hum.value, t.now, t.logFails);
  }

  /** One iteration on a valid reading writes a row exactly when one is due
      and the write succeeds, and then moves the marker to its time */
  lemma LogIterate(cfg: Config, prev: Progress, t: Tick)
    requires t.fileClock.Valid() && t.rowClock.Valid()
    requires t.read.Values? && t.read.temp.Some? && t.read.hum.Some?
    ensures var next, written := Iterate(cfg, prev, t), LogDue(cfg, prev.state, t.now) && !t.logFails;
      && CountLogWrites(next.effects) == CountLogWrites(prev.effects) + (if written then 1 else 0)
      && next.state.lastLogTime == if written then t.now else prev.state.lastLogTime
  {
    var r := ReadingStep(cfg, prev.state, t.read.temp.value, t.read.hum.value, t.now, t.logFails);
    CountsAppend(prev.effects, r.effects);
    ReadingCounts(cfg, prev.state, t.read.temp.value, t.read.hum.value, t.now, t.logFails);
  }

  /** A run of consecutive high readings sends exactly one high alert when
      none was latched and the latch gets set, and none when one was
      already latched */
  lemma {:induction false} HighRunAlertsOnce(cfg: Config, s: MonitorState, files: Logging.Files, ticks: seq<Tick>)
    requires TicksValid(ticks)
    requires forall i :: 0 <= i < |ticks| ==>
      ticks[i].read.Values? && ticks[i].read.temp.Some? && ticks[i].read.hum.Some? && ticks[i].read.temp.value >= cfg.high
    ensures var r := RunTicks(cfg, s, files, ticks);
      && (s.alertSentHigh ==> r.state.alertSentHigh)
      && CountEmails(r.effects) == (if !s.alertSentHigh && r.state.alertSentHigh then 1 else 0)
    decreases |ticks|
  {
    if ticks != [] {
      var init := ticks[..|ticks| - 1];
      var t := ticks[|ticks| - 1];
      assert ticks == init + [t];
      HighRunAlertsOnce(cfg, s, files, init);
      RunTicksSnoc(cfg, s, files, init, t);
      HighIterate(cfg, RunTicks(cfg, s, files, init), t);
    }
  }

  /** In a run of consecutive high readings, one that gets past the log
      write sets the high latch, and it stays set to the end of the run */
  lemma {:induction false} HighRunLatches(cfg: Config, s: MonitorState, files: Logging.Files, ticks: seq<Tick>, i: nat)
    requires TicksValid(ticks)
    requires forall k :: 0 <= k < |ticks| ==>
      ticks[k].read.Values? && ticks[k].read.temp.Some? && ticks[k].read.hum.Some? && ticks[k].read.temp.value >= cfg.high
    requires i < |ticks| && !ticks[i].logFails
    ensures RunTicks(cfg, s, files, ticks).state.alertSentHigh
    decreases |ticks|
  {
    var init := ticks[..|ticks| - 1];
    var t := ticks[|ticks| - 1];
    assert ticks == init + [t];
    RunTicksSnoc(cfg, s, files, init, t);
    HighIterate(cfg, RunTicks(cfg, s, files, init), t);
    if i < |init| {
      assert forall k :: 0 <= k < |init| ==> init[k] == ticks[k];
      HighRunLatches(cfg, s, files, init, i);
    }
  }

  /** No low alert is ever sent and `alert_sent_low` never becomes True;
      the misspelled `alert_send_high` is never assigned */
  lemma {:induction false} LowNeverAlerts(cfg: Config, s: MonitorState, files: Logging.Files, ticks: seq<Tick>)
    requires TicksValid(ticks)
    ensures var r := RunTicks(cfg, s, files, ticks);
      && (forall e <- r.effects :: e.Email? ==> e.alertType == "high")
      && (!s.alertSentLow ==> !r.state.alertSentLow)
      && r.state.alertSendHigh == s.alertSendHigh
    decreases |ticks|
  {
    if ticks != [] {
      var init := ticks[..|ticks| - 1];
      var t := ticks[|ticks| - 1];
      assert ticks == init + [t];
      LowNeverAlerts(cfg, s, files, init);
      RunTicksSnoc(cfg, s, files, init, t);
    }
  }

  /** `cleanup` is only ever called on the way out of `run` */
  lemma {:induction false} NoCleanupInLoop(cfg: Config, s: MonitorState, files: Logging.Files, ticks: seq<Tick>)
    requires TicksValid(ticks)
    ensures Cleanup !in RunTicks(cfg, s, files, ticks).effects
    decreases |ticks|
  {
    if ticks != [] {
      var init := ticks[..|ticks| - 1];
      var t := ticks[|ticks| - 1];
      assert ticks == init + [t];
      NoCleanupInLoop(cfg, s, files, init);
      RunTicksSnoc(cfg, s, files, init, t);
    }
  }

  /** Readings that arrive within one log interval of a due, successful
      write add exactly one row between them */
  lemma {:induction false} OneRowPerInterval(cfg: Config, s: MonitorState, files: Logging.Files, ticks: seq<Tick>)
    requires TicksValid(ticks) && ticks != []
    requires forall i :: 0 <= i < |ticks| ==> ticks[i].read.Values? && ticks[i].read.temp.Some? && ticks[i].read.hum.Some?
    requires LogDue(cfg, s, ticks[0].now) && !ticks[0].logFails
    requires forall i :: 0 <= i < |ticks| ==> ticks[0].now <= ticks[i].now < ticks[0].now + cfg.logInterval
    ensures var r := RunTicks(cfg, s, files, ticks);
      CountLogWrites(r.effects) == 1 && r.state.lastLogTime == ticks[0].now
    decreases |ticks|
  {
    var init := ticks[..|ticks| - 1];
    var t := ticks[|ticks| - 1];
    assert ticks == init + [t];
    RunTicksSnoc(cfg, s, files, init, t);
    if init == [] {
      FirstRow(cfg, Progress(s, [], files), t);
    } else {
      assert forall i :: 0 <= i < |init| ==> init[i] == ticks[i];
      OneRowPerInterval(cfg, s, files, init);
      NoRowWithinInterval(cfg, RunTicks(cfg, s, files, init), t, ticks[0].now);
    }
  }

  /** The first reading of the interval writes the one row */
  lemma FirstRow(cfg: Config, prev: Progress, t: Tick)
    requires t.fileClock.Valid() && t.rowClock.Valid()
    requires t.read.Values? && t.read.temp.Some? && t.read.hum.Some?
    requires prev.effects == [] && LogDue(cfg, prev.state, t.now) && !t.logFails
    ensures var next := Iterate(cfg, prev, t);
      CountLogWrites(next.effects) == 1 && next.state.lastLogTime == t.now
  {
    LogIterate(cfg, prev, t);
  }

  /** A later reading within the interval of the marker writes nothing */
  lemma NoRowWithinInterval(cfg: Config, prev: Progress, t: Tick, start: real)
    requires t.fileClock.Valid() && t.rowClock.Valid()
    requires t.read.Values? && t.read.temp.Some? && t.read.hum.Some?
    requires prev.state.lastLogTime == start && start <= t.now < start + cfg.logInterval
    requires CountLogWrites(prev.effects) == 1
    ensures var next := Iterate(cfg, prev, t);
      CountLogWrites(next.effects) == 1 && next.state.lastLogTime == start
  {
    LogIterate(cfg, prev, t);
  }

  /** Once a reading between the thresholds has cleared the high latch, the
      next high reading that gets past the log write sends a high alert */
  lemma InBandRearmsHigh(cfg: Config, s: MonitorState, mid: real, hot: real, hum: real, now1: real, now2: real, fails1: bool, fails2: bool)
    requires cfg.low < mid < cfg.high <= hot
    requires var r1 := ReadingStep(cfg, s, mid, hum, now1, fails1);
      !(LogDue(cfg, s, now1) && fails1) && !(LogDue(cfg, r1.state, now2) && fails2)
    ensures var r1 := ReadingStep(cfg, s, mid, hum, now1, fails1);
      Email("high", hot, hum) in ReadingStep(cfg, r1.state, hot, hum, now2, fails2).effects
  {
  }

  /** A monitor object: its three fields, the two misspelled attributes, and
      the thresholds it reads from the configuration */
  class Monitor {
    const cfg: Config
    var alertSentHigh: bool
    var alertSentLow: bool
    var lastLogTime: real
    var alertSendHigh: Option<bool>
    var alertSendLow: Option<bool>

    function State(): MonitorState
      reads this
    {
      MonitorState(alertSentHigh, alertSentLow, lastLogTime, alertSendHigh, alertSendLow)
    }

    /** `Monitor(hardware)` */
    constructor (config: Config)
      ensures cfg == config && State() == Initial
    {
      cfg := config;
      alertSentHigh := false;
      alertSentLow := false;
      lastLogTime := 0.0;
      alertSendHigh := None;
      alertSendLow := None;
    }

    /** `process_reading(temperature, humidity)`; `now` is `time.time()`, the
        two clocks and `ioError` are what `log_to_excel` meets */
    method ProcessReading(temperature: real, humidity: real, now: real, fileClock: DateTime, rowClock: DateTime,
                          ioError: bool, store: Logging.LoggingService)
        returns (effects: seq<Effect>, fault: Option<Fault>)
      requires fileClock.Valid() && rowClock.Valid()
      modifies this, store`files
      ensures var r := ReadingStep(cfg, old(State()), temperature, humidity, now, ioError);
        State() == r.state && effects == r.effects && fault == r.fault
      ensures store.files == if LogDue(cfg, old(State()), now) && !ioError
        then Logging.Logged(old(store.files), temperature, humidity, fileClock, rowClock) else old(store.files)
    {
      effects := [LcdUpdate(temperature, humidity)];
      fault := None;
      var currentTime := now;
      if currentTime - lastLogTime >= cfg.logInterval {
        var ok := store.LogToExcel(temperature, humidity, fileClock, rowClock, ioError);
        if !ok {
          fault := Some(LogFailed);
          return;
        }
        effects := effects + [LogWrite(temperature, humidity)];
        lastLogTime := currentTime;
      }
      effects := effects + [Upload(temperature, humidity)];
      effects, fault := ApplyThresholds(temperature, humidity, effects);
    }

    /** The alert logic at the end of `process_reading`, lines 34-55 */
    method ApplyThresholds(temperature: real, humidity: real, calls: seq<Effect>) returns (effects: seq<Effect>, fault: Option<Fault>)
      modifies this
      ensures var r := Thresholds(cfg, old(State()), temperature, humidity, calls);
        State() == r.state && effects == r.effects && fault == r.fault
    {
      effects, fault := calls, None;
      if temperature >= cfg.high {
        effects := effects + [Led(true)];
        if !alertSentHigh {
          effects := effects + [Email("high", temperature, humidity)];
          alertSentHigh := true;
          alertSentLow := false;
        }
      } else if temperature <= cfg.low {
        // `self.hardware.set_lcd(True)` raises AttributeError: the low alert
        // and the assignments after it are never reached
        fault := Some(NoSetLcd);
      } else {
        effects := effects + [Led(false)];
        alertSentHigh := false;
        alertSendLow := Some(false);
      }
    }

    /** One pass of the loop in `run`, lines 62-74: `trace` holds the calls
        made so far */
    method Iteration(tick: Tick, trace: seq<Effect>, store: Logging.LoggingService) returns (trace': seq<Effect>)
      requires tick.fileClock.Valid() && tick.rowClock.Valid()
      modifies this, store`files
      ensures Progress(State(), trace', store.files) == Iterate(cfg, Progress(old(State()), trace, old(store.files)), tick)
    {
      trace' := trace;
      // a DHT RuntimeError or a None value is reported and skipped; an
      // exception out of `process_reading` is caught and the loop goes on
      if tick.read.Values? && tick.read.temp.Some? && tick.read.hum.Some? {
        var effects, _ := ProcessReading(tick.read.temp.value, tick.read.hum.value, tick.now,
                                         tick.fileClock, tick.rowClock, tick.logFails, store);
        trace' := trace' + effects;
      }
    }

    /** `run()` until the KeyboardInterrupt that follows the last tick; the
        `finally` clause calls `cleanup` exactly once, last */
    method Run(ticks: seq<Tick>, store: Logging.LoggingService) returns (trace: seq<Effect>)
      requires TicksValid(ticks)
      modifies this, store`files
      ensures var r := RunTicks(cfg, old(State()), old(store.files), ticks);
        State() == r.state && store.files == r.files && trace == r.effects + [Cleanup]
      ensures trace[|trace| - 1] == Cleanup && Cleanup !in trace[..|trace| - 1]
    {
      trace := [];
      var i := 0;
      while i < |ticks|
        invariant 0 <= i <= |ticks|
        invariant RunTicks(cfg, old(State()), old(store.files), ticks[..i]) == Progress(State(), trace, store.files)
      {
        assert ticks[..i + 1] == ticks[..i] + [ticks[i]];
        RunTicksSnoc(cfg, old(State()), old(store.files), ticks[..i], ticks[i]);
        trace := Iteration(ticks[i], trace, store);
        i := i + 1;
      }
      assert ticks[..i] == ticks;
      NoCleanupInLoop(cfg, old(State()), old(store.files), ticks);
      trace := trace + [Cleanup];
    }
  }
}
