/** The standalone script server_room_iot.py: the same high/low alert latch
    as the Monitor, kept in two module globals, with no log rate limit. The
    LED is recorded as a third global; it starts off, as the hardware
    controller sets it low. */
module ServerRoom {
  import opened Builtins
  import Monitoring
  import Logging

  type Effect = Monitoring.Effect

  /** TEMP_THRESHOLD_HIGH and TEMP_THRESHOLD_LOW of config.py */
  const TempHigh: real := 25.0
  const TempLow: real := 19.0

  /** `alert_sent_high`, `alert_sent_low`, and the LED */
  datatype Globals = Globals(alertSentHigh: bool, alertSentLow: bool, led: bool)

  const Start := Globals(false, false, false)

  /** The two latches are never set together */
  predicate Exclusive(g: Globals) {
    !(g.alertSentHigh && g.alertSentLow)
  }

  /** A valid sensor reading */
  datatype Sample = Sample(temp: real, hum: real)

  /** What one valid reading does to the globals, and the calls it makes */
  datatype Reaction = Reaction(globals: Globals, effects: seq<Effect>)

  /** A valid reading is shown on the LCD, logged and uploaded, in that order */
  function Shown(s: Sample): seq<Effect> {
    [Monitoring.LcdUpdate(s.temp, s.hum), Monitoring.LogWrite(s.temp, s.hum), Monitoring.Upload(s.temp, s.hum)]
  }

  /** The loop body for a reading with both values present, when
      `log_to_excel` returns normally */
  function LatchStep(g: Globals, s: Sample): (r: Reaction)
    // every valid reading is shown, logged and uploaded, then the LED is set
    ensures |r.effects| >= 4
    ensures r.effects[..3] == [Monitoring.LcdUpdate(s.temp, s.hum), Monitoring.LogWrite(s.temp, s.hum), Monitoring.Upload(s.temp, s.hum)]
    ensures r.effects[3] == Monitoring.Led(r.globals.led)
    // an alert, if any, comes last and is the only other call
    ensures |r.effects| == 4 || (|r.effects| == 5 && r.effects[4].Email?)
  {
    var shown := Shown(s);
    if s.temp >= TempHigh then
      if !g.alertSentHigh then
        Reaction(Globals(true, false, true), shown + [Monitoring.Led(true), Monitoring.Email("high", s.temp, s.hum)])
      else
        Reaction(g.(led := true), shown + [Monitoring.Led(true)])
    else if s.temp <= TempLow then
      if !g.alertSentLow then
        Reaction(Globals(false, true, true), shown + [Monitoring.Led(true), Monitoring.Email("low", s.temp, s.hum)])
      else
        Reaction(g.(led := true), shown + [Monitoring.Led(true)])
    else
      Reaction(Globals(false, false, false), shown + [Monitoring.Led(false)])
  }

  /** A step keeps the two latches exclusive */
  lemma StepKeepsExclusive(g: Globals, s: Sample)
    requires Exclusive(g)
    ensures Exclusive(LatchStep(g, s).globals)
  {
  }

  /** From exclusive latches, the globals after a reading depend on that
      reading alone: high latched iff it was high, low latched iff it was
      low and not high, LED on iff it was high or low */
  lemma LatchAfterReading(g: Globals, s: Sample)
    requires Exclusive(g)
    ensures var g' := LatchStep(g, s).globals;
      && g'.alertSentHigh == (s.temp >= TempHigh)
      && g'.alertSentLow == (s.temp <= TempLow && s.temp < TempHigh)
      && g'.led == (s.temp >= TempHigh || s.temp <= TempLow)
  {
  }

  /** A step alerts high exactly on a high reading with no high latch, and
      low exactly on a low, not high, reading with no low latch */
  lemma StepAlerts(g: Globals, s: Sample)
    ensures var r := LatchStep(g, s);
      && (Monitoring.Email("high", s.temp, s.hum) in r.effects <==> s.temp >= TempHigh && !g.alertSentHigh)
      && (Monitoring.Email("low", s.temp, s.hum) in r.effects <==> s.temp <= TempLow && s.temp < TempHigh && !g.alertSentLow)
  {
    var r := LatchStep(g, s);
    assert r.effects[..3] + r.effects[3..] == r.effects;
  }

  /** The globals after a sequence of valid readings */
  function LatchRun(g: Globals, samples: seq<Sample>): Globals
    decreases |samples|
  {
    if samples == [] then g
    else LatchStep(LatchRun(g, samples[..|samples| - 1]), samples[|samples| - 1]).globals
  }

  lemma {:induction false} LatchRunExclusive(g: Globals, samples: seq<Sample>)
    requires Exclusive(g)
    ensures Exclusive(LatchRun(g, samples))
    decreases |samples|
  {
    if samples != [] {
      LatchRunExclusive(g, samples[..|samples| - 1]);
      StepKeepsExclusive(LatchRun(g, samples[..|samples| - 1]), samples[|samples| - 1]);
    }
  }

  /** Reading i sends a high alert exactly when it is high and the reading
      before it was not, or it is the first: one alert per run of high
      readings */
  lemma HighAlertOnRisingEdge(samples: seq<Sample>, i: int)
    requires 0 <= i < |samples|
    ensures var s := samples[i];
      Monitoring.Email("high", s.temp, s.hum) in LatchStep(LatchRun(Start, samples[..i]), s).effects
      <==> s.temp >= TempHigh && (i == 0 || samples[i - 1].temp < TempHigh)
  {
    StepAlerts(LatchRun(Start, samples[..i]), samples[i]);
    if i > 0 {
      assert samples[..i][..i - 1] == samples[..i - 1];
      LatchRunExclusive(Start, samples[..i - 1]);
      LatchAfterReading(LatchRun(Start, samples[..i - 1]), samples[i - 1]);
    }
  }

  /** Reading i sends a low alert exactly when it is low and not high and the
      reading before it was not, or it is the first */
  lemma LowAlertOnFallingEdge(samples: seq<Sample>, i: int)
    requires 0 <= i < |samples|
    ensures var s := samples[i];
      Monitoring.Email("low", s.temp, s.hum) in LatchStep(LatchRun(Start, samples[..i]), s).effects
      <==> s.temp <= TempLow && s.temp < TempHigh
           && (i == 0 || !(samples[i - 1].temp <= TempLow && samples[i - 1].temp < TempHigh))
  {
    StepAlerts(LatchRun(Start, samples[..i]), samples[i]);
    if i > 0 {
      assert samples[..i][..i - 1] == samples[..i - 1];
      LatchRunExclusive(Start, samples[..i - 1]);
      LatchAfterReading(LatchRun(Start, samples[..i - 1]), samples[i - 1]);
    }
  }

  /** The Monitor of the package, configured with the thresholds of config.py */
  function PackageConfig(logInterval: real): (cfg: Monitoring.Config)
    ensures cfg.high == TempHigh && cfg.low == TempLow && cfg.logInterval == logInterval
  {
    Monitoring.Config(TempHigh, TempLow, logInterval)
  }

  /** Above the low threshold the Monitor, once past the log write, does what
      the script does from the same latches: the same alerts, the same high
      latch, the same LED; the low latch agrees too, except that a reading
      between the thresholds does not clear it in the Monitor */
  lemma MonitorAgreesAboveLow(s: Monitoring.MonitorState, logInterval: real, led: bool,
                              temp: real, hum: real, now: real, logFails: bool)
    requires temp > TempLow
    requires !(Monitoring.LogDue(PackageConfig(logInterval), s, now) && logFails)
    ensures var r := Monitoring.ReadingStep(PackageConfig(logInterval), s, temp, hum, now, logFails);
      var q := LatchStep(Globals(s.alertSentHigh, s.alertSentLow, led), Sample(temp, hum));
      && r.fault == None
      && (forall e <- r.effects :: e.Email? ==> e in q.effects)
      && (forall e <- q.effects :: e.Email? ==> e in r.effects)
      && Monitoring.Led(q.globals.led) in r.effects
      && r.state.alertSentHigh == q.globals.alertSentHigh
      && (temp >= TempHigh || !s.alertSentLow ==> r.state.alertSentLow == q.globals.alertSentLow)
  {
  }

  /** A reading of 18.0 from a fresh start: the script sends the low alert,
      the Monitor sends none */
  lemma LowReadingDiverges(logInterval: real)
    ensures Monitoring.Email("low", 18.0, 40.0) in LatchStep(Start, Sample(18.0, 40.0)).effects
    ensures Monitoring.Email("low", 18.0, 40.0)
      !in Monitoring.ReadingStep(PackageConfig(logInterval), Monitoring.Initial, 18.0, 40.0, 0.0, false).effects
  {
  }

  /** The script's state after a run of loop iterations; `stopped` once a
      `log_to_excel` failure has escaped the loop */
  datatype Script = Script(globals: Globals, effects: seq<Effect>, files: Logging.Files, stopped: bool)

  /** One pass of the loop body, lines 29-61, from a state still in the
      loop. A read with a None value or a DHT RuntimeError changes nothing;
      an exception out of `log_to_excel` is not a RuntimeError, so it leaves
      the loop right after the LCD update */
  function ScriptStep(prev: Script, t: Monitoring.Tick): (next: Script)
    requires t.fileClock.Valid() && t.rowClock.Valid()
    // calls are only ever added; the loop is left only by a failing log write
    ensures prev.effects <= next.effects
    ensures next.stopped ==> prev.stopped || t.logFails
  {
    if t.read.Values? && t.read.temp.Some? && t.read.hum.Some? then
      var temp, hum := t.read.temp.value, t.read.hum.value;
      if t.logFails then
        Script(prev.globals, prev.effects + [Monitoring.LcdUpdate(temp, hum)], prev.files, true)
      else
        var r := LatchStep(prev.globals, Sample(temp, hum));
        Script(r.globals, prev.effects + r.effects, Logging.Logged(prev.files, temp, hum, t.fileClock, t.rowClock), false)
    else prev
  }

  /** The iterations of the `while True` loop; once the loop has been left,
      every later tick is ignored */
  function ScriptRun(g: Globals, files: Logging.Files, ticks: seq<Monitoring.Tick>): Script
    requires Monitoring.TicksValid(ticks)
    decreases |ticks|
  {
    if ticks == [] then Script(g, [], files, false)
    else
      var prev := ScriptRun(g, files, ticks[..|ticks| - 1]);
      if prev.stopped then prev else ScriptStep(prev, ticks[|ticks| - 1])
  }

  lemma ScriptRunSnoc(g: Globals, files: Logging.Files, ticks: seq<Monitoring.Tick>, t: Monitoring.Tick)
    requires Monitoring.TicksValid(ticks) && t.fileClock.Valid() && t.rowClock.Valid()
    ensures Monitoring.TicksValid(ticks + [t])
    ensures var prev := ScriptRun(g, files, ticks);
      ScriptRun(g, files, ticks + [t]) == if prev.stopped then prev else ScriptStep(prev, t)
  {
    assert (ticks + [t])[..|ticks|] == ticks;
  }

  /** A read with a None value or a DHT RuntimeError leaves the latches, the
      LED, the calls made and the log directory as they were */
  lemma FailedReadChangesNothing(g: Globals, files: Logging.Files, ticks: seq<Monitoring.Tick>, t: Monitoring.Tick)
    requires Monitoring.TicksValid(ticks) && t.fileClock.Valid() && t.rowClock.Valid()
    requires t.read.DhtError? || t.read.temp.None? || t.read.hum.None?
    ensures Monitoring.TicksValid(ticks + [t])
    ensures ScriptRun(g, files, ticks + [t]) == ScriptRun(g, files, ticks)
  {
    ScriptRunSnoc(g, files, ticks, t);
  }

  /** A `log_to_excel` that raises on a valid reading ends the loop after the
      LCD update, before the upload, the LED and any alert */
  lemma LogFailureEndsLoop(g: Globals, files: Logging.Files, ticks: seq<Monitoring.Tick>, t: Monitoring.Tick)
    requires Monitoring.TicksValid(ticks) && t.fileClock.Valid() && t.rowClock.Valid()
    requires t.read.Values? && t.read.temp.Some? && t.read.hum.Some? && t.logFails
    requires !ScriptRun(g, files, ticks).stopped
    ensures Monitoring.TicksValid(ticks + [t])
    ensures var prev, r := ScriptRun(g, files, ticks), ScriptRun(g, files, ticks + [t]);
      && r.stopped && r.globals == prev.globals && r.files == prev.files
      && r.effects == prev.effects + [Monitoring.LcdUpdate(t.read.temp.value, t.read.hum.value)]
  {
    ScriptRunSnoc(g, files, ticks, t);
  }

  lemma ValidSamplesSnoc(ticks: seq<Monitoring.Tick>, t: Monitoring.Tick)
    ensures ValidSamples(ticks + [t]) ==
      if t.read.Values? && t.read.temp.Some? && t.read.hum.Some?
      then ValidSamples(ticks) + [Sample(t.read.temp.value, t.read.hum.value)]
      else ValidSamples(ticks)
  {
    assert (ticks + [t])[..|ticks|] == ticks;
  }

  /** Once the loop has been left, later ticks change nothing */
  lemma {:induction false} StoppedStays(g: Globals, files: Logging.Files, ticks: seq<Monitoring.Tick>, j: nat)
    requires Monitoring.TicksValid(ticks) && j <= |ticks|
    requires ScriptRun(g, files, ticks[..j]).stopped
    ensures ScriptRun(g, files, ticks) == ScriptRun(g, files, ticks[..j])
    decreases |ticks| - j
  {
    if j < |ticks| {
      assert ticks[..j + 1] == ticks[..j] + [ticks[j]];
      ScriptRunSnoc(g, files, ticks[..j], ticks[j]);
      StoppedStays(g, files, ticks, j + 1);
    } else {
      assert ticks[..j] == ticks;
    }
  }

  /** The readings with both values present, in order */
  function ValidSamples(ticks: seq<Monitoring.Tick>): seq<Sample>
    decreases |ticks|
  {
    if ticks == [] then []
    else
      var t := ticks[|ticks| - 1];
      ValidSamples(ticks[..|ticks| - 1]) +
        match t.read
        case Values(Some(temp), Some(hum)) => [Sample(temp, hum)]
        case _ => []
  }

  /** One valid reading writes one row */
  lemma StepLogsOnce(g: Globals, s: Sample)
    ensures Monitoring.CountLogWrites(LatchStep(g, s).effects) == 1
  {
    var e := LatchStep(g, s).effects;
    var shown := Shown(s);
    var lcd, logged := Monitoring.LcdUpdate(s.temp, s.hum), Monitoring.LogWrite(s.temp, s.hum);
    assert shown == [] + [lcd] + [logged] + [Monitoring.Upload(s.temp, s.hum)];
    Monitoring.CountsSnoc([], lcd);
    Monitoring.CountsSnoc([lcd], logged);
    Monitoring.CountsSnoc([lcd] + [logged], Monitoring.Upload(s.temp, s.hum));
    Monitoring.CountsSnoc(shown, e[3]);
    if |e| == 5 {
      assert e == shown + [e[3]] + [e[4]];
      Monitoring.CountsSnoc(shown + [e[3]], e[4]);
    } else {
      assert e == shown + [e[3]];
    }
  }

  /** Until a log failure ends it, the script's latches are those of its
      valid readings in order, and every valid reading wrote exactly one row */
  lemma {:induction false} ScriptFollowsLatch(g: Globals, files: Logging.Files, ticks: seq<Monitoring.Tick>)
    requires Monitoring.TicksValid(ticks)
    ensures var r := ScriptRun(g, files, ticks);
      !r.stopped ==>
        && r.globals == LatchRun(g, ValidSamples(ticks))
        && Monitoring.CountLogWrites(r.effects) == |ValidSamples(ticks)|
    decreases |ticks|
  {
    if ticks != [] {
      var init := ticks[..|ticks| - 1];
      var t := ticks[|ticks| - 1];
      assert ticks == init + [t];
      ScriptFollowsLatch(g, files, init);
      ValidSamplesSnoc(init, t);
      ScriptRunSnoc(g, files, init, t);
      var prev := ScriptRun(g, files, init);
      if !prev.stopped && t.read.Values? && t.read.temp.Some? && t.read.hum.Some? && !t.logFails {
        var x := Sample(t.read.temp.value, t.read.hum.value);
        var xs := ValidSamples(init);
        assert (xs + [x])[..|xs|] == xs;
        var r := LatchStep(prev.globals, x);
        Monitoring.CountsAppend(prev.effects, r.effects);
        StepLogsOnce(prev.globals, x);
      }
    }
  }

  /** Lines 40-57: the LED and the latches after a valid reading has been
      shown, logged and uploaded; `calls` are the calls made from there on */
  method Latch(g: Globals, s: Sample) returns (g': Globals, calls: seq<Effect>)
    ensures LatchStep(g, s) == Reaction(g', Shown(s) + calls)
  {
    var alertSentHigh, alertSentLow, led := g.alertSentHigh, g.alertSentLow, g.led;
    calls := [];
    if s.temp >= TempHigh {
      led := true;
      calls := calls + [Monitoring.Led(true)];
      if !alertSentHigh {
        calls := calls + [Monitoring.Email("high", s.temp, s.hum)];
        alertSentHigh := true;
        alertSentLow := false;
      }
    } else if s.temp <= TempLow {
      led := true;
      calls := calls + [Monitoring.Led(true)];
      if !alertSentLow {
        calls := calls + [Monitoring.Email("low", s.temp, s.hum)];
        alertSentLow := true;
        alertSentHigh := false;
      }
    } else {
      led := false;
      calls := calls + [Monitoring.Led(false)];
      alertSentHigh := false;
      alertSentLow := false;
    }
    g' := Globals(alertSentHigh, alertSentLow, led);
  }

  /** The calls of one pass, accumulated one at a time, are the trace
      followed by what `LatchStep` reports */
  lemma AppendShown(trace: seq<Effect>, s: Sample, calls: seq<Effect>)
    ensures trace + [Monitoring.LcdUpdate(s.temp, s.hum)] + [Monitoring.LogWrite(s.temp, s.hum), Monitoring.Upload(s.temp, s.hum)] + calls
         == trace + (Shown(s) + calls)
  {
  }

  /** The body of the `try` inside the loop, lines 29-61: the latches and
      the LED come in and go out as the globals, and `escaped` says that an
      exception left the loop */
  method LoopBody(g: Globals, trace: seq<Effect>, tick: Monitoring.Tick, store: Logging.LoggingService)
      returns (g': Globals, effects: seq<Effect>, escaped: bool)
    requires tick.fileClock.Valid() && tick.rowClock.Valid()
    modifies store`files
    ensures Script(g', effects, store.files, escaped) == ScriptStep(Script(g, trace, old(store.files), false), tick)
  {
    g', effects, escaped := g, trace, false;
    if tick.read.Values? && tick.read.temp.Some? && tick.read.hum.Some? {
      var temperature, humidity := tick.read.temp.value, tick.read.hum.value;
      effects := effects + [Monitoring.LcdUpdate(temperature, humidity)];
      var ok := store.LogToExcel(temperature, humidity, tick.fileClock, tick.rowClock, tick.logFails);
      if !ok {
        escaped := true;
      } else {
        effects := effects + [Monitoring.LogWrite(temperature, humidity), Monitoring.Upload(temperature, humidity)];
        var calls;
        g', calls := Latch(g, Sample(temperature, humidity));
        AppendShown(trace, Sample(temperature, humidity), calls);
        effects := effects + calls;
      }
    }
  }

  /** The script from its first line to the end of the `finally` clause:
      the latches and the LED start cleared, and `cleanup` runs once, last */
  method MainLoop(ticks: seq<Monitoring.Tick>, store: Logging.LoggingService) returns (trace: seq<Effect>)
    requires Monitoring.TicksValid(ticks)
    modifies store`files
    ensures var r := ScriptRun(Start, old(store.files), ticks);
      store.files == r.files && trace == r.effects + [Monitoring.Cleanup]
  {
    var globals := Start;
    trace := [];
    var stopped := false;
    var i := 0;
    while i < |ticks| && !stopped
      invariant 0 <= i <= |ticks|
      invariant ScriptRun(Start, old(store.files), ticks[..i]) == Script(globals, trace, store.files, stopped)
    {
      var tick := ticks[i];
      assert ticks[..i + 1] == ticks[..i] + [tick];
      ScriptRunSnoc(Start, old(store.files), ticks[..i], tick);
      globals, trace, stopped := LoopBody(globals, trace, tick, store);
      i := i + 1;
    }
    if stopped {
      StoppedStays(Start, old(store.files), ticks, i);
    } else {
      assert ticks[..i] == ticks;
    }
    trace := trace + [Monitoring.Cleanup];
  }
}
