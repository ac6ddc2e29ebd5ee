/** The firmware's measurement loop (`main`): the measurement counter, the
    sensor percentage and status of each pass, the telemetry record, the
    button poll and the choice between measuring again and deep sleep.

    The outside world is an input: the boot cause, and per pass the two ADC
    readings, whether the WLAN connection succeeded and the button samples of
    the poll. What the loop does is a trace of events. `main` loops forever;
    the model runs it over a finite list of passes, and deep sleep, which
    never returns, ends the trace. */
module DutyCycle {
  import opened Wrappers
  import Zones
  import RetainedCounter

  /** SLEEP_TIME, seconds of deep sleep between measurements. */
  const SleepTime: int := 60
  /** MOISTURE_DRY: the reading taken as 0 % moisture. */
  const MoistureDry: int := 850
  /** MOISTURE_WET: the reading taken as 100 % moisture. */
  const MoistureWet: int := 420

  // ---------------------------------------------------------------------
  // calc_sensor_percent
  // ---------------------------------------------------------------------

  /** Python's `int()` of the rational p / q (q > 0): truncation toward zero. */
  function TruncDiv(p: int, q: int): (r: int)
    requires q > 0
    ensures p >= 0 ==> r * q <= p < (r + 1) * q
    ensures p < 0 ==> (r - 1) * q < p <= r * q
  {
    if p >= 0 then p / q else -((-p) / q)
  }

  function Clamp(lo: int, hi: int, v: int): int {
    if v < lo then lo else if v > hi then hi else v
  }

  /** calc_sensor_percent: `max(0, min(100, int((850 - adc) / 430 * 100)))`,
      here on exact rationals. */
  function CalcSensorPercent(adc: int): (r: int)
    ensures 0 <= r <= 100
    ensures adc >= MoistureDry ==> r == 0
    ensures adc <= MoistureWet ==> r == 100
  {
    var range := MoistureDry - MoistureWet;
    Clamp(0, 100, TruncDiv((MoistureDry - adc) * 100, range))
  }

  /** Between the calibration points the percentage is the whole number of
      percent the reading lies below the dry point, rounded down. */
  lemma SensorPercentScale(adc: int)
    requires MoistureWet <= adc <= MoistureDry
    ensures CalcSensorPercent(adc) * 430 <= (MoistureDry - adc) * 100 < (CalcSensorPercent(adc) + 1) * 430
  {
  }

  /** A wetter reading (a lower ADC value) never gives a lower percentage. */
  lemma SensorPercentMonotone(a: int, b: int)
    requires a <= b
    ensures CalcSensorPercent(a) >= CalcSensorPercent(b)
  {
    var range := MoistureDry - MoistureWet;
    assert range == 430;
    if MoistureWet < a && b < MoistureDry {
      var p, q := (MoistureDry - a) * 100, (MoistureDry - b) * 100;
      assert TruncDiv(p, range) == p / 430 && TruncDiv(q, range) == q / 430;
      assert q / 430 <= p / 430;
    }
  }

  // ---------------------------------------------------------------------
  // check_button_before_sleep
  // ---------------------------------------------------------------------

  /** One read of the button during the poll: `Some(level)`, or `None` when
      `value()` raised (the firmware ignores that read). */
  type ButtonSample = Option<int>

  /** The button is pressed when some read of the poll gives level 0 (the
      pin has a pull-up). */
  predicate Pressed(samples: seq<ButtonSample>) {
    Some(0) in samples
  }

  /** check_button_before_sleep: polls until a read gives 0 (True) or the
      poll time is over (False). */
  method CheckButtonBeforeSleep(samples: seq<ButtonSample>) returns (pressed: bool)
    ensures pressed <==> Pressed(samples)
  {
    var i := 0;
    while i < |samples|
      invariant 0 <= i <= |samples|
      invariant Some(0) !in samples[..i]
    {
      if samples[i] == Some(0) {
        return true;
      }
      i := i + 1;
    }
    assert samples[..i] == samples;
    return false;
  }

  // ---------------------------------------------------------------------
  // One pass of the loop
  // ---------------------------------------------------------------------

  datatype BootCause = DeepSleepReset | OtherReset

  /** What one pass reads from the outside world. */
  datatype PassInput = PassInput(batteryAdc: int, sensorAdc: int, wifi: bool, button: seq<ButtonSample>)

  /** What a pass derives from its sensor reading before it acts: the
      moisture status and the sensor percentage. */
  datatype Measurement = Measurement(input: PassInput, status: string, percent: int)

  /** The integer and text fields of the MQTT record: device
      measurement_count, battery b_adc, sensor s_adc and s_percent, and
      s_moisture_status. */
  datatype Telemetry = Telemetry(count: int, batteryAdc: int, sensorAdc: int, sensorPercent: int, status: string)

  datatype Event =
    | Measured(count: int, status: string)   // pass number `count` measured, with its status
    | Published(record: Telemetry)           // publish_mqtt after the WLAN connected
    | MeasureNow                             // button pressed: the next pass starts at once
    | SavedCounter(count: int, stored: bool) // save_counter(count) and what it returned
    | DeepSleep                              // enter_deep_sleep: the trace ends
    | Continuous                             // no sleep configured: the next pass follows

  /** The status and percentage main computes for one pass. */
  function Measure(input: PassInput): (m: Measurement)
    ensures m.input == input
    ensures 0 <= m.percent <= 100
  {
    Measurement(input, Zones.DetermineMoistureStatus(Some(input.sensorAdc)), CalcSensorPercent(input.sensorAdc))
  }

  /** The measurement was classified as main classifies it. */
  predicate Classified(m: Measurement) {
    m == Measure(m.input)
  }

  /** The measurements of a list of passes, one per input. */
  function Measurements(inputs: seq<PassInput>): (ms: seq<Measurement>)
    ensures |ms| == |inputs|
  {
    if inputs == [] then [] else [Measure(inputs[0])] + Measurements(inputs[1..])
  }

  lemma {:induction false} MeasurementsInputs(inputs: seq<PassInput>)
    ensures forall k :: 0 <= k < |inputs| ==> Measurements(inputs)[k].input == inputs[k]
  {
    if inputs != [] {
      MeasurementsInputs(inputs[1..]);
      var ms := Measurements(inputs);
      assert ms == [Measure(inputs[0])] + Measurements(inputs[1..]);
      forall k | 0 < k < |inputs|
        ensures ms[k].input == inputs[k]
      {
        assert ms[k] == Measurements(inputs[1..])[k - 1];
      }
    }
  }

  /** Each measurement of the list is the classification of its own input. */
  lemma {:induction false} MeasurementsAt(inputs: seq<PassInput>, k: nat)
    requires k < |inputs|
    ensures Measurements(inputs)[k] == Measure(inputs[k])
    ensures Classified(Measurements(inputs)[k])
  {
    if k > 0 {
      MeasurementsAt(inputs[1..], k - 1);
    }
  }

  /** The record of pass `n`. */
  function Record(n: int, m: Measurement): (r: Telemetry)
    ensures r.count == n && r.sensorAdc == m.input.sensorAdc && r.batteryAdc == m.input.batteryAdc
    ensures r.status == m.status && r.sensorPercent == m.percent
  {
    Telemetry(n, m.input.batteryAdc, m.input.sensorAdc, m.percent, m.status)
  }

  /** A pass ends in deep sleep when the button was not pressed and a sleep
      time is configured. */
  predicate Sleeps(input: PassInput, sleepTime: int) {
    !Pressed(input.button) && sleepTime > 0
  }

  /** What save_counter(n) returns: true when there is an RTC and the count
      fits in four bytes. */
  predicate Stored(hasRtc: bool, n: int) {
    hasRtc && 0 <= n < RetainedCounter.CounterLimit
  }

  /** The events of pass `n`. */
  function Pass(n: int, m: Measurement, sleepTime: int, hasRtc: bool): seq<Event> {
    [Measured(n, m.status)]
    + (if m.input.wifi then [Published(Record(n, m))] else [])
    + (if Pressed(m.input.button) then [MeasureNow]
       else if sleepTime > 0 then [SavedCounter(n, Stored(hasRtc, n)), DeepSleep]
       else [Continuous])
  }

  /** A pass opens with its Measured event, publishes at most once and only
      after a WLAN connection, and contains the deep-sleep event exactly
      when it sleeps. */
  lemma PassShape(n: int, m: Measurement, sleepTime: int, hasRtc: bool)
    ensures var r := Pass(n, m, sleepTime, hasRtc);
      && |r| >= 2 && r[0] == Measured(n, m.status)
      && (Published(Record(n, m)) in r <==> m.input.wifi)
      && (DeepSleep in r <==> Sleeps(m.input, sleepTime))
  {
  }

  /** The events of the first `k` passes from counter value `start`. */
  function Trace(start: int, ms: seq<Measurement>, k: nat, sleepTime: int, hasRtc: bool): seq<Event>
    requires k <= |ms|
  {
    if k == 0 then [] else Trace(start, ms, k - 1, sleepTime, hasRtc) + Pass(start + k, ms[k - 1], sleepTime, hasRtc)
  }

  /** Number of passes the loop makes over `inputs`: up to and including the
      first pass that ends in deep sleep, or all of them. */
  function Passes(inputs: seq<PassInput>, sleepTime: int): (r: nat)
    ensures r <= |inputs|
    ensures inputs != [] ==> r >= 1
    decreases |inputs|
  {
    if inputs == [] then 0
    else if Sleeps(inputs[0], sleepTime) then 1
    else 1 + Passes(inputs[1..], sleepTime)
  }

  /** No pass before the last sleeps, and the loop stops early only after a
      pass that sleeps. */
  lemma {:induction false} PassesStop(inputs: seq<PassInput>, sleepTime: int)
    ensures forall k :: 0 <= k < Passes(inputs, sleepTime) - 1 ==> !Sleeps(inputs[k], sleepTime)
    ensures Passes(inputs, sleepTime) < |inputs| ==> Sleeps(inputs[Passes(inputs, sleepTime) - 1], sleepTime)
    decreases |inputs|
  {
    if inputs != [] && !Sleeps(inputs[0], sleepTime) {
      var tail := inputs[1..];
      PassesStop(tail, sleepTime);
      forall k | 0 < k < Passes(inputs, sleepTime) - 1
        ensures !Sleeps(inputs[k], sleepTime)
      {
        assert inputs[k] == tail[k - 1];
      }
      if Passes(inputs, sleepTime) < |inputs| {
        assert inputs[Passes(inputs, sleepTime) - 1] == tail[Passes(tail, sleepTime) - 1];
      }
    }
  }

  /** The run ends in deep sleep: its last pass sleeps. */
  predicate EndsInSleep(inputs: seq<PassInput>, sleepTime: int) {
    Passes(inputs, sleepTime) > 0 && Sleeps(inputs[Passes(inputs, sleepTime) - 1], sleepTime)
  }

  /** The loop from counter value `start` until a pass ends in deep sleep or
      the inputs run out. */
  function Run(start: int, inputs: seq<PassInput>, sleepTime: int, hasRtc: bool): seq<Event> {
    Trace(start, Measurements(inputs), Passes(inputs, sleepTime), sleepTime, hasRtc)
  }

  /** The counter value the loop starts from: load_counter() after a
      deep-sleep reset, 0 after any other reset. */
  function StartCount(boot: BootCause, memory: Option<seq<RetainedCounter.Byte>>): (r: nat)
    ensures boot == OtherReset ==> r == 0
    ensures boot == DeepSleepReset && memory.Some? ==> r == RetainedCounter.DecodeCounter(memory.value)
    ensures memory.None? ==> r == 0
    ensures r < RetainedCounter.CounterLimit
  {
    match boot
    case OtherReset => 0
    case DeepSleepReset =>
      match memory
      case None => 0
      case Some(m) => RetainedCounter.DecodeCounter(m)
  }

  function Retained(rtc: RetainedCounter.Rtc?): Option<seq<RetainedCounter.Byte>>
    reads rtc
  {
    if rtc == null then None else Some(rtc.memory)
  }

  // ---------------------------------------------------------------------
  // main
  // ---------------------------------------------------------------------

  /** main: load or reset the counter, then one pass per input until a pass
      ends in deep sleep. RTC memory changes only when the last pass saved
      the counter. */
  method MeasurementLoop(rtc: RetainedCounter.Rtc?, boot: BootCause, inputs: seq<PassInput>, sleepTime: int)
    returns (trace: seq<Event>, count: int)
    modifies rtc
    ensures trace == Run(StartCount(boot, old(Retained(rtc))), inputs, sleepTime, rtc != null)
    ensures count == StartCount(boot, old(Retained(rtc))) + Passes(inputs, sleepTime)
    ensures rtc != null ==> (rtc.memory ==
      if EndsInSleep(inputs, sleepTime) && count < RetainedCounter.CounterLimit
      then RetainedCounter.EncodeCounter(count).value
      else old(rtc.memory))
  {
    var start: nat;
    if boot == DeepSleepReset {
      start := RetainedCounter.LoadCounter(rtc);
    } else {
      start := 0;
    }
    trace, count := MeasurePasses(rtc, start, inputs, sleepTime);
  }

  /** The `while True` loop of main from counter value `start`. */
  method MeasurePasses(rtc: RetainedCounter.Rtc?, start: nat, inputs: seq<PassInput>, sleepTime: int)
    returns (trace: seq<Event>, count: int)
    modifies rtc
    ensures trace == Run(start, inputs, sleepTime, rtc != null)
    ensures count == start + Passes(inputs, sleepTime)
    ensures rtc != null ==> (rtc.memory ==
      if EndsInSleep(inputs, sleepTime) && count < RetainedCounter.CounterLimit
      then RetainedCounter.EncodeCounter(count).value
      else old(rtc.memory))
  {
    count := start;
    ghost var ms := Measurements(inputs);
    trace := [];
    var i := 0;
    while i < |inputs|
      invariant 0 <= i <= |inputs|
      invariant count == start + i
      invariant forall k :: 0 <= k < i ==> !Sleeps(inputs[k], sleepTime)
      invariant trace == Trace(start, ms, i, sleepTime, rtc != null)
      invariant rtc != null ==> rtc.memory == old(rtc.memory)
    {
      count := count + 1;
      var sleeping;
      trace, sleeping := NextPass(rtc, start, inputs, i, count, sleepTime, trace);
      if sleeping {
        RunLength(start, inputs, sleepTime, rtc != null, i + 1);
        return;
      }
      assert forall k :: 0 <= k < i + 1 ==> !Sleeps(inputs[k], sleepTime) by {
        assert !Sleeps(inputs[i], sleepTime);
      }
      i := i + 1;
    }
    RunLength(start, inputs, sleepTime, rtc != null, i);
  }

  /** One turn of main's loop on top of the trace of the first `i` passes. */
  method NextPass(rtc: RetainedCounter.Rtc?, start: nat, inputs: seq<PassInput>, i: nat, count: int, sleepTime: int, trace: seq<Event>)
    returns (trace': seq<Event>, sleeping: bool)
    requires i < |inputs| && count == start + i + 1
    requires trace == Trace(start, Measurements(inputs), i, sleepTime, rtc != null)
    modifies rtc
    ensures trace' == Trace(start, Measurements(inputs), i + 1, sleepTime, rtc != null)
    ensures sleeping == Sleeps(inputs[i], sleepTime)
    ensures rtc != null ==> (rtc.memory ==
      if sleeping && count < RetainedCounter.CounterLimit
      then RetainedCounter.EncodeCounter(count).value
      else old(rtc.memory))
  {
    var events;
    events, sleeping := MeasurePass(rtc, count, inputs[i], sleepTime);
    LoopStep(start, inputs, i, count, sleepTime, rtc != null, trace, events);
    trace' := trace + events;
  }

  /** The body of main's loop for pass `n` (the counter already raised):
      classify, publish when the WLAN connected, poll the button; a press
      measures again at once, otherwise with a sleep time the counter is
      saved before deep sleep, without one the loop goes on. */
  method MeasurePass(rtc: RetainedCounter.Rtc?, n: int, input: PassInput, sleepTime: int)
    returns (events: seq<Event>, sleeping: bool)
    modifies rtc
    ensures events == Pass(n, Measure(input), sleepTime, rtc != null)
    ensures sleeping == Sleeps(input, sleepTime)
    ensures rtc != null ==> (rtc.memory ==
      if sleeping && Stored(true, n) then RetainedCounter.EncodeCounter(n).value else old(rtc.memory))
  {
    var status := Zones.DetermineMoistureStatus(Some(input.sensorAdc));
    var percent := CalcSensorPercent(input.sensorAdc);
    events := [Measured(n, status)];
    if input.wifi {
      events := events + [Published(Telemetry(n, input.batteryAdc, input.sensorAdc, percent, status))];
    }
    var pressed := CheckButtonBeforeSleep(input.button);
    sleeping := false;
    if pressed {
      events := events + [MeasureNow];
    } else if sleepTime > 0 {
      var ok := RetainedCounter.SaveCounter(rtc, n);
      events := events + [SavedCounter(n, ok), DeepSleep];
      sleeping := true;
    } else {
      events := events + [Continuous];
    }
  }

  /** One more pass extends the trace by that pass's events. */
  lemma LoopStep(start: int, inputs: seq<PassInput>, k: nat, n: int, sleepTime: int, hasRtc: bool, trace: seq<Event>, events: seq<Event>)
    requires k < |inputs| && n == start + k + 1
    requires trace == Trace(start, Measurements(inputs), k, sleepTime, hasRtc)
    requires events == Pass(n, Measure(inputs[k]), sleepTime, hasRtc)
    ensures trace + events == Trace(start, Measurements(inputs), k + 1, sleepTime, hasRtc)
  {
    MeasurementsAt(inputs, k);
  }

  /** A run of `p` passes is the trace of the first p measurements. */
  lemma RunLength(start: int, inputs: seq<PassInput>, sleepTime: int, hasRtc: bool, p: nat)
    requires p <= |inputs|
    requires forall k :: 0 <= k < p - 1 ==> !Sleeps(inputs[k], sleepTime)
    requires (p == |inputs| && (p > 0 ==> !Sleeps(inputs[p - 1], sleepTime))) || (p > 0 && Sleeps(inputs[p - 1], sleepTime))
    ensures Passes(inputs, sleepTime) == p
    ensures Run(start, inputs, sleepTime, hasRtc) == Trace(start, Measurements(inputs), p, sleepTime, hasRtc)
    ensures EndsInSleep(inputs, sleepTime) <==> p > 0 && Sleeps(inputs[p - 1], sleepTime)
  {
    PassesAt(inputs, sleepTime, p);
  }

  /** The loop makes `p` passes when none of the first p - 1 sleeps and the
      p-th sleeps or is the last input. */
  lemma {:induction false} PassesAt(inputs: seq<PassInput>, sleepTime: int, p: nat)
    requires p <= |inputs|
    requires forall k :: 0 <= k < p - 1 ==> !Sleeps(inputs[k], sleepTime)
    requires (p == |inputs| && (p > 0 ==> !Sleeps(inputs[p - 1], sleepTime))) || (p > 0 && Sleeps(inputs[p - 1], sleepTime))
    ensures Passes(inputs, sleepTime) == p
    decreases p
  {
    if p > 1 {
      PassesAt(inputs[1..], sleepTime, p - 1);
    }
  }

  // ---------------------------------------------------------------------
  // Properties of the loop
  // ---------------------------------------------------------------------

  /** The run ends in deep sleep exactly when some pass would sleep: the
      button was not pressed in it and a sleep time is configured. */
  lemma {:induction false} SleepsSomewhere(inputs: seq<PassInput>, sleepTime: int)
    ensures EndsInSleep(inputs, sleepTime) <==> exists k :: 0 <= k < |inputs| && Sleeps(inputs[k], sleepTime)
    decreases |inputs|
  {
    if inputs != [] && !Sleeps(inputs[0], sleepTime) {
      SleepsSomewhere(inputs[1..], sleepTime);
      assert EndsInSleep(inputs, sleepTime) == EndsInSleep(inputs[1..], sleepTime);
      if exists k :: 0 <= k < |inputs| && Sleeps(inputs[k], sleepTime) {
        var k :| 0 <= k < |inputs| && Sleeps(inputs[k], sleepTime);
        assert Sleeps(inputs[1..][k - 1], sleepTime);
      }
      if exists k :: 0 <= k < |inputs| - 1 && Sleeps(inputs[1..][k], sleepTime) {
        var k :| 0 <= k < |inputs| - 1 && Sleeps(inputs[1..][k], sleepTime);
        assert Sleeps(inputs[k + 1], sleepTime);
      }
    }
  }

  /** The counts of the Measured events of a trace, in order. */
  function Counts(trace: seq<Event>): (r: seq<int>)
    ensures |r| <= |trace|
  {
    if trace == [] then []
    else (if trace[0].Measured? then [trace[0].count] else []) + Counts(trace[1..])
  }

  lemma {:induction false} CountsAppend(a: seq<Event>, b: seq<Event>)
    ensures Counts(a + b) == Counts(a) + Counts(b)
    decreases |a|
  {
    if a == [] {
      assert a + b == b;
    } else {
      var h := if a[0].Measured? then [a[0].count] else [];
      assert (a + b)[0] == a[0];
      assert (a + b)[1..] == a[1..] + b;
      assert Counts(a + b) == h + Counts(a[1..] + b);
      CountsAppend(a[1..], b);
      assert Counts(a) == h + Counts(a[1..]);
    }
  }

  /** Each pass has exactly one Measured event, with its own number. */
  lemma PassCounts(n: int, m: Measurement, sleepTime: int, hasRtc: bool)
    ensures Counts(Pass(n, m, sleepTime, hasRtc)) == [n]
  {
    var pub: seq<Event> := if m.input.wifi then [Published(Record(n, m))] else [];
    var tail: seq<Event> :=
      if Pressed(m.input.button) then [MeasureNow]
      else if sleepTime > 0 then [SavedCounter(n, Stored(hasRtc, n)), DeepSleep]
      else [Continuous];
    CountsAppend([Measured(n, m.status)], pub);
    CountsAppend([Measured(n, m.status)] + pub, tail);
    assert Counts(pub) == [] by {
      if m.input.wifi {
        assert pub[1..] == [];
      }
    }
    assert Counts(tail) == [] by {
      if !Pressed(m.input.button) && sleepTime > 0 {
        assert tail[1..] == [DeepSleep];
        assert tail[1..][1..] == [];
      } else {
        assert tail[1..] == [];
      }
    }
    assert [Measured(n, m.status)][1..] == [];
  }

  /** from, from + 1, ..., from + n - 1. */
  function Numbers(from: int, n: nat): (r: seq<int>)
    ensures |r| == n
    ensures forall k :: 0 <= k < n ==> r[k] == from + k
  {
    if n == 0 then [] else Numbers(from, n - 1) + [from + n - 1]
  }

  lemma {:induction false} TraceCounts(start: int, ms: seq<Measurement>, k: nat, sleepTime: int, hasRtc: bool)
    requires k <= |ms|
    ensures Counts(Trace(start, ms, k, sleepTime, hasRtc)) == Numbers(start + 1, k)
  {
    if k > 0 {
      var a, b := Trace(start, ms, k - 1, sleepTime, hasRtc), Pass(start + k, ms[k - 1], sleepTime, hasRtc);
      assert Trace(start, ms, k, sleepTime, hasRtc) == a + b;
      TraceCounts(start, ms, k - 1, sleepTime, hasRtc);
      CountsAppend(a, b);
      PassCounts(start + k, ms[k - 1], sleepTime, hasRtc);
      assert Numbers(start + 1, k) == Numbers(start + 1, k - 1) + [start + k];
    }
  }

  /** The counter rises by exactly one per pass: the passes are numbered
      start + 1, start + 2, ... in order, one Measured event each. */
  lemma CounterRisesByOne(start: int, inputs: seq<PassInput>, sleepTime: int, hasRtc: bool)
    ensures |Counts(Run(start, inputs, sleepTime, hasRtc))| == Passes(inputs, sleepTime)
    ensures forall k :: 0 <= k < Passes(inputs, sleepTime) ==>
      Counts(Run(start, inputs, sleepTime, hasRtc))[k] == start + 1 + k
  {
    TraceCounts(start, Measurements(inputs), Passes(inputs, sleepTime), sleepTime, hasRtc);
  }

  /** Every published record directly follows the Measured event of its own
      pass and carries that pass's counter and status. */
  predicate PublishesFollowMeasured(trace: seq<Event>) {
    forall j :: 0 <= j < |trace| && trace[j].Published? ==>
      j > 0 && trace[j - 1] == Measured(trace[j].record.count, trace[j].record.status)
  }

  lemma PublishesAppend(a: seq<Event>, b: seq<Event>)
    requires PublishesFollowMeasured(a) && PublishesFollowMeasured(b)
    requires b != [] ==> !b[0].Published?
    ensures PublishesFollowMeasured(a + b)
  {
    var t := a + b;
    forall j | 0 <= j < |t| && t[j].Published?
      ensures j > 0 && t[j - 1] == Measured(t[j].record.count, t[j].record.status)
    {
      if j >= |a| {
        assert t[j] == b[j - |a|];
        assert j - |a| > 0;
        assert t[j - 1] == b[j - |a| - 1];
      }
    }
  }

  lemma {:induction false} TracePublishes(start: int, ms: seq<Measurement>, k: nat, sleepTime: int, hasRtc: bool)
    requires k <= |ms|
    ensures PublishesFollowMeasured(Trace(start, ms, k, sleepTime, hasRtc))
  {
    if k > 0 {
      var a, b := Trace(start, ms, k - 1, sleepTime, hasRtc), Pass(start + k, ms[k - 1], sleepTime, hasRtc);
      assert Trace(start, ms, k, sleepTime, hasRtc) == a + b;
      TracePublishes(start, ms, k - 1, sleepTime, hasRtc);
      assert PublishesFollowMeasured(b) && !b[0].Published?;
      PublishesAppend(a, b);
    }
  }

  /** Every published record is the record of one of the first `k` passes:
      its counter and its measurement. */
  ghost predicate RecordsFrom(trace: seq<Event>, start: int, ms: seq<Measurement>, k: nat)
    requires k <= |ms|
  {
    forall j :: 0 <= j < |trace| && trace[j].Published? ==>
      exists i :: 0 <= i < k && trace[j].record == Record(start + i + 1, ms[i])
  }

  lemma {:induction false} TraceRecords(start: int, ms: seq<Measurement>, k: nat, sleepTime: int, hasRtc: bool)
    requires k <= |ms|
    ensures RecordsFrom(Trace(start, ms, k, sleepTime, hasRtc), start, ms, k)
  {
    if k > 0 {
      var a, b := Trace(start, ms, k - 1, sleepTime, hasRtc), Pass(start + k, ms[k - 1], sleepTime, hasRtc);
      assert Trace(start, ms, k, sleepTime, hasRtc) == a + b;
      TraceRecords(start, ms, k - 1, sleepTime, hasRtc);
      var t := a + b;
      forall j | 0 <= j < |t| && t[j].Published?
        ensures exists i :: 0 <= i < k && t[j].record == Record(start + i + 1, ms[i])
      {
        if j >= |a| {
          assert t[j] == b[j - |a|];
          assert t[j].record == Record(start + (k - 1) + 1, ms[k - 1]);
        } else {
          assert t[j] == a[j];
          var i :| 0 <= i < k - 1 && a[j].record == Record(start + i + 1, ms[i]);
        }
      }
    }
  }

  /** The telemetry of every run matches its passes: each published record
      directly follows the Measured event of its pass, with its counter and
      status, and is the record of one of the run's passes, built from that
      pass's counter and its input's readings as classified by the zone
      table, with that reading's percentage. */
  lemma PublishedRecordsMatch(start: int, inputs: seq<PassInput>, sleepTime: int, hasRtc: bool)
    ensures PublishesFollowMeasured(Run(start, inputs, sleepTime, hasRtc))
    ensures var t := Run(start, inputs, sleepTime, hasRtc);
      forall j :: 0 <= j < |t| && t[j].Published? ==>
        exists i :: 0 <= i < Passes(inputs, sleepTime) && t[j].record == Record(start + i + 1, Measure(inputs[i]))
  {
    var ms := Measurements(inputs);
    var p := Passes(inputs, sleepTime);
    TracePublishes(start, ms, p, sleepTime, hasRtc);
    TraceRecords(start, ms, p, sleepTime, hasRtc);
    forall i | 0 <= i < p {
      MeasurementsAt(inputs, i);
    }
  }

  /** No save and no sleep event among the first `n` events. */
  predicate QuietUpTo(trace: seq<Event>, n: int) {
    forall j :: 0 <= j < n && j < |trace| ==> !trace[j].SavedCounter? && trace[j] != DeepSleep
  }

  /** No save and no sleep event at all. */
  predicate Quiet(trace: seq<Event>) {
    QuietUpTo(trace, |trace|)
  }

  lemma QuietAppend(a: seq<Event>, b: seq<Event>, n: int)
    requires Quiet(a) && QuietUpTo(b, n)
    ensures QuietUpTo(a + b, |a| + n)
  {
    var t := a + b;
    forall j | 0 <= j < |a| + n && j < |t|
      ensures !t[j].SavedCounter? && t[j] != DeepSleep
    {
      if j >= |a| {
        assert t[j] == b[j - |a|];
      } else {
        assert t[j] == a[j];
      }
    }
  }

  /** A pass that sleeps ends with the save and the sleep and has neither
      before them; any other pass has neither. */
  lemma PassEnd(n: int, m: Measurement, sleepTime: int, hasRtc: bool)
    ensures var b := Pass(n, m, sleepTime, hasRtc);
      && (Sleeps(m.input, sleepTime) ==>
          |b| >= 2 && QuietUpTo(b, |b| - 2) && b[|b| - 2] == SavedCounter(n, Stored(hasRtc, n)) && b[|b| - 1] == DeepSleep)
      && (!Sleeps(m.input, sleepTime) ==> Quiet(b))
  {
  }

  lemma {:induction false} TraceQuiet(start: int, ms: seq<Measurement>, k: nat, sleepTime: int, hasRtc: bool)
    requires k <= |ms|
    requires forall j :: 0 <= j < k ==> !Sleeps(ms[j].input, sleepTime)
    ensures Quiet(Trace(start, ms, k, sleepTime, hasRtc))
  {
    if k > 0 {
      var a, b := Trace(start, ms, k - 1, sleepTime, hasRtc), Pass(start + k, ms[k - 1], sleepTime, hasRtc);
      assert Trace(start, ms, k, sleepTime, hasRtc) == a + b;
      TraceQuiet(start, ms, k - 1, sleepTime, hasRtc);
      PassEnd(start + k, ms[k - 1], sleepTime, hasRtc);
      QuietAppend(a, b, |b|);
    }
  }

  /** Saving and sleeping happen only at the end of a run: save_counter is
      called only in a pass whose button was not pressed and with a sleep
      time configured, it saves that pass's counter, and it comes directly
      before deep sleep, the last event. Every other pass, where the button
      was pressed or no sleep time is configured, saves nothing. */
  lemma SaveOnlyBeforeSleep(start: int, inputs: seq<PassInput>, sleepTime: int, hasRtc: bool)
    ensures var t := Run(start, inputs, sleepTime, hasRtc);
      var n := start + Passes(inputs, sleepTime);
      && (EndsInSleep(inputs, sleepTime) ==>
          && |t| >= 2 && QuietUpTo(t, |t| - 2)
          && t[|t| - 2] == SavedCounter(n, Stored(hasRtc, n)) && t[|t| - 1] == DeepSleep)
      && (!EndsInSleep(inputs, sleepTime) ==> Quiet(t))
  {
    var p := Passes(inputs, sleepTime);
    if p > 0 {
      PassesStop(inputs, sleepTime);
      MeasurementsInputs(inputs);
      TraceEnd(start, Measurements(inputs), p, sleepTime, hasRtc);
    }
  }

  lemma TraceEnd(start: int, ms: seq<Measurement>, p: nat, sleepTime: int, hasRtc: bool)
    requires 0 < p <= |ms|
    requires forall j :: 0 <= j < p - 1 ==> !Sleeps(ms[j].input, sleepTime)
    ensures var t := Trace(start, ms, p, sleepTime, hasRtc);
      && (Sleeps(ms[p - 1].input, sleepTime) ==>
          && |t| >= 2 && QuietUpTo(t, |t| - 2)
          && t[|t| - 2] == SavedCounter(start + p, Stored(hasRtc, start + p)) && t[|t| - 1] == DeepSleep)
      && (!Sleeps(ms[p - 1].input, sleepTime) ==> Quiet(t))
  {
    var a, b := Trace(start, ms, p - 1, sleepTime, hasRtc), Pass(start + p, ms[p - 1], sleepTime, hasRtc);
    assert Trace(start, ms, p, sleepTime, hasRtc) == a + b;
    TraceQuiet(start, ms, p - 1, sleepTime, hasRtc);
    PassEnd(start + p, ms[p - 1], sleepTime, hasRtc);
    if Sleeps(ms[p - 1].input, sleepTime) {
      QuietAppend(a, b, |b| - 2);
      assert (a + b)[|a + b| - 2] == b[|b| - 2] && (a + b)[|a + b| - 1] == b[|b| - 1];
    } else {
      QuietAppend(a, b, |b|);
    }
  }

  /** With the firmware's SLEEP_TIME every pass whose poll sees no press
      ends in deep sleep, and the continuous branch is never taken. */
  lemma FirmwareSleepsUnlessPressed(input: PassInput, n: int, m: Measurement, hasRtc: bool)
    requires m.input == input
    ensures Sleeps(input, SleepTime) <==> !Pressed(input.button)
    ensures Continuous !in Pass(n, m, SleepTime, hasRtc)
  {
  }

  /** After deep sleep the next boot resumes the count: a deep-sleep reset
      loads exactly the counter the last pass saved, whenever it fitted. */
  lemma ResumeAfterSleep(count: int)
    requires 0 <= count < RetainedCounter.CounterLimit
    ensures StartCount(DeepSleepReset, Some(RetainedCounter.EncodeCounter(count).value)) == count
  {
    RetainedCounter.CounterRoundTrip(count);
  }
}
