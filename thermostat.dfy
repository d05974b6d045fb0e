/** `EbusThermostatSwitcher`: once per pass it decides whether the heating controller's room
    thermostat input should be in "thermostat" (on/off) or "modulating" mode, from the average
    outside temperature, a list of daily time windows and the recent desired-flow-temperature
    setpoints. Times of day and periods are `TimeSpan` ticks, timestamps `DateTime` ticks. */
module Thermostat {
  import opened Wrappers

  const TicksPerDay: int := 864_000_000_000

  /** `EbusMeter.TimeRange`: a window of the day, both ends included. */
  datatype TimeRange = TimeRange(on: int, off: int)

  /** A time-series entry: its timestamp and its (double) value. */
  datatype Entry = Entry(timestamp: int, value: real)

  /** The fields of the `meters/ebus` document the switcher reads. */
  datatype Config = Config(
    switchThermostat: bool,
    permanentSwitchTemperature: real,
    switchTimePeriods: seq<TimeRange>,
    minimumOnPeriod: int,
    minimumOffPeriod: int)

  predicate InRange(t: int, p: TimeRange) {
    p.on <= t <= p.off
  }

  /** Some window of the list contains `t`. */
  predicate Covered(t: int, periods: seq<TimeRange>) {
    exists i :: 0 <= i < |periods| && InRange(t, periods[i])
  }

  /** `InOffPeriod`: scan the windows in order and answer false at the first one containing the
      time of day; true when none does. */
  method InOffPeriod(timeOfDay: int, switchTimePeriods: seq<TimeRange>) returns (off: bool)
    ensures off <==> !Covered(timeOfDay, switchTimePeriods)
  {
    for i := 0 to |switchTimePeriods|
      invariant forall k :: 0 <= k < i ==> !InRange(timeOfDay, switchTimePeriods[k])
    {
      var period := switchTimePeriods[i];
      if period.on <= timeOfDay && timeOfDay <= period.off {
        return false;
      }
    }
    return true;
  }

  /** A window whose start is after its end contains no time at all: windows do not wrap past
      midnight, and an empty list leaves every time in the off period. */
  lemma InvertedWindowNeverCovers(t: int, p: TimeRange, periods: seq<TimeRange>)
    requires p.on > p.off
    ensures Covered(t, [p] + periods) <==> Covered(t, periods)
    ensures !Covered(t, [])
  {
    if Covered(t, [p] + periods) {
      var i :| 0 <= i < |[p] + periods| && InRange(t, ([p] + periods)[i]);
      assert InRange(t, periods[i - 1]);
    }
    if Covered(t, periods) {
      var i :| 0 <= i < |periods| && InRange(t, periods[i]);
      assert InRange(t, ([p] + periods)[i + 1]);
    }
  }

  /** `Max` of two `TimeSpan`s. */
  function Max(ts1: int, ts2: int): (r: int)
    ensures r == ts1 || r == ts2
    ensures r >= ts1 && r >= ts2
  {
    if ts1 >= ts2 then ts1 else ts2
  }

  lemma MaxCommutes(ts1: int, ts2: int)
    ensures Max(ts1, ts2) == Max(ts2, ts1)
  {
  }

  /** `YoungerThan`: the entries strictly after the cutoff, in their order. */
  function YoungerThan(entries: seq<Entry>, cutoff: int): (r: seq<Entry>)
    ensures |r| <= |entries|
    ensures forall e :: e in r <==> e in entries && e.timestamp > cutoff
  {
    if entries == [] then []
    else
      var rest := YoungerThan(entries[1..], cutoff);
      assert forall e :: e in entries <==> e == entries[0] || e in entries[1..];
      if entries[0].timestamp > cutoff then [entries[0]] + rest else rest
  }

  /** Filtering a concatenation filters each part: the kept entries keep their relative order. */
  lemma {:induction false} YoungerThanAppend(a: seq<Entry>, b: seq<Entry>, cutoff: int)
    ensures YoungerThan(a + b, cutoff) == YoungerThan(a, cutoff) + YoungerThan(b, cutoff)
  {
    if a != [] {
      assert (a + b)[1..] == a[1..] + b;
      YoungerThanAppend(a[1..], b, cutoff);
    } else {
      assert a + b == b;
    }
  }

  /** An entry at or before the cutoff is dropped, one after it is kept. */
  lemma YoungerThanSingle(e: Entry, cutoff: int)
    ensures YoungerThan([e], cutoff) == if e.timestamp > cutoff then [e] else []
  {
    assert [e][1..] == [];
  }

  predicate AllOn(entries: seq<Entry>) {
    forall i :: 0 <= i < |entries| ==> entries[i].value > 0.0
  }

  predicate AllOff(entries: seq<Entry>) {
    forall i :: 0 <= i < |entries| ==> entries[i].value <= 0.0
  }

  datatype Setting = ThermostatMode | Modulating

  function SettingName(s: Setting): string {
    match s
    case ThermostatMode => "thermostat"
    case Modulating => "modulating"
  }

  /** How a pass of `DoWork` ends. */
  datatype Decision =
    | NoConfig                // no `meters/ebus` document
    | Disabled                // `SwitchThermostat` is off
    | NotEnoughData           // fewer than ten setpoints in the window
    | SwitchTo(setting: Setting)
    | KeepSetting             // neither a long run nor a long off time

  const MinimumSamples: int := 10

  /** The start of the setpoint query: `now` minus the longer of the two minimum periods. */
  function QueryStart(doc: Config, now: int): int {
    now - Max(doc.minimumOnPeriod, doc.minimumOffPeriod)
  }

  /** Filtering by an earlier cutoff first keeps every entry a later cutoff keeps. */
  lemma {:induction false} YoungerThanNested(entries: seq<Entry>, early: int, late: int)
    requires early <= late
    ensures YoungerThan(YoungerThan(entries, early), late) == YoungerThan(entries, late)
  {
    if entries != [] {
      YoungerThanNested(entries[1..], early, late);
      var rest := YoungerThan(entries[1..], early);
      if entries[0].timestamp > early {
        assert YoungerThan(entries, early) == [entries[0]] + rest;
        assert ([entries[0]] + rest)[1..] == rest;
      }
    }
  }

  /** The store returns the entries from `QueryStart` on (inclusive, on whole ticks), and that is
      enough: both the on-period and the off-period windows select from it exactly what they would
      select from the whole history. */
  lemma QueryCoversBothWindows(doc: Config, now: int, history: seq<Entry>)
    ensures var fetched := YoungerThan(history, QueryStart(doc, now) - 1);
      && YoungerThan(fetched, now - doc.minimumOnPeriod) == YoungerThan(history, now - doc.minimumOnPeriod)
      && YoungerThan(fetched, now - doc.minimumOffPeriod) == YoungerThan(history, now - doc.minimumOffPeriod)
  {
    YoungerThanNested(history, QueryStart(doc, now) - 1, now - doc.minimumOnPeriod);
    YoungerThanNested(history, QueryStart(doc, now) - 1, now - doc.minimumOffPeriod);
  }

  /** The decision of `DoWork`, given the document, the thermostat's average outside temperature,
      the current UTC time in ticks and the setpoints the store returns from `QueryStart` on. */
  function Decide(doc: Option<Config>, outside: real, now: nat, setpoints: seq<Entry>): Decision
  {
    if doc.None? then NoConfig
    else if !doc.value.switchThermostat then Disabled
    else if outside > doc.value.permanentSwitchTemperature
         && !Covered(now % TicksPerDay, doc.value.switchTimePeriods)
    then SwitchTo(ThermostatMode)
    else if |setpoints| < MinimumSamples then NotEnoughData
    else if AllOn(YoungerThan(setpoints, now - doc.value.minimumOnPeriod)) then SwitchTo(ThermostatMode)
    else if AllOff(YoungerThan(setpoints, now - doc.value.minimumOffPeriod)) then SwitchTo(Modulating)
    else KeepSetting
  }

  /** The method form of `DoWork`'s decision, with `InOffPeriod` as a loop. */
  method DoWork(doc: Option<Config>, outside: real, now: nat, setpoints: seq<Entry>) returns (d: Decision)
    ensures d == Decide(doc, outside, now, setpoints)
  {
    if doc.None? {
      return NoConfig;
    }
    var config := doc.value;
    if !config.switchThermostat {
      return Disabled;
    }
    var off := InOffPeriod(now % TicksPerDay, config.switchTimePeriods);
    if outside > config.permanentSwitchTemperature && off {
      return SwitchTo(ThermostatMode);
    }
    if |setpoints| < MinimumSamples {
      return NotEnoughData;
    }
    if AllOn(YoungerThan(setpoints, now - config.minimumOnPeriod)) {
      return SwitchTo(ThermostatMode);
    } else if AllOff(YoungerThan(setpoints, now - config.minimumOffPeriod)) {
      return SwitchTo(Modulating);
    }
    return KeepSetting;
  }

  /** Warm weather outside every switch window forces thermostat mode, whatever the setpoints. */
  lemma WarmOutsideWindowsSwitchesToThermostat(doc: Config, outside: real, now: nat, setpoints: seq<Entry>)
    requires doc.switchThermostat && outside > doc.permanentSwitchTemperature
    requires doc.switchTimePeriods == []
    ensures Decide(Some(doc), outside, now, setpoints) == SwitchTo(ThermostatMode)
  {
    InvertedWindowNeverCovers(now % TicksPerDay, TimeRange(1, 0), []);
  }

  /** Otherwise fewer than ten setpoints never lead to a switch. */
  lemma FewSamplesNeverSwitch(doc: Config, outside: real, now: nat, setpoints: seq<Entry>)
    requires doc.switchThermostat && |setpoints| < MinimumSamples
    requires outside <= doc.permanentSwitchTemperature
    ensures Decide(Some(doc), outside, now, setpoints) == NotEnoughData
  {
  }

  /** The long-run test comes first: a window with no recent setpoint at all counts as a long run,
      even when the setpoints also show a long off time. */
  lemma EmptyRecentWindowMeansLongRun(doc: Config, outside: real, now: nat, setpoints: seq<Entry>)
    requires doc.switchThermostat && |setpoints| >= MinimumSamples
    requires outside <= doc.permanentSwitchTemperature
    requires forall i :: 0 <= i < |setpoints| ==> setpoints[i].timestamp <= now - doc.minimumOnPeriod
    ensures Decide(Some(doc), outside, now, setpoints) == SwitchTo(ThermostatMode)
  {
    var recent := YoungerThan(setpoints, now - doc.minimumOnPeriod);
    if recent != [] {
      assert recent[0] in setpoints;
    }
  }

  /** With enough setpoints, all of them off and at least one inside the on-period, the unit is
      switched to modulating mode. */
  lemma LongOffSwitchesToModulating(doc: Config, outside: real, now: nat, setpoints: seq<Entry>, k: nat)
    requires doc.switchThermostat && |setpoints| >= MinimumSamples
    requires outside <= doc.permanentSwitchTemperature
    requires AllOff(setpoints)
    requires k < |setpoints| && setpoints[k].timestamp > now - doc.minimumOnPeriod
    ensures Decide(Some(doc), outside, now, setpoints) == SwitchTo(Modulating)
  {
    var recentOn := YoungerThan(setpoints, now - doc.minimumOnPeriod);
    assert !AllOn(recentOn) by {
      assert setpoints[k] in recentOn;
      var j :| 0 <= j < |recentOn| && recentOn[j] == setpoints[k];
    }
    var recentOff := YoungerThan(setpoints, now - doc.minimumOffPeriod);
    assert AllOff(recentOff) by {
      forall i | 0 <= i < |recentOff| ensures recentOff[i].value <= 0.0 {
        assert recentOff[i] in setpoints;
      }
    }
  }

  /** `SwitchTo`: the `ebusctl` arguments it runs, or nothing when the thermostat already reports
      the desired setting. */
  function SwitchCommand(desiredSetting: string, actualSetting: string): (r: Option<string>)
    ensures r.None? <==> desiredSetting == actualSetting
    ensures r.Some? ==> r.value == "write -c 720 Hc1RoomTempSwitchOn " + desiredSetting
  {
    if desiredSetting == actualSetting then None
    else Some("write -c 720 Hc1RoomTempSwitchOn " + desiredSetting)
  }

  /** Once the write has taken effect, asking for the same setting again writes nothing. */
  lemma SwitchCommandIdempotent(desired: Setting, actual: string)
    ensures SwitchCommand(SettingName(desired), SettingName(desired)) == None
    ensures SwitchCommand(SettingName(desired), actual).Some? ==> actual != SettingName(desired)
  {
  }
}
