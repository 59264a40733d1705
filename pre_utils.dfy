/** Helpers of the airport pre-processing: time differences between timestamps, turnaround
    durations and the thresholds on them, flight status, daytime buckets, the order of a
    turnaround's events, the pairing of a closing and a starting event, and the labels given to
    turnaround events. Timestamps and times of day are whole microseconds. */
module PreUtils {
  import opened Wrappers
  import opened Seqs

  const MicrosPerMinute := 60000000
  const MicrosPerHour := 60 * MicrosPerMinute
  const MicrosPerDay := 24 * MicrosPerHour

  // ---------------------------------------------------------------- get_absolute_time_difference

  /** The units get_absolute_time_difference knows; any other string means seconds. */
  datatype TimeUnit = Minutes | Hours | Days | Seconds

  function UnitOf(unit: string): TimeUnit {
    if unit == "min" then Minutes
    else if unit == "hour" then Hours
    else if unit == "day" then Days
    else Seconds
  }

  /** The length of one unit in microseconds. A difference in seconds is a Python float;
      here it is kept exact, in microseconds. */
  function UnitLength(u: TimeUnit): nat {
    match u
    case Minutes => MicrosPerMinute
    case Hours => MicrosPerHour
    case Days => MicrosPerDay
    case Seconds => 1
  }

  /** The distance between two instants. */
  function Distance(t1: int, t2: int): nat {
    if t1 >= t2 then t1 - t2 else t2 - t1
  }

  /** get_absolute_time_difference: the number of whole units between the two instants. Minutes
      are truncated by int(), hours floored by //, days are timedelta.days; all three agree
      because the difference is never negative. */
  function AbsoluteTimeDifference(time1: int, time2: int, unit: string): (r: nat)
    ensures r * UnitLength(UnitOf(unit)) <= Distance(time1, time2) < (r + 1) * UnitLength(UnitOf(unit))
  {
    var difference := if time1 > time2 then time1 - time2 else time2 - time1;
    DivisionBounds(difference, UnitLength(UnitOf(unit)));
    match UnitOf(unit)
    case Minutes => difference / MicrosPerMinute
    case Hours => difference / MicrosPerHour
    case Days => difference / MicrosPerDay
    case Seconds => difference
  }

  lemma DivisionBounds(d: nat, len: nat)
    requires len > 0
    ensures (d / len) * len <= d < (d / len + 1) * len
  {
  }

  /** The difference does not depend on the order of the instants. */
  lemma DifferenceSymmetric(time1: int, time2: int, unit: string)
    ensures AbsoluteTimeDifference(time1, time2, unit) == AbsoluteTimeDifference(time2, time1, unit)
  {
  }

  /** At least `n` whole units apart exactly when the distance is at least `n` units. */
  lemma {:induction false} UnitsAtLeast(time1: int, time2: int, unit: string, n: int)
    ensures AbsoluteTimeDifference(time1, time2, unit) >= n <==> Distance(time1, time2) >= n * UnitLength(UnitOf(unit))
  {
    var len := UnitLength(UnitOf(unit));
    var r := AbsoluteTimeDifference(time1, time2, unit);
    if r >= n {
      if n > 0 {
        assert n * len <= r * len;
      }
    } else {
      assert (r + 1) * len <= n * len;
    }
  }

  // ---------------------------------------------------------------- turnaround durations

  /** A row of the gate event log. */
  datatype GateEvent = GateEvent(turnaround: string, kind: string, time: int)

  /** The timestamps of one turnaround's events, in log order: its group in groupby. */
  function TimesOf(log: seq<GateEvent>, tid: string): seq<int> {
    if log == [] then []
    else
      var last := log[|log| - 1];
      TimesOf(log[..|log| - 1], tid) + if last.turnaround == tid then [last.time] else []
  }

  lemma {:induction false} TimesOfPresent(log: seq<GateEvent>, e: GateEvent)
    requires e in log
    ensures TimesOf(log, e.turnaround) != []
    decreases |log|
  {
    var init := log[..|log| - 1];
    if log[|log| - 1] != e {
      assert log == init + [log[|log| - 1]];
      TimesOfPresent(init, e);
    }
  }

  /** gate_turnaround_duration for one turnaround: from its first logged event to its last. */
  function Duration(times: seq<int>, unit: string): nat
    requires times != []
  {
    AbsoluteTimeDifference(times[0], times[|times| - 1], unit)
  }

  /** remove_overnight: drop every event of a turnaround whose duration, in whole hours, is at
      least `overnightHour` (6 by default). */
  function RemoveOvernight(log: seq<GateEvent>, overnightHour: int): seq<GateEvent> {
    Kept(log, log, overnightHour)
  }

  /** The rows of `rows` whose turnaround, as logged in `log`, is not overnight. */
  function Kept(rows: seq<GateEvent>, log: seq<GateEvent>, overnightHour: int): seq<GateEvent> {
    if rows == [] then []
    else
      var e := rows[|rows| - 1];
      var times := TimesOf(log, e.turnaround);
      Kept(rows[..|rows| - 1], log, overnightHour)
        + if times == [] || Duration(times, "hour") < overnightHour then [e] else []
  }

  lemma {:induction false} KeptMembers(rows: seq<GateEvent>, log: seq<GateEvent>, overnightHour: int, e: GateEvent)
    requires e in log
    ensures TimesOf(log, e.turnaround) != []
    ensures e in Kept(rows, log, overnightHour) <==> e in rows && Duration(TimesOf(log, e.turnaround), "hour") < overnightHour
    decreases |rows|
  {
    TimesOfPresent(log, e);
    if rows != [] {
      var init := rows[..|rows| - 1];
      KeptMembers(init, log, overnightHour, e);
      assert rows == init + [rows[|rows| - 1]];
    }
  }

  /** An event survives remove_overnight exactly when its turnaround spans less than
      `overnightHour` hours from first to last event. */
  lemma RemoveOvernightMeaning(log: seq<GateEvent>, overnightHour: int, e: GateEvent)
    requires e in log
    ensures TimesOf(log, e.turnaround) != []
    ensures var times := TimesOf(log, e.turnaround);
      e in RemoveOvernight(log, overnightHour) <==> Distance(times[0], times[|times| - 1]) < overnightHour * MicrosPerHour
  {
    TimesOfPresent(log, e);
    KeptMembers(log, log, overnightHour, e);
    var times := TimesOf(log, e.turnaround);
    UnitsAtLeast(times[0], times[|times| - 1], "hour", overnightHour);
  }

  /** find_performance: 'H' (high) for a turnaround of at most 75 whole minutes, 'L' otherwise. */
  function Performance(times: seq<int>): char
    requires times != []
  {
    if Duration(times, "min") <= 75 then 'H' else 'L'
  }

  /** Because minutes are truncated, a turnaround is high-performing up to, but not including,
      76 minutes. */
  lemma PerformanceHigh(times: seq<int>)
    requires times != []
    ensures Performance(times) == 'H' <==> Distance(times[0], times[|times| - 1]) < 76 * MicrosPerMinute
  {
    UnitsAtLeast(times[0], times[|times| - 1], "min", 76);
  }

  // ---------------------------------------------------------------- get_status

  datatype Status = Delayed | OnTime | Early

  /** The tag written before the event name. */
  function StatusName(s: Status): string {
    match s
    case Delayed => "delayed"
    case OnTime => "ontime"
    case Early => "early"
  }

  /** Fifteen minutes either side of the schedule. */
  const Tolerance := 15 * MicrosPerMinute

  /** get_status on two times of the same day: diff is scheduled minus actual. */
  function GetStatus(scheduled: int, actual: int): (s: Status)
    ensures s == Delayed <==> actual > scheduled + Tolerance
    ensures s == Early <==> actual <= scheduled - Tolerance
    ensures s == OnTime <==> scheduled - Tolerance < actual <= scheduled + Tolerance
  {
    var diff := scheduled - actual;
    if diff < -Tolerance then Delayed
    else if diff >= -Tolerance && diff < Tolerance then OnTime
    else Early
  }

  function StatusRank(s: Status): nat {
    match s
    case Delayed => 0
    case OnTime => 1
    case Early => 2
  }

  /** Arriving or leaving later never gives a better status. */
  lemma StatusMonotone(scheduled: int, actual1: int, actual2: int)
    requires actual1 <= actual2
    ensures StatusRank(GetStatus(scheduled, actual2)) <= StatusRank(GetStatus(scheduled, actual1))
  {
  }

  // ---------------------------------------------------------------- daytime buckets of flatten_flights

  datatype Daytime = Morning | Afternoon | Evening | Night

  /** The bucket of an hour: [5,12) morning, [12,17) afternoon, [17,21) evening, otherwise night. */
  function DaytimeOf(hour: int): Daytime {
    if hour >= 5 && hour < 12 then Morning
    else if hour >= 12 && hour < 17 then Afternoon
    else if hour >= 17 && hour < 21 then Evening
    else Night
  }

  /** The hour flatten_flights buckets: the arrival's actual hour when the turnaround has an
      arrival, otherwise the departure's, otherwise -1. */
  function FlightHour(arrivalHour: Option<int>, departureHour: Option<int>): int {
    if arrivalHour.Some? then arrivalHour.value
    else if departureHour.Some? then departureHour.value
    else -1
  }

  function DaytimeRank(d: Daytime): nat {
    match d
    case Morning => 0
    case Afternoon => 1
    case Evening => 2
    case Night => 3
  }

  /** The daytime of a turnaround: decided by the arrival whenever there is one; night when
      there is no flight at all; and between 5 and 21 o'clock the buckets follow the clock. */
  lemma FlightDaytime(arrivalHour: Option<int>, departureHour: Option<int>, h1: int, h2: int)
    ensures arrivalHour.Some? ==> DaytimeOf(FlightHour(arrivalHour, departureHour)) == DaytimeOf(arrivalHour.value)
    ensures arrivalHour.None? && departureHour.None? ==> DaytimeOf(FlightHour(arrivalHour, departureHour)) == Night
    ensures 5 <= h1 <= h2 < 21 ==> DaytimeRank(DaytimeOf(h1)) <= DaytimeRank(DaytimeOf(h2))
    ensures (DaytimeOf(h1) == Night) <==> (h1 < 5 || h1 >= 21)
  {
  }

  // ---------------------------------------------------------------- get_order_of_event_by_timestamp

  /** The loop of get_order_of_event_by_timestamp over the Type column of the turnaround's events,
      already sorted by timestamp. */
  method OrderOfEvents(types: seq<string>) returns (unique: seq<string>)
    ensures unique == Dedup(types)
    ensures Distinct(unique) && forall e :: e in unique <==> e in types
  {
    unique := [];
    for i := 0 to |types|
      invariant unique == Dedup(types[..i])
    {
      assert types[..i + 1][..i] == types[..i];
      if types[i] !in unique {
        unique := unique + [types[i]];
      }
    }
    assert types[..|types|] == types;
    forall e ensures e in unique <==> e in types {
      assert e in unique <==> e in ToSet(unique);
      assert e in types <==> e in ToSet(types);
    }
  }

  // ---------------------------------------------------------------- get_match_in_delta_dict

  /** An event of a turnaround, of some type, at some time. */
  datatype TimedEvent = TimedEvent(kind: string, time: int)

  /** The position of the first event of type `kind`, or |s| when there is none. */
  function FirstOfKind(s: seq<TimedEvent>, kind: string): (k: nat)
    ensures k <= |s| && (k < |s| ==> s[k].kind == kind)
    ensures forall j | 0 <= j < k :: s[j].kind != kind
  {
    if s == [] then 0 else if s[0].kind == kind then 0 else 1 + FirstOfKind(s[1..], kind)
  }

  /** get_match_in_delta_dict: the nested loop over the descending events `tD` and the ascending
      events `tA` returns the first pair it meets with the closing type on the left and the
      starting type on the right. */
  method GetMatchInDeltaDict(aClosing: string, bStarting: string, tA: seq<TimedEvent>, tD: seq<TimedEvent>)
    returns (r: Option<(TimedEvent, TimedEvent)>)
    ensures r.Some? <==> FirstOfKind(tD, aClosing) < |tD| && FirstOfKind(tA, bStarting) < |tA|
    ensures r.Some? ==> r.value == (tD[FirstOfKind(tD, aClosing)], tA[FirstOfKind(tA, bStarting)])
  {
    for i := 0 to |tD|
      invariant forall k | 0 <= k < i :: tD[k].kind != aClosing || FirstOfKind(tA, bStarting) == |tA|
    {
      for j := 0 to |tA|
        invariant forall k | 0 <= k < j :: tD[i].kind != aClosing || tA[k].kind != bStarting
      {
        if tD[i].kind == aClosing && tA[j].kind == bStarting {
          return Some((tD[i], tA[j]));
        }
      }
    }
    return None;
  }

  function Reverse<T>(s: seq<T>): (r: seq<T>)
    ensures |r| == |s| && forall k | 0 <= k < |s| :: r[k] == s[|s| - 1 - k]
  {
    seq(|s|, k requires 0 <= k < |s| => s[|s| - 1 - k])
  }

  /** With `tD` the reverse of `tA`, the closing event found is the last one of its type in
      `tA`, and the starting event the first one of its type. */
  lemma MatchIsLastClosing(aClosing: string, bStarting: string, tA: seq<TimedEvent>)
    requires FirstOfKind(Reverse(tA), aClosing) < |tA|
    ensures var k := |tA| - 1 - FirstOfKind(Reverse(tA), aClosing);
      Reverse(tA)[FirstOfKind(Reverse(tA), aClosing)] == tA[k] && tA[k].kind == aClosing
      && forall j | k < j < |tA| :: tA[j].kind != aClosing
  {
    var tD := Reverse(tA);
    var f := FirstOfKind(tD, aClosing);
    forall j | |tA| - 1 - f < j < |tA| ensures tA[j].kind != aClosing {
      assert tD[|tA| - 1 - j] == tA[j];
    }
  }

  // ---------------------------------------------------------------- labels of label_turnarounds

  /** Where an event's value falls against the group's lower and upper quantiles. */
  datatype Band = Below | Within | Above

  function BandOf(value: real, lower: real, upper: real): Band {
    if value < lower then Below else if value > upper then Above else Within
  }

  /** The label of an event: the key looked up in event_to_code and the text shown. */
  datatype Label = Label(key: string, shown: string)

  const EnteredStand := "Aircraft entered stand"
  const LeftStand := "Aircraft left stand"

  /** The prefix of the key. */
  function KeyPrefix(b: Band, delta: bool): string {
    match b
    case Below => if delta then "short " else "early "
    case Above => if delta then "long " else "delayed "
    case Within => "ontime "
  }

  /** The prefix of the text shown: as the key, but the middle band is spelled "on-time ". */
  function ShownPrefix(b: Band, delta: bool): string {
    if b == Within then "on-time " else KeyPrefix(b, delta)
  }

  /** The label of one event of a turnaround. `arrival` and `departure` hold the scheduled and
      actual times when the scheduled one is known; the stand entry and exit are then labelled
      by flight status, every other event by its band. */
  function EventLabel(event: string, value: real, lower: real, upper: real, delta: bool,
                      arrival: Option<(int, int)>, departure: Option<(int, int)>): Label
  {
    if event == EnteredStand && arrival.Some? then
      var tag := StatusName(GetStatus(arrival.value.0, arrival.value.1)) + " " + event;
      Label(tag, tag)
    else if event == LeftStand && departure.Some? then
      var tag := StatusName(GetStatus(departure.value.0, departure.value.1)) + " " + event;
      Label(tag, tag)
    else
      var b := BandOf(value, lower, upper);
      Label(KeyPrefix(b, delta) + event, ShownPrefix(b, delta) + event)
  }

  /** Whether the label comes from the flight status rather than the band. */
  predicate ByStatus(event: string, arrival: Option<(int, int)>, departure: Option<(int, int)>) {
    (event == EnteredStand && arrival.Some?) || (event == LeftStand && departure.Some?)
  }

  /** The key and the text shown differ exactly for band-labelled events in the middle band,
      where the key says "ontime " and the text "on-time ". */
  lemma LabelSpelling(event: string, value: real, lower: real, upper: real, delta: bool,
                      arrival: Option<(int, int)>, departure: Option<(int, int)>)
    ensures var l := EventLabel(event, value, lower, upper, delta, arrival, departure);
      l.key != l.shown <==> !ByStatus(event, arrival, departure) && BandOf(value, lower, upper) == Within
  {
    var l := EventLabel(event, value, lower, upper, delta, arrival, departure);
    if !ByStatus(event, arrival, departure) && BandOf(value, lower, upper) == Within {
      assert l.key[2] == 't' && l.shown[2] == '-';
    }
  }

  /** A band-labelled event is early or short below the lower quantile, delayed or long above
      the upper one, and on time otherwise. */
  lemma LabelBands(event: string, value: real, lower: real, upper: real, delta: bool,
                   arrival: Option<(int, int)>, departure: Option<(int, int)>)
    requires !ByStatus(event, arrival, departure)
    ensures var l := EventLabel(event, value, lower, upper, delta, arrival, departure);
      && (value < lower ==> l.key == (if delta then "short " else "early ") + event)
      && (lower <= value && value > upper ==> l.key == (if delta then "long " else "delayed ") + event)
      && (lower <= value <= upper ==> l.key == "ontime " + event && l.shown == "on-time " + event)
  {
  }
}
