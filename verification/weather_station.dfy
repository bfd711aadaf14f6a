/**
  The weather-station observer: a station keeps a list of observers and the
  last measurements, and on every new measurement calls each observer's
  `Update` in list order. Two displays observe it: one shows the current
  conditions, the other keeps running statistics of the temperature.
  Measurements are whole numbers here.
 */
module WeatherMonitoring {
  import opened Linq
  import opened Text

  /** An observer's identity; the station's list compares observers by reference. */
  type ObserverId = nat

  datatype Reading = Reading(temperature: int, humidity: int, pressure: int)

  /** The station's observer list and its last measurements. */
  datatype Station = Station(observers: seq<ObserverId>, current: Reading)

  /** `new WeatherStation()`: no observers, and measurements at their default of zero. */
  const NewStation: Station := Station([], Reading(0, 0, 0))

  /** `RegisterObserver`: appended at the end; an observer already in the list is added again. */
  function RegisterObserver(s: Station, o: ObserverId): (r: Station)
    ensures |r.observers| == |s.observers| + 1 && r.observers[|s.observers|] == o
    ensures r.observers[..|s.observers|] == s.observers
    ensures r.current == s.current
  {
    s.(observers := s.observers + [o])
  }

  /** `List.Remove`: deletes the first occurrence of `o`, if there is one, and nothing else. */
  function RemoveFirst(s: seq<ObserverId>, o: ObserverId): (r: seq<ObserverId>)
    ensures o !in s ==> r == s
    ensures o in s ==> |r| == |s| - 1
    decreases |s|
  {
    if |s| == 0 then []
    else if s[0] == o then s[1..] else [s[0]] + RemoveFirst(s[1..], o)
  }

  function RemoveObserver(s: Station, o: ObserverId): (r: Station)
    ensures r.current == s.current
  {
    s.(observers := RemoveFirst(s.observers, o))
  }

  /** The occurrence `RemoveFirst` deletes is the first one; the entries around it keep their order. */
  lemma {:induction false} RemoveFirstAt(s: seq<ObserverId>, o: ObserverId) returns (i: nat)
    requires o in s
    ensures i < |s| && s[i] == o
    ensures forall j :: 0 <= j < i ==> s[j] != o
    ensures RemoveFirst(s, o) == s[..i] + s[i + 1..]
    decreases |s|
  {
    if s[0] == o {
      i := 0;
    } else {
      assert s == [s[0]] + s[1..];
      assert o in s[1..];
      var k := RemoveFirstAt(s[1..], o);
      i := k + 1;
      assert RemoveFirst(s, o) == [s[0]] + RemoveFirst(s[1..], o);
      assert s[..i] == [s[0]] + s[1..][..k];
      assert s[i + 1..] == s[1..][k + 1..];
    }
  }

  /** Removal takes away exactly one occurrence of the observer, if it has one, and keeps every other entry. */
  lemma {:induction false} RemoveFirstMultiset(s: seq<ObserverId>, o: ObserverId)
    ensures multiset(RemoveFirst(s, o)) == multiset(s) - multiset{o}
    decreases |s|
  {
    if |s| > 0 {
      assert s == [s[0]] + s[1..];
      RemoveFirstMultiset(s[1..], o);
    }
  }

  /** Removing an observer that is not in front of the entries passes over them. */
  lemma {:induction false} RemoveFirstSkips(a: seq<ObserverId>, b: seq<ObserverId>, o: ObserverId)
    requires o !in a
    ensures RemoveFirst(a + b, o) == a + RemoveFirst(b, o)
    decreases |a|
  {
    if |a| > 0 {
      assert (a + b)[0] == a[0] && a[0] != o;
      assert (a + b)[1..] == a[1..] + b;
      assert RemoveFirst(a + b, o) == [a[0]] + RemoveFirst(a[1..] + b, o);
      RemoveFirstSkips(a[1..], b, o);
      assert a == [a[0]] + a[1..];
    } else {
      assert a + b == b;
    }
  }

  /** Removing an observer just registered, and not registered before, restores the station. */
  lemma RemoveUndoesRegister(s: Station, o: ObserverId)
    requires o !in s.observers
    ensures RemoveObserver(RegisterObserver(s, o), o) == s
  {
    RemoveFirstSkips(s.observers, [o], o);
  }

  /** A call of `IObserver.Update`. */
  datatype Call = Call(observer: ObserverId, reading: Reading)

  function CallWith(reading: Reading): ObserverId -> Call {
    (o: ObserverId) => Call(o, reading)
  }

  function ObserverOf(c: Call): ObserverId {
    c.observer
  }

  function ReadingOf(c: Call): Reading {
    c.reading
  }

  /** `NotifyObservers`: one `Update` per list entry, in list order, with the current measurements. */
  function NotifyObservers(s: Station): (calls: seq<Call>)
    ensures Select(calls, ObserverOf) == s.observers
    ensures forall i :: 0 <= i < |calls| ==> calls[i].reading == s.current
  {
    Select(s.observers, CallWith(s.current))
  }

  /** An observer registered last is the last one called, after everyone called before. */
  lemma NotifyAfterRegister(s: Station, o: ObserverId)
    ensures NotifyObservers(RegisterObserver(s, o)) == NotifyObservers(s) + [Call(o, s.current)]
  {
    SelectAppend(s.observers, [o], CallWith(s.current));
  }

  /**
    `SetMeasurements`: the three values are stored first, so every observer is
    called with the new ones; the observer list does not change.
   */
  function SetMeasurements(s: Station, reading: Reading): (r: (Station, seq<Call>))
    ensures r.0.observers == s.observers && r.0.current == reading
    ensures Select(r.1, ObserverOf) == s.observers
    ensures forall i :: 0 <= i < |r.1| ==> r.1[i].reading == reading
  {
    var stored := s.(current := reading);
    (stored, NotifyObservers(stored))
  }

  // ---------------------------------------------------------------------------
  // Displays
  // ---------------------------------------------------------------------------

  datatype Display =
    | CurrentConditions(shown: Reading)
    | Statistics(maxTemp: int, minTemp: int, tempSum: int, numReadings: nat)

  /** The displays as constructed: zero fields, and the statistics' starting maximum 0 and minimum 200. */
  const NewCurrentConditions: Display := CurrentConditions(Reading(0, 0, 0))
  const NewStatistics: Display := Statistics(0, 200, 0, 0)

  /** `IObserver.Update` of each display. */
  function Update(d: Display, reading: Reading): Display {
    match d
    case CurrentConditions(_) => CurrentConditions(reading)
    case Statistics(maxTemp, minTemp, tempSum, numReadings) =>
      var t := reading.temperature;
      Statistics(if t > maxTemp then t else maxTemp, if t < minTemp then t else minTemp, tempSum + t, numReadings + 1)
  }

  /** The line `CurrentConditionsDisplay.Display` prints for the values it shows. */
  function ConditionsLine(r: Reading): string {
    "Current conditions: temperature: " + (IntToString(r.temperature) + ("C, humidity: "
      + (IntToString(r.humidity) + ("%, pressure: " + (IntToString(r.pressure) + " hPa")))))
  }

  /**
    The line `Update` makes a display print: the current-conditions display
    prints the reading it now shows. The statistics display's line divides
    floats and is not modelled, so it yields `None`.
   */
  function UpdateLine(d: Display, reading: Reading): (line: Option<string>)
    ensures line.Some? <==> d.CurrentConditions?
  {
    match Update(d, reading)
    case CurrentConditions(shown) => Some(ConditionsLine(shown))
    case Statistics(_, _, _, _) => None
  }

  /** The printed line loses nothing: two readings print the same line exactly when they are equal. */
  lemma ConditionsLineIdentifiesReading(r1: Reading, r2: Reading)
    ensures ConditionsLine(r1) == ConditionsLine(r2) <==> r1 == r2
  {
    if ConditionsLine(r1) == ConditionsLine(r2) {
      var prefix := "Current conditions: temperature: ";
      var p1, p2 := IntToString(r1.pressure) + " hPa", IntToString(r2.pressure) + " hPa";
      var h1, h2 := IntToString(r1.humidity) + ("%, pressure: " + p1), IntToString(r2.humidity) + ("%, pressure: " + p2);
      var t1, t2 := IntToString(r1.temperature) + ("C, humidity: " + h1), IntToString(r2.temperature) + ("C, humidity: " + h2);
      assert t1 == (prefix + t1)[|prefix|..] == (prefix + t2)[|prefix|..] == t2;
      NumberThenText(r1.temperature, r2.temperature, "C, humidity: " + h1, "C, humidity: " + h2);
      assert h1 == ("C, humidity: " + h1)[13..] && h2 == ("C, humidity: " + h2)[13..];
      NumberThenText(r1.humidity, r2.humidity, "%, pressure: " + p1, "%, pressure: " + p2);
      assert p1 == ("%, pressure: " + p1)[13..] && p2 == ("%, pressure: " + p2)[13..];
      NumberThenText(r1.pressure, r2.pressure, " hPa", " hPa");
    }
  }

  /** Every update of a current-conditions display prints the line for the reading just delivered, and only for it. */
  lemma UpdateLineShowsReading(d: Display, r1: Reading, r2: Reading)
    requires d.CurrentConditions?
    ensures UpdateLine(d, r1) == Some(ConditionsLine(r1))
    ensures UpdateLine(d, r1) == UpdateLine(d, r2) <==> r1 == r2
  {
    ConditionsLineIdentifiesReading(r1, r2);
  }

  /** A display after it has received the readings, first to last. */
  function UpdateAll(d: Display, readings: seq<Reading>): Display
    decreases |readings|
  {
    if |readings| == 0 then d else UpdateAll(Update(d, readings[0]), readings[1..])
  }

  function TemperatureOf(r: Reading): int {
    r.temperature
  }

  /**
    The statistics after a run of readings: one more reading counted per
    reading, the temperatures added up, the maximum the largest of the
    starting maximum and every temperature, the minimum the smallest of the
    starting minimum and every temperature.
   */
  lemma {:induction false} StatisticsAfter(d: Display, readings: seq<Reading>)
    requires d.Statistics?
    ensures UpdateAll(d, readings).Statistics?
    ensures UpdateAll(d, readings).numReadings == d.numReadings + |readings|
    ensures UpdateAll(d, readings).tempSum == d.tempSum + Sum(readings, TemperatureOf)
    ensures d.maxTemp <= UpdateAll(d, readings).maxTemp
    ensures forall i :: 0 <= i < |readings| ==> readings[i].temperature <= UpdateAll(d, readings).maxTemp
    ensures UpdateAll(d, readings).maxTemp == d.maxTemp
      || exists i :: 0 <= i < |readings| && readings[i].temperature == UpdateAll(d, readings).maxTemp
    ensures UpdateAll(d, readings).minTemp <= d.minTemp
    ensures forall i :: 0 <= i < |readings| ==> UpdateAll(d, readings).minTemp <= readings[i].temperature
    ensures UpdateAll(d, readings).minTemp == d.minTemp
      || exists i :: 0 <= i < |readings| && readings[i].temperature == UpdateAll(d, readings).minTemp
    decreases |readings|
  {
    if |readings| > 0 {
      var next := Update(d, readings[0]);
      var rest := readings[1..];
      StatisticsAfter(next, rest);
      var r := UpdateAll(d, readings);
      assert r == UpdateAll(next, rest);
      forall i | 0 < i < |readings|
        ensures readings[i].temperature <= r.maxTemp && r.minTemp <= readings[i].temperature
      {
        assert readings[i] == rest[i - 1];
      }
      if r.maxTemp != next.maxTemp {
        var j :| 0 <= j < |rest| && rest[j].temperature == r.maxTemp;
        assert readings[j + 1] == rest[j];
      } else if r.maxTemp != d.maxTemp {
        assert readings[0].temperature == r.maxTemp;
      }
      if r.minTemp != next.minTemp {
        var j :| 0 <= j < |rest| && rest[j].temperature == r.minTemp;
        assert readings[j + 1] == rest[j];
      } else if r.minTemp != d.minTemp {
        assert readings[0].temperature == r.minTemp;
      }
    }
  }

  /** The current-conditions display shows the last reading it received. */
  lemma {:induction false} ConditionsAfter(d: Display, readings: seq<Reading>)
    requires d.CurrentConditions? && |readings| > 0
    ensures UpdateAll(d, readings) == CurrentConditions(readings[|readings| - 1])
    decreases |readings|
  {
    if |readings| > 1 {
      ConditionsAfter(Update(d, readings[0]), readings[1..]);
    }
  }

  // ---------------------------------------------------------------------------
  // A station with its displays
  // ---------------------------------------------------------------------------

  /** The station and every display constructed so far; a display's identity is its position. */
  datatype World = World(station: Station, displays: seq<Display>)

  /** Every registered observer is a constructed display. */
  ghost predicate Valid(w: World) {
    forall i :: 0 <= i < |w.station.observers| ==> w.station.observers[i] < |w.displays|
  }

  const NewWorld: World := World(NewStation, [])

  /** A display constructor: the new display registers itself with the station. */
  function Construct(w: World, d: Display): (r: World)
    ensures Valid(w) ==> Valid(r)
    ensures r.station == RegisterObserver(w.station, |w.displays|)
    ensures |r.displays| == |w.displays| + 1 && r.displays[|w.displays|] == d
    ensures r.displays[..|w.displays|] == w.displays
  {
    World(RegisterObserver(w.station, |w.displays|), w.displays + [d])
  }

  /** Constructs the displays one after another. */
  function ConstructAll(w: World, ds: seq<Display>): World
    decreases |ds|
  {
    if |ds| == 0 then w else ConstructAll(Construct(w, ds[0]), ds[1..])
  }

  /** Displays constructed one after another are registered in construction order, each once. */
  lemma {:induction false} ConstructAllRegisters(w: World, ds: seq<Display>)
    ensures ConstructAll(w, ds).displays == w.displays + ds
    ensures ConstructAll(w, ds).station.observers == w.station.observers + seq(|ds|, i => |w.displays| + i)
    ensures ConstructAll(w, ds).station.current == w.station.current
    decreases |ds|
  {
    if |ds| > 0 {
      var next := Construct(w, ds[0]);
      ConstructAllRegisters(next, ds[1..]);
      assert w.displays + ds == next.displays + ds[1..];
      assert seq(|ds|, i => |w.displays| + i) == [|w.displays|] + seq(|ds| - 1, i => |next.displays| + i);
    } else {
      assert seq(|ds|, i => |w.displays| + i) == [];
    }
  }

  /** The displays after the calls, made one after another. */
  function Deliver(ds: seq<Display>, calls: seq<Call>): (r: seq<Display>)
    requires forall i :: 0 <= i < |calls| ==> calls[i].observer < |ds|
    ensures |r| == |ds|
    decreases |calls|
  {
    if |calls| == 0 then ds
    else
      var o := calls[0].observer;
      Deliver(ds[o := Update(ds[o], calls[0].reading)], calls[1..])
  }

  function CalledOn(id: ObserverId): Call -> bool {
    (c: Call) => c.observer == id
  }

  /** Each display receives exactly the calls addressed to it, in order. */
  lemma {:induction false} DeliverToEach(ds: seq<Display>, calls: seq<Call>, id: nat)
    requires forall i :: 0 <= i < |calls| ==> calls[i].observer < |ds|
    requires id < |ds|
    ensures Deliver(ds, calls)[id] == UpdateAll(ds[id], Select(Where(calls, CalledOn(id)), ReadingOf))
    decreases |calls|
  {
    if |calls| > 0 {
      var o := calls[0].observer;
      var next := ds[o := Update(ds[o], calls[0].reading)];
      DeliverToEach(next, calls[1..], id);
      var mine := Where(calls[1..], CalledOn(id));
      if o == id {
        assert Where(calls, CalledOn(id)) == [calls[0]] + mine;
        assert Select([calls[0]] + mine, ReadingOf) == [calls[0].reading] + Select(mine, ReadingOf);
      } else {
        assert Where(calls, CalledOn(id)) == mine;
      }
    }
  }

  /** `SetMeasurements` on the station, with every registered display updated in list order. */
  function Measure(w: World, reading: Reading): (r: World)
    requires Valid(w)
    ensures Valid(r) && r.station.observers == w.station.observers && r.station.current == reading
    ensures |r.displays| == |w.displays|
  {
    var (station, calls) := SetMeasurements(w.station, reading);
    assert forall i :: 0 <= i < |calls| ==> calls[i].observer == Select(calls, ObserverOf)[i];
    World(station, Deliver(w.displays, calls))
  }

  function IsObserver(id: ObserverId): ObserverId -> bool {
    (o: ObserverId) => o == id
  }

  /**
    A statistics display counts one reading per entry it has in the observer
    list: twice if it was registered twice, one fewer after each removal.
   */
  lemma StatisticsCountsRegistrations(w: World, reading: Reading, id: nat)
    requires Valid(w) && id < |w.displays| && w.displays[id].Statistics?
    ensures Measure(w, reading).displays[id].Statistics?
    ensures Measure(w, reading).displays[id].numReadings
      == w.displays[id].numReadings + Count(w.station.observers, IsObserver(id))
  {
    var (station, calls) := SetMeasurements(w.station, reading);
    assert forall i :: 0 <= i < |calls| ==> calls[i].observer == Select(calls, ObserverOf)[i];
    DeliverToEach(w.displays, calls, id);
    CalledOnCount(calls, id);
    StatisticsAfter(w.displays[id], Select(Where(calls, CalledOn(id)), ReadingOf));
  }

  lemma {:induction false} CalledOnCount(calls: seq<Call>, id: ObserverId)
    ensures |Where(calls, CalledOn(id))| == Count(Select(calls, ObserverOf), IsObserver(id))
    decreases |calls|
  {
    if |calls| > 0 {
      CalledOnCount(calls[1..], id);
      assert Select(calls, ObserverOf)[1..] == Select(calls[1..], ObserverOf);
    }
  }

  /**
    The demonstration: a current-conditions display and a statistics display
    are constructed, then three measurements arrive.
   */
  function ObserverDemo(): World {
    var w := ConstructAll(NewWorld, [NewCurrentConditions, NewStatistics]);
    ConstructAllRegisters(NewWorld, [NewCurrentConditions, NewStatistics]);
    var w1 := Measure(w, Reading(20, 65, 1000));
    var w2 := Measure(w1, Reading(21, 70, 1001));
    Measure(w2, Reading(25, 90, 999))
  }

  lemma MeasureTwoDisplays(w: World, reading: Reading)
    requires w.station.observers == [0, 1] && |w.displays| == 2
    ensures Measure(w, reading).displays == [Update(w.displays[0], reading), Update(w.displays[1], reading)]
  {
    var calls := SetMeasurements(w.station, reading).1;
    assert calls == [Call(0, reading), Call(1, reading)];
    var ds := w.displays;
    var ds1 := ds[0 := Update(ds[0], reading)];
    var ds2 := ds1[1 := Update(ds1[1], reading)];
    assert Deliver(ds, calls) == Deliver(ds1, calls[1..]);
    assert calls[1..] == [Call(1, reading)] && calls[1..][1..] == [];
    assert Deliver(ds1, calls[1..]) == Deliver(ds2, []) == ds2;
    assert ds2 == [Update(ds[0], reading), Update(ds[1], reading)];
  }

  /**
    After the demonstration's three measurements the current-conditions
    display shows the last one, and the statistics display has counted three
    readings with maximum 25, minimum 20 and total 66.
   */
  lemma ObserverDemoResult()
    ensures ObserverDemo().displays == [CurrentConditions(Reading(25, 90, 999)), Statistics(25, 20, 66, 3)]
  {
    var w := ConstructAll(NewWorld, [NewCurrentConditions, NewStatistics]);
    ConstructAllRegisters(NewWorld, [NewCurrentConditions, NewStatistics]);
    assert w.station.observers == [0, 1];
    assert w.displays == [NewCurrentConditions, NewStatistics];
    var w1 := Measure(w, Reading(20, 65, 1000));
    MeasureTwoDisplays(w, Reading(20, 65, 1000));
    assert w1.displays == [CurrentConditions(Reading(20, 65, 1000)), Statistics(20, 20, 20, 1)];
    var w2 := Measure(w1, Reading(21, 70, 1001));
    MeasureTwoDisplays(w1, Reading(21, 70, 1001));
    assert w2.displays == [CurrentConditions(Reading(21, 70, 1001)), Statistics(21, 20, 41, 2)];
    MeasureTwoDisplays(w2, Reading(25, 90, 999));
  }
}
