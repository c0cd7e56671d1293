/** The route handlers of app.py over an in-memory store.

    Each handler reads the store and returns what Flask would serialise:
    a map for `/api/v1.0/precipitation`, a list of pairs for
    `/api/v1.0/stations`, a list of temperatures for `/api/v1.0/tobs`, and
    for the two date routes either `[min, max, avg]` or an error object.
 */
module Routes {
  import opened Text
  import opened Calendar
  import opened IsoDate
  import opened Wrappers
  import opened Climate

  /** The body of a date route: the three aggregates, or `{"error": ...}`. */
  datatype Response = Stats(metrics: Metrics) | Error(message: string)

  const FormatError := "Date must be in YYYY-MM-DD format."
  const OrderError := "End date must be later than start date."

  /** What the window routes need of the store: a latest date in strict
      `YYYY-MM-DD` form at least 365 days after 0001-01-01. An empty table
      makes the handler raise `TypeError`, and an earlier latest date
      `OverflowError`. */
  predicate HasWindow(rows: seq<Measurement>)
  {
    |rows| > 0 && IsIsoDate(LatestDate(rows)) && OrdinalOf(LatestDate(rows)) > 365
  }

  /** `prev_year` of app.py:55 and app.py:84. */
  function Window(rows: seq<Measurement>): (start: string)
    requires HasWindow(rows)
    ensures IsIsoDate(start) && OrdinalOf(start) == OrdinalOf(LatestDate(rows)) - 365
  {
    WindowStart(LatestDate(rows))
  }

  predicate AllIsoDates(rows: seq<Measurement>)
  {
    forall i :: 0 <= i < |rows| ==> IsIsoDate(rows[i].date)
  }

  // ---------------------------------------------------------------------
  // /api/v1.0/precipitation
  // ---------------------------------------------------------------------

  /** The dates that occur in `pairs`. */
  function DatesOf(pairs: seq<(string, Option<real>)>): set<string>
  {
    set i | 0 <= i < |pairs| :: pairs[i].0
  }

  predicate Distinct(dates: seq<string>)
  {
    forall i, j :: 0 <= i < j < |dates| ==> dates[i] != dates[j]
  }

  /** The dates of `pairs` in order of first occurrence, each once. */
  function DistinctDates(pairs: seq<(string, Option<real>)>): (dates: seq<string>)
    ensures Distinct(dates)
    ensures forall d :: d in dates <==> d in DatesOf(pairs)
  {
    if |pairs| == 0 then []
    else
      var n := |pairs| - 1;
      var earlier := DistinctDates(pairs[..n]);
      assert DatesOf(pairs) == DatesOf(pairs[..n]) + {pairs[n].0} by {
        assert forall i :: 0 <= i < n ==> pairs[..n][i] == pairs[i];
      }
      if pairs[n].0 in earlier then earlier else earlier + [pairs[n].0]
  }

  /** The total length of the lists stored under `dates`. */
  function SizeOf(groups: map<string, seq<Option<real>>>, dates: seq<string>): nat
    requires forall d :: d in dates ==> d in groups
  {
    if |dates| == 0 then 0
    else SizeOf(groups, dates[..|dates| - 1]) + |groups[dates[|dates| - 1]]|
  }

  /** The loop of app.py:63-67: each row's value is appended to the list of
      its date, a list being started the first time a date is seen. */
  method GroupByDate(datePrcp: seq<(string, Option<real>)>) returns (precDict: map<string, seq<Option<real>>>)
    ensures precDict.Keys == DatesOf(datePrcp)
    ensures forall date :: date in precDict ==> precDict[date] == ValuesOn(datePrcp, date)
    ensures SizeOf(precDict, DistinctDates(datePrcp)) == |datePrcp|
  {
    precDict := map[];
    for k := 0 to |datePrcp|
      invariant precDict.Keys == DatesOf(datePrcp[..k])
      invariant forall date :: date in precDict ==> precDict[date] == ValuesOn(datePrcp[..k], date)
    {
      var (date, prcp) := datePrcp[k];
      assert datePrcp[..k + 1] == datePrcp[..k] + [datePrcp[k]];
      ValuesOnAppend(datePrcp[..k], datePrcp[k], date);
      ValuesOnAppendOther(datePrcp[..k], datePrcp[k]);
      DatesOfAppend(datePrcp[..k], datePrcp[k]);
      if date !in precDict {
        ValuesOnAbsent(datePrcp[..k], date);
        precDict := precDict[date := []];
      }
      precDict := precDict[date := precDict[date] + [prcp]];
    }
    assert datePrcp[..|datePrcp|] == datePrcp;
    GroupSizes(precDict, datePrcp);
  }

  lemma DatesOfAppend(pairs: seq<(string, Option<real>)>, p: (string, Option<real>))
    ensures DatesOf(pairs + [p]) == DatesOf(pairs) + {p.0}
  {
    var q := pairs + [p];
    assert forall i :: 0 <= i < |pairs| ==> q[i] == pairs[i];
    assert q[|pairs|] == p;
  }

  lemma ValuesOnAppendOther(pairs: seq<(string, Option<real>)>, p: (string, Option<real>))
    ensures forall date :: date != p.0 ==> ValuesOn(pairs + [p], date) == ValuesOn(pairs, date)
  {
    forall date | date != p.0
      ensures ValuesOn(pairs + [p], date) == ValuesOn(pairs, date)
    {
      ValuesOnAppend(pairs, p, date);
    }
  }

  /** A date that does not occur has no values. */
  lemma {:induction false} ValuesOnAbsent(pairs: seq<(string, Option<real>)>, date: string)
    requires date !in DatesOf(pairs)
    ensures ValuesOn(pairs, date) == []
  {
    if |pairs| > 0 {
      var n := |pairs| - 1;
      DatesOfAppend(pairs[..n], pairs[n]);
      assert pairs == pairs[..n] + [pairs[n]];
      ValuesOnAbsent(pairs[..n], date);
    }
  }

  /** A date occurs exactly when it has at least one value. */
  lemma {:induction false} ValuesOnPresent(pairs: seq<(string, Option<real>)>, date: string)
    ensures date in DatesOf(pairs) <==> ValuesOn(pairs, date) != []
  {
    if |pairs| > 0 {
      var n := |pairs| - 1;
      DatesOfAppend(pairs[..n], pairs[n]);
      assert pairs == pairs[..n] + [pairs[n]];
      ValuesOnAppend(pairs[..n], pairs[n], date);
      ValuesOnPresent(pairs[..n], date);
    }
  }

  /** Adding up the value lists of distinct dates, one more row adds one to
      the total exactly when its date is among them. */
  lemma {:induction false} SizeAppend(groups: map<string, seq<Option<real>>>, pairs: seq<(string, Option<real>)>,
                                      p: (string, Option<real>), dates: seq<string>)
    requires Distinct(dates)
    requires forall d :: d in dates ==> d in groups && groups[d] == ValuesOn(pairs + [p], d)
    ensures forall d :: d in dates ==> d in groups
    ensures SizeOf(groups, dates) == SizeOfValues(pairs, dates) + (if p.0 in dates then 1 else 0)
  {
    if |dates| > 0 {
      var k := |dates| - 1;
      SizeAppend(groups, pairs, p, dates[..k]);
      ValuesOnAppend(pairs, p, dates[k]);
      assert dates == dates[..k] + [dates[k]];
      assert p.0 in dates[..k] ==> p.0 != dates[k];
    }
  }

  /** The total length of the values of `dates` in `pairs`. */
  function SizeOfValues(pairs: seq<(string, Option<real>)>, dates: seq<string>): nat
  {
    if |dates| == 0 then 0
    else SizeOfValues(pairs, dates[..|dates| - 1]) + |ValuesOn(pairs, dates[|dates| - 1])|
  }

  /** The value lists of the grouped map add up to the number of rows: every
      row lands in exactly one list. */
  lemma {:induction false} GroupSizes(groups: map<string, seq<Option<real>>>, pairs: seq<(string, Option<real>)>)
    requires forall d :: d in DatesOf(pairs) ==> d in groups && groups[d] == ValuesOn(pairs, d)
    ensures forall d :: d in DistinctDates(pairs) ==> d in groups
    ensures SizeOf(groups, DistinctDates(pairs)) == |pairs|
  {
    if |pairs| > 0 {
      var n := |pairs| - 1;
      var front, p := pairs[..n], pairs[n];
      assert pairs == front + [p];
      DatesOfAppend(front, p);
      var earlier := DistinctDates(front);
      assert DistinctDates(pairs) == if p.0 in earlier then earlier else earlier + [p.0];
      var groupsBefore := map d | d in DatesOf(front) :: ValuesOn(front, d);
      GroupSizes(groupsBefore, front);
      SizeOfValuesIsSize(groupsBefore, front, earlier);
      SizeAppend(groups, front, p, earlier);
      assert SizeOf(groups, earlier) == |front| + (if p.0 in earlier then 1 else 0);
      if p.0 !in earlier {
        NewDateSize(groups, front, p, earlier);
      }
    }
  }

  /** A date seen for the first time holds one value, so it adds one. */
  lemma NewDateSize(groups: map<string, seq<Option<real>>>, front: seq<(string, Option<real>)>,
                    p: (string, Option<real>), earlier: seq<string>)
    requires forall d :: d in earlier ==> d in groups
    requires p.0 !in DatesOf(front)
    requires p.0 in groups && groups[p.0] == ValuesOn(front + [p], p.0)
    ensures SizeOf(groups, earlier + [p.0]) == SizeOf(groups, earlier) + 1
  {
    var dates := earlier + [p.0];
    assert dates[..|dates| - 1] == earlier;
    ValuesOnAppend(front, p, p.0);
    ValuesOnAbsent(front, p.0);
  }

  lemma {:induction false} SizeOfValuesIsSize(groups: map<string, seq<Option<real>>>, pairs: seq<(string, Option<real>)>, dates: seq<string>)
    requires forall d :: d in dates ==> d in groups && groups[d] == ValuesOn(pairs, d)
    ensures SizeOf(groups, dates) == SizeOfValues(pairs, dates)
  {
    if |dates| > 0 {
      SizeOfValuesIsSize(groups, pairs, dates[..|dates| - 1]);
    }
  }

  /** `prcp()` (app.py:51-70): the precipitation values of the last year of
      data, grouped by date. */
  method Precipitation(store: Store) returns (precDict: map<string, seq<Option<real>>>)
    requires HasWindow(store.measurements)
    ensures var rows := store.measurements;
      forall date :: date in precDict <==>
        (exists i :: 0 <= i < |rows| && rows[i].date == date) && LessEq(Window(rows), date)
    ensures forall date :: date in precDict ==> precDict[date] == ValuesOn(Pairs(store.measurements), date)
  {
    var rows := store.measurements;
    var currentDate := LatestDate(rows);
    var prevYear := WindowStart(currentDate);
    var datePrcp := PrecipitationQuery(rows, prevYear);
    precDict := GroupByDate(datePrcp);
    forall date
      ensures date in precDict <==> (exists i :: 0 <= i < |rows| && rows[i].date == date) && LessEq(prevYear, date)
      ensures date in precDict ==> precDict[date] == ValuesOn(Pairs(rows), date)
    {
      QueryDates(rows, prevYear, date);
    }
  }

  /** A date appears in the precipitation query exactly when a row has that
      date and the date is in the window; it then carries all of that date's
      values. */
  lemma QueryDates(rows: seq<Measurement>, start: string, date: string)
    ensures var q := PrecipitationQuery(rows, start);
      && (date in DatesOf(q) <==> (exists i :: 0 <= i < |rows| && rows[i].date == date) && LessEq(start, date))
      && (date in DatesOf(q) ==> ValuesOn(q, date) == ValuesOn(Pairs(rows), date))
  {
    var q := PrecipitationQuery(rows, start);
    PrecipitationValues(rows, start, date);
    ValuesOnPresent(q, date);
    ValuesOnPresent(Pairs(rows), date);
    if exists i :: 0 <= i < |rows| && rows[i].date == date {
      var i :| 0 <= i < |rows| && rows[i].date == date;
      assert Pairs(rows)[i].0 == date;
    }
    if date in DatesOf(Pairs(rows)) {
      var i :| 0 <= i < |rows| && Pairs(rows)[i].0 == date;
      assert rows[i].date == date;
    }
  }

  /** Every date of the precipitation map is within 365 days before the
      latest date, both ends included, when the stored dates are valid. */
  lemma PrecipitationWindow(rows: seq<Measurement>, i: int)
    requires HasWindow(rows) && AllIsoDates(rows)
    requires 0 <= i < |rows| && LessEq(Window(rows), rows[i].date)
    ensures OrdinalOf(LatestDate(rows)) - 365 <= OrdinalOf(rows[i].date) <= OrdinalOf(LatestDate(rows))
  {
    LessEqIsCalendarOrder(Window(rows), rows[i].date);
    LessEqIsCalendarOrder(rows[i].date, LatestDate(rows));
  }

  // ---------------------------------------------------------------------
  // /api/v1.0/stations
  // ---------------------------------------------------------------------

  /** `stations()` (app.py:73-78): `(station, name)` of every station row, in
      row order. */
  function StationList(stations: seq<Station>): (pairs: seq<(string, string)>)
    ensures |pairs| == |stations|
    ensures forall i :: 0 <= i < |stations| ==> pairs[i] == (stations[i].station, stations[i].name)
  {
    seq(|stations|, i requires 0 <= i < |stations| => (stations[i].station, stations[i].name))
  }

  predicate UniqueStations(stations: seq<Station>)
  {
    forall i, j :: 0 <= i < j < |stations| ==> stations[i].station != stations[j].station
  }

  function Ids(pairs: seq<(string, string)>): set<string>
  {
    set i | 0 <= i < |pairs| :: pairs[i].0
  }

  lemma {:induction false} IdsCount(pairs: seq<(string, string)>)
    requires forall i, j :: 0 <= i < j < |pairs| ==> pairs[i].0 != pairs[j].0
    ensures |Ids(pairs)| == |pairs|
  {
    if |pairs| > 0 {
      var n := |pairs| - 1;
      IdsCount(pairs[..n]);
      assert Ids(pairs) == Ids(pairs[..n]) + {pairs[n].0} by {
        assert forall i :: 0 <= i < n ==> pairs[..n][i] == pairs[i];
      }
      assert pairs[n].0 !in Ids(pairs[..n]);
    }
  }

  /** With one row per station, the list has exactly one entry per station
      identifier and as many entries as the table has rows. */
  lemma StationListOnePerStation(stations: seq<Station>)
    requires UniqueStations(stations)
    ensures Ids(StationList(stations)) == set i | 0 <= i < |stations| :: stations[i].station
    ensures |Ids(StationList(stations))| == |stations|
  {
    var pairs := StationList(stations);
    IdsCount(pairs);
    assert forall i :: 0 <= i < |stations| ==> pairs[i].0 == stations[i].station;
  }

  // ---------------------------------------------------------------------
  // /api/v1.0/tobs
  // ---------------------------------------------------------------------

  /** `tobs()` (app.py:81-94): the temperatures of the most active station
      since the start of the window, in row order. */
  function Tobs(store: Store): (temps: seq<real>)
    requires HasWindow(store.measurements)
    ensures var rows := store.measurements;
      forall t :: t in temps <==>
        (exists i :: 0 <= i < |rows| && rows[i].station == MostActiveStation(rows)
           && LessEq(Window(rows), rows[i].date) && rows[i].tobs == t)
    ensures |temps| <= CountOf(store.measurements, MostActiveStation(store.measurements))
    ensures var rows := store.measurements;
      |temps| == |MatchingRows(rows, StationFrom(MostActiveStation(rows), Window(rows)))|
    ensures var rows := store.measurements;
      forall t :: multiset(temps)[t] == |MatchingTobs(rows, StationFrom(MostActiveStation(rows), Window(rows)), t)|
  {
    var rows := store.measurements;
    var currentDate := LatestDate(rows);
    var prevYear := WindowStart(currentDate);
    var stationName := MostActiveStation(rows);
    var selected := Select(rows, StationFrom(stationName, prevYear));
    SelectMembers(rows, StationFrom(stationName, prevYear));
    StationWindowWithinCount(rows, stationName, prevYear);
    TobsMembers(selected);
    SelectCount(rows, StationFrom(stationName, prevYear));
    forall t
      ensures multiset(TobsOf(selected))[t] == |MatchingTobs(rows, StationFrom(stationName, prevYear), t)|
    {
      SelectTobsCount(rows, StationFrom(stationName, prevYear), t);
    }
    TobsOf(selected)
  }

  lemma TobsMembers(rows: seq<Measurement>)
    ensures forall t :: t in TobsOf(rows) <==> exists m :: m in rows && m.tobs == t
  {
    forall t | t in TobsOf(rows)
      ensures exists m :: m in rows && m.tobs == t
    {
      var i :| 0 <= i < |rows| && TobsOf(rows)[i] == t;
      assert rows[i] in rows;
    }
    forall t | exists m :: m in rows && m.tobs == t
      ensures t in TobsOf(rows)
    {
      var m :| m in rows && m.tobs == t;
      var i :| 0 <= i < |rows| && rows[i] == m;
      assert TobsOf(rows)[i] == t;
    }
  }

  /** A station has no more rows in the window than it has in all. */
  lemma {:induction false} StationWindowWithinCount(rows: seq<Measurement>, station: string, start: string)
    ensures |Select(rows, StationFrom(station, start))| <= CountOf(rows, station)
  {
    if |rows| > 0 {
      var n := |rows| - 1;
      StationWindowWithinCount(rows[..n], station, start);
      assert rows == rows[..n] + [rows[n]];
      SelectAppend(rows[..n], rows[n], StationFrom(station, start));
      SelectAppend(rows[..n], rows[n], OfStation(station));
    }
  }

  // ---------------------------------------------------------------------
  // /api/v1.0/<start> and /api/v1.0/<start>/<end>
  // ---------------------------------------------------------------------

  /** `temps_start(start)` (app.py:97-110). */
  function TempsStart(rows: seq<Measurement>, start: string): (r: Response)
    ensures r == Error(FormatError) <==> !IsIsoDate(start)
    ensures r.Stats? <==> IsIsoDate(start)
    ensures r.Stats? ==> r.metrics == Aggregate(TobsOf(Select(rows, DateFrom(start))))
  {
    if !IsIsoDate(start) then Error(FormatError)
    else Stats(Aggregate(TobsOf(Select(rows, DateFrom(start)))))
  }

  /** `temps_start_end(start, end)` (app.py:113-132): a malformed date is
      reported first, whatever the order; then an end that is not after the
      start; only then is the store queried. */
  function TempsStartEnd(rows: seq<Measurement>, start: string, end: string): (r: Response)
    ensures r == Error(FormatError) <==> !IsIsoDate(start) || !IsIsoDate(end)
    ensures r == Error(OrderError) <==> IsIsoDate(start) && IsIsoDate(end) && !Less(start, end)
    ensures r.Stats? <==> IsIsoDate(start) && IsIsoDate(end) && Less(start, end)
    ensures r.Stats? ==> r.metrics == Aggregate(TobsOf(Select(rows, DateRange(start, end))))
  {
    if !IsIsoDate(start) || !IsIsoDate(end) then Error(FormatError)
    else if !Less(start, end) then Error(OrderError)
    else Stats(Aggregate(TobsOf(Select(rows, DateRange(start, end)))))
  }

  /** When no row is dated on or after `start`, the single-date route
      still answers with statistics, all three of them NULL. */
  lemma NoMatchIsNullStart(rows: seq<Measurement>, start: string)
    requires IsIsoDate(start)
    requires forall i :: 0 <= i < |rows| ==> !Matches(DateFrom(start), rows[i])
    ensures TempsStart(rows, start) == Stats(Metrics(None, None, None))
  {
    SelectCount(rows, DateFrom(start));
    assert MatchingRows(rows, DateFrom(start)) == {};
  }

  /** When no row lies in `[start, end]`, rows after `end` included, the
      range route still answers with statistics, all three of them NULL. */
  lemma NoMatchIsNullRange(rows: seq<Measurement>, start: string, end: string)
    requires IsIsoDate(start) && IsIsoDate(end) && Less(start, end)
    requires forall i :: 0 <= i < |rows| ==> !Matches(DateRange(start, end), rows[i])
    ensures TempsStartEnd(rows, start, end) == Stats(Metrics(None, None, None))
  {
    SelectCount(rows, DateRange(start, end));
    assert MatchingRows(rows, DateRange(start, end)) == {};
  }

  /** For well-formed dates the order check is the calendar's: the range is
      refused exactly when the end is not a later day than the start. */
  lemma OrderErrorIsCalendar(rows: seq<Measurement>, start: string, end: string)
    requires IsIsoDate(start) && IsIsoDate(end)
    ensures TempsStartEnd(rows, start, end) == Error(OrderError) <==> OrdinalOf(end) <= OrdinalOf(start)
  {
    LessIsCalendarOrder(start, end);
  }

  /** With valid stored dates, the rows in `[start, end]` are those whose day
      lies between the two days. */
  lemma RangeIsCalendar(rows: seq<Measurement>, start: string, end: string, i: int)
    requires AllIsoDates(rows) && IsIsoDate(start) && IsIsoDate(end) && 0 <= i < |rows|
    ensures Matches(DateRange(start, end), rows[i])
        <==> OrdinalOf(start) <= OrdinalOf(rows[i].date) <= OrdinalOf(end)
  {
    LessEqIsCalendarOrder(start, rows[i].date);
    LessEqIsCalendarOrder(rows[i].date, end);
  }

  /** The single-date route: every matching temperature lies between the
      returned minimum and maximum, and the average between the two. */
  lemma TempsStartBounds(rows: seq<Measurement>, start: string, i: int)
    requires IsIsoDate(start) && 0 <= i < |rows| && LessEq(start, rows[i].date)
    ensures var r := TempsStart(rows, start);
      && r.Stats? && r.metrics.min.Some? && r.metrics.max.Some? && r.metrics.avg.Some?
      && r.metrics.min.value <= rows[i].tobs <= r.metrics.max.value
      && r.metrics.min.value <= r.metrics.avg.value <= r.metrics.max.value
  {
    var selected := Select(rows, DateFrom(start));
    SelectMembers(rows, DateFrom(start));
    assert rows[i] in selected;
    TobsMembers(selected);
    assert rows[i].tobs in TobsOf(selected);
  }

  /** The range route: the same bounds for every temperature in the range. */
  lemma TempsStartEndBounds(rows: seq<Measurement>, start: string, end: string, i: int)
    requires IsIsoDate(start) && IsIsoDate(end) && Less(start, end)
    requires 0 <= i < |rows| && LessEq(start, rows[i].date) && LessEq(rows[i].date, end)
    ensures var r := TempsStartEnd(rows, start, end);
      && r.Stats? && r.metrics.min.Some? && r.metrics.max.Some? && r.metrics.avg.Some?
      && r.metrics.min.value <= rows[i].tobs <= r.metrics.max.value
      && r.metrics.min.value <= r.metrics.avg.value <= r.metrics.max.value
  {
    var selected := Select(rows, DateRange(start, end));
    SelectMembers(rows, DateRange(start, end));
    assert rows[i] in selected;
    TobsMembers(selected);
    assert rows[i].tobs in TobsOf(selected);
  }

  /** An inverted range, and a month and day out of range. */
  lemma RouteExamples(rows: seq<Measurement>)
    ensures TempsStartEnd(rows, "2017-01-01", "2016-01-01") == Error(OrderError)
    ensures TempsStart(rows, "2020-99-99") == Error(FormatError)
    ensures TempsStartEnd(rows, "2020-99-99", "2016-01-01") == Error(FormatError)
  {
    var later, earlier := "2017-01-01", "2016-01-01";
    FieldsByDigits(later);
    FieldsByDigits(earlier);
    assert Parse(later) == Some(Date(2017, 1, 1));
    assert Parse(earlier) == Some(Date(2016, 1, 1));
    assert OrdinalOf(later) == 736330;
    assert OrdinalOf(earlier) == 735964;
    LessIsCalendarOrder(later, earlier);
    ParseExamples();
  }
}
