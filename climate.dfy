/** The climate store and the queries the service runs against it.

    The two reflected tables become sequences of records in the store's
    default row order. Each SQLAlchemy query is a function over those
    sequences: `filter` is `Select`, `order_by(Measurement.date.desc())` is
    `SortByDateDesc`, `func.count` is `CountOf`, and `func.min`, `func.max`,
    `func.avg` are `Aggregate`. Every comparison of dates is the store's
    string comparison, `Text.Less`.
 */
module Climate {
  import opened Text
  import opened Wrappers

  /** A row of the `measurement` table. `prcp` is NULL for some days. */
  datatype Measurement = Measurement(station: string, date: string, prcp: Option<real>, tobs: real)

  /** A row of the `station` table. */
  datatype Station = Station(station: string, name: string, latitude: real, longitude: real, elevation: real)

  datatype Store = Store(measurements: seq<Measurement>, stations: seq<Station>)

  /** The latest date in the table: the first row of
      `query(Measurement.date).order_by(Measurement.date.desc())` (app.py:54). */
  function LatestDate(rows: seq<Measurement>): (latest: string)
    requires |rows| > 0
    ensures exists i :: 0 <= i < |rows| && rows[i].date == latest
    ensures forall i :: 0 <= i < |rows| ==> LessEq(rows[i].date, latest)
  {
    var n := |rows| - 1;
    if n == 0 then rows[0].date
    else
      var earlier := LatestDate(rows[..n]);
      LatestStep(rows[..n], earlier, rows[n].date);
      if Less(earlier, rows[n].date) then rows[n].date else earlier
  }

  lemma LatestStep(rows: seq<Measurement>, earlier: string, next: string)
    requires forall i :: 0 <= i < |rows| ==> LessEq(rows[i].date, earlier)
    ensures Less(earlier, next) ==> forall i :: 0 <= i < |rows| ==> LessEq(rows[i].date, next)
    ensures !Less(earlier, next) ==> LessEq(next, earlier)
  {
    LessEqIsNotLess(next, earlier);
    if Less(earlier, next) {
      forall i | 0 <= i < |rows|
        ensures LessEq(rows[i].date, next)
      {
        LessEqTransitive(rows[i].date, earlier, next);
      }
    }
  }

  /** The `filter` clauses of the service's queries. */
  datatype Filter =
    | DateFrom(start: string)                 // Measurement.date >= start
    | DateRange(start: string, end: string)   // Measurement.date >= start, Measurement.date <= end
    | StationFrom(station: string, start: string)  // Measurement.station == station, Measurement.date >= start
    | OfStation(station: string)              // the rows counted for one station

  predicate Matches(f: Filter, m: Measurement)
  {
    match f
    case DateFrom(start) => LessEq(start, m.date)
    case DateRange(start, end) => LessEq(start, m.date) && LessEq(m.date, end)
    case StationFrom(station, start) => m.station == station && LessEq(start, m.date)
    case OfStation(station) => m.station == station
  }

  /** The rows a filter keeps, in row order. */
  function Select(rows: seq<Measurement>, f: Filter): (kept: seq<Measurement>)
    ensures |kept| <= |rows|
    ensures forall i :: 0 <= i < |kept| ==> Matches(f, kept[i])
  {
    if |rows| == 0 then []
    else
      var n := |rows| - 1;
      var init := Select(rows[..n], f);
      if Matches(f, rows[n]) then init + [rows[n]] else init
  }

  /** A row is selected exactly when it is one of the rows and matches the
      filter. */
  lemma {:induction false} SelectMembers(rows: seq<Measurement>, f: Filter)
    ensures forall m :: m in Select(rows, f) <==> m in rows && Matches(f, m)
  {
    if |rows| > 0 {
      var n := |rows| - 1;
      SelectMembers(rows[..n], f);
      assert rows == rows[..n] + [rows[n]];
    }
  }

  /** Selecting from one more row. */
  lemma SelectAppend(rows: seq<Measurement>, m: Measurement, f: Filter)
    ensures Select(rows + [m], f) == Select(rows, f) + (if Matches(f, m) then [m] else [])
  {
    assert (rows + [m])[..|rows|] == rows;
  }

  /** The positions of the rows a filter keeps. */
  function MatchingRows(rows: seq<Measurement>, f: Filter): set<int>
  {
    set i | 0 <= i < |rows| && Matches(f, rows[i])
  }

  /** One more row adds its position when it matches. */
  lemma MatchingRowsAppend(rows: seq<Measurement>, f: Filter)
    requires |rows| > 0
    ensures var n := |rows| - 1;
      MatchingRows(rows, f) == MatchingRows(rows[..n], f) + (if Matches(f, rows[n]) then {n} else {})
  {
    var n := |rows| - 1;
    assert forall i :: 0 <= i < n ==> rows[..n][i] == rows[i];
  }

  /** A filter keeps as many rows as there are matching rows. */
  lemma {:induction false} SelectCount(rows: seq<Measurement>, f: Filter)
    ensures |Select(rows, f)| == |MatchingRows(rows, f)|
  {
    if |rows| > 0 {
      var n := |rows| - 1;
      SelectCount(rows[..n], f);
      MatchingRowsAppend(rows, f);
      assert n !in MatchingRows(rows[..n], f);
    }
  }

  /** Selecting from two runs of rows one after the other selects from each
      and keeps them in that order. */
  lemma {:induction false} SelectConcat(a: seq<Measurement>, b: seq<Measurement>, f: Filter)
    ensures Select(a + b, f) == Select(a, f) + Select(b, f)
    decreases |b|
  {
    if |b| == 0 {
      assert a + b == a;
    } else {
      var n := |b| - 1;
      var front, last := b[..n], b[n];
      var tail := if Matches(f, last) then [last] else [];
      assert b == front + [last];
      assert a + b == (a + front) + [last];
      calc {
        Select(a + b, f);
        { SelectAppend(a + front, last, f); }
        Select(a + front, f) + tail;
        { SelectConcat(a, front, f); }
        (Select(a, f) + Select(front, f)) + tail;
        Select(a, f) + (Select(front, f) + tail);
        { SelectAppend(front, last, f); }
        Select(a, f) + Select(b, f);
      }
    }
  }

  /** The number of measurements of one station: `func.count` grouped by
      station (app.py:87). */
  function CountOf(rows: seq<Measurement>, station: string): (c: nat)
    ensures c == |set i | 0 <= i < |rows| && rows[i].station == station|
  {
    SelectCount(rows, OfStation(station));
    assert MatchingRows(rows, OfStation(station)) == set i | 0 <= i < |rows| && rows[i].station == station;
    |Select(rows, OfStation(station))|
  }

  /** `station` is a station with the greatest number of rows. Several may
      tie; which of them the store lists first is not defined. */
  predicate MostActive(rows: seq<Measurement>, station: string)
  {
    && (exists i :: 0 <= i < |rows| && rows[i].station == station)
    && forall i :: 0 <= i < |rows| ==> CountOf(rows, rows[i].station) <= CountOf(rows, station)
  }

  /** Among the stations of `rows[..k]`, the first one in row order whose
      count over all of `rows` is the greatest. */
  function BusiestAmong(rows: seq<Measurement>, k: nat): (station: string)
    requires 0 < k <= |rows|
    ensures exists i :: 0 <= i < k && rows[i].station == station
    ensures forall i :: 0 <= i < k ==> CountOf(rows, rows[i].station) <= CountOf(rows, station)
  {
    if k == 1 then rows[0].station
    else
      var best := BusiestAmong(rows, k - 1);
      if CountOf(rows, rows[k - 1].station) > CountOf(rows, best) then rows[k - 1].station else best
  }

  /** `active_stations[0][0]` (app.py:87-90): a most active station. */
  function MostActiveStation(rows: seq<Measurement>): (station: string)
    requires |rows| > 0
    ensures MostActive(rows, station)
  {
    BusiestAmong(rows, |rows|)
  }

  /** A most active station really has measurements: its count is positive. */
  lemma MostActiveHasRows(rows: seq<Measurement>, station: string)
    requires MostActive(rows, station)
    ensures CountOf(rows, station) > 0
  {
  }

  /** The rows sorted by date, latest first. Rows with equal dates keep
      their row order. */
  function SortByDateDesc(rows: seq<Measurement>): (sorted: seq<Measurement>)
    ensures multiset(sorted) == multiset(rows)
    ensures DescendingByDate(sorted)
  {
    if |rows| == 0 then []
    else
      var n := |rows| - 1;
      assert rows == rows[..n] + [rows[n]];
      InsertByDateDesc(SortByDateDesc(rows[..n]), rows[n])
  }

  predicate DescendingByDate(rows: seq<Measurement>)
  {
    forall i, j :: 0 <= i < j < |rows| ==> LessEq(rows[j].date, rows[i].date)
  }

  /** `m` placed after every row whose date is not earlier than its own. */
  function InsertByDateDesc(sorted: seq<Measurement>, m: Measurement): (r: seq<Measurement>)
    requires DescendingByDate(sorted)
    ensures multiset(r) == multiset(sorted) + multiset{m}
    ensures DescendingByDate(r)
  {
    var n := |sorted| - 1;
    if |sorted| == 0 || LessEq(m.date, sorted[n].date) then
      assert forall i :: 0 <= i < n ==> LessEq(sorted[n].date, sorted[i].date);
      InsertAtEnd(sorted, m);
      sorted + [m]
    else
      var init := InsertByDateDesc(sorted[..n], m);
      InsertInside(sorted, m, init);
      init + [sorted[n]]
  }

  lemma InsertAtEnd(sorted: seq<Measurement>, m: Measurement)
    requires DescendingByDate(sorted)
    requires |sorted| == 0 || LessEq(m.date, sorted[|sorted| - 1].date)
    ensures DescendingByDate(sorted + [m])
  {
    var r := sorted + [m];
    forall i, j | 0 <= i < j < |r|
      ensures LessEq(r[j].date, r[i].date)
    {
      var n := |sorted|;
      if j == n {
        assert r[j] == m && r[i] == sorted[i];
        if i < n - 1 {
          assert LessEq(sorted[n - 1].date, sorted[i].date);
          LessEqTransitive(m.date, sorted[n - 1].date, sorted[i].date);
        }
      } else {
        assert r[j] == sorted[j] && r[i] == sorted[i];
      }
    }
  }

  lemma InsertInside(sorted: seq<Measurement>, m: Measurement, init: seq<Measurement>)
    requires DescendingByDate(sorted) && |sorted| > 0
    requires !LessEq(m.date, sorted[|sorted| - 1].date)
    requires multiset(init) == multiset(sorted[..|sorted| - 1]) + multiset{m}
    requires DescendingByDate(init)
    ensures multiset(init + [sorted[|sorted| - 1]]) == multiset(sorted) + multiset{m}
    ensures DescendingByDate(init + [sorted[|sorted| - 1]])
  {
    var n := |sorted| - 1;
    assert sorted == sorted[..n] + [sorted[n]];
    LessEqIsNotLess(m.date, sorted[n].date);
    var r := init + [sorted[n]];
    forall i, j | 0 <= i < j < |r|
      ensures LessEq(r[j].date, r[i].date)
    {
      if j == |init| {
        var x := init[i];
        assert r[i] == x && r[j] == sorted[n];
        assert x in multiset(init);
        if x != m {
          assert x in multiset(sorted[..n]);
          var k :| 0 <= k < n && sorted[k] == x;
        }
      } else {
        assert r[i] == init[i] && r[j] == init[j];
      }
    }
  }

  /** The `(date, prcp)` columns of the rows. */
  function Pairs(rows: seq<Measurement>): (pairs: seq<(string, Option<real>)>)
    ensures |pairs| == |rows|
    ensures forall i :: 0 <= i < |rows| ==> pairs[i] == (rows[i].date, rows[i].prcp)
  {
    seq(|rows|, i requires 0 <= i < |rows| => (rows[i].date, rows[i].prcp))
  }

  lemma PairsAppend(rows: seq<Measurement>, m: Measurement)
    ensures Pairs(rows + [m]) == Pairs(rows) + [(m.date, m.prcp)]
  {
  }

  /** The precipitation values recorded on `date`, in the order of `pairs`. */
  function ValuesOn(pairs: seq<(string, Option<real>)>, date: string): seq<Option<real>>
  {
    if |pairs| == 0 then []
    else
      var n := |pairs| - 1;
      ValuesOn(pairs[..n], date) + (if pairs[n].0 == date then [pairs[n].1] else [])
  }

  /** The precipitation query of app.py:58-60: `(date, prcp)` of the rows on
      or after `start`, latest first. */
  function PrecipitationQuery(rows: seq<Measurement>, start: string): (q: seq<(string, Option<real>)>)
    ensures |q| == |Select(rows, DateFrom(start))|
    ensures forall i :: 0 <= i < |q| ==> LessEq(start, q[i].0)
  {
    var window := Select(rows, DateFrom(start));
    var sorted := SortByDateDesc(window);
    SortedKeepsFilter(window, DateFrom(start));
    assert |multiset(sorted)| == |multiset(window)|;
    Pairs(sorted)
  }

  /** Sorting rows that all satisfy a filter gives rows that all satisfy it. */
  lemma SortedKeepsFilter(rows: seq<Measurement>, f: Filter)
    requires forall i :: 0 <= i < |rows| ==> Matches(f, rows[i])
    ensures forall i :: 0 <= i < |SortByDateDesc(rows)| ==> Matches(f, SortByDateDesc(rows)[i])
  {
    var sorted := SortByDateDesc(rows);
    forall i | 0 <= i < |sorted|
      ensures Matches(f, sorted[i])
    {
      assert sorted[i] in multiset(rows);
      var j :| 0 <= j < |rows| && rows[j] == sorted[i];
    }
  }

  /** The rows of the precipitation query are all on or after the window
      start, are visited latest first, and are exactly the window's rows. */
  lemma PrecipitationQueryOrder(rows: seq<Measurement>, start: string)
    ensures var q := PrecipitationQuery(rows, start);
      && (forall i :: 0 <= i < |q| ==> LessEq(start, q[i].0))
      && (forall i, j :: 0 <= i < j < |q| ==> LessEq(q[j].0, q[i].0))
      && |q| == |Select(rows, DateFrom(start))|
  {
  }

  lemma {:induction false} ValuesOnAppend(pairs: seq<(string, Option<real>)>, p: (string, Option<real>), date: string)
    ensures ValuesOn(pairs + [p], date) == ValuesOn(pairs, date) + (if p.0 == date then [p.1] else [])
  {
    assert (pairs + [p])[..|pairs|] == pairs;
  }

  /** The values of `date` contributed by one row. */
  function ValueIfOn(m: Measurement, date: string): seq<Option<real>>
  {
    if m.date == date then [m.prcp] else []
  }

  lemma InsertKeepsValues(sorted: seq<Measurement>, m: Measurement, date: string)
    requires DescendingByDate(sorted)
    ensures ValuesOn(Pairs(InsertByDateDesc(sorted, m)), date)
         == ValuesOn(Pairs(sorted), date) + ValueIfOn(m, date)
    decreases |sorted|
  {
    var n := |sorted| - 1;
    var r := InsertByDateDesc(sorted, m);
    if |sorted| == 0 || LessEq(m.date, sorted[n].date) {
      assert r == sorted + [m];
      PairsAppend(sorted, m);
      ValuesOnAppend(Pairs(sorted), (m.date, m.prcp), date);
    } else {
      var front, last := sorted[..n], sorted[n];
      var init := InsertByDateDesc(front, m);
      assert r == init + [last];
      assert sorted == front + [last];
      InsertKeepsValues(front, m, date);
      MoveLastPast(front, last, init, m, date);
    }
  }

  /** Moving a row past a row of another date does not change the order of
      either date's values. */
  lemma MoveLastPast(front: seq<Measurement>, last: Measurement, init: seq<Measurement>, m: Measurement, date: string)
    requires last.date != m.date
    requires ValuesOn(Pairs(init), date) == ValuesOn(Pairs(front), date) + ValueIfOn(m, date)
    ensures ValuesOn(Pairs(init + [last]), date) == ValuesOn(Pairs(front + [last]), date) + ValueIfOn(m, date)
  {
    var vm, vl := ValueIfOn(m, date), ValueIfOn(last, date);
    PairsAppend(init, last);
    ValuesOnAppend(Pairs(init), (last.date, last.prcp), date);
    PairsAppend(front, last);
    ValuesOnAppend(Pairs(front), (last.date, last.prcp), date);
    var before := ValuesOn(Pairs(front), date);
    if vm == [] {
      assert before + vm + vl == before + vl;
      assert before + vl + vm == before + vl;
    } else {
      assert vl == [];
      assert before + vm + vl == before + vm;
      assert before + vl == before;
    }
  }

  /** Sorting by date keeps, for each date, that date's values in row
      order. */
  lemma {:induction false} SortKeepsValues(rows: seq<Measurement>, date: string)
    ensures ValuesOn(Pairs(SortByDateDesc(rows)), date) == ValuesOn(Pairs(rows), date)
  {
    if |rows| > 0 {
      var n := |rows| - 1;
      var front, m := rows[..n], rows[n];
      var sortedFront := SortByDateDesc(front);
      assert rows == front + [m];
      calc {
        ValuesOn(Pairs(SortByDateDesc(rows)), date);
        ValuesOn(Pairs(InsertByDateDesc(sortedFront, m)), date);
        { InsertKeepsValues(sortedFront, m, date); }
        ValuesOn(Pairs(sortedFront), date) + ValueIfOn(m, date);
        { SortKeepsValues(front, date); }
        ValuesOn(Pairs(front), date) + ValueIfOn(m, date);
        { PairsAppend(front, m);
          ValuesOnAppend(Pairs(front), (m.date, m.prcp), date); }
        ValuesOn(Pairs(rows), date);
      }
    }
  }

  /** Filtering by the window keeps all of a date's values when the date is
      in the window and none otherwise. */
  lemma {:induction false} SelectKeepsValues(rows: seq<Measurement>, start: string, date: string)
    ensures ValuesOn(Pairs(Select(rows, DateFrom(start))), date)
         == if LessEq(start, date) then ValuesOn(Pairs(rows), date) else []
  {
    if |rows| > 0 {
      var n := |rows| - 1;
      var m := rows[n];
      SelectKeepsValues(rows[..n], start, date);
      assert rows == rows[..n] + [m];
      PairsAppend(rows[..n], m);
      ValuesOnAppend(Pairs(rows[..n]), (m.date, m.prcp), date);
      SelectAppend(rows[..n], m, DateFrom(start));
      var init := Select(rows[..n], DateFrom(start));
      if Matches(DateFrom(start), m) {
        PairsAppend(init, m);
        ValuesOnAppend(Pairs(init), (m.date, m.prcp), date);
      }
    }
  }

  /** The values the precipitation query yields for a date are all of that
      date's values in row order if the date is in the window. */
  lemma PrecipitationValues(rows: seq<Measurement>, start: string, date: string)
    ensures ValuesOn(PrecipitationQuery(rows, start), date)
         == if LessEq(start, date) then ValuesOn(Pairs(rows), date) else []
  {
    SortKeepsValues(Select(rows, DateFrom(start)), date);
    SelectKeepsValues(rows, start, date);
  }

  /** The `tobs` column of the rows, in order. */
  function TobsOf(rows: seq<Measurement>): (temps: seq<real>)
    ensures |temps| == |rows|
    ensures forall i :: 0 <= i < |rows| ==> temps[i] == rows[i].tobs
  {
    seq(|rows|, i requires 0 <= i < |rows| => rows[i].tobs)
  }

  /** The positions of the matching rows whose `tobs` is `t`. */
  function MatchingTobs(rows: seq<Measurement>, f: Filter, t: real): set<int>
  {
    set i | 0 <= i < |rows| && Matches(f, rows[i]) && rows[i].tobs == t
  }

  /** One more row adds its position when it matches and carries `t`. */
  lemma MatchingTobsAppend(rows: seq<Measurement>, f: Filter, t: real)
    requires |rows| > 0
    ensures var n := |rows| - 1;
      && n !in MatchingTobs(rows[..n], f, t)
      && MatchingTobs(rows, f, t) == MatchingTobs(rows[..n], f, t)
           + (if Matches(f, rows[n]) && rows[n].tobs == t then {n} else {})
  {
    var n := |rows| - 1;
    assert forall i :: 0 <= i < n ==> rows[..n][i] == rows[i];
  }

  lemma TobsOfAppend(rows: seq<Measurement>, m: Measurement)
    ensures TobsOf(rows + [m]) == TobsOf(rows) + [m.tobs]
  {
  }

  /** A temperature occurs among the selected rows' `tobs` values as many
      times as matching rows carry it: no row is lost or counted twice. */
  lemma {:induction false} SelectTobsCount(rows: seq<Measurement>, f: Filter, t: real)
    ensures multiset(TobsOf(Select(rows, f)))[t] == |MatchingTobs(rows, f, t)|
  {
    if |rows| > 0 {
      var n := |rows| - 1;
      var front, m := rows[..n], rows[n];
      SelectTobsCount(front, f, t);
      MatchingTobsAppend(rows, f, t);
      assert rows == front + [m];
      SelectAppend(front, m, f);
      var init := Select(front, f);
      if Matches(f, m) {
        TobsOfAppend(init, m);
        assert multiset(TobsOf(init) + [m.tobs]) == multiset(TobsOf(init)) + multiset{m.tobs};
      } else {
        assert Select(rows, f) == init;
      }
    }
  }

  /** SQL's MIN, MAX and AVG over a column; NULL for no rows. */
  datatype Metrics = Metrics(min: Option<real>, max: Option<real>, avg: Option<real>)

  function Min(temps: seq<real>): (lo: real)
    requires |temps| > 0
    ensures lo in temps
    ensures forall t :: t in temps ==> lo <= t
  {
    var n := |temps| - 1;
    if n == 0 then temps[0]
    else
      var rest := Min(temps[..n]);
      assert temps == temps[..n] + [temps[n]];
      if temps[n] < rest then temps[n] else rest
  }

  function Max(temps: seq<real>): (hi: real)
    requires |temps| > 0
    ensures hi in temps
    ensures forall t :: t in temps ==> t <= hi
  {
    var n := |temps| - 1;
    if n == 0 then temps[0]
    else
      var rest := Max(temps[..n]);
      assert temps == temps[..n] + [temps[n]];
      if temps[n] > rest then temps[n] else rest
  }

  function Sum(temps: seq<real>): real
  {
    if |temps| == 0 then 0.0 else Sum(temps[..|temps| - 1]) + temps[|temps| - 1]
  }

  /** A sum of values within `[lo, hi]` lies within `n * lo` and `n * hi`. */
  lemma {:induction false} SumBounds(temps: seq<real>, lo: real, hi: real)
    requires forall t :: t in temps ==> lo <= t <= hi
    ensures |temps| as real * lo <= Sum(temps) <= |temps| as real * hi
  {
    if |temps| > 0 {
      var n := |temps| - 1;
      assert temps[n] in temps;
      assert forall t :: t in temps[..n] ==> t in temps;
      SumBounds(temps[..n], lo, hi);
      assert |temps| as real * lo == n as real * lo + lo;
      assert |temps| as real * hi == n as real * hi + hi;
    }
  }

  /** A total of `n` values within `[lo, hi]`, divided by `n`, stays within. */
  lemma MeanBetween(total: real, n: real, lo: real, hi: real)
    requires n > 0.0 && n * lo <= total <= n * hi
    ensures lo <= total / n <= hi
  {
    var q := total / n;
    assert q * n == total;
    assert (q - lo) * n == total - n * lo;
    assert (hi - q) * n == n * hi - total;
  }

  /** `func.min`, `func.max`, `func.avg` of the `tobs` values (app.py:105,
      app.py:125): the least, the greatest and the mean, or NULL for none. */
  function Aggregate(temps: seq<real>): (m: Metrics)
    ensures temps == [] <==> m == Metrics(None, None, None)
    ensures temps != [] ==> m.min.Some? && m.max.Some? && m.avg.Some?
    ensures temps != [] ==> m.min.value in temps && m.max.value in temps
    ensures temps != [] ==> forall t :: t in temps ==> m.min.value <= t <= m.max.value
    ensures temps != [] ==> m.min.value <= m.avg.value <= m.max.value
    ensures temps != [] ==> |temps| as real * m.avg.value == Sum(temps)
  {
    if |temps| == 0 then Metrics(None, None, None)
    else
      var n := |temps| as real;
      var lo, hi := Min(temps), Max(temps);
      SumBounds(temps, lo, hi);
      MeanBetween(Sum(temps), n, lo, hi);
      Metrics(Some(lo), Some(hi), Some(Sum(temps) / n))
  }
}
