# Climate query service, modelled in Dafny

The service answers five read-only HTTP routes over a climate dataset. The
dataset has two tables: `measurement` (station, date, precipitation,
temperature observation) and `station` (identifier, name, coordinates,
elevation). The model replaces the database with an in-memory `Store`, a
sequence of rows per table in the store's default row order. Each SQL query
becomes a function over those sequences:

- `filter(...)` is `Climate.Select` with a `Climate.Filter`.
- `order_by(Measurement.date.desc())` is `Climate.SortByDateDesc`.
- `func.count` grouped by station is `Climate.CountOf`.
- `func.min`, `func.max` and `func.avg` are `Climate.Aggregate`.

The handlers live in module `Routes`:

- `Precipitation` is `prcp`. It computes the one-year window, runs the query, and groups the rows by date in a loop that updates a map in place.
- `StationList` is `stations`.
- `Tobs` is `tobs`.
- `TempsStart` and `TempsStartEnd` are the two date routes. Each returns `Stats([min, max, avg])` or `Error(message)`.

The modules:

- `Text`: the string order that both Python's `str <` and SQLite's BINARY collation use (code point by code point; a proper prefix is smaller), and fixed-width digit strings.
- `Calendar`: the proleptic Gregorian calendar with Python's day numbering (0001-01-01 is day 1), and its inverse `FromOrdinal`.
- `IsoDate`: `YYYY-MM-DD` strings, the complete extended calendar date format of section 4.1.2.2 of ISO 8601:2004. `Parse` is `date.fromisoformat`, `Format` is `strftime('%Y-%m-%d')` and `WindowStart` is the 365-day window start.
- `Climate`: the records and the queries.
- `Routes`: the handlers.
- `Wrappers`: `Option`, used for SQL NULL and for failed parses.

The central fact is `IsoDate.LessIsCalendarOrder`. For two valid `YYYY-MM-DD`
strings, string order is calendar order. That fact makes the service's
string comparisons (`date >= prev_year`, `start < end`, `date <= end`) mean
"on or after" and "later than".

## Model

| member | source | states |
|---|---|---|
| IsoDate.Parse | app.py:99-102 | any date it accepts is a real day: year 1 to 9999, month 1 to 12, day within the month under the leap-year rule. With `ParseFormat` and `FormatParse`, the accepted strings are exactly the zero-padded `YYYY-MM-DD` spellings of valid dates |
| IsoDate.Format | app.py:55 | `strftime('%Y-%m-%d')` of a valid date is ten characters: four digits, a hyphen, two digits, a hyphen, two digits |
| IsoDate.ParseFormat | app.py:55 | parsing a formatted valid date gives that date back |
| IsoDate.FormatParse | app.py:100 | every accepted string is the canonical zero-padded spelling of its date, so formatting after parsing round-trips |
| Text.Less | app.py:118 | the string order of `start < end` and of SQLite's BINARY comparisons; no string is less than itself |
| Text.LessIsLexicographic | app.py:118 | `Less(a, b)` holds exactly when the strings agree up to some position where `a` ends while `b` goes on, or `a` has the smaller code point |
| IsoDate.LessIsCalendarOrder | app.py:118 | for two valid date strings, `s < t` as strings exactly when `s` is an earlier day, and `s == t` exactly when they are the same day |
| IsoDate.LessEqIsCalendarOrder | app.py:59 | for two valid date strings, `s <= t` as strings exactly when `s` is on or before `t` |
| IsoDate.WindowStart | app.py:55 | the window start is a valid date string whose day number is exactly 365 less than the latest date's |
| IsoDate.WindowStartUnique | app.py:84 | the window start is the only valid date string 365 days before the latest date |
| IsoDate.WindowExample | app.py:54-55 | for the latest date 2017-08-23 the window starts at 2016-08-23 |
| IsoDate.LeapWindowExample | app.py:83-84 | across a leap day the window is 365 days and not a calendar year: 2016-03-01 gives 2015-03-02 |
| IsoDate.ParseExamples | app.py:116-117 | `2020-99-99`, the unpadded `2017-2-29` and the non-leap `2017-02-29` are rejected; `2016-02-29` is accepted |
| Calendar.ToOrdinal | app.py:55 | the day number of a valid date falls inside its own year's span of day numbers, and between 1 and the day number of 9999-12-31 |
| Calendar.FromOrdinal | app.py:55 | the date of a day number is valid and has that day number |
| Calendar.FromToOrdinal | app.py:55 | `FromOrdinal` inverts `ToOrdinal` on every valid date |
| Calendar.OrdinalOrder | app.py:55 | year-month-day order and day-number order agree, and day numbers identify dates |
| Climate.LatestDate | app.py:54 | the latest date is one of the stored dates and no stored date is greater |
| Climate.Select | app.py:59 | `.filter(...)`: the kept rows are no more than the rows and each satisfies the filter |
| Climate.SelectCount | app.py:91 | a filter keeps exactly as many rows as there are matching row positions |
| Climate.SelectTobsCount | app.py:91 | among the kept rows' `tobs`, each temperature occurs exactly as often as matching rows carry it |
| Climate.SelectMembers | app.py:59 | a row is kept by a filter exactly when it is a stored row that satisfies the filter |
| Climate.SelectConcat | app.py:91 | filtering keeps rows in row order: filtering two runs of rows gives the two filtered runs one after the other |
| Climate.CountOf | app.py:87 | `func.count` grouped by station: the number of row positions holding that station |
| Climate.MostActiveStation | app.py:87-90 | the chosen station has rows, and its row count is at least that of every station in the table |
| Climate.MostActiveHasRows | app.py:90 | a most active station has a positive count |
| Climate.SortByDateDesc | app.py:60 | the sorted rows are a permutation of the input in descending date order |
| Climate.PrecipitationQuery | app.py:58-60 | the query returns as many pairs as the window has rows, each dated on or after `prev_year` |
| Climate.PrecipitationQueryOrder | app.py:58-60 | every row of the precipitation query is dated on or after `prev_year`; rows come latest first; there are as many as the window has rows |
| Climate.SortKeepsValues | app.py:60 | sorting by date keeps each date's precipitation values in row order |
| Climate.PrecipitationValues | app.py:58-60 | the query yields, for a date in the window, all of that date's values in row order, and nothing for a date outside it |
| Routes.QueryDates | app.py:58-60 | a date occurs in the query result exactly when some row has that date on or after the window start, and then it carries all of that date's values |
| Climate.Aggregate | app.py:105 | for no rows all three aggregates are NULL; otherwise min and max are values of the column and bound every value, and the average is the mean (count times average is the sum), lying between them |
| Routes.Window | app.py:83-84 | `prev_year` is a valid date 365 days before the latest stored date |
| Routes.GroupByDate | app.py:63-67 | after the loop the keys are exactly the dates of the rows, each key's list holds that date's values in visiting order, and the list lengths sum to the number of rows |
| Routes.GroupSizes | app.py:63-67 | for a map holding each date's values, the lengths over the distinct dates add up to the number of rows |
| Routes.Precipitation | app.py:51-70 | the map's keys are exactly the stored dates on or after the window start; each key holds all of that date's precipitation values in row order |
| Routes.PrecipitationWindow | app.py:58-59 | with valid stored dates, every date in the window is within 365 days before the latest date, both ends included |
| Climate.Pairs | app.py:58 | the `(date, prcp)` projection: as many pairs as rows, pair `i` being row `i`'s date and precipitation |
| Climate.TobsOf | app.py:94 | the `tobs` projection: as many values as rows, value `i` being row `i`'s temperature |
| Routes.StationList | app.py:75-78 | one `(station, name)` pair per station row, in row order |
| Routes.StationListOnePerStation | app.py:78 | with unique station identifiers, the list has one entry per identifier and as many entries as the table has rows |
| Routes.Tobs | app.py:87-94 | a temperature is returned exactly when a row of the most active station dated on or after the window start has it; each temperature occurs as many times as such rows carry it, the list is as long as that station has rows in the window, and no longer than its rows overall |
| Routes.StationWindowWithinCount | app.py:91 | a station has no more rows in the window than in the whole table |
| Routes.TempsStart | app.py:97-110 | returns the format error exactly when `start` is not a valid `YYYY-MM-DD` date, and statistics exactly when it is: the aggregates of the rows dated on or after `start` |
| Routes.TempsStartEnd | app.py:113-132 | the format error exactly when either date is malformed, whatever their order; the ordering error exactly when both are valid and `start >= end`, equality included; statistics exactly when both are valid and `start < end`: the aggregates of the rows in `[start, end]` |
| Routes.NoMatchIsNullStart | app.py:105-110 | for a valid `start` with no row dated on or after it, the single-date route answers statistics with min, max and avg all NULL, not an error |
| Routes.NoMatchIsNullRange | app.py:125-132 | for valid dates with `start < end` and no row in `[start, end]` (rows after `end` allowed), the range route answers statistics with min, max and avg all NULL |
| Routes.OrderErrorIsCalendar | app.py:118 | for valid dates the ordering error is returned exactly when the end is not a later day than the start |
| Routes.RangeIsCalendar | app.py:126 | with valid stored dates, a row is in `[start, end]` exactly when its day lies between the two days |
| Routes.TempsStartBounds | app.py:105-110 | when a row matches, the single-date route returns `min <= t <= max` for every matching temperature `t`, and `min <= avg <= max` |
| Routes.TempsStartEndBounds | app.py:125-132 | the same bounds for every temperature of a row in `[start, end]` |
| Routes.RouteExamples | app.py:115-122 | `2017-01-01`/`2016-01-01` gives the ordering error; `2020-99-99` gives the format error, also as a range start |

## Left out

- Flask setup, the routing decorators, `jsonify` and the HTTP status. Every response, errors included, is sent with status 200. The model returns the response body only.
- The static HTML of `home` and the `print` log lines. They are output only.
- SQLAlchemy engine creation, automap reflection, the `Session` and `session.close()`. The store is a value passed to each handler.
- The single process-wide session shared by concurrent requests. The model has no concurrency.
- Floating point. `tobs` and the average are exact reals, with the average taken as sum over count. `prcp` is an `Option<real>`, where `None` is NULL; its value is never inspected.
- The tie order of `ORDER BY date DESC`. The store does not define the order of rows with equal dates. `SortByDateDesc` keeps such rows in row order, so the order within each date's list is the model's choice.
- Climate.MostActiveStation: picks the first station in row order that has the greatest count. The store's tie-break is undefined. The `MostActive` predicate states the property that holds for any choice.
- The `tobs` query has no `ORDER BY`. Its result is taken in row order.
- The wider `fromisoformat` grammar of Python 3.11 and later (`YYYYMMDD`, week dates and others). Only the strict `YYYY-MM-DD` form named in the error message is modelled.
- The leniency of `strptime('%Y-%m-%d')`, which also reads unpadded fields. `Routes.HasWindow` requires the latest stored date to be in strict `YYYY-MM-DD` form.
- The platform dependence of `strftime('%Y')` for years below 1000. `Format` always writes four digits.
- The handlers' unhandled exceptions are preconditions, not error results. These are the `TypeError` on an empty `measurement` table, the `ValueError` on a malformed latest date, and the `OverflowError` when the window would start before 0001-01-01.
- The `start < end` check uses `assert`, which Python drops under `-O`. The model keeps the check.
- The insertion order of the `prec_dict` keys. A Dafny map has no order.
- Routes.Tobs: states each temperature's multiplicity and the list's length, not the order of the list; the order is the row order of `Select` (see `Climate.SelectConcat`), which is the store's unspecified default order.
- The coordinate and elevation columns of `station`. They are carried in `Climate.Station` but are never read.
