/** Dates written `YYYY-MM-DD`, the calendar date in the complete extended
    format of section 4.1.2.2 of ISO 8601:2004.

    `Parse` is `datetime.date.fromisoformat` on such strings (app.py:100,
    app.py:116-117), `Format` is `strftime('%Y-%m-%d')`, and `WindowStart` is
    the one-year window computed from the latest stored date (app.py:55,
    app.py:84).
 */
module IsoDate {
  import opened Text
  import opened Calendar
  import opened Wrappers

  /** `strftime('%Y-%m-%d')`: the fields zero-padded to four, two and two
      digits, joined by hyphens. */
  function Format(d: Date): (s: string)
    requires Valid(d)
    ensures |s| == 10
    ensures Shaped(s)
  {
    var s := Digits(d.year, 4) + "-" + Digits(d.month, 2) + "-" + Digits(d.day, 2);
    assert s[..4] == Digits(d.year, 4);
    assert s[5..7] == Digits(d.month, 2);
    assert s[8..] == Digits(d.day, 2);
    s
  }

  /** Four digits, a hyphen, two digits, a hyphen, two digits. */
  predicate Shaped(s: string)
  {
    |s| == 10 && s[4] == '-' && s[7] == '-'
    && AllDigits(s[..4]) && AllDigits(s[5..7]) && AllDigits(s[8..])
  }

  /** Reading the fields of a shaped string digit by digit. */
  lemma FieldsByDigits(s: string)
    requires Shaped(s)
    ensures Fields(s) == Date(
      1000 * DigitValue(s[0]) + 100 * DigitValue(s[1]) + 10 * DigitValue(s[2]) + DigitValue(s[3]),
      10 * DigitValue(s[5]) + DigitValue(s[6]),
      10 * DigitValue(s[8]) + DigitValue(s[9]))
  {
    ValueOfFour(s[..4]);
    ValueOfTwo(s[5..7]);
    ValueOfTwo(s[8..]);
  }

  /** The year, month and day fields of a shaped string, as numbers. */
  function Fields(s: string): Date
    requires Shaped(s)
  {
    Date(Value(s[..4]), Value(s[5..7]), Value(s[8..]))
  }

  /** `date.fromisoformat`: the date a string names, or `None` where Python
      raises `ValueError` (wrong shape, year 0000, month or day out of range). */
  function Parse(s: string): (r: Option<Date>)
    ensures r.Some? ==> Valid(r.value)
  {
    if Shaped(s) && Valid(Fields(s)) then Some(Fields(s)) else None
  }

  predicate IsIsoDate(s: string)
  {
    Parse(s).Some?
  }

  /** The day number of a valid date string. */
  function OrdinalOf(s: string): int
    requires IsIsoDate(s)
  {
    ToOrdinal(Parse(s).value)
  }

  lemma SplitShaped(s: string)
    requires |s| == 10
    ensures s == s[..4] + [s[4]] + s[5..7] + [s[7]] + s[8..]
  {
  }

  /** Parsing a formatted date gives the date back. */
  lemma ParseFormat(d: Date)
    requires Valid(d)
    ensures Parse(Format(d)) == Some(d)
  {
    var s := Format(d);
    assert s[..4] == Digits(d.year, 4);
    assert s[5..7] == Digits(d.month, 2);
    assert s[8..] == Digits(d.day, 2);
    ValueOfDigits(d.year, 4);
    ValueOfDigits(d.month, 2);
    ValueOfDigits(d.day, 2);
  }

  /** A string that parses is the formatting of its date: no other spelling
      of a date is accepted. */
  lemma FormatParse(s: string)
    requires IsIsoDate(s)
    ensures Format(Parse(s).value) == s
  {
    DigitsOfValue(s[..4]);
    DigitsOfValue(s[5..7]);
    DigitsOfValue(s[8..]);
    SplitShaped(s);
  }

  /** Behind equal separators, the month field decides before the day field. */
  lemma SeparatedOrder(sep: char, m: string, d: string, m': string, d': string)
    requires |m| == |m'| == 2
    ensures Less([sep] + m + [sep] + d, [sep] + m' + [sep] + d')
      <==> Less(m, m') || (m == m' && Less(d, d'))
  {
    assert [sep] + m + [sep] + d == [sep] + (m + ([sep] + d));
    assert [sep] + m' + [sep] + d' == [sep] + (m' + ([sep] + d'));
    LessConcat([sep], m + ([sep] + d), [sep], m' + ([sep] + d'));
    LessIrreflexive([sep]);
    LessConcat(m, [sep] + d, m', [sep] + d');
    LessConcat([sep], d, [sep], d');
  }

  /** Two shaped strings compare by year field, then month, then day. */
  lemma FieldOrder(s: string, t: string)
    requires Shaped(s) && Shaped(t)
    ensures Less(s, t) <==> (Less(s[..4], t[..4]) || (s[..4] == t[..4]
      && (Less(s[5..7], t[5..7]) || (s[5..7] == t[5..7] && Less(s[8..], t[8..])))))
  {
    SplitShaped(s);
    SplitShaped(t);
    var s', t' := [s[4]] + s[5..7] + [s[7]] + s[8..], [t[4]] + t[5..7] + [t[7]] + t[8..];
    assert s == s[..4] + s' && t == t[..4] + t';
    LessConcat(s[..4], s', t[..4], t');
    SeparatedOrder('-', s[5..7], s[8..], t[5..7], t[8..]);
  }

  /** For two valid date strings, string order is calendar order: this is
      what lets the service compare dates as text. */
  lemma LessIsCalendarOrder(s: string, t: string)
    requires IsIsoDate(s) && IsIsoDate(t)
    ensures Less(s, t) <==> OrdinalOf(s) < OrdinalOf(t)
    ensures s == t <==> OrdinalOf(s) == OrdinalOf(t)
  {
    FieldOrder(s, t);
    LessIsNumeric(s[..4], t[..4]);
    LessIsNumeric(s[5..7], t[5..7]);
    LessIsNumeric(s[8..], t[8..]);
    assert Less(s, t) <==> Before(Fields(s), Fields(t));
    if Fields(s) == Fields(t) {
      SplitShaped(s);
      SplitShaped(t);
    }
    OrdinalOrder(Parse(s).value, Parse(t).value);
  }

  /** `LessEq` on valid date strings is "on or before" in the calendar. */
  lemma LessEqIsCalendarOrder(s: string, t: string)
    requires IsIsoDate(s) && IsIsoDate(t)
    ensures LessEq(s, t) <==> OrdinalOf(s) <= OrdinalOf(t)
  {
    LessIsCalendarOrder(s, t);
  }

  /** The first day of the one-year window ending at `latest`: parse,
      subtract 365 days, format. Python raises `OverflowError` when the
      result would fall before 0001-01-01, which the precondition excludes. */
  function WindowStart(latest: string): (start: string)
    requires IsIsoDate(latest) && OrdinalOf(latest) > 365
    ensures IsIsoDate(start)
    ensures OrdinalOf(start) == OrdinalOf(latest) - 365
  {
    var d := FromOrdinal(OrdinalOf(latest) - 365);
    ParseFormat(d);
    Format(d)
  }

  /** The window start is the only valid date string 365 days before
      `latest`, and it is spelled the way `Format` spells that date. */
  lemma WindowStartUnique(latest: string, s: string)
    requires IsIsoDate(latest) && OrdinalOf(latest) > 365
    requires IsIsoDate(s) && OrdinalOf(s) == OrdinalOf(latest) - 365
    ensures s == WindowStart(latest)
    ensures Format(Parse(s).value) == s
  {
    LessIsCalendarOrder(s, WindowStart(latest));
    FormatParse(s);
  }

  /** For a latest stored date of 2017-08-23 the window starts on
      2016-08-23 (2017 is not a leap year). */
  lemma WindowExample()
    ensures IsIsoDate("2017-08-23")
    ensures WindowStart("2017-08-23") == "2016-08-23"
  {
    var latest, start := "2017-08-23", "2016-08-23";
    FieldsByDigits(latest);
    FieldsByDigits(start);
    assert Parse(latest) == Some(Date(2017, 8, 23));
    assert Parse(start) == Some(Date(2016, 8, 23));
    assert OrdinalOf(latest) == 736564;
    assert OrdinalOf(start) == 736199;
    WindowStartUnique(latest, start);
  }

  /** Over a leap day the window is not "the same date a year before":
      365 days before 2016-03-01 is 2015-03-02. */
  lemma LeapWindowExample()
    ensures IsIsoDate("2016-03-01")
    ensures WindowStart("2016-03-01") == "2015-03-02"
  {
    var latest, start := "2016-03-01", "2015-03-02";
    FieldsByDigits(latest);
    FieldsByDigits(start);
    assert Parse(latest) == Some(Date(2016, 3, 1));
    assert Parse(start) == Some(Date(2015, 3, 2));
    assert OrdinalOf(latest) == 736024;
    assert OrdinalOf(start) == 735659;
    WindowStartUnique(latest, start);
  }

  /** Strings the route rejects: a month and day out of range, and a date
      without zero padding. */
  lemma ParseExamples()
    ensures !IsIsoDate("2020-99-99")
    ensures !IsIsoDate("2017-2-29")
    ensures !IsIsoDate("2017-02-29")
    ensures IsIsoDate("2016-02-29")
  {
    FieldsByDigits("2020-99-99");
    FieldsByDigits("2017-02-29");
    FieldsByDigits("2016-02-29");
  }
}
