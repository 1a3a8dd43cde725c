/**
 Decomposition of an event's epoch-millisecond timestamp into the columns of
 the time table: `from_unixtime(ts / 1000)` read in UTC, then `hour`,
 `dayofmonth`, `weekofyear`, `month`, `year`, and the `date_format` patterns
 `'HH:MM:ss'` and `'u'`.
 */
module Timestamps {
  import opened Calendar

  const SecondsPerDay := 86400

  /** A UTC civil date and time of day, to the second. */
  datatype Instant = Instant(date: Date, hour: int, minute: int, second: int)

  predicate ValidInstant(t: Instant) {
    ValidDate(t.date) && 0 <= t.hour < 24 && 0 <= t.minute < 60 && 0 <= t.second < 60
  }

  /** Whole seconds since the epoch of an instant. */
  function InstantSeconds(t: Instant): int
    requires ValidInstant(t)
  {
    DaysFromCivil(t.date) * SecondsPerDay + t.hour * 3600 + t.minute * 60 + t.second
  }

  /**
   The first millisecond of the year 10000 UTC. `from_unixtime` renders each
   timestamp as a `yyyy-MM-dd HH:mm:ss` string that the date functions parse
   back; that round trip is modelled for four-digit years only, so event times
   lie below this bound (which also keeps them inside a signed 64-bit long).
   */
  const MillisLimit: nat := 253402300800000

  /** An event time in epoch milliseconds, within the renderable range. */
  type Millis = ts: nat | ts < MillisLimit

  /** `from_unixtime(ts / 1000)`: the fractional second is dropped. */
  function EpochSeconds(ts: nat): (s: nat)
    ensures s * 1000 <= ts < s * 1000 + 1000
  {
    ts / 1000
  }

  /** The UTC civil time of an epoch second; converting it back gives the same second. */
  function ToUtc(secs: nat): (t: Instant)
    ensures ValidInstant(t) && 1970 <= t.date.year
    ensures InstantSeconds(t) == secs
  {
    var days := secs / SecondsPerDay;
    var tod := secs % SecondsPerDay;
    SplitDay(secs);
    SplitTimeOfDay(tod);
    Instant(CivilFromDays(days), tod / 3600, tod % 3600 / 60, tod % 60)
  }

  lemma SplitDay(secs: nat)
    ensures secs == secs / SecondsPerDay * SecondsPerDay + secs % SecondsPerDay
    ensures 0 <= secs % SecondsPerDay < SecondsPerDay
    ensures secs % SecondsPerDay % 60 == secs % 60
  {
    var q, tod := secs / SecondsPerDay, secs % SecondsPerDay;
    assert secs == (q * 1440) * 60 + tod;
    assert secs / 60 == q * 1440 + tod / 60;
  }

  lemma SplitTimeOfDay(tod: int)
    requires 0 <= tod < SecondsPerDay
    ensures tod == tod / 3600 * 3600 + tod % 3600 / 60 * 60 + tod % 60
    ensures 0 <= tod / 3600 < 24 && 0 <= tod % 3600 / 60 < 60 && 0 <= tod % 60 < 60
  {
  }

  /** Round trip: a valid instant from 1970 on converts to seconds and back to itself. */
  lemma UtcRoundTrip(t: Instant)
    requires ValidInstant(t) && 1970 <= t.date.year
    ensures InstantSeconds(t) >= 0
    ensures ToUtc(InstantSeconds(t)) == t
  {
    var days := DaysFromCivil(t.date);
    var tod := t.hour * 3600 + t.minute * 60 + t.second;
    var secs := InstantSeconds(t);
    assert secs == days * SecondsPerDay + tod;
    CivilRoundTrip(t.date);
    TimeOfDayUnique(t.hour, t.minute, t.second);
    DayUnique(secs, days, tod);
    assert ToUtc(secs) == Instant(CivilFromDays(days), tod / 3600, tod % 3600 / 60, tod % 60);
  }

  /** Euclidean division by the day length recovers the day and the time of day. */
  lemma DayUnique(secs: int, days: int, tod: int)
    requires secs == days * SecondsPerDay + tod && 0 <= tod < SecondsPerDay
    ensures secs / SecondsPerDay == days && secs % SecondsPerDay == tod
  {
  }

  /** Hours, minutes and seconds are recovered from the second of the day. */
  lemma TimeOfDayUnique(h: int, m: int, s: int)
    requires 0 <= h < 24 && 0 <= m < 60 && 0 <= s < 60
    ensures 0 <= h * 3600 + m * 60 + s < SecondsPerDay
    ensures (h * 3600 + m * 60 + s) / 3600 == h
    ensures (h * 3600 + m * 60 + s) % 3600 / 60 == m
    ensures (h * 3600 + m * 60 + s) % 60 == s
  {
    var tod := h * 3600 + m * 60 + s;
    assert tod == h * 3600 + (m * 60 + s) && 0 <= m * 60 + s < 3600;
    assert tod % 3600 == m * 60 + s;
    assert tod == (h * 60 + m) * 60 + s;
  }

  /** The ASCII decimal digit for `d`. */
  function Digit(d: int): char
    requires 0 <= d <= 9
  {
    ('0' as int + d) as char
  }

  predicate IsDigit(c: char) {
    '0' <= c <= '9'
  }

  /** Reads a two-character decimal field. */
  function Parse2(s: string): int
    requires |s| == 2
  {
    (s[0] as int - '0' as int) * 10 + (s[1] as int - '0' as int)
  }

  /** A number below 100 as two decimal digits with a leading zero; parsing it back gives the number. */
  function Pad2(n: int): (s: string)
    requires 0 <= n < 100
    ensures |s| == 2 && IsDigit(s[0]) && IsDigit(s[1])
    ensures Parse2(s) == n
  {
    [Digit(n / 10), Digit(n % 10)]
  }

  /**
   `date_format(timestamp, 'HH:MM:ss')`. In the pattern language `HH` is the
   hour of day, `MM` the MONTH of year and `ss` the second, so the middle field
   is the month, not the minute.
   */
  function StartTime(t: Instant): (s: string)
    requires ValidInstant(t)
    ensures |s| == 8 && s[2] == ':' && s[5] == ':'
    ensures forall i :: 0 <= i < 8 && i != 2 && i != 5 ==> IsDigit(s[i])
    ensures Parse2(s[0..2]) == t.hour
    ensures Parse2(s[3..5]) == t.date.month
    ensures Parse2(s[6..8]) == t.second
  {
    var s := Pad2(t.hour) + ":" + Pad2(t.date.month) + ":" + Pad2(t.second);
    assert s[0..2] == Pad2(t.hour);
    assert s[3..5] == Pad2(t.date.month);
    assert s[6..8] == Pad2(t.second);
    s
  }

  /** `date_format(timestamp, 'u')`: the ISO day of the week as one digit, "1" = Monday. */
  function WeekdayText(n: int): (s: string)
    ensures |s| == 1 && '1' <= s[0] <= '7'
    ensures s[0] as int - '0' as int == IsoWeekday(n)
  {
    [Digit(IsoWeekday(n))]
  }

  /** A row of the time table. */
  datatype TimeRow = TimeRow(
    startTime: string,
    hour: int,
    day: int,
    week: int,
    month: int,
    year: int,
    weekday: string)

  /** The column bounds every time-table row satisfies. */
  predicate ValidTimeRow(r: TimeRow) {
    && 0 <= r.hour <= 23
    && 1 <= r.month <= 12
    && 1 <= r.day <= DaysInMonth(r.year, r.month)
    && 1 <= r.week <= 53
    && |r.weekday| == 1 && '1' <= r.weekday[0] <= '7'
    && |r.startTime| == 8 && r.startTime[2] == ':' && r.startTime[5] == ':'
  }

  /**
   The time-table row of an event timestamp (epoch milliseconds). Its date
   columns name the UTC day the timestamp falls on, its hour the UTC hour, and
   its start time reads back as hour, month and second.
   */
  function TimeRowOf(ts: nat): (r: TimeRow)
    ensures ValidTimeRow(r)
    ensures ValidDate(Date(r.year, r.month, r.day))
    ensures DaysFromCivil(Date(r.year, r.month, r.day)) == EpochSeconds(ts) / SecondsPerDay
    ensures r.hour == EpochSeconds(ts) % SecondsPerDay / 3600
    ensures Parse2(r.startTime[0..2]) == r.hour
    ensures Parse2(r.startTime[3..5]) == r.month
    ensures Parse2(r.startTime[6..8]) == EpochSeconds(ts) % 60
    ensures r.startTime == StartTime(ToUtc(EpochSeconds(ts)))
    ensures r.week == IsoWeek(EpochSeconds(ts) / SecondsPerDay)
    ensures r.weekday == WeekdayText(EpochSeconds(ts) / SecondsPerDay)
  {
    var secs := EpochSeconds(ts);
    var t := ToUtc(secs);
    var days := secs / SecondsPerDay;
    SplitDay(secs);
    assert t.date == Date(t.date.year, t.date.month, t.date.day);
    TimeRow(StartTime(t), t.hour, t.date.day, IsoWeek(days), t.date.month, t.date.year,
            WeekdayText(days))
  }

  /** Every event time in the modelled range falls in a four-digit year from 1970 on. */
  lemma TimeRowYearInRange(ts: Millis)
    ensures 1970 <= TimeRowOf(ts).year <= 9999
  {
    var r := TimeRowOf(ts);
    var days := EpochSeconds(ts) / SecondsPerDay;
    assert DaysBeforeYear(1970) == 0;
    assert DaysBeforeYear(10000) * SecondsPerDay * 1000 == MillisLimit;
    assert days < DaysBeforeYear(10000);
    if r.year < 1970 {
      DaysBeforeYearMonotone(r.year + 1, 1970);
    }
    if r.year > 9999 {
      DaysBeforeYearMonotone(10000, r.year);
    }
  }

  /**
   The start time cannot tell minutes apart: two timestamps in the same hour of
   the same day whose seconds-of-minute agree give the same start time.
   */
  lemma StartTimeIgnoresMinute(ts1: nat, ts2: nat)
    requires EpochSeconds(ts1) / 3600 == EpochSeconds(ts2) / 3600
    requires EpochSeconds(ts1) % 60 == EpochSeconds(ts2) % 60
    ensures TimeRowOf(ts1).startTime == TimeRowOf(ts2).startTime
  {
    var s1, s2 := EpochSeconds(ts1), EpochSeconds(ts2);
    assert s1 / SecondsPerDay == s2 / SecondsPerDay;
    assert s1 % SecondsPerDay / 3600 == s2 % SecondsPerDay / 3600;
  }

  /**
   The worked example: 1541121934796 ms is 2018-11-02 01:25:34 UTC, a Friday in
   ISO week 44, and its start time shows the month 11 where the minute 25 would be.
   */
  lemma ExampleTimestamp()
    ensures TimeRowOf(1541121934796) == TimeRow("01:11:34", 1, 2, 44, 11, 2018, "5")
  {
    assert EpochSeconds(1541121934796) == 1541121934;
    ExampleInstant();
    ExampleWeekday();
    ExampleWeek();
    ExampleStartTime();
  }

  lemma ExampleInstant()
    ensures 1541121934 / SecondsPerDay == 17837
    ensures ToUtc(1541121934) == Instant(Date(2018, 11, 2), 1, 25, 34)
  {
    var t := Instant(Date(2018, 11, 2), 1, 25, 34);
    assert DaysFromCivil(t.date) == 17837 by {
      assert DaysBeforeYear(2018) == 17532;
    }
    assert InstantSeconds(t) == 1541121934;
    UtcRoundTrip(t);
    DayUnique(1541121934, 17837, 5134);
  }

  lemma ExampleStartTime()
    ensures StartTime(Instant(Date(2018, 11, 2), 1, 25, 34)) == "01:11:34"
  {
    assert Pad2(1) == "01" && Pad2(11) == "11" && Pad2(34) == "34";
  }

  lemma ExampleWeekday()
    ensures WeekdayText(17837) == "5"
  {
    assert IsoWeekday(17837) == 5;
    assert Digit(5) == '5';
  }

  lemma ExampleWeek()
    ensures IsoWeek(17837) == 44
  {
    assert WeekThursday(17837) == 17836;
    assert DaysBeforeYear(2018) == 17532 && DaysBeforeYear(2019) == 17897;
    YearUnique(17836, YearOf(17836), 2018);
  }
}
