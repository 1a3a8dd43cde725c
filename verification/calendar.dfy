/**
 Proleptic Gregorian calendar arithmetic on day numbers counted from the Unix
 epoch (day 0 is 1970-01-01), and the week-date rules of ISO 8601 (section
 4.1.4, "calendar week"): weeks run Monday to Sunday, and week 1 of a year is
 the week that holds that year's first Thursday.
 */
module Calendar {

  datatype Date = Date(year: int, month: int, day: int)

  predicate IsLeapYear(y: int) {
    y % 4 == 0 && (y % 100 != 0 || y % 400 == 0)
  }

  function DaysInYear(y: int): int {
    if IsLeapYear(y) then 366 else 365
  }

  function DaysInMonth(y: int, m: int): int
    requires 1 <= m <= 12
  {
    if m == 2 then (if IsLeapYear(y) then 29 else 28)
    else if m == 4 || m == 6 || m == 9 || m == 11 then 30
    else 31
  }

  predicate ValidDate(d: Date) {
    1 <= d.month <= 12 && 1 <= d.day <= DaysInMonth(d.year, d.month)
  }

  /** Days of year `y` that precede the first of month `m`. */
  function DaysBeforeMonth(y: int, m: int): int
    requires 1 <= m <= 12
  {
    [0, 31, 59, 90, 120, 151, 181, 212, 243, 273, 304, 334][m - 1]
      + (if m > 2 && IsLeapYear(y) then 1 else 0)
  }

  /** Days from 1970-01-01 to January 1st of year `y` (negative before 1970). */
  function DaysBeforeYear(y: int): int {
    var a := y - 1;
    365 * a + a / 4 - a / 100 + a / 400 - 719162
  }

  /** The cumulative month table agrees with the month lengths. */
  lemma MonthTable(y: int, m: int)
    requires 1 <= m <= 12
    ensures DaysBeforeMonth(y, m) + DaysInMonth(y, m)
      == if m == 12 then DaysInYear(y) else DaysBeforeMonth(y, m + 1)
  {
  }

  /** Stepping `a` by one raises `a / k` by one exactly when `a + 1` is a multiple of `k`. */
  lemma DivStep(a: int, k: int)
    requires k == 4 || k == 100 || k == 400
    ensures (a + 1) / k - a / k == if (a + 1) % k == 0 then 1 else 0
  {
  }

  /** The closed form for the start of a year advances by exactly that year's length. */
  lemma YearLength(y: int)
    ensures DaysBeforeYear(y + 1) - DaysBeforeYear(y) == DaysInYear(y)
  {
    var a := y - 1;
    DivStep(a, 4);
    DivStep(a, 100);
    DivStep(a, 400);
    assert DaysBeforeYear(y + 1) - DaysBeforeYear(y)
      == 365 + ((a + 1) / 4 - a / 4) - ((a + 1) / 100 - a / 100) + ((a + 1) / 400 - a / 400);
    LeapDivisors(y);
  }

  lemma LeapDivisors(y: int)
    ensures y % 400 == 0 ==> y % 100 == 0
    ensures y % 100 == 0 ==> y % 4 == 0
  {
    if y % 400 == 0 {
      MultipleMod(y, 4 * (y / 400), 100);
    }
    if y % 100 == 0 {
      MultipleMod(y, 25 * (y / 100), 4);
    }
  }

  lemma MultipleMod(y: int, q: int, k: int)
    requires k == 4 || k == 100
    requires y == q * k
    ensures y % k == 0
  {
  }

  lemma {:induction false} DaysBeforeYearMonotone(y1: int, y2: int)
    requires y1 <= y2
    ensures DaysBeforeYear(y1) <= DaysBeforeYear(y2)
    decreases y2 - y1
  {
    if y1 < y2 {
      YearLength(y1);
      DaysBeforeYearMonotone(y1 + 1, y2);
    }
  }

  /** The epoch day number of a valid date; it lies inside the date's year. */
  function DaysFromCivil(d: Date): (n: int)
    requires ValidDate(d)
    ensures DaysBeforeYear(d.year) <= n < DaysBeforeYear(d.year + 1)
    ensures n - DaysBeforeYear(d.year) == DaysBeforeMonth(d.year, d.month) + d.day - 1
  {
    MonthTable(d.year, d.month);
    YearLength(d.year);
    DaysBeforeYear(d.year) + DaysBeforeMonth(d.year, d.month) + d.day - 1
  }

  /** The year, searched upward from `y`, whose days contain day `n`. */
  function YearFrom(n: int, y: int): (r: int)
    requires DaysBeforeYear(y) <= n
    ensures y <= r
    ensures DaysBeforeYear(r) <= n < DaysBeforeYear(r + 1)
    decreases n - DaysBeforeYear(y)
  {
    YearLength(y);
    if n < DaysBeforeYear(y + 1) then y else YearFrom(n, y + 1)
  }

  /** The month, searched upward from `m`, containing day `doy` (0-based) of year `y`. */
  function MonthFrom(y: int, doy: int, m: int): (r: int)
    requires 1 <= m <= 12 && DaysBeforeMonth(y, m) <= doy < DaysInYear(y)
    ensures m <= r <= 12
    ensures DaysBeforeMonth(y, r) <= doy < DaysBeforeMonth(y, r) + DaysInMonth(y, r)
    decreases 12 - m
  {
    MonthTable(y, m);
    if doy < DaysBeforeMonth(y, m) + DaysInMonth(y, m) then m else MonthFrom(y, doy, m + 1)
  }

  /** The year containing epoch day `n`. */
  function YearOf(n: nat): (y: int)
    ensures 1970 <= y
    ensures DaysBeforeYear(y) <= n < DaysBeforeYear(y + 1)
  {
    YearFrom(n, 1970)
  }

  /** The UTC calendar date of epoch day `n`; converting it back gives `n`. */
  function CivilFromDays(n: nat): (d: Date)
    ensures ValidDate(d) && 1970 <= d.year
    ensures DaysFromCivil(d) == n
  {
    var y := YearOf(n);
    YearLength(y);
    var doy := n - DaysBeforeYear(y);
    var m := MonthFrom(y, doy, 1);
    Date(y, m, doy - DaysBeforeMonth(y, m) + 1)
  }

  /** Day `n` lies in exactly one year. */
  lemma YearUnique(n: int, y1: int, y2: int)
    requires DaysBeforeYear(y1) <= n < DaysBeforeYear(y1 + 1)
    requires DaysBeforeYear(y2) <= n < DaysBeforeYear(y2 + 1)
    ensures y1 == y2
  {
    if y1 < y2 {
      DaysBeforeYearMonotone(y1 + 1, y2);
    } else if y2 < y1 {
      DaysBeforeYearMonotone(y2 + 1, y1);
    }
  }

  lemma {:induction false} DaysBeforeMonthMonotone(y: int, m1: int, m2: int)
    requires 1 <= m1 < m2 <= 12
    ensures DaysBeforeMonth(y, m1) + DaysInMonth(y, m1) <= DaysBeforeMonth(y, m2)
    decreases m2 - m1
  {
    MonthTable(y, m1);
    if m1 + 1 < m2 {
      DaysBeforeMonthMonotone(y, m1 + 1, m2);
      MonthTable(y, m1 + 1);
    }
  }

  /** Distinct valid dates have distinct day numbers. */
  lemma DaysFromCivilInjective(d1: Date, d2: Date)
    requires ValidDate(d1) && ValidDate(d2)
    requires DaysFromCivil(d1) == DaysFromCivil(d2)
    ensures d1 == d2
  {
    var n := DaysFromCivil(d1);
    YearUnique(n, d1.year, d2.year);
    if d1.month < d2.month {
      DaysBeforeMonthMonotone(d1.year, d1.month, d2.month);
    } else if d2.month < d1.month {
      DaysBeforeMonthMonotone(d1.year, d2.month, d1.month);
    }
  }

  /** Round trip: a valid date from 1970 on converts to its day number and back to itself. */
  lemma CivilRoundTrip(d: Date)
    requires ValidDate(d) && 1970 <= d.year
    ensures DaysFromCivil(d) >= 0
    ensures CivilFromDays(DaysFromCivil(d)) == d
  {
    DaysBeforeYearMonotone(1970, d.year);
    DaysFromCivilInjective(CivilFromDays(DaysFromCivil(d)), d);
  }

  /** ISO day of the week of epoch day `n`: 1 = Monday .. 7 = Sunday (1970-01-01 was a Thursday). */
  function IsoWeekday(n: int): (wd: int)
    ensures 1 <= wd <= 7
    ensures n == 0 ==> wd == 4
    ensures (n - wd) % 7 == 3
  {
    (n + 3) % 7 + 1
  }

  /** Weekdays advance by one per day, Sunday wrapping round to Monday. */
  lemma WeekdayNext(n: int)
    ensures IsoWeekday(n + 1) == if IsoWeekday(n) == 7 then 1 else IsoWeekday(n) + 1
  {
  }

  /** The Thursday of the Monday-to-Sunday week that holds day `n`. */
  function WeekThursday(n: int): (th: int)
    ensures IsoWeekday(th) == 4
    ensures n - 3 <= th <= n + 3
  {
    n - IsoWeekday(n) + 4
  }

  /**
   The ISO 8601 week number of epoch day `n`: the week belongs to the year of
   its Thursday, and is numbered from that year's first Thursday.
   */
  function IsoWeek(n: nat): (w: int)
    ensures 1 <= w <= 53
  {
    var th := WeekThursday(n);
    assert th >= 0;
    var y := YearOf(th);
    YearLength(y);
    (th - DaysBeforeYear(y)) / 7 + 1
  }

  /** January 4th always lies in week 1 (the ISO 8601 equivalent of "the week with the first Thursday"). */
  lemma IsoWeekJanuaryFourth(y: int)
    requires 1970 <= y
    ensures DaysBeforeYear(y) + 3 >= 0
    ensures IsoWeek(DaysBeforeYear(y) + 3) == 1
  {
    DaysBeforeYearMonotone(1970, y);
    var n := DaysBeforeYear(y) + 3;
    var th := WeekThursday(n);
    YearLength(y);
    YearUnique(th, YearOf(th), y);
  }

  /** Tuesday to Sunday carry the week number of the day before them. */
  lemma IsoWeekWithinWeek(n: nat)
    requires IsoWeekday(n) < 7
    ensures IsoWeek(n + 1) == IsoWeek(n)
  {
    WeekdayNext(n);
    assert WeekThursday(n + 1) == WeekThursday(n);
  }

  /**
   Each Monday starts the next week: its number is one more than the Sunday
   before it, unless the Monday's week is the first week of a new year.
   */
  lemma IsoWeekOnMonday(n: nat)
    requires IsoWeekday(n) == 7
    ensures IsoWeek(n + 1) == IsoWeek(n) + 1 || IsoWeek(n + 1) == 1
    ensures YearOf(WeekThursday(n + 1)) == YearOf(WeekThursday(n)) ==> IsoWeek(n + 1) == IsoWeek(n) + 1
    ensures YearOf(WeekThursday(n + 1)) != YearOf(WeekThursday(n)) ==> IsoWeek(n + 1) == 1
  {
    WeekdayNext(n);
    var th, th' := WeekThursday(n), WeekThursday(n + 1);
    assert th' == th + 7;
    var y, y' := YearOf(th), YearOf(th');
    if y != y' {
      DaysBeforeYearMonotone(y, y');
      if y' > y + 1 {
        DaysBeforeYearMonotone(y + 1, y' - 1);
        YearLength(y' - 1);
        assert false;
      }
    }
  }

  /**
   Where the Thursday of a day's week falls in the day's own year, the week
   number is the textbook ordinal formula (ordinal - weekday + 10) / 7, with the
   ordinal counted from 1 on January 1st.
   */
  lemma IsoWeekOrdinalFormula(n: nat)
    requires WeekThursday(n) >= 0 && YearOf(WeekThursday(n)) == YearOf(n)
    ensures IsoWeek(n) == (n - DaysBeforeYear(YearOf(n)) + 1 - IsoWeekday(n) + 10) / 7
  {
  }
}
