/** The proleptic Gregorian calendar in UTC, as Go's `time` package computes with it.
    Days are numbered from 1 January of year 0, months from January of year 0. */
module Calendar {
  predicate Leap(year: int) {
    year % 4 == 0 && (year % 100 != 0 || year % 400 == 0)
  }

  /** Days of the month with index m (0 is January). */
  function DaysOf(m: int, leap: bool): (n: int)
    ensures 28 <= n <= 31
  {
    if m == 1 then if leap then 29 else 28
    else if m == 3 || m == 5 || m == 8 || m == 10 then 30
    else 31
  }

  /** Days of a month; months are counted from January of year 0, across years. */
  function DaysIn(month: int): (n: int)
    ensures 28 <= n <= 31
  {
    DaysOf(month % 12, Leap(month / 12))
  }

  /** Day number of the first day of a month. */
  function MonthStart(month: int): int
    decreases if month < 0 then -month else month
  {
    if month == 0 then 0
    else if month > 0 then MonthStart(month - 1) + DaysIn(month - 1)
    else MonthStart(month + 1) - DaysIn(month)
  }

  lemma MonthLength(month: int)
    ensures MonthStart(month + 1) == MonthStart(month) + DaysIn(month)
  {
  }

  lemma {:induction false} MonthsIncrease(a: int, b: int)
    requires a < b
    ensures MonthStart(a) + 28 * (b - a) <= MonthStart(b) <= MonthStart(a) + 31 * (b - a)
    decreases b - a
  {
    MonthLength(b - 1);
    if a < b - 1 {
      MonthsIncrease(a, b - 1);
    }
  }

  // How the three quotients in the closed form grow from one year to the next.

  lemma NextQuotient4(y: int)
    ensures (y + 4) / 4 == (y + 3) / 4 + if y % 4 == 0 then 1 else 0
  {
    var q, r := y / 4, y % 4;
    assert y == 4 * q + r && (y + 4) / 4 == q + 1;
    assert (y + 3) / 4 == q + (r + 3) / 4;
  }

  lemma NextQuotient100(y: int)
    ensures (y + 100) / 100 == (y + 99) / 100 + if y % 100 == 0 then 1 else 0
  {
    var q, r := y / 100, y % 100;
    assert y == 100 * q + r && (y + 100) / 100 == q + 1;
    assert (y + 99) / 100 == q + (r + 99) / 100;
  }

  lemma NextQuotient400(y: int)
    ensures (y + 400) / 400 == (y + 399) / 400 + if y % 400 == 0 then 1 else 0
  {
    var q, r := y / 400, y % 400;
    assert y == 400 * q + r && (y + 400) / 400 == q + 1;
    assert (y + 399) / 400 == q + (r + 399) / 400;
  }

  lemma CenturiesAreFourths(y: int)
    ensures y % 400 == 0 ==> y % 100 == 0
    ensures y % 100 == 0 ==> y % 4 == 0
  {
    if y % 100 == 0 {
      TimesFour(25 * (y / 100));
      assert y == 4 * (25 * (y / 100));
    }
    if y % 400 == 0 {
      TimesHundred(4 * (y / 400));
      assert y == 100 * (4 * (y / 400));
    }
  }

  lemma TimesFour(q: int)
    ensures 4 * q % 4 == 0
  {
  }

  lemma TimesHundred(q: int)
    ensures 100 * q % 100 == 0
  {
  }

  /** Leap days in the years before `year`, from year 0. */
  function LeapDays(year: int): int {
    (year + 3) / 4 - (year + 99) / 100 + (year + 399) / 400
  }

  lemma {:induction false} LeapDaysGrow(year: int)
    ensures LeapDays(year + 1) == LeapDays(year) + if Leap(year) then 1 else 0
  {
    NextQuotient4(year);
    NextQuotient100(year);
    NextQuotient400(year);
    CenturiesAreFourths(year);
  }

  /** Day number of 1 January: a year has 365 days, and a 366th if it is a leap year. */
  function YearStart(year: int): int {
    365 * year + LeapDays(year)
  }

  lemma {:induction false} YearLength(year: int)
    ensures YearStart(year + 1) == YearStart(year) + if Leap(year) then 366 else 365
  {
    hide LeapDays, Leap;
    LeapDaysGrow(year);
  }

  lemma MonthOfYear(year: int, m: int)
    requires 0 <= m < 12
    ensures MonthStart(12 * year + m + 1) == MonthStart(12 * year + m) + DaysOf(m, Leap(year))
  {
    hide MonthStart, Leap, DaysOf;
    MonthLength(12 * year + m);
    assert (12 * year + m) / 12 == year && (12 * year + m) % 12 == m;
  }

  lemma TwelveMonths(year: int)
    ensures MonthStart(12 * year + 12) == MonthStart(12 * year) + if Leap(year) then 366 else 365
  {
    hide MonthStart, Leap;
    MonthOfYear(year, 0);
    MonthOfYear(year, 1);
    MonthOfYear(year, 2);
    MonthOfYear(year, 3);
    MonthOfYear(year, 4);
    MonthOfYear(year, 5);
    MonthOfYear(year, 6);
    MonthOfYear(year, 7);
    MonthOfYear(year, 8);
    MonthOfYear(year, 9);
    MonthOfYear(year, 10);
    MonthOfYear(year, 11);
  }

  lemma FirstYearStarts()
    ensures YearStart(0) == 0
  {
  }

  /** Adding up the months gives the closed form of the Gregorian calendar. */
  lemma {:induction false} YearStartsWithJanuary(year: nat)
    ensures MonthStart(12 * year) == YearStart(year)
  {
    hide YearStart, Leap;
    if year == 0 {
      FirstYearStarts();
    } else {
      hide MonthStart;
      YearStartsWithJanuary(year - 1);
      YearLength(year - 1);
      TwelveMonths(year - 1);
      assert 12 * (year - 1) + 12 == 12 * year;
    }
  }

  /** Where the months of a year start: from March on in the rhythm of 153 days for five months. */
  lemma {:induction false} MonthsOfYear(year: nat, m: int)
    requires 0 <= m < 12
    ensures MonthStart(12 * year + m) == YearStart(year) +
      if m == 0 then 0
      else if m == 1 then 31
      else 59 + (if Leap(year) then 1 else 0) + (153 * (m - 2) + 2) / 5
    decreases m
  {
    hide YearStart, Leap, MonthStart;
    if m == 0 {
      YearStartsWithJanuary(year);
    } else {
      MonthsOfYear(year, m - 1);
      MonthOfYear(year, m - 1);
    }
  }

  /** Four centuries have 97 leap years, and are a whole number of weeks long. */
  lemma FourCenturies(year: nat)
    ensures MonthStart(12 * (year + 400)) == MonthStart(12 * year) + 146097
    ensures 146097 == 400 * 365 + 97 == 7 * 20871
  {
    hide MonthStart, LeapDays;
    YearStartsWithJanuary(year);
    YearStartsWithJanuary(year + 400);
    LeapDaysOfCenturies(year);
  }

  lemma LeapDaysOfCenturies(year: int)
    ensures LeapDays(year + 400) == LeapDays(year) + 97
  {
    assert (year + 3 + 400) / 4 == (year + 3) / 4 + 100;
    assert (year + 99 + 400) / 100 == (year + 99) / 100 + 4;
  }

  function MonthFrom(day: int, month: int): (r: int)
    requires MonthStart(month) <= day
    ensures MonthStart(r) <= day < MonthStart(r + 1)
    decreases day - MonthStart(month)
  {
    MonthLength(month);
    if day < MonthStart(month + 1) then month else MonthFrom(day, month + 1)
  }

  function MonthBefore(day: int, month: int): (r: int)
    requires day < MonthStart(month)
    ensures MonthStart(r) <= day < MonthStart(r + 1)
    decreases MonthStart(month) - day
  {
    MonthLength(month - 1);
    if MonthStart(month - 1) <= day then month - 1 else MonthBefore(day, month - 1)
  }

  /** The month a day lies in. */
  function MonthOf(day: int): (month: int)
    ensures MonthStart(month) <= day < MonthStart(month) + DaysIn(month)
  {
    var month := if day >= 0 then MonthFrom(day, 0) else MonthBefore(day, 0);
    MonthLength(month);
    month
  }

  /** No other month contains the day. */
  lemma MonthOfUnique(day: int, month: int)
    requires MonthStart(month) <= day < MonthStart(month) + DaysIn(month)
    ensures MonthOf(day) == month
  {
    hide MonthStart, MonthOf;
    var m := MonthOf(day);
    MonthLength(m);
    MonthLength(month);
    if m < month && m + 1 < month {
      MonthsIncrease(m + 1, month);
    } else if month < m && month + 1 < m {
      MonthsIncrease(month + 1, m);
    }
  }

  /** Day of the month, from 1. */
  function DayOf(day: int): int {
    day - MonthStart(MonthOf(day)) + 1
  }

  /** Day of the week, 0 for Sunday; the first day of year 0 counts as a Saturday, and so, by FirstOf1970, the first
      day of 1970 as a Thursday. */
  function WeekdayOf(day: int): (w: int)
    ensures 0 <= w < 7
  {
    (day + 6) % 7
  }

  lemma FirstOf1970()
    ensures MonthStart(12 * 1970) == 719528 && WeekdayOf(719528) == 4
  {
    hide MonthStart;
    YearStartsWithJanuary(1970);
  }

  /** A point in time: whole minutes since the start of year 0, and the nanoseconds into that minute. */
  datatype Instant = Instant(minute: int, nanos: nat) {
    predicate Before(other: Instant) {
      minute < other.minute || (minute == other.minute && nanos < other.nanos)
    }

    function Day(): int { minute / 1440 }

    function Month(): int { MonthOf(Day()) }

    function AddMinutes(n: int): Instant {
      Instant(minute + n, nanos)
    }

    /** time.AddDate: the day of the month and the clock stay, and a day that the
        resulting month does not have runs over into the month after it. */
    function AddDate(years: int, months: int, days: int): Instant {
      Date(Month() + 12 * years + months, DayOf(Day()) + days, minute % 1440, nanos)
    }
  }

  /** Instants are ordered as numbers of nanoseconds. */
  lemma BeforeMeans(a: Instant, b: Instant)
    requires a.nanos < 60_000_000_000 && b.nanos < 60_000_000_000
    ensures a.Before(b) <==> a.minute * 60_000_000_000 + a.nanos < b.minute * 60_000_000_000 + b.nanos
  {
  }

  /** time.Date: the day is counted from the start of the month and may lie outside it. */
  function Date(month: int, day: int, minuteOfDay: int, nanos: nat): Instant {
    Instant((MonthStart(month) + day - 1) * 1440 + minuteOfDay, nanos)
  }

  /** Adding days moves the clock by whole days, whatever months are crossed. */
  lemma AddDays(t: Instant, days: int)
    ensures t.AddDate(0, 0, days) == t.AddMinutes(1440 * days)
  {
  }

  /** Adding one month lands in the next month exactly when that month has the day;
      otherwise it lands in the month after the next. */
  lemma AddMonthLandsIn(t: Instant)
    ensures t.AddDate(0, 1, 0).Month() ==
            if DayOf(t.Day()) <= DaysIn(t.Month() + 1) then t.Month() + 1 else t.Month() + 2
  {
    hide MonthStart, MonthOf;
    var d := DayOf(t.Day());
    MonthLength(t.Month() + 1);
    var u := t.AddDate(0, 1, 0);
    assert u.Day() == MonthStart(t.Month() + 1) + d - 1;
    if d <= DaysIn(t.Month() + 1) {
      MonthOfUnique(u.Day(), t.Month() + 1);
    } else {
      MonthOfUnique(u.Day(), t.Month() + 2);
    }
  }
}
