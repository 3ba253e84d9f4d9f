/** The jumping search for the next firing time of a cron expression. */
module CronSearch {
  import opened Text
  import opened Calendar

  /** The five parsed fields; weekday 0 is Sunday. */
  datatype Spec = Spec(minutes: set<int>, hours: set<int>, days: set<int>, months: set<int>, weekdays: set<int>)

  predicate MatchesDay(spec: Spec, day: int) {
    && MonthOf(day) % 12 + 1 in spec.months
    && DayOf(day) in spec.days
    && WeekdayOf(day) in spec.weekdays
  }

  /** What a cron expression means: the minutes at which it fires. */
  predicate Matches(spec: Spec, minute: int) {
    && MatchesDay(spec, minute / 1440)
    && minute % 1440 / 60 in spec.hours
    && minute % 60 in spec.minutes
  }

  /** The search looks at times before the same clock time two years on. */
  function Horizon(after: Instant): Instant {
    after.AddDate(2, 0, 0)
  }

  function FirstCandidate(after: Instant): Instant {
    after.AddMinutes(1)
  }

  /** The month jump taken from the first candidate overshoots: its month is excluded, and the
      next month is too short to have its day. */
  predicate Overshoots(spec: Spec, after: Instant) {
    var t := FirstCandidate(after);
    && t.Month() % 12 + 1 !in spec.months
    && DayOf(t.Day()) > DaysIn(t.Month() + 1)
  }

  /** The minutes such a jump passes over unseen: those of the month after the first candidate's. */
  predicate Skipped(spec: Spec, after: Instant, minute: int) {
    && Overshoots(spec, after)
    && MonthOf(minute / 1440) == FirstCandidate(after).Month() + 1
  }

  /** Minutes the search may return: those that begin before the horizon. */
  predicate InReach(after: Instant, minute: int) {
    after.minute < minute && Instant(minute, 0).Before(Horizon(after))
  }

  /** What the search returns: the earliest match that no overshooting jump passes over, if there is
      one before the horizon. */
  ghost predicate Answer(spec: Spec, after: Instant, r: Option<Instant>) {
    match r
    case Some(t) =>
      && after.minute < t.minute && t.Before(Horizon(after))
      && Matches(spec, t.minute) && !Skipped(spec, after, t.minute)
      && forall k | after.minute < k < t.minute && Matches(spec, k) :: Skipped(spec, after, k)
    case None =>
      forall k | InReach(after, k) && Matches(spec, k) :: Skipped(spec, after, k)
  }

  /** What a cron search is for: the earliest match after `after`, and a failure only if there is none. */
  ghost predicate Earliest(spec: Spec, after: Instant, r: Option<Instant>) {
    match r
    case Some(t) =>
      && after.minute < t.minute && Matches(spec, t.minute)
      && forall k | after.minute < k < t.minute :: !Matches(spec, k)
    case None =>
      forall k | InReach(after, k) :: !Matches(spec, k)
  }

  // ---- the jumps ----

  /** First minute of the month after the one the month jump of `t` lands in. */
  function MonthJump(t: Instant): Instant {
    Date(t.AddDate(0, 1, 0).Month(), 1, 0, 0)
  }

  function DayJump(t: Instant): Instant {
    var u := t.AddDate(0, 0, 1);
    Date(u.Month(), DayOf(u.Day()), 0, 0)
  }

  function HourJump(t: Instant): Instant {
    var u := t.AddMinutes(60);
    Date(u.Month(), DayOf(u.Day()), u.minute % 1440 / 60 * 60, 0)
  }

  /** A minute lies in a month exactly if it lies between the month's first minute and the next month's. */
  lemma MonthOfMinute(minute: int, month: int)
    ensures MonthOf(minute / 1440) == month <==> MonthStart(month) * 1440 <= minute < MonthStart(month + 1) * 1440
  {
    hide MonthStart, MonthOf;
    var day := minute / 1440;
    MonthLength(month);
    if MonthStart(month) <= day < MonthStart(month + 1) {
      MonthOfUnique(day, month);
    }
  }

  /** The month jump lands on the first minute of the next month, or of the one after if the next month
      lacks the day. */
  lemma {:induction false} MonthJumpLands(t: Instant)
    ensures var next := if DayOf(t.Day()) <= DaysIn(t.Month() + 1) then t.Month() + 1 else t.Month() + 2;
            MonthJump(t) == Instant(MonthStart(next) * 1440, 0) && MonthJump(t).Month() == next
            && DayOf(MonthJump(t).Day()) == 1 && t.minute < MonthJump(t).minute
  {
    hide MonthStart, MonthOf;
    AddMonthLandsIn(t);
    var next := t.AddDate(0, 1, 0).Month();
    MonthOfUnique(MonthStart(next), next);
    MonthOfMinute(t.minute, t.Month());
    MonthLength(t.Month() + 1);
  }

  /** The day after is in the same month, or is the first of one. */
  lemma DayAfter(day: int)
    ensures MonthOf(day + 1) == MonthOf(day) || DayOf(day + 1) == 1
  {
    hide MonthStart, MonthOf;
    var month := MonthOf(day);
    MonthLength(month);
    if day + 1 < MonthStart(month + 1) {
      MonthOfUnique(day + 1, month);
    } else {
      MonthOfUnique(day + 1, month + 1);
    }
  }

  /** No match lies between a time in an excluded month and the end of that month. */
  lemma MonthExcluded(spec: Spec, t: Instant)
    requires t.Month() % 12 + 1 !in spec.months
    ensures forall k | t.minute <= k < MonthStart(t.Month() + 1) * 1440 :: !Matches(spec, k)
  {
    hide MonthStart, MonthOf;
    forall k | t.minute <= k < MonthStart(t.Month() + 1) * 1440 ensures !Matches(spec, k) {
      MonthOfMinute(t.minute, t.Month());
      MonthOfMinute(k, t.Month());
    }
  }

  /** The day jump lands on the next midnight and passes over no match of a rejected day. */
  lemma {:induction false} DayJumpLands(spec: Spec, t: Instant)
    ensures DayJump(t) == Instant((t.Day() + 1) * 1440, 0) && t.minute < DayJump(t).minute
    ensures !MatchesDay(spec, t.Day()) ==> forall k | t.minute <= k < DayJump(t).minute :: !Matches(spec, k)
  {
    hide MonthStart, MonthOf;
    AddDays(t, 1);
    assert forall k | t.minute <= k < (t.Day() + 1) * 1440 :: k / 1440 == t.Day();
  }

  lemma HourOfDay(minute: int)
    ensures minute % 1440 / 60 == minute / 60 % 24
    ensures minute % 1440 / 60 * 60 + minute / 1440 * 1440 == minute / 60 * 60
  {
    var d, r := minute / 1440, minute % 1440;
    assert minute / 60 == 24 * d + r / 60;
  }

  /** The hour jump lands on the next full hour and passes over no match of a rejected hour. */
  lemma {:induction false} HourJumpLands(spec: Spec, t: Instant)
    ensures HourJump(t) == Instant((t.minute / 60 + 1) * 60, 0)
    ensures t.minute < HourJump(t).minute <= (t.Day() + 1) * 1440
    ensures t.minute % 1440 / 60 !in spec.hours ==> forall k | t.minute <= k < HourJump(t).minute :: !Matches(spec, k)
  {
    hide MonthStart, MonthOf;
    var u := t.AddMinutes(60);
    HourOfDay(t.minute);
    HourOfDay(u.minute);
    assert u.minute / 60 == t.minute / 60 + 1;
    assert HourJump(t).minute == u.Day() * 1440 + u.minute % 1440 / 60 * 60;
    forall k | t.minute <= k < (t.minute / 60 + 1) * 60 ensures k % 1440 / 60 == t.minute % 1440 / 60 {
      HourOfDay(k);
      assert k / 60 == t.minute / 60;
    }
  }

  /** What the search knows of the time `t` it has reached. */
  ghost predicate Reached(spec: Spec, after: Instant, t: Instant) {
    var first := FirstCandidate(after);
    && after.minute < t.minute
    && (t == first || t.nanos == 0 || t.nanos == after.nanos)
    && (t == first || DayOf(t.Day()) == 1 || t.Month() % 12 + 1 in spec.months)
    && (Overshoots(spec, after) ==> t == first || MonthStart(first.Month() + 2) * 1440 <= t.minute)
    && (t.nanos != 0 ==> forall k | first.minute <= k < t.minute :: k % 60 !in spec.minutes)
    && forall k | after.minute < k < t.minute && Matches(spec, k) :: Skipped(spec, after, k)
  }

  lemma MonthStep(spec: Spec, after: Instant, t: Instant)
    requires Reached(spec, after, t) && t.Month() % 12 + 1 !in spec.months
    ensures Reached(spec, after, MonthJump(t)) && t.minute < MonthJump(t).minute
  {
    hide MonthStart, MonthOf;
    var first := FirstCandidate(after);
    MonthJumpLands(t);
    MonthExcluded(spec, t);
    MonthLength(t.Month() + 1);
    forall k | after.minute < k < MonthJump(t).minute && Matches(spec, k) ensures Skipped(spec, after, k) {
      if t.minute <= k {
        MonthOfMinute(k, t.Month() + 1);
      }
    }
    if Overshoots(spec, after) && t != first {
      assert MonthStart(first.Month() + 2) * 1440 <= t.minute;
    }
  }

  /** Any other step moves on, passing over no match, by at most one day. */
  lemma SmallStep(spec: Spec, after: Instant, t: Instant, u: Instant)
    requires Reached(spec, after, t) && t.Month() % 12 + 1 in spec.months
    requires t.minute < u.minute <= (t.Day() + 1) * 1440
    requires u.nanos == 0 || (u == t.AddMinutes(1) && t.minute % 60 !in spec.minutes)
    requires forall k | t.minute <= k < u.minute :: !Matches(spec, k)
    ensures Reached(spec, after, u)
  {
    hide MonthStart, MonthOf;
    assert u.Day() == t.Day() || u.Day() == t.Day() + 1;
    DayAfter(t.Day());
  }

  lemma SearchStarts(spec: Spec, after: Instant)
    ensures Reached(spec, after, FirstCandidate(after))
  {
  }

  lemma HorizonIsFar(after: Instant)
    ensures after.minute + 28 * 24 * 1440 <= Horizon(after).minute
  {
    hide MonthStart, MonthOf;
    MonthsIncrease(after.Month(), after.Month() + 24);
  }

  /** A match before the horizon is the answer. */
  lemma SearchSucceeds(spec: Spec, after: Instant, t: Instant)
    requires Reached(spec, after, t) && t.Before(Horizon(after)) && Matches(spec, t.minute)
    ensures Answer(spec, after, Some(t)) && (t.nanos == 0 || t.nanos == after.nanos)
  {
    hide MonthStart, MonthOf, Horizon, Matches;
    MonthOfMinute(t.minute, FirstCandidate(after).Month() + 1);
  }

  /** At the horizon there is none. A time with seconds is reached minute by minute, so the same minute of an earlier
      hour has been looked at. */
  lemma SearchFails(spec: Spec, after: Instant, t: Instant)
    requires Reached(spec, after, t) && !t.Before(Horizon(after))
    ensures Answer(spec, after, None)
  {
    hide MonthStart, MonthOf, Skipped, Overshoots;
    HorizonIsFar(after);
    if t.minute == Horizon(after).minute && t.nanos != 0 {
      assert (t.minute - 60) % 60 == t.minute % 60;
    }
  }

  method Search(spec: Spec, after: Instant) returns (r: Option<Instant>)
    ensures Answer(spec, after, r)
    ensures r.Some? ==> r.value.nanos == 0 || r.value.nanos == after.nanos
  {
    hide MonthStart, MonthOf, Reached;
    var t := after.AddMinutes(1);
    var end := after.AddDate(2, 0, 0);
    SearchStarts(spec, after);
    while t.Before(end)
      invariant Reached(spec, after, t)
      decreases end.minute - t.minute
    {
      DayJumpLands(spec, t);
      HourJumpLands(spec, t);
      if t.Month() % 12 + 1 !in spec.months {
        MonthStep(spec, after, t);
        t := t.AddDate(0, 1, 0);
        t := Date(t.Month(), 1, 0, 0);
        continue;
      }
      if DayOf(t.Day()) !in spec.days {
        SmallStep(spec, after, t, DayJump(t));
        t := t.AddDate(0, 0, 1);
        t := Date(t.Month(), DayOf(t.Day()), 0, 0);
        continue;
      }
      if WeekdayOf(t.Day()) !in spec.weekdays {
        SmallStep(spec, after, t, DayJump(t));
        t := t.AddDate(0, 0, 1);
        t := Date(t.Month(), DayOf(t.Day()), 0, 0);
        continue;
      }
      if t.minute % 1440 / 60 !in spec.hours {
        SmallStep(spec, after, t, HourJump(t));
        t := t.AddMinutes(60);
        t := Date(t.Month(), DayOf(t.Day()), t.minute % 1440 / 60 * 60, 0);
        continue;
      }
      if t.minute % 60 !in spec.minutes {
        SmallStep(spec, after, t, t.AddMinutes(1));
        t := t.AddMinutes(1);
        continue;
      }
      SearchSucceeds(spec, after, t);
      return Some(t);
    }
    SearchFails(spec, after, t);
    return None;
  }

  /** The search has one answer, up to the seconds within its minute. */
  lemma AnswerIsUnique(spec: Spec, after: Instant, r: Option<Instant>, other: Option<Instant>)
    requires Answer(spec, after, r) && Answer(spec, after, other)
    ensures r.Some? <==> other.Some?
    ensures r.Some? ==> r.value.minute == other.value.minute
  {
    hide Matches, Skipped, Horizon;
  }

  // ---- when the answer is the earliest match ----

  /** An overshooting jump passes over a match: the fields allow some minute of some day of the short month. */
  predicate HidesMatch(spec: Spec, after: Instant) {
    var month := FirstCandidate(after).Month() + 1;
    && Overshoots(spec, after)
    && month % 12 + 1 in spec.months
    && (exists d | 1 <= d <= DaysIn(month) :: d in spec.days && WeekdayOf(MonthStart(month) + d - 1) in spec.weekdays)
    && (exists h | 0 <= h < 24 :: h in spec.hours)
    && (exists m | 0 <= m < 60 :: m in spec.minutes)
  }

  /** A skipped match is one the guard of `HidesMatch` sees. */
  lemma SkippedMatchIsHidden(spec: Spec, after: Instant, k: int)
    requires Matches(spec, k) && Skipped(spec, after, k)
    ensures HidesMatch(spec, after)
  {
    hide MonthStart, MonthOf;
    var month := MonthOf(k / 1440);
    var d := DayOf(k / 1440);
    assert 1 <= d <= DaysIn(month) && MonthStart(month) + d - 1 == k / 1440;
    assert 0 <= k % 1440 / 60 < 24 && 0 <= k % 60 < 60;
  }

  lemma ClockParts(day: int, h: int, m: int)
    requires 0 <= h < 24 && 0 <= m < 60
    ensures var k := day * 1440 + 60 * h + m;
            k / 1440 == day && k % 1440 / 60 == h && k % 60 == m
  {
    var k := day * 1440 + 60 * h + m;
    assert k == (24 * day + h) * 60 + m;
  }

  /** And what that guard sees is a skipped match, well before the horizon. */
  lemma HiddenIsSkippedMatch(spec: Spec, after: Instant) returns (k: int)
    requires HidesMatch(spec, after)
    ensures Matches(spec, k) && Skipped(spec, after, k)
    ensures after.minute < k < Horizon(after).minute
  {
    hide MonthStart, MonthOf;
    var month := FirstCandidate(after).Month() + 1;
    var d :| 1 <= d <= DaysIn(month) && d in spec.days && WeekdayOf(MonthStart(month) + d - 1) in spec.weekdays;
    var h :| 0 <= h < 24 && h in spec.hours;
    var m :| 0 <= m < 60 && m in spec.minutes;
    var day := MonthStart(month) + d - 1;
    k := day * 1440 + 60 * h + m;
    ClockParts(day, h, m);
    MonthOfUnique(day, month);
    BetweenMonths(after, k);
  }

  lemma BetweenMonths(after: Instant, k: int)
    requires MonthOf(k / 1440) == FirstCandidate(after).Month() + 1
    ensures after.minute < k < Horizon(after).minute
  {
    hide MonthStart, MonthOf;
    var first := FirstCandidate(after);
    MonthOfMinute(first.minute, first.Month());
    MonthOfMinute(k, first.Month() + 1);
    assert first.Day() == after.Day() || first.Day() == after.Day() + 1;
    MonthOfMinute(after.minute, after.Month());
    MonthLength(after.Month());
    if first.Month() > after.Month() + 1 {
      MonthsIncrease(after.Month() + 1, first.Month());
    }
    if first.Month() + 2 < after.Month() + 24 {
      MonthsIncrease(first.Month() + 2, after.Month() + 24);
    }
  }

  lemma MonthsOrdered(a: int, b: int)
    requires a <= b
    ensures MonthOf(a / 1440) <= MonthOf(b / 1440)
  {
    hide MonthStart, MonthOf;
    var x, y := MonthOf(a / 1440), MonthOf(b / 1440);
    MonthOfMinute(a, x);
    MonthOfMinute(b, y);
    if y + 1 < x {
      MonthsIncrease(y + 1, x);
    }
  }

  /** The search gives the earliest match, and fails only if there is none, exactly when no overshooting
      month jump hides one. */
  lemma {:induction false} SearchIsEarliestExactly(spec: Spec, after: Instant, r: Option<Instant>)
    requires Answer(spec, after, r)
    ensures Earliest(spec, after, r) <==> !HidesMatch(spec, after)
  {
    hide MonthStart, MonthOf;
    if HidesMatch(spec, after) {
      var k := HiddenIsSkippedMatch(spec, after);
      if r.Some? {
        var t := r.value;
        MonthsOrdered(FirstCandidate(after).minute, t.minute);
        if t.minute <= k {
          MonthsOrdered(t.minute, k);
        }
      }
    } else {
      forall k | Matches(spec, k) ensures !Skipped(spec, after, k) {
        if Skipped(spec, after, k) {
          SkippedMatchIsHidden(spec, after, k);
        }
      }
    }
  }

  /** 30 January 2023, noon. */
  const JANUARY_30: Instant := Date(12 * 2023, 30, 720, 0)

  lemma January2023()
    ensures FirstCandidate(JANUARY_30).Month() == 24276
    ensures DayOf(FirstCandidate(JANUARY_30).Day()) == 30 && DaysIn(24276) == 31 && DaysIn(24277) == 28
  {
    hide MonthStart, MonthOf;
    assert JANUARY_30.minute == (MonthStart(24276) + 29) * 1440 + 720;
    assert FirstCandidate(JANUARY_30).Day() == MonthStart(24276) + 29;
    MonthOfUnique(MonthStart(24276) + 29, 24276);
  }

  /** Midnight on 1 February. */
  const FEBRUARY_1: Spec := Spec({0}, {0}, {1}, {2}, {0, 1, 2, 3, 4, 5, 6})

  lemma JanuaryHidesFebruary()
    ensures HidesMatch(FEBRUARY_1, JANUARY_30)
  {
    hide MonthStart, MonthOf, FirstCandidate;
    January2023();
    assert 1 in FEBRUARY_1.days && WeekdayOf(MonthStart(24277)) in FEBRUARY_1.weekdays;
    assert 0 in FEBRUARY_1.hours && 0 in FEBRUARY_1.minutes;
  }

  /** At noon on 30 January 2023 the search for midnight on 1 February does not find the one in two days' time. */
  lemma JanuaryThirtiethMissesFebruary(r: Option<Instant>)
    requires Answer(FEBRUARY_1, JANUARY_30, r)
    ensures !Earliest(FEBRUARY_1, JANUARY_30, r)
  {
    hide Answer, Earliest, HidesMatch;
    JanuaryHidesFebruary();
    SearchIsEarliestExactly(FEBRUARY_1, JANUARY_30, r);
  }

  /** Some hour and minute of every day are allowed. */
  predicate Daily(spec: Spec) {
    && (forall n | 1 <= n <= 12 :: n in spec.months)
    && (forall n | 1 <= n <= 31 :: n in spec.days)
    && (forall n | 0 <= n <= 6 :: n in spec.weekdays)
    && (exists h | 0 <= h < 24 :: h in spec.hours)
    && (exists m | 0 <= m < 60 :: m in spec.minutes)
  }

  /** Then a search never fails. */
  lemma DailyIsFound(spec: Spec, after: Instant)
    requires Daily(spec)
    ensures !Answer(spec, after, None)
  {
    hide MonthStart, MonthOf, Horizon;
    var h :| 0 <= h < 24 && h in spec.hours;
    var m :| 0 <= m < 60 && m in spec.minutes;
    var day := after.Day() + 1;
    var k := day * 1440 + 60 * h + m;
    ClockParts(day, h, m);
    HorizonIsFar(after);
    assert 1 <= DayOf(day) <= 31 && 1 <= MonthOf(day) % 12 + 1 <= 12;
    assert Matches(spec, k) && InReach(after, k) && !Skipped(spec, after, k);
  }

  // ---- a search that fails ----

  /** Midnight on 29 February. */
  const FEBRUARY_29: Spec := Spec({0}, {0}, {29}, {2}, {0, 1, 2, 3, 4, 5, 6})

  /** 1 June 2027, and 29 February 2028, both at midnight. */
  const JUNE_2027: Instant := Date(24329, 1, 0, 0)
  const LEAP_DAY: Instant := Date(24337, 29, 0, 0)

  /** Half a minute into the leap day. */
  const LEAP_DAY_LATER: Instant := Instant(LEAP_DAY.minute, 30_000_000_000)

  lemma OneLeapFebruary(month: int)
    requires 24329 <= month < 24384 && month % 12 == 1 && DaysIn(month) >= 29
    ensures month == 24337
  {
    var year := month / 12;
    assert 2028 <= year <= 2031 && Leap(year);
  }

  lemma MonthInRange(minute: int, from: int, to: int)
    requires from < to && MonthStart(from) * 1440 <= minute < MonthStart(to) * 1440
    ensures from <= MonthOf(minute / 1440) < to
  {
    hide MonthStart, MonthOf;
    var month := MonthOf(minute / 1440);
    MonthOfMinute(minute, month);
    if month + 1 < from {
      MonthsIncrease(month + 1, from);
    }
    if to < month {
      MonthsIncrease(to, month);
    }
  }

  lemma LeapFebruary()
    ensures DaysIn(24337) == 29
  {
  }

  lemma AnyWeekday(day: int)
    ensures WeekdayOf(day) in FEBRUARY_29.weekdays
  {
    var w := WeekdayOf(day);
    assert w == 0 || w == 1 || w == 2 || w == 3 || w == 4 || w == 5 || w == 6;
  }

  lemma LeapDayMatches()
    ensures Matches(FEBRUARY_29, LEAP_DAY.minute)
  {
    hide MonthStart, MonthOf, DaysIn, WeekdayOf;
    var day := MonthStart(24337) + 28;
    LeapFebruary();
    MonthOfUnique(day, 24337);
    AnyWeekday(day);
    assert MatchesDay(FEBRUARY_29, day);
    ClockParts(day, 0, 0);
    assert LEAP_DAY.minute == day * 1440 + 60 * 0 + 0;
  }

  /** From June 2027 to the end of 2031 there is one match. */
  lemma OneLeapDay(k: int)
    requires JUNE_2027.minute <= k < MonthStart(24384) * 1440
    ensures Matches(FEBRUARY_29, k) <==> k == LEAP_DAY.minute
  {
    hide MonthStart, MonthOf, DaysIn, WeekdayOf;
    LeapDayMatches();
    MonthInRange(k, 24329, 24384);
    if Matches(FEBRUARY_29, k) {
      var month := MonthOf(k / 1440);
      OneLeapFebruary(month);
      MidnightOf(k);
    }
  }

  lemma MidnightOf(k: int)
    requires k % 1440 / 60 == 0 && k % 60 == 0
    ensures k == k / 1440 * 1440
  {
  }

  lemma LeapDayClock()
    ensures JUNE_2027.Month() == FirstCandidate(JUNE_2027).Month() == 24329
    ensures DayOf(JUNE_2027.Day()) == DayOf(FirstCandidate(JUNE_2027).Day()) == 1
    ensures LEAP_DAY_LATER.Month() == 24337 && DayOf(LEAP_DAY_LATER.Day()) == 29
    ensures JUNE_2027.minute < LEAP_DAY.minute
    ensures LEAP_DAY.minute < Horizon(JUNE_2027).minute < MonthStart(24384) * 1440
    ensures Horizon(LEAP_DAY_LATER).minute < MonthStart(24384) * 1440
  {
    hide MonthStart, MonthOf;
    MonthOfUnique(MonthStart(24329), 24329);
    MonthOfUnique(MonthStart(24337) + 28, 24337);
    MonthsIncrease(24329, 24337);
    MonthsIncrease(24337, 24353);
    MonthsIncrease(24353, 24384);
    MonthsIncrease(24361, 24384);
  }

  /** A search in June 2027 finds the leap day; one on the leap day itself finds nothing within two years. */
  lemma LeapDayRunsOut()
    ensures Answer(FEBRUARY_29, JUNE_2027, Some(LEAP_DAY))
    ensures Answer(FEBRUARY_29, LEAP_DAY_LATER, None)
  {
    LeapDayClock();
    hide MonthStart, MonthOf, Matches, Horizon, FirstCandidate;
    OneLeapDay(LEAP_DAY.minute);
    forall k | JUNE_2027.minute < k < LEAP_DAY.minute ensures !Matches(FEBRUARY_29, k) {
      OneLeapDay(k);
    }
    forall k | InReach(LEAP_DAY_LATER, k) ensures !Matches(FEBRUARY_29, k) {
      OneLeapDay(k);
    }
  }
}
