/**
 * The proleptic Gregorian calendar as the streak code sees it through Python's
 * `datetime`: calendar dates, their day ordinal (`date.toordinal()`, day 1 is
 * 0001-01-01, so `(a - b).days` is a difference of ordinals) and the ISO 8601
 * week date returned by `date.isocalendar()`, computed by the same algorithm
 * (week 1 of a year is the Monday-to-Sunday week holding its first Thursday).
 */
module Calendar {

  datatype Date = Date(year: int, month: int, day: int)

  /** The ISO week date: ISO year, week number 1..53 and weekday 1 (Monday) .. 7 (Sunday). */
  datatype IsoDate = IsoDate(year: int, week: int, weekday: int)

  predicate IsLeap(y: int) {
    y % 4 == 0 && (y % 100 != 0 || y % 400 == 0)
  }

  function DaysInYear(y: int): int {
    if IsLeap(y) then 366 else 365
  }

  function DaysInMonth(y: int, m: int): int
    requires 1 <= m <= 12
  {
    if m == 2 then (if IsLeap(y) then 29 else 28)
    else if m == 4 || m == 6 || m == 9 || m == 11 then 30
    else 31
  }

  /** The range `datetime` accepts: years 1..9999 and a day that exists in its month. */
  predicate ValidDate(d: Date) {
    1 <= d.year <= 9999 && 1 <= d.month <= 12 && 1 <= d.day <= DaysInMonth(d.year, d.month)
  }

  /** Number of days before January 1st of year y (Python's `_days_before_year`). */
  function DaysBeforeYear(y: int): int {
    var p := y - 1;
    365 * p + p / 4 - p / 100 + p / 400
  }

  /** Number of days in year y before the first of month m (Python's `_days_before_month`). */
  function DaysBeforeMonth(y: int, m: int): int
    requires 1 <= m <= 12
  {
    [0, 31, 59, 90, 120, 151, 181, 212, 243, 273, 304, 334][m - 1]
      + (if m > 2 && IsLeap(y) then 1 else 0)
  }

  /** `date.toordinal()`. */
  function Ordinal(d: Date): int
    requires 1 <= d.month <= 12
  {
    DaysBeforeYear(d.year) + DaysBeforeMonth(d.year, d.month) + d.day
  }

  /** Ordinal of the Monday that starts ISO week 1 of year y (Python's `_isoweek1monday`). */
  function IsoWeek1Monday(y: int): int {
    MondayOfWeekOne(DaysBeforeYear(y) + 1)
  }

  /** Given the ordinal of January 1st: back to its Monday, or on to the next one when January 1st falls after a Thursday. */
  function MondayOfWeekOne(firstDay: int): int {
    var firstWeekday := (firstDay + 6) % 7;
    var monday := firstDay - firstWeekday;
    if firstWeekday > 3 then monday + 7 else monday
  }

  /**
   * `date.isocalendar()`, step by step as the standard library computes it. For a valid date
   * the week is 1..53, the weekday 1..7 and the ISO year within one of the calendar year
   * (`IsoCalendarCorrect` says which day it names).
   */
  function IsoCalendar(d: Date): (r: IsoDate)
    requires 1 <= d.month <= 12
    ensures ValidDate(d) ==> 1 <= r.week <= 53 && 1 <= r.weekday <= 7 && d.year - 1 <= r.year <= d.year + 1
  {
    var today := Ordinal(d);
    if ValidDate(d) then
      OrdinalInYear(d);
      IsoDayOfYear(today, d.year)
    else
      IsoDayOfYear(today, d.year)
  }

  /**
   * The day `today` lies in the weeks of ISO year `isoYear`, taken to be the calendar year
   * `year` or one of its neighbours: from that year's week-1 Monday up to the next one.
   */
  predicate InNeighbourIsoYear(today: int, year: int, isoYear: int) {
    && (isoYear == year - 1 ==> IsoWeek1Monday(year - 1) <= today < IsoWeek1Monday(year))
    && (isoYear == year ==> IsoWeek1Monday(year) <= today < IsoWeek1Monday(year + 1))
    && (isoYear == year + 1 ==> IsoWeek1Monday(year + 1) <= today < IsoWeek1Monday(year + 2))
  }

  /** The ISO week date of the day with ordinal `today`, reckoned from the calendar year `year`. */
  function IsoDayOfYear(today: int, year: int): (r: IsoDate)
    ensures DaysBeforeYear(year) < today <= DaysBeforeYear(year + 1) ==>
      && 1 <= r.week <= 53 && 1 <= r.weekday <= 7 && year - 1 <= r.year <= year + 1
      && InNeighbourIsoYear(today, year, r.year)
      && today == IsoWeek1Monday(r.year) + 7 * (r.week - 1) + r.weekday - 1
  {
    var r := IsoWeekDate(today, year, IsoWeek1Monday(year - 1), IsoWeek1Monday(year), IsoWeek1Monday(year + 1));
    if DaysBeforeYear(year) < today <= DaysBeforeYear(year + 1) then
      IsoWeekDateOfDay(today, year, r);
      r
    else
      r
  }

  /**
   * The body of `isocalendar()` for the day `today` of `year`, given the week-1 Mondays of the
   * year before, the year itself and the year after: count whole weeks from this year's week 1;
   * before it, count from last year's; from week 53 on, it may already be next year's week 1.
   */
  function IsoWeekDate(today: int, year: int, prev: int, cur: int, next: int): IsoDate {
    var week := (today - cur) / 7;
    var day := (today - cur) % 7;
    if week < 0 then
      IsoDate(year - 1, (today - prev) / 7 + 1, (today - prev) % 7 + 1)
    else if week >= 52 && today >= next then
      IsoDate(year + 1, 1, day + 1)
    else
      IsoDate(year, week + 1, day + 1)
  }

  /** `isocalendar()[1]`: the ISO week number, the only part the weekly streaks use. */
  function IsoWeek(d: Date): int
    requires 1 <= d.month <= 12
  {
    IsoCalendar(d).week
  }

  // ---------------------------------------------------------------------------
  // Lemmas about the year and month arithmetic

  lemma YearLength(y: int)
    ensures DaysBeforeYear(y + 1) - DaysBeforeYear(y) == DaysInYear(y)
  {
    var p := y - 1;
    StepOver4(p);
    StepOver100(p);
    StepOver400(p);
    if y % 100 == 0 { CenturyIsMultipleOf4(y); }
    if y % 400 == 0 { FourCenturiesIsCentury(y); }
  }

  lemma StepOver4(p: int)
    ensures (p + 1) / 4 - p / 4 == if (p + 1) % 4 == 0 then 1 else 0
  {
  }

  lemma StepOver100(p: int)
    ensures (p + 1) / 100 - p / 100 == if (p + 1) % 100 == 0 then 1 else 0
  {
  }

  lemma StepOver400(p: int)
    ensures (p + 1) / 400 - p / 400 == if (p + 1) % 400 == 0 then 1 else 0
  {
  }

  lemma CenturyIsMultipleOf4(y: int)
    requires y % 100 == 0
    ensures y % 4 == 0
  {
    assert y == 4 * (25 * (y / 100));
  }

  lemma FourCenturiesIsCentury(y: int)
    requires y % 400 == 0
    ensures y % 100 == 0
  {
    assert y == 100 * (4 * (y / 400));
  }

  lemma {:induction false} DaysBeforeYearMonotone(a: int, b: int)
    requires a <= b
    ensures DaysBeforeYear(a) + 365 * (b - a) <= DaysBeforeYear(b)
    decreases b - a
  {
    if a < b {
      DaysBeforeYearMonotone(a, b - 1);
      YearLength(b - 1);
    }
  }

  lemma MonthLength(y: int, m: int)
    requires 1 <= m <= 12
    ensures m < 12 ==> DaysBeforeMonth(y, m + 1) == DaysBeforeMonth(y, m) + DaysInMonth(y, m)
    ensures m == 12 ==> DaysBeforeMonth(y, m) + DaysInMonth(y, m) == DaysInYear(y)
  {
  }

  lemma {:induction false} DaysBeforeMonthMonotone(y: int, a: int, b: int)
    requires 1 <= a < b <= 12
    ensures DaysBeforeMonth(y, a) + DaysInMonth(y, a) <= DaysBeforeMonth(y, b)
    decreases b - a
  {
    MonthLength(y, a);
    if a + 1 < b {
      DaysBeforeMonthMonotone(y, a + 1, b);
    }
  }

  /** A valid date's ordinal lies inside its year. */
  lemma OrdinalInYear(d: Date)
    requires ValidDate(d)
    ensures DaysBeforeYear(d.year) < Ordinal(d) <= DaysBeforeYear(d.year + 1)
  {
    YearLength(d.year);
    MonthLength(d.year, d.month);
    if d.month < 12 {
      DaysBeforeMonthMonotone(d.year, d.month, 12);
      MonthLength(d.year, 12);
    }
  }

  /** Dates in calendar order have increasing ordinals. */
  lemma OrdinalMonotone(a: Date, b: Date)
    requires ValidDate(a) && ValidDate(b)
    requires a.year < b.year || (a.year == b.year && (a.month < b.month || (a.month == b.month && a.day < b.day)))
    ensures Ordinal(a) < Ordinal(b)
  {
    if a.year < b.year {
      OrdinalInYear(a);
      OrdinalInYear(b);
      DaysBeforeYearMonotone(a.year + 1, b.year);
    } else if a.month < b.month {
      DaysBeforeMonthMonotone(a.year, a.month, b.month);
    }
  }

  /** Equal ordinals mean equal dates, so comparing `date()` values is comparing ordinals. */
  lemma OrdinalInjective(a: Date, b: Date)
    requires ValidDate(a) && ValidDate(b)
    ensures Ordinal(a) == Ordinal(b) <==> a == b
  {
    if a != b {
      if a.year < b.year || (a.year == b.year && (a.month < b.month || (a.month == b.month && a.day < b.day))) {
        OrdinalMonotone(a, b);
      } else {
        OrdinalMonotone(b, a);
      }
    }
  }

  // ---------------------------------------------------------------------------
  // Lemmas about ISO weeks

  /** Week 1 always starts on a Monday within three days of January 1st. */
  lemma Week1MondayNearNewYear(y: int)
    ensures (IsoWeek1Monday(y) + 6) % 7 == 0
    ensures DaysBeforeYear(y) + 1 - 3 <= IsoWeek1Monday(y) <= DaysBeforeYear(y) + 1 + 3
  {
    MondayNear(DaysBeforeYear(y) + 1);
  }

  lemma MondayNear(f: int)
    ensures (MondayOfWeekOne(f) + 6) % 7 == 0
    ensures f - 3 <= MondayOfWeekOne(f) <= f + 3
  {
    var q, w := (f + 6) / 7, (f + 6) % 7;
    assert f + 6 == 7 * q + w;
  }

  /**
   * Consecutive ISO years are 52 or 53 weeks long. The later year comes as its own argument
   * `next` rather than as `y + 1`: a solver aid, so that callers can match it against the
   * Mondays they already hold without the solver unfolding the Monday of a sum.
   */
  lemma Week1MondayGap(y: int, next: int)
    requires next == y + 1
    ensures IsoWeek1Monday(next) - IsoWeek1Monday(y) == 364
         || IsoWeek1Monday(next) - IsoWeek1Monday(y) == 371
  {
    YearLength(y);
    MondayGap(DaysBeforeYear(y) + 1, DaysInYear(y));
  }

  lemma MondayGap(f: int, len: int)
    requires len == 365 || len == 366
    ensures MondayOfWeekOne(f + len) - MondayOfWeekOne(f) == 364
         || MondayOfWeekOne(f + len) - MondayOfWeekOne(f) == 371
  {
    var q, w := (f + 6) / 7, (f + 6) % 7;
    assert f + 6 == 7 * q + w;
    if w + len - 364 < 7 {
      assert f + len + 6 == 7 * (q + 52) + (w + len - 364);
    } else {
      assert f + len + 6 == 7 * (q + 53) + (w + len - 371);
    }
  }

  /**
   * A valid date's ISO week date names it: its ISO year is the one whose weeks contain the day,
   * and the day is the Monday of that year's week 1, plus whole weeks, plus the weekday.
   */
  lemma IsoCalendarCorrect(d: Date)
    requires ValidDate(d)
    ensures IsoWeek1Monday(IsoCalendar(d).year) <= Ordinal(d) < IsoWeek1Monday(IsoCalendar(d).year + 1)
    ensures Ordinal(d) == IsoWeek1Monday(IsoCalendar(d).year) + 7 * (IsoCalendar(d).week - 1) + IsoCalendar(d).weekday - 1
  {
    OrdinalInYear(d);
    assert IsoCalendar(d) == IsoDayOfYear(Ordinal(d), d.year);
    IsoYearOfDay(Ordinal(d), d.year, IsoCalendar(d).year, IsoCalendar(d).year + 1);
  }

  /** The ISO week date of the day with ordinal `today` inside year y. */
  lemma IsoWeekDateOfDay(today: int, y: int, r: IsoDate)
    requires DaysBeforeYear(y) < today <= DaysBeforeYear(y + 1)
    requires r == IsoWeekDate(today, y, IsoWeek1Monday(y - 1), IsoWeek1Monday(y), IsoWeek1Monday(y + 1))
    ensures 1 <= r.week <= 53 && 1 <= r.weekday <= 7 && y - 1 <= r.year <= y + 1
    ensures InNeighbourIsoYear(today, y, r.year)
    ensures today == IsoWeek1Monday(r.year) + 7 * (r.week - 1) + r.weekday - 1
  {
    var prev, cur, next := IsoWeek1Monday(y - 1), IsoWeek1Monday(y), IsoWeek1Monday(y + 1);
    Week1MondayNearNewYear(y);
    Week1MondayNearNewYear(y + 1);
    Week1MondayGap(y - 1, y);
    Week1MondayGap(y, y + 1);
    IsoWeekDateCorrect(today, y, prev, cur, next, DaysBeforeYear(y) + 1, DaysBeforeYear(y + 1) + 1);
    Week1MondayGap(y + 1, y + 2);
    NeighbourIsoYear(today, y, r.year, prev, cur, next, IsoWeek1Monday(y + 2));
    WeeksFromNeighbourYear(today, y, r, prev, cur, next);
  }

  /** Counting from the week-1 Monday of the neighbouring year the count picked. */
  lemma WeeksFromNeighbourYear(today: int, y: int, r: IsoDate, prev: int, cur: int, next: int)
    requires prev == IsoWeek1Monday(y - 1) && cur == IsoWeek1Monday(y) && next == IsoWeek1Monday(y + 1)
    requires y - 1 <= r.year <= y + 1
    requires today == (if r.year == y - 1 then prev else if r.year == y then cur else next) + 7 * (r.week - 1) + r.weekday - 1
    ensures today == IsoWeek1Monday(r.year) + 7 * (r.week - 1) + r.weekday - 1
  {
    if r.year == y - 1 {
      SameYearMonday(r.year, y - 1);
    } else if r.year == y {
      SameYearMonday(r.year, y);
    } else {
      SameYearMonday(r.year, y + 1);
    }
  }

  /** Last year's weeks end at this year's week 1, and next year's week 1 ends before its successor's. */
  lemma NeighbourIsoYear(today: int, y: int, isoYear: int, prev: int, cur: int, next: int, after: int)
    requires prev == IsoWeek1Monday(y - 1) && cur == IsoWeek1Monday(y)
    requires next == IsoWeek1Monday(y + 1) && after == IsoWeek1Monday(y + 2) && next + 364 <= after
    requires isoYear == y - 1 ==> prev <= today < cur
    requires isoYear == y ==> cur <= today < next
    requires isoYear == y + 1 ==> next <= today < next + 7
    ensures InNeighbourIsoYear(today, y, isoYear)
  {
  }

  /**
   * A day inside a neighbouring ISO year lies between that year's week-1 Monday and the next.
   * `following` is `isoYear + 1`, passed on its own for the same reason as `next` in
   * `Week1MondayGap`.
   */
  lemma IsoYearOfDay(today: int, y: int, isoYear: int, following: int)
    requires y - 1 <= isoYear <= y + 1 && following == isoYear + 1
    requires InNeighbourIsoYear(today, y, isoYear)
    ensures IsoWeek1Monday(isoYear) <= today < IsoWeek1Monday(following)
  {
    if isoYear == y - 1 {
      SameYearMonday(following, y);
    } else if isoYear == y {
      SameYearMonday(following, y + 1);
    } else {
      SameYearMonday(following, y + 2);
    }
  }

  /** A solver aid: equal years have equal week-1 Mondays, for the case splits above. */
  lemma SameYearMonday(a: int, b: int)
    requires a == b
    ensures IsoWeek1Monday(a) == IsoWeek1Monday(b)
  {
  }

  /**
   * `IsoWeekDate` on a day of the calendar year, given Mondays that behave like the week-1
   * Mondays: the week date it returns counts from the Monday of the ISO year it names, and that
   * ISO year is the one whose weeks hold the day (last year's before `cur`, this year's up to
   * `next`, next year's from `next`).
   */
  lemma IsoWeekDateCorrect(today: int, year: int, prev: int, cur: int, next: int, jan1: int, nextJan1: int)
    requires jan1 <= today < nextJan1
    requires (cur + 6) % 7 == 0 && (next + 6) % 7 == 0
    requires jan1 - 3 <= cur <= jan1 + 3 && nextJan1 - 3 <= next <= nextJan1 + 3
    requires prev - cur == -364 || prev - cur == -371
    requires next - cur == 364 || next - cur == 371
    ensures var r := IsoWeekDate(today, year, prev, cur, next);
      && 1 <= r.week <= 53 && 1 <= r.weekday <= 7 && year - 1 <= r.year <= year + 1
      && today == (if r.year == year - 1 then prev else if r.year == year then cur else next) + 7 * (r.week - 1) + r.weekday - 1
      && (r.year == year - 1 ==> prev <= today < cur)
      && (r.year == year ==> cur <= today < next)
      && (r.year == year + 1 ==> next <= today < next + 7)
  {
    var week, day := (today - cur) / 7, (today - cur) % 7;
    assert today - cur == 7 * week + day;
    if week < 0 {
      var w, e := (today - prev) / 7, (today - prev) % 7;
      assert today - prev == 7 * w + e;
    } else if week >= 52 && today >= next {
      if next - cur == 364 {
        assert today - cur == 7 * 52 + (today - next);
      } else {
        assert today - cur == 7 * 53 + (today - next);
      }
    }
  }

  /** Within one ISO year, a later day never has a smaller week number. */
  lemma IsoWeekMonotone(a: Date, b: Date)
    requires ValidDate(a) && ValidDate(b) && Ordinal(a) <= Ordinal(b)
    requires IsoCalendar(a).year == IsoCalendar(b).year
    ensures IsoWeek(a) <= IsoWeek(b)
  {
    IsoCalendarCorrect(a);
    IsoCalendarCorrect(b);
  }

  /**
   * Inside ISO year y, a day's week number is the number of whole weeks since the Monday of
   * its week 1, plus one.
   */
  lemma IsoWeekInsideYear(d: Date, monday: int, nextMonday: int)
    requires ValidDate(d)
    requires monday == IsoWeek1Monday(d.year) && nextMonday == IsoWeek1Monday(d.year + 1)
    requires monday <= Ordinal(d) < nextMonday
    ensures IsoCalendar(d) == IsoDate(d.year, (Ordinal(d) - monday) / 7 + 1, (Ordinal(d) - monday) % 7 + 1)
  {
    var prev := IsoWeek1Monday(d.year - 1);
    IsoWeekDateInside(Ordinal(d), d.year, prev, monday, nextMonday);
    assert IsoCalendar(d) == IsoWeekDate(Ordinal(d), d.year, prev, monday, nextMonday);
  }

  lemma IsoWeekDateInside(today: int, year: int, prev: int, cur: int, next: int)
    requires cur <= today < next
    ensures IsoWeekDate(today, year, prev, cur, next) == IsoDate(year, (today - cur) / 7 + 1, (today - cur) % 7 + 1)
  {
  }

  /** Week-1 Mondays grow with the year. */
  lemma {:induction false} Week1MondayIncreasing(a: int, b: int)
    requires a <= b
    ensures IsoWeek1Monday(a) <= IsoWeek1Monday(b)
    decreases b - a
  {
    if a < b {
      Week1MondayIncreasing(a, b - 1);
      Week1MondayGap(b - 1, b);
    }
  }

  lemma DivisionByWeeks(n: int, q1: int, r1: int, q2: int, r2: int)
    requires n == 7 * q1 + r1 && n == 7 * q2 + r2
    requires 0 <= r1 < 7 && 0 <= r2 < 7
    ensures q1 == q2 && r1 == r2
  {
    assert 7 * (q1 - q2) == r2 - r1;
  }

  /** Only one ISO year's weeks contain a given day. */
  lemma SameIsoYear(today: int, ya: int, yb: int, na: int, nb: int)
    requires na == ya + 1 && nb == yb + 1
    requires IsoWeek1Monday(ya) <= today < IsoWeek1Monday(na)
    requires IsoWeek1Monday(yb) <= today < IsoWeek1Monday(nb)
    ensures ya == yb
  {
    if ya < yb {
      Week1MondayIncreasing(na, yb);
    } else if yb < ya {
      Week1MondayIncreasing(nb, ya);
    }
  }

  /**
   * `isocalendar()` is the only week date that names a valid date inside its ISO year: the
   * ISO year whose weeks contain the day, the whole weeks since its week 1, and the weekday.
   */
  lemma IsoCalendarUnique(d: Date, r: IsoDate)
    requires ValidDate(d) && 1 <= r.weekday <= 7
    requires IsoWeek1Monday(r.year) <= Ordinal(d) < IsoWeek1Monday(r.year + 1)
    requires Ordinal(d) == IsoWeek1Monday(r.year) + 7 * (r.week - 1) + r.weekday - 1
    ensures IsoCalendar(d) == r
  {
    IsoCalendarCorrect(d);
    var c := IsoCalendar(d);
    SameIsoYear(Ordinal(d), c.year, r.year, c.year + 1, r.year + 1);
    DivisionByWeeks(Ordinal(d) - IsoWeek1Monday(r.year), c.week - 1, c.weekday - 1, r.week - 1, r.weekday - 1);
  }

  /** 2014-12-29 is the Monday of week 1 of 2015, not of a week 53 of 2014. */
  lemma December29th2014()
    ensures IsoCalendar(Date(2014, 12, 29)) == IsoDate(2015, 1, 1)
  {
    assert DaysBeforeYear(2015) == 735598 && DaysBeforeYear(2016) == 735963;
    assert IsoWeek1Monday(2015) == 735596 && IsoWeek1Monday(2016) == 735967;
    assert Ordinal(Date(2014, 12, 29)) == 735596;
    IsoCalendarUnique(Date(2014, 12, 29), IsoDate(2015, 1, 1));
  }
}
