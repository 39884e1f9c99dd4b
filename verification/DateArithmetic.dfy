// Whole months and years with the floor modifier, and the week calendar of
// strftime's %G and %V.
module MonthArithmetic {
  import opened Calendar
  import opened Julian
  import opened Instants
  import opened Moments

  // Day d of month k, or the last day of a shorter month.
  function DayWithin(k: int, d: int): int {
    var n := MonthLength(k / 12, k % 12 + 1);
    if d <= n then d else n
  }

  // What a month count does to an instant: day d of the month n later, rolled
  // forward past the end of a short month, and brought back by "floor".
  predicate MovedTo(w: Moment, k: int, d: int, tod: int) {
    && w.validJD && !w.validYMD && !w.validHMS && !w.isError
    && w.iJD == AtMonth(k, d, tod)
    && FloorDay(w).iJD == AtMonth(k, DayWithin(k, d), tod)
  }

  lemma FloorOfMoved(w: Moment, k: int, d: int, tod: int)
    requires 1 <= d <= 31 && w.validJD && !w.validYMD && !w.validHMS && !w.isError
    requires w.iJD == AtMonth(k, d, tod) && w.nFloor == FloorDays(k / 12, k % 12 + 1, d)
    ensures MovedTo(w, k, d, tod)
  {
    FloorIsOverflow(k / 12, k % 12 + 1, d);
    DaysMoveInstant(k, d, w.nFloor, tod);
  }

  lemma DaysMoveInstant(k: int, d: int, days: int, tod: int)
    ensures AtMonth(k, d - days, tod) == AtMonth(k, d, tod) - days * MS_PER_DAY
  {
  }

  // "N months" moves the month index by exactly N; a following "floor" lands on
  // the same day, or on the last day of a shorter month.
  lemma AddMonthsExact(t: Moment, n: int)
    requires -176546 < n < 176546
    requires var u := ComputeYMDHMS(Started(t)); CivilFields(u) && !u.isError && 1 <= u.D <= 31
    ensures var u, k := ComputeYMDHMS(Started(t)),
      MonthIndex(ComputeYMDHMS(Started(t)).Y, ComputeYMDHMS(Started(t)).M) + n;
      && AddMonths(t, n).Some?
      && (if FIRST_MONTH <= k <= LAST_MONTH then MovedTo(AddMonths(t, n).value, k, u.D, u.TimeMs())
          else AddMonths(t, n).value.isError)
  {
    MonthsExact(ComputeYMDHMS(Started(t)), n, Cleared(ShiftMonths(ComputeYMDHMS(Started(t)), 0, n)));
  }

  lemma MonthsExact(u: Moment, n: int, w: Moment)
    requires CivilFields(u) && !u.isError && 1 <= u.D <= 31 && w == Cleared(ShiftMonths(u, 0, n))
    ensures var k := MonthIndex(u.Y, u.M) + n;
      if FIRST_MONTH <= k <= LAST_MONTH then MovedTo(w, k, u.D, u.TimeMs()) else w.isError
  {
    var k := MonthIndex(u.Y, u.M) + n;
    if FIRST_MONTH <= k <= LAST_MONTH {
      ShiftMonthsJD(u, 0, n);
      FloorOfMoved(w, k, u.D, u.TimeMs());
    } else {
      ShiftOutOfRange(u, n, k);
    }
  }

  lemma ShiftOutOfRange(u: Moment, n: int, k: int)
    requires CivilFields(u) && k == MonthIndex(u.Y, u.M + n) && (k < FIRST_MONTH || LAST_MONTH < k)
    ensures ShiftMonths(u, 0, n).isError
  {
    CarryMonthsFields(u.(M := u.M + n, validJD := false));
  }

  // "N years" moves the month index by exactly 12 N.
  lemma AddYearsExact(t: Moment, n: int)
    requires -14713 < n < 14713
    requires var u := ComputeYMDHMS(Started(t)); CivilFields(u) && !u.isError && 1 <= u.D <= 31
    ensures var u := ComputeYMDHMS(Started(t)); var k := MonthIndex(u.Y, u.M) + 12 * n;
      && AddYears(t, n).Some?
      && (if FIRST_MONTH <= k <= LAST_MONTH then MovedTo(AddYears(t, n).value, k, u.D, u.TimeMs())
          else AddYears(t, n).value.isError)
  {
    var u := ComputeYMDHMS(Started(t));
    var k := MonthIndex(u.Y, u.M) + 12 * n;
    ShiftYearsJD(u, n, k);
    if FIRST_MONTH <= k <= LAST_MONTH {
      FloorOfMoved(AddYears(t, n).value, k, u.D, u.TimeMs());
    }
  }

  lemma ShiftYearsJD(u: Moment, n: int, k: int)
    requires CivilFields(u) && k == MonthIndex(u.Y, u.M) + 12 * n
    ensures if FIRST_MONTH <= k <= LAST_MONTH
      then ShiftYears(u, n) == u.(Y := k / 12, nFloor := FloorDays(k / 12, k % 12 + 1, u.D),
                                  iJD := AtMonth(k, u.D, u.TimeMs()), validJD := true)
      else ShiftYears(u, n).isError
  {
    YearsIndex(u.Y, u.M, n);
    if FIRST_MONTH <= k <= LAST_MONTH {
      YearsInRange(u, n, k);
    } else {
      YearsOutOfRange(u, n);
    }
  }

  lemma YearsInRange(u: Moment, n: int, k: int)
    requires CivilFields(u) && k == MonthIndex(u.Y + n, u.M) && k / 12 == u.Y + n && k % 12 + 1 == u.M
    requires MIN_YEAR <= u.Y + n <= MAX_YEAR
    ensures ShiftYears(u, n) == u.(Y := k / 12, nFloor := FloorDays(k / 12, k % 12 + 1, u.D),
                                   iJD := AtMonth(k, u.D, u.TimeMs()), validJD := true)
  {
    JDOfCivil(u.(Y := u.Y + n, nFloor := FloorDays(u.Y + n, u.M, u.D), validJD := false));
  }

  lemma YearsOutOfRange(u: Moment, n: int)
    requires CivilFields(u) && !(MIN_YEAR <= u.Y + n <= MAX_YEAR)
    ensures ShiftYears(u, n).isError
  {
  }

  lemma YearsIndex(y: int, m: int, n: int)
    requires 1 <= m <= 12
    ensures var k := MonthIndex(y, m) + 12 * n;
      k == MonthIndex(y + n, m) && k / 12 == y + n && k % 12 + 1 == m &&
        (FIRST_MONTH <= k <= LAST_MONTH <==> MIN_YEAR <= y + n <= MAX_YEAR)
  {
    IndexParts(y + n, m);
  }

  // After an interval, "floor" takes back the days by which the day ran past the
  // end of the month that the years and months of the interval led to.
  lemma IntervalFloor(t: Moment, v: Interval)
    requires Readable(v)
    requires var u := ComputeYMDHMS(t); Civil(u) && !u.isError && 1 <= u.D <= 31
    ensures AddInterval(t, v).Some? && FlooredBy(ComputeYMDHMS(t), v, AddInterval(t, v).value)
  {
    AddIntervalJD(t, v);
    var u := ComputeYMDHMS(t);
    FloorOfLed(u, v, AddInterval(t, v).value, MonthIndex(u.Y, u.M) + Signed(v.negative, v.Months()));
  }

  predicate FlooredBy(u: Moment, v: Interval, x: Moment) {
    var k := MonthIndex(u.Y, u.M) + Signed(v.negative, v.Months());
    FIRST_MONTH <= k <= LAST_MONTH ==>
      && !x.isError
      && FloorDay(x).iJD == AtMonth(k, DayWithin(k, u.D), u.UtcMs()) + SignedRest(v)
  }

  // The days and the time of an interval.
  function SignedRest(v: Interval): int {
    Signed(v.negative, v.days * MS_PER_DAY + v.TimeMs() % MS_PER_DAY)
  }

  lemma FloorOfLed(u: Moment, v: Interval, x: Moment, k: int)
    requires LedBy(u, v, x) && !u.isError && 1 <= u.D <= 31
    requires k == MonthIndex(u.Y, u.M) + Signed(v.negative, v.Months())
    ensures FlooredBy(u, v, x)
  {
    if FIRST_MONTH <= k <= LAST_MONTH {
      FloorInMonth(x, k, u.D, u.UtcMs(), SignedRest(v));
    }
  }

  lemma FloorInMonth(x: Moment, k: int, d: int, tod: int, rest: int)
    requires x.validJD && 1 <= d <= 31 && x.iJD == AtMonth(k, d, tod) + rest && x.nFloor == Overflow(k, d)
    ensures FloorDay(x).iJD == AtMonth(k, DayWithin(k, d), tod) + rest
  {
    DayFloored(k, d, tod, x.nFloor);
    FloorTakesBack(x, AtMonth(k, d, tod), AtMonth(k, DayWithin(k, d), tod), rest);
  }

  lemma DayFloored(k: int, d: int, tod: int, over: int)
    requires 1 <= d <= 31 && over == Overflow(k, d)
    ensures AtMonth(k, DayWithin(k, d), tod) == AtMonth(k, d, tod) - over * MS_PER_DAY
  {
    FloorIsOverflow(k / 12, k % 12 + 1, d);
    DaysMoveInstant(k, d, over, tod);
  }

  lemma FloorTakesBack(x: Moment, jd: int, floored: int, rest: int)
    requires x.validJD && x.iJD == jd + rest && floored == jd - x.nFloor * MS_PER_DAY
    ensures FloorDay(x).iJD == floored + rest
  {
  }

  // The date that "floor" leaves, read back from its Julian day.
  lemma FlooredDate(w: Moment, k: int, d: int, tod: int)
    requires MovedTo(w, k, d, tod) && FIRST_MONTH <= k <= LAST_MONTH && 1 <= d && TimeOfDay(tod)
    ensures var jd := FloorDay(w).iJD;
      && DateOf(DayOf(jd)) == Date(k / 12, k % 12 + 1, DayWithin(k, d))
      && TimeOf(jd) == tod
  {
    DateRoundTrip(Date(k / 12, k % 12 + 1, DayWithin(k, d)), tod);
  }
}

module WeekCalendar {
  import opened Calendar
  import opened Julian
  import opened Instants
  import opened Moments
  import DateTimes

  // The week calendar of section 2.2.10 of ISO 8601:2004, on day numbers:
  // weeks start on Monday and week 1 is the one with 4 January.
  function Monday(z: int): int {
    z - z % 7
  }

  function YearStart(g: int): int {
    Monday(DayNumber(g, 1, 4))
  }

  predicate InWeek(z: int, g: int, v: int) {
    YearStart(g) + 7 * (v - 1) == Monday(z) && YearStart(g) <= z < YearStart(g + 1)
  }

  function Thursday(jd: int): int {
    jd + (3 - DayOf(jd) % 7) * MS_PER_DAY
  }

  // %G and %V as computed: the year of the week's Thursday, and the weeks from
  // 1 January to that Thursday.
  function WeekYear(jd: int): int {
    DateOf(DayOf(Thursday(jd))).y
  }

  // tod is the time of day in the civil fields.
  function WeekNumber(jd: int, tod: int): int {
    Weeks(Instant(WeekYear(jd), 1, 1, tod), Thursday(jd))
  }

  function Weeks(jan01: int, thursday: int): int {
    CDiv(CDiv(thursday - jan01 + HALF_DAY, MS_PER_DAY), 7) + 1
  }

  // The first Thursday of a year is in its week 1.
  lemma FirstThursday(g: int, d: int)
    requires 1 <= d <= 7 && DayNumber(g, 1, d) % 7 == 3
    ensures Monday(DayNumber(g, 1, d)) == YearStart(g)
  {
    MondayOfFourth(DayNumber(g, 1, 1), d);
  }

  lemma MondayOfFourth(n: int, d: int)
    requires 1 <= d <= 7 && (n + d - 1) % 7 == 3
    ensures Monday(n + d - 1) == Monday(n + 3)
  {
  }

  // The arithmetic of week numbers: n and n' are 1 January of two successive
  // years, t a Thursday between them.
  lemma WeeksFromThursday(n: int, n': int, t: int)
    requires t % 7 == 3 && n <= t < n'
    ensures Monday(n + 3) + 7 * ((t - n) / 7) == t - 3
    ensures Monday(n + 3) <= t - 3 && t + 3 < Monday(n' + 3)
  {
    var w := (t - n) / 7;
    assert t - 7 * w == n + (t - n) % 7;
    assert Monday(t - 7 * w) == t - 7 * w - 3;
  }

  // The week calendar, computed from the Thursday of the week.
  lemma WeekOfThursday(t: int, date: Date)
    requires t % 7 == 3 && Real(date) && MIN_YEAR <= date.y && DayNumber(date.y, date.m, date.d) == t
    ensures var v := (t - DayNumber(date.y, 1, 1)) / 7 + 1;
      && YearStart(date.y) + 7 * (v - 1) == t - 3 && 1 <= v <= 53
      && YearStart(date.y) <= t - 3 && t + 3 < YearStart(date.y + 1)
  {
    var n, n' := DayNumber(date.y, 1, 1), DayNumber(date.y + 1, 1, 1);
    YearBounds(date);
    WeeksFromThursday(n, n', t);
    FourthOfJanuary(date.y);
    FourthOfJanuary(date.y + 1);
  }

  lemma FourthOfJanuary(y: int)
    ensures DayNumber(y, 1, 4) == DayNumber(y, 1, 1) + 3
  {
  }

  // %G and %V on the day number of the Thursday.
  function WeekYearOf(t: int): int {
    DateOf(t).y
  }

  function WeekNumberOf(t: int): int {
    (t - DayNumber(WeekYearOf(t), 1, 1)) / 7 + 1
  }

  lemma WeekOfDay(z: int)
    requires 0 <= Monday(z) + 3 <= MAX_DAY
    ensures var t := Monday(z) + 3; InWeek(z, WeekYearOf(t), WeekNumberOf(t)) && 1 <= WeekNumberOf(t) <= 53
  {
    DayNumberOfDate(Monday(z) + 3);
    WeekOfDate(z, Monday(z) + 3, DateOf(Monday(z) + 3));
  }

  lemma WeekOfDate(z: int, t: int, date: Date)
    requires t == Monday(z) + 3 && Real(date) && MIN_YEAR <= date.y && DayNumber(date.y, date.m, date.d) == t
    ensures var v := (t - DayNumber(date.y, 1, 1)) / 7 + 1; InWeek(z, date.y, v) && 1 <= v <= 53
  {
    MondayBounds(z);
    WeekOfThursday(t, date);
  }

  lemma MondayBounds(z: int)
    ensures Monday(z) <= z <= Monday(z) + 6 && (Monday(z) + 3) % 7 == 3
  {
  }

  // The same, on instants whose civil time of day is their own.
  lemma WeekByDay(jd: int, t: int)
    requires ValidJD(Thursday(jd)) && t == Monday(DayOf(jd)) + 3
    ensures WeekYear(jd) == WeekYearOf(t) && WeekNumber(jd, TimeOf(jd)) == WeekNumberOf(t)
  {
    ThursdayDay(jd);
    YearStartsBefore(jd);
    WholeDays(jd, DayNumber(WeekYear(jd), 1, 1));
    WeeksOfDays(t - DayNumber(WeekYear(jd), 1, 1), Instant(WeekYear(jd), 1, 1, TimeOf(jd)), Thursday(jd));
  }

  lemma WeeksOfDays(days: int, jan01: int, thursday: int)
    requires 0 <= days && thursday - jan01 == days * MS_PER_DAY
    ensures Weeks(jan01, thursday) == days / 7 + 1
  {
  }

  lemma YearStartsBefore(jd: int)
    requires ValidJD(Thursday(jd))
    ensures DayNumber(WeekYear(jd), 1, 1) <= DayOf(Thursday(jd))
  {
    var t := DayOf(Thursday(jd));
    ValidDay(Thursday(jd));
    DayNumberOfDate(t);
    YearBounds(DateOf(t));
  }

  // For every instant whose week's Thursday is a valid instant, %G and %V name
  // the ISO week that holds it.
  lemma WeekIsIso(jd: int)
    requires ValidJD(Thursday(jd))
    ensures InWeek(DayOf(jd), WeekYear(jd), WeekNumber(jd, TimeOf(jd)))
    ensures 1 <= WeekNumber(jd, TimeOf(jd)) <= 53
  {
    ThursdayDay(jd);
    ValidDay(Thursday(jd));
    WeekByDay(jd, Monday(DayOf(jd)) + 3);
    WeekOfDay(DayOf(jd));
  }

  // A time written with hour 24 keeps a civil time of day one day ahead.  Then
  // %V is right except in years that begin on a Thursday, after their first week.
  lemma WeekAtHour24(jd: int)
    requires ValidJD(Thursday(jd))
    ensures var n := DayNumber(WeekYear(jd), 1, 1);
      WeekNumber(jd, TimeOf(jd) + MS_PER_DAY) == WeekNumber(jd, TimeOf(jd)) <==>
        (n % 7 != 3 || DayOf(Thursday(jd)) == n)
  {
    ThursdayDay(jd);
    MondayBounds(DayOf(jd));
    YearStartsBefore(jd);
    OneDayLess(jd, DayNumber(WeekYear(jd), 1, 1), Instant(WeekYear(jd), 1, 1, TimeOf(jd)));
  }

  lemma OneDayLess(jd: int, n: int, jan01: int)
    requires DayOf(Thursday(jd)) % 7 == 3 && n <= DayOf(Thursday(jd))
    requires jan01 == n * MS_PER_DAY - HALF_DAY + TimeOf(jd)
    ensures Weeks(jan01 + MS_PER_DAY, Thursday(jd)) == Weeks(jan01, Thursday(jd)) <==>
      (n % 7 != 3 || DayOf(Thursday(jd)) == n)
  {
    var days := DayOf(Thursday(jd)) - n;
    WholeDays(jd, n);
    WeeksOfDays(days, jan01, Thursday(jd));
    if days > 0 {
      WeeksOfDays(days - 1, jan01 + MS_PER_DAY, Thursday(jd));
      SevenDivides(days, n);
    }
  }

  lemma SevenDivides(days: int, n: int)
    requires 0 < days && (n + days) % 7 == 3
    ensures (days - 1) / 7 == days / 7 <==> n % 7 != 3
  {
  }

  lemma ValidDay(jd: int)
    requires ValidJD(jd)
    ensures 0 <= DayOf(jd) <= MAX_DAY
  {
  }

  lemma ThursdayDay(jd: int)
    ensures DayOf(Thursday(jd)) == Monday(DayOf(jd)) + 3 && TimeOf(Thursday(jd)) == TimeOf(jd)
  {
  }

  lemma WholeDays(jd: int, n: int)
    ensures Thursday(jd) - (n * MS_PER_DAY - HALF_DAY + TimeOf(jd)) == (DayOf(Thursday(jd)) - n) * MS_PER_DAY
  {
    ThursdayDay(jd);
    var t := DayOf(Thursday(jd));
    assert Thursday(jd) == t * MS_PER_DAY - HALF_DAY + TimeOf(jd);
  }

  // A date lies between 1 January of its year and of the next.
  lemma YearBounds(date: Date)
    requires Real(date) && MIN_YEAR <= date.y
    ensures DayNumber(date.y, 1, 1) <= DayNumber(date.y, date.m, date.d) < DayNumber(date.y + 1, 1, 1)
    ensures DayNumber(date.y + 1, 1, 1) <= DayNumber(date.y, 1, 1) + 366
  {
    YearPartStep(date.y - 1);
  }

  // All seven days of a week agree.
  lemma WeekIsShared(jd: int, jd': int)
    requires ValidJD(Thursday(jd)) && ValidJD(Thursday(jd'))
    requires Monday(DayOf(jd)) == Monday(DayOf(jd'))
    ensures WeekYear(jd) == WeekYear(jd') && WeekNumber(jd, TimeOf(jd)) == WeekNumber(jd', TimeOf(jd'))
  {
    WeekByDay(jd, Monday(DayOf(jd)) + 3);
    WeekByDay(jd', Monday(DayOf(jd)) + 3);
  }

  // At its own time of day, an instant is a whole number of days after 1 January.
  lemma DayOfYear(jd: int, y: int)
    requires ValidJD(jd) && y == DateOf(DayOf(jd)).y
    ensures var days := DayOf(jd) - DayNumber(y, 1, 1);
      0 <= days < 366 && CDiv(jd - Instant(y, 1, 1, TimeOf(jd)) + HALF_DAY, MS_PER_DAY) == days
  {
    InstantRoundTrip(jd);
    ValidDay(jd);
    DayNumberOfDate(DayOf(jd));
    YearBounds(DateOf(DayOf(jd)));
    SameTimeApart(jd, DayNumber(y, 1, 1));
    RoundDays(DayOf(jd) - DayNumber(y, 1, 1));
  }

  lemma SameTimeApart(jd: int, n: int)
    ensures jd - (n * MS_PER_DAY - HALF_DAY + TimeOf(jd)) == (DayOf(jd) - n) * MS_PER_DAY
  {
    assert jd == DayOf(jd) * MS_PER_DAY - HALF_DAY + TimeOf(jd);
  }

  lemma RoundDays(days: nat)
    ensures CDiv(days * MS_PER_DAY + HALF_DAY, MS_PER_DAY) == days
  {
  }

  // The civil fields of x are those of its instant.
  ghost predicate OwnFields(x: DateTimes.DateTime)
    reads x
  {
    ValidJD(x.iJD) && x.Y == DateOf(DayOf(x.iJD)).y && x.State().TimeMs() == TimeOf(x.iJD)
  }

  // daysAfterJan01: whole days since 1 January; with hour 24, when the fields are
  // not those of the instant, the difference from 1 January at that hour, rounded.
  method DaysAfterJan01(x: DateTimes.DateTime) returns (days: int)
    requires x.validYMD && x.validHMS && x.validJD && x.tz == 0 && !x.rawS && MIN_YEAR <= x.Y <= MAX_YEAR
    ensures OwnFields(x) ==> days == DayOf(x.iJD) - DayNumber(x.Y, 1, 1) && 0 <= days < 366
    ensures days == CDiv(x.iJD - Instant(x.Y, 1, 1, x.State().TimeMs()) + HALF_DAY, MS_PER_DAY)
  {
    days := RoundedDays(x);
    if OwnFields(x) {
      DayOfYear(x.iJD, x.Y);
    }
  }

  method RoundedDays(x: DateTimes.DateTime) returns (days: int)
    requires x.validYMD && x.validHMS && x.validJD && x.tz == 0 && !x.rawS && MIN_YEAR <= x.Y <= MAX_YEAR
    ensures days == CDiv(x.iJD - Instant(x.Y, 1, 1, x.State().TimeMs()) + HALF_DAY, MS_PER_DAY)
  {
    var jan01 := new DateTimes.DateTime(x.State());
    jan01.validJD := false;
    jan01.M, jan01.D := 1, 1;
    jan01.ComputeJD();
    days := CDiv(x.iJD - jan01.iJD + HALF_DAY, MS_PER_DAY);
  }

  // The Thursday of the week of x, at the same time of day.
  method ThursdayMoment(x: DateTimes.DateTime) returns (y: DateTimes.DateTime)
    requires x.validYMD && x.validHMS && x.validJD && x.tz == 0 && !x.rawS
    requires ValidJD(x.iJD) && ValidJD(Thursday(x.iJD))
    ensures fresh(y)
    ensures var date := DateOf(DayOf(Thursday(x.iJD)));
      y.State() == x.State().(iJD := Thursday(x.iJD), Y := date.y, M := date.m, D := date.d)
  {
    y := new DateTimes.DateTime(x.State());
    var daysAfterMonday := (x.iJD + HALF_DAY) / MS_PER_DAY % 7;
    y.iJD := y.iJD + (3 - daysAfterMonday) * MS_PER_DAY;
    y.validYMD := false;
    y.ComputeYMD();
  }

  // The %G and %V conversions of strftime.
  method WeekFields(x: DateTimes.DateTime) returns (g: int, v: int)
    requires x.validYMD && x.validHMS && x.validJD && x.tz == 0 && !x.rawS
    requires ValidJD(x.iJD) && ValidJD(Thursday(x.iJD))
    ensures g == WeekYear(x.iJD) && v == WeekNumber(x.iJD, x.State().TimeMs())
  {
    var y := ThursdayMoment(x);
    YearInRange(x.iJD);
    g := y.Y;
    var days := DaysAfterJan01(y);
    v := CDiv(days, 7) + 1;
  }

  lemma YearInRange(jd: int)
    requires ValidJD(Thursday(jd))
    ensures MIN_YEAR <= WeekYear(jd) <= MAX_YEAR
  {
    InstantRoundTrip(Thursday(jd));
  }
}
