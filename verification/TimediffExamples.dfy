// Accepted arguments for which timediff() does not invert.
module TimediffExamples {
  import opened Calendar
  import opened Julian
  import opened Instants
  import opened Moments
  import opened Timediff
  import opened TimediffLaw

  lemma DateValue(date: Date)
    requires MIN_YEAR <= date.y && ValidJD(Instant(date.y, date.m, date.d, 0)) && DateDigits(date)
    ensures Accepted(DateOnly(date)) && Value(DateOnly(date)) == Some(Instant(date.y, date.m, date.d, 0))
  {
  }

  lemma FebruaryInstants()
    ensures Instant(2023, 2, 31, 0) == Instant(2023, 3, 3, 0) && ValidJD(Instant(2023, 2, 31, 0))
  {
  }

  // For one, 31 February, which isDate accepts and reads as 3 March.
  lemma UnrealDateExample() returns (jd: int)
    ensures var b := DateOnly(Date(2023, 2, 31));
      Accepted(b) && Value(b) == Value(DateOnly(Date(2023, 3, 3))) && ValidJD(jd) && !RoundTrips(JulianDay(jd), b)
  {
    FebruaryInstants();
    DateValue(Date(2023, 2, 31));
    DateValue(Date(2023, 3, 3));
    jd := MisfitSecondFails(DateOnly(Date(2023, 2, 31)));
  }

  lemma DateTimeValue(date: Date, clock: Clock)
    requires MIN_YEAR <= date.y && DateDigits(date) && ClockDigits(clock)
    requires ValidJD(Instant(date.y, date.m, date.d, clock.TimeMs()))
    ensures var i := DateAndTime(date, clock);
      Accepted(i) && Value(i) == Some(Instant(date.y, date.m, date.d, clock.TimeMs()))
  {
  }

  lemma EndOfMarch()
    ensures Instant(2023, 3, 31, MS_PER_DAY) == Instant(2023, 4, 1, 0) && ValidJD(Instant(2023, 4, 1, 0))
  {
  }

  lemma EndOfFebruary()
    ensures Instant(2023, 2, 28, MS_PER_DAY) == Instant(2023, 3, 1, 0) && ValidJD(Instant(2023, 3, 1, 0))
  {
  }

  lemma HourAfterLastRead(b: Input)
    requires b == DateAndTime(Date(2023, 3, 31), Clock(24, 0, 0))
    ensures Accepted(b) && Value(b) == Value(DateOnly(Date(2023, 4, 1))) && !FitsAsSecond(b)
  {
    EndOfMarch();
    DateTimeValue(Date(2023, 3, 31), Clock(24, 0, 0));
    DateValue(Date(2023, 4, 1));
  }

  lemma FirstArgumentRead(a: Input)
    requires a == DateAndTime(Date(2023, 2, 28), Clock(24, 0, 0))
    ensures Accepted(a) && Value(a) == Value(DateOnly(Date(2023, 3, 1))) && !FitsAsFirst(a)
  {
    EndOfFebruary();
    DateTimeValue(Date(2023, 2, 28), Clock(24, 0, 0));
    DateValue(Date(2023, 3, 1));
  }

  // "2023-03-31 24:00", which isDate accepts and reads as 1 April.
  lemma HourAfterLastExample(b: Input) returns (jd: int)
    requires b == DateAndTime(Date(2023, 3, 31), Clock(24, 0, 0))
    ensures Accepted(b) && Value(b) == Value(DateOnly(Date(2023, 4, 1)))
    ensures ValidJD(jd) && Accepted(JulianDay(jd)) && !RoundTrips(JulianDay(jd), b)
  {
    HourAfterLastRead(b);
    jd := MisfitSecondFails(b);
  }

  // As a first argument, "2023-02-28 24:00", which isDate accepts and reads as 1 March.
  lemma FirstArgumentExample(a: Input) returns (jd: int)
    requires a == DateAndTime(Date(2023, 2, 28), Clock(24, 0, 0))
    ensures Accepted(a) && Value(a) == Value(DateOnly(Date(2023, 3, 1)))
    ensures ValidJD(jd) && Accepted(JulianDay(jd)) && !RoundTrips(a, JulianDay(jd))
  {
    FirstArgumentRead(a);
    jd := MisfitFirstFails(a);
  }

  lemma CenturyInstants()
    ensures Instant(2000, 1, 1, -3 * HOUR) == Instant(1999, 12, 31, 21 * HOUR)
    ensures ValidJD(Instant(1999, 12, 31, 21 * HOUR)) && ValidJD(Instant(2000, 3, 2, 21 * HOUR))
    ensures ValidJD(Instant(2000, 2, 29, 21 * HOUR))
    ensures Instant(2000, 3, 1, -3 * HOUR) == Instant(2000, 2, 29, 21 * HOUR)
  {
  }

  const NEW_YEAR_EVE := Reading(Instant(1999, 12, 31, 21 * HOUR), MonthIndex(1999, 12), 31, 21 * HOUR)
  const NEW_YEAR := Reading(Instant(1999, 12, 31, 21 * HOUR), MonthIndex(2000, 1), 1, -3 * HOUR)
  const SECOND_OF_MARCH := Reading(Instant(2000, 3, 2, 21 * HOUR), MonthIndex(2000, 3), 2, 21 * HOUR)

  lemma PendingOffsetAccepted(b: Input)
    requires b == TimeZoned(Clock(2, 0, 0), 300)
    ensures Accepted(b) && Value(b) == Some(NEW_YEAR.jd) && Written(b) == NEW_YEAR
  {
    CenturyInstants();
    IndexParts(2000, 1);
  }

  lemma PendingOffsetRead(b: Input)
    requires b == TimeZoned(Clock(2, 0, 0), 300)
    ensures Accepted(b) && Value(b) == Some(NEW_YEAR.jd)
    ensures FirstReading(b) == NEW_YEAR_EVE && RawReading(b) == NEW_YEAR
  {
    PendingOffsetAccepted(b);
    ReadWritten(b);
    NearCenturyReading(Written(b), 0, 21 * HOUR);
  }

  lemma SecondOfMarchRead(a: Input)
    requires a == JulianDay(SECOND_OF_MARCH.jd)
    ensures Accepted(a) && FirstReading(a) == SECOND_OF_MARCH
  {
    CenturyInstants();
    ReadJulian(a.jd);
    IndexParts(2000, 3);
    RereadRealDate(MonthIndex(2000, 3), 2, 21 * HOUR);
  }

  lemma CenturySteps(cal: Months, a: Reading, b: Reading)
    requires cal == MonthStarts() && Calendric(cal) && Parsed(cal, b) && cal(LAST_MONTH + 1) == MAX_JD + 1
    requires a == SECOND_OF_MARCH && b == NEW_YEAR_EVE
    ensures Parsed(cal, a) && StepsBetween(cal, a, b) == Steps(2, 0)
  {
    LeapFebruaryFollows();
    IndexParts(1999, 12);
    IndexParts(2000, 3);
    StartsOf(a.k, 2, 21 * HOUR);
    StartsOf(b.k, 31, 21 * HOUR);
    CenturyInstants();
    FallsBackFails(cal, b, NEW_YEAR, a);
  }

  lemma CenturyLanding()
    ensures Landing(MonthStarts(), false, Steps(2, 0), NEW_YEAR) == Instant(2000, 2, 29, 21 * HOUR)
  {
    CenturyInstants();
    IndexParts(2000, 3);
    LandingIs(false, Steps(2, 0), NEW_YEAR, MonthIndex(2000, 3));
  }

  lemma PendingOffsetDifference(a: Input, b: Input)
    requires a == JulianDay(SECOND_OF_MARCH.jd) && b == TimeZoned(Clock(2, 0, 0), 300)
    ensures Accepted(a) && Accepted(b) && TimediffOf(a, b) == IntervalOf(false, 2, 0)
  {
    PendingOffsetRead(b);
    SecondOfMarchRead(a);
    CalendarIsCalendric();
    FirstIsParsed(b);
    CenturySteps(MonthStarts(), SECOND_OF_MARCH, NEW_YEAR_EVE);
    CenturyInstants();
  }

  lemma PendingOffsetModified(b: Input, v: Interval)
    requires b == TimeZoned(Clock(2, 0, 0), 300) && v == IntervalOf(false, 2, 0)
    ensures Accepted(b) && Modified(b, v) == Some(Instant(2000, 2, 29, 21 * HOUR))
  {
    PendingOffsetRead(b);
    FirstIsParsed(b);
    CenturyLanding();
    CenturyInstants();
    ModifiedLands(b, false, Steps(2, 0));
  }

  lemma TwoMonths(v: Interval)
    requires v == IntervalOf(false, 2, 0)
    ensures v == Interval(false, 0, 2, 0, 0, 0, 0)
  {
    RestReadBack(false, 2, 0);
    MonthsReadBack(false, 2, 0);
    OnlyMonths(v);
  }

  lemma OnlyMonths(v: Interval)
    requires !v.negative && v.Months() == 2 && 0 <= v.months < 12 && 0 <= v.years && v.days == 0
    requires v.TimeMs() == 0 && 0 <= v.h && 0 <= v.m && 0 <= v.s
    ensures v == Interval(false, 0, 2, 0, 0, 0, 0)
  {
  }

  // And "02:00+05:00", which isDate accepts and reads as 1999-12-31 21:00.  The
  // two months to 2000-03-02 21:00 are counted from 31 December, but added to
  // 2000-01-01 02:00.
  lemma PendingOffsetExample(a: Input, b: Input)
    requires a == JulianDay(Instant(2000, 3, 2, 21 * HOUR)) && b == TimeZoned(Clock(2, 0, 0), 300)
    ensures Accepted(a) && Accepted(b) && Value(b) == Some(Instant(1999, 12, 31, 21 * HOUR))
    ensures TimediffOf(a, b) == Interval(false, 0, 2, 0, 0, 0, 0)
    ensures Modified(b, TimediffOf(a, b)) == Some(Instant(2000, 2, 29, 21 * HOUR))
  {
    PendingOffsetAccepted(b);
    PendingOffsetDifference(a, b);
    TwoMonths(TimediffOf(a, b));
    PendingOffsetModified(b, TimediffOf(a, b));
  }
}
