// The law of timediff(A,B) for every pair of arguments that isDate accepts.
module TimediffLaw {
  import opened Calendar
  import opened Julian
  import opened Instants
  import opened Moments
  import opened Timediff

  datatype Clock = Clock(h: int, m: int, s: int) {
    function TimeMs(): int { h * 3600000 + m * 60000 + s }
  }

  // The time values that parseDateOrTime and setRawDateNumber produce.  An
  // offset of zero is none.  A date and time with another offset is turned into
  // a Julian day while it is parsed; with a time alone the offset stays pending.
  datatype Input =
    | JulianDay(jd: int)
    | DateOnly(date: Date)
    | DateAndTime(date: Date, clock: Clock)
    | TimeOnly(clock: Clock)
    | DateAndTimeZoned(date: Date, clock: Clock, tz: int)
    | TimeZoned(clock: Clock, tz: int)

  predicate ClockDigits(c: Clock) {
    0 <= c.h <= 24 && 0 <= c.m <= 59 && 0 <= c.s < 60000
  }

  predicate DateDigits(date: Date) {
    -9999 <= date.y <= 9999 && 1 <= date.m <= 12 && 1 <= date.d <= 31
  }

  predicate Offset(tz: int) {
    tz != 0 && -899 <= tz <= 899
  }

  // The digit ranges that getDigits lets through.
  predicate Digits(i: Input) {
    match i
    case JulianDay(jd) => ValidJD(jd)
    case DateOnly(date) => DateDigits(date)
    case DateAndTime(date, clock) => DateDigits(date) && ClockDigits(clock)
    case TimeOnly(clock) => ClockDigits(clock)
    case DateAndTimeZoned(date, clock, tz) => DateDigits(date) && ClockDigits(clock) && Offset(tz)
    case TimeZoned(clock, tz) => ClockDigits(clock) && Offset(tz)
  }

  function WithDate(t: Moment, date: Date): Moment {
    t.(Y := date.y, M := date.m, D := date.d, validYMD := true, nFloor := FloorDays(date.y, date.m, date.d))
  }

  function WithClock(t: Moment, c: Clock): Moment {
    t.(h := c.h, m := c.m, s := c.s, validHMS := true)
  }

  function ParsedMoment(i: Input): Moment {
    match i
    case JulianDay(jd) => Blank(false).(iJD := jd, validJD := true, rawS := true)
    case DateOnly(date) => WithDate(Blank(false), date)
    case DateAndTime(date, clock) => WithDate(WithClock(Blank(false), clock), date)
    case TimeOnly(clock) => WithClock(Blank(false), clock)
    case DateAndTimeZoned(date, clock, tz) => ComputeJD(WithDate(WithClock(Blank(false), clock).(tz := tz), date))
    case TimeZoned(clock, tz) => WithClock(Blank(false), clock).(tz := tz)
  }

  // The instant an input stands for, when isDate accepts it.
  function Value(i: Input): Option<int> {
    match Checked(ParsedMoment(i), true)
    case None => None
    case Some(t) => Some(t.iJD)
  }

  predicate Accepted(i: Input) {
    Digits(i) && Value(i).Some?
  }

  // The civil fields that timediff reads off an accepted input.
  function FirstReading(i: Input): Reading
    requires Accepted(i)
  {
    ReadingOf(ComputeYMDHMS(Checked(ParsedMoment(i), true).value))
  }

  // The civil fields to which a modifier is applied: not normalised, and with
  // a pending offset as part of the time.
  function RawReading(i: Input): Reading
    requires Accepted(i)
  {
    var u := ComputeYMDHMS(ParsedMoment(i));
    ReadingOf(u).(jd := Value(i).value, tod := u.UtcMs())
  }

  // ---- The calendar as timediff sees it ----

  function MonthStarts(): Months {
    k => AtMonth(k, 1, 0)
  }

  lemma StartsOf(k: int, d: int, tod: int)
    requires FIRST_MONTH <= k
    ensures On(MonthStarts(), k, d, tod) == AtMonth(k, d, tod)
    ensures MonthStarts()(k + 1) - MonthStarts()(k) == MonthLength(k / 12, k % 12 + 1) * MS_PER_DAY
  {
    InsideMonth(k, d, tod);
  }

  lemma CalendarIsCalendric()
    ensures Calendric(MonthStarts()) && StartsLate(MonthStarts())
    ensures MonthStarts()(LAST_MONTH + 1) == MAX_JD + 1
  {
    forall k | FIRST_MONTH <= k ensures MonthAt(MonthStarts(), k) {
      MonthLasts(k);
    }
    StartAt(FIRST_MONTH);
    StartAt(FIRST_MONTH + 10);
    StartAt(FIRST_MONTH + 11);
    StartAt(FIRST_MONTH + 12);
    StartAt(LAST_MONTH + 1);
  }

  lemma MonthLasts(k: int)
    requires FIRST_MONTH <= k
    ensures MonthAt(MonthStarts(), k)
  {
    StartsOf(k, 1, 0);
    MonthLengthBounds(k);
  }

  lemma MonthLengthBounds(k: int)
    ensures 28 <= MonthLength(k / 12, k % 12 + 1) <= 31
  {
  }

  // The starts of the few months that the ends of the range depend on.
  lemma StartAt(k: int)
    ensures k == FIRST_MONTH ==> MonthStarts()(k) + 33 * MS_PER_DAY < 0
    ensures k == FIRST_MONTH + 10 ==> MonthStarts()(k) == -23 * MS_PER_DAY - HALF_DAY
    ensures k == FIRST_MONTH + 11 ==> MonthStarts()(k) == 7 * MS_PER_DAY - HALF_DAY
    ensures k == FIRST_MONTH + 12 ==> MonthStarts()(k) == 38 * MS_PER_DAY - HALF_DAY
    ensures k == LAST_MONTH + 1 ==> MonthStarts()(k) == MAX_JD + 1
  {
    if k == FIRST_MONTH {
      assert k / 12 == -4713 && k % 12 == 0;
    } else if k == FIRST_MONTH + 10 {
      assert k / 12 == -4713 && k % 12 == 10;
    } else if k == FIRST_MONTH + 11 {
      assert k / 12 == -4713 && k % 12 == 11;
    } else if k == FIRST_MONTH + 12 {
      assert k / 12 == -4712 && k % 12 == 0;
    } else if k == LAST_MONTH + 1 {
      assert k / 12 == 10000 && k % 12 == 0;
    }
  }

  predicate LastsItsLength(cal: Months, k: int) {
    cal(k + 1) - cal(k) == MonthLength(k / 12, k % 12 + 1) * MS_PER_DAY
  }

  lemma ShortMonths(k: int)
    requires FIRST_MONTH < k
    ensures ShortMonthsApart(MonthStarts(), k)
  {
    forall j | FIRST_MONTH <= j ensures LastsItsLength(MonthStarts(), j) {
      StartsOf(j, 1, 0);
    }
    ShortMonthsIn(MonthStarts(), k);
  }

  lemma ShortMonthsIn(cal: Months, k: int)
    requires FIRST_MONTH < k && forall j :: FIRST_MONTH <= j ==> LastsItsLength(cal, j)
    ensures ShortMonthsApart(cal, k)
  {
    ShortMonthLengths(k);
    assert LastsItsLength(cal, k - 1) && LastsItsLength(cal, k) && LastsItsLength(cal, k + 1);
  }

  lemma ShortMonthLengths(k: int)
    ensures MonthLength(k / 12, k % 12 + 1) < 31 ==>
      MonthLength((k - 1) / 12, (k - 1) % 12 + 1) == 31 == MonthLength((k + 1) / 12, (k + 1) % 12 + 1)
  {
    var y, m := k / 12, k % 12;
    assert k == 12 * y + m;
  }

  // ---- What timediff and the modifier read off each kind of input ----

  // The reading of an instant whose date is taken from its Julian day.
  function Reread(jd: int, tod: int): Reading {
    Reading(jd, IndexOf(jd), DateOf(DayOf(jd)).d, tod)
  }

  predicate IsJulianDay(i: Input) {
    i.JulianDay? || i.DateAndTimeZoned?
  }

  predicate IsTime(i: Input) {
    i.TimeOnly? || i.TimeZoned?
  }

  // The month, day and time of day that an input writes.
  function WrittenMonth(i: Input): int
    requires !IsJulianDay(i)
  {
    if IsTime(i) then MonthIndex(2000, 1) else MonthIndex(i.date.y, i.date.m)
  }

  function WrittenDay(i: Input): int
    requires !IsJulianDay(i)
  {
    if IsTime(i) then 1 else i.date.d
  }

  function WrittenTime(i: Input): int
    requires !IsJulianDay(i)
  {
    if i.DateOnly? then 0 else i.clock.TimeMs() - if i.TimeZoned? then i.tz * 60000 else 0
  }

  function Written(i: Input): Reading
    requires !IsJulianDay(i)
  {
    var k, d, tod := WrittenMonth(i), WrittenDay(i), WrittenTime(i);
    Reading(AtMonth(k, d, tod), k, d, tod)
  }

  predicate Kept(i: Input) {
    !IsJulianDay(i) && !IsTime(i) && i.date.d <= 28
  }

  // A pending offset is settled before timediff reads the fields.
  function SeenTime(i: Input): int
    requires !IsJulianDay(i)
  {
    if i.TimeZoned? then TimeOf(Written(i).jd) else Written(i).tod
  }

  // What the two readers see of an accepted input that is not a Julian day.
  predicate SeenAsWritten(i: Input)
    requires Accepted(i) && !IsJulianDay(i)
  {
    && Value(i) == Some(Written(i).jd) && ValidJD(Written(i).jd) && RawReading(i) == Written(i)
    && FirstReading(i) == (if Kept(i) then Written(i) else Reread(Written(i).jd, SeenTime(i)))
    && FIRST_MONTH <= Written(i).k <= LAST_MONTH
    && Applicable(ComputeYMDHMS(ParsedMoment(i)))
  }

  predicate Applicable(u: Moment) {
    Civil(u) && !u.isError
  }

  lemma ReadJulian(jd: int)
    requires ValidJD(jd)
    ensures Accepted(JulianDay(jd)) && Value(JulianDay(jd)) == Some(jd)
    ensures FirstReading(JulianDay(jd)) == RawReading(JulianDay(jd)) == Reread(jd, TimeOf(jd))
    ensures Applicable(ComputeYMDHMS(ParsedMoment(JulianDay(jd))))
  {
    ReadJD(ParsedMoment(JulianDay(jd)));
    InstantRoundTrip(jd);
  }

  // A date and time with an offset is read like its Julian day.
  lemma ReadZoned(i: Input)
    requires Accepted(i) && i.DateAndTimeZoned?
    ensures ValidJD(Value(i).value)
    ensures FirstReading(i) == RawReading(i) == Reread(Value(i).value, TimeOf(Value(i).value))
    ensures Applicable(ComputeYMDHMS(ParsedMoment(i)))
  {
    var t := ParsedMoment(i);
    YearChecked(WithDate(WithClock(Blank(false), i.clock).(tz := i.tz), i.date));
    assert t.validJD && !t.validYMD && !t.validHMS && t.tz == 0 && !t.isError;
    ReadJD(t);
    InstantRoundTrip(t.iJD);
  }

  lemma ReadWritten(i: Input)
    requires Accepted(i) && !IsJulianDay(i)
    ensures SeenAsWritten(i)
  {
    match i
    case DateOnly(date) => ReadDateOnly(i);
    case DateAndTime(date, clock) => ReadDateAndTime(i);
    case TimeOnly(clock) => ReadTimeOnly(i);
    case TimeZoned(clock, tz) => ReadTimeZoned(i);
  }

  lemma ReadDateOnly(i: Input)
    requires Accepted(i) && i.DateOnly?
    ensures SeenAsWritten(i)
  {
    var u := ComputeJD(ParsedMoment(i));
    JDOfDateOnly(i, u);
    DateOnlyRaw(i, u);
    DateOnlyFirst(i, u);
    ReadDateBounds(i.date);
  }

  // The moment of a date alone once its Julian day is computed.
  predicate DateWithJD(i: Input, u: Moment)
    requires i.DateOnly?
  {
    && u == WithDate(Blank(false), i.date).(iJD := u.iJD, validJD := true)
    && u.iJD == Written(i).jd && ValidJD(u.iJD) && TimeOf(u.iJD) == 0
  }

  lemma JDOfDateOnly(i: Input, u: Moment)
    requires Accepted(i) && i.DateOnly? && u == ComputeJD(ParsedMoment(i))
    ensures DateWithJD(i, u) && MIN_YEAR <= i.date.y <= MAX_YEAR && Value(i) == Some(u.iJD)
  {
    YearChecked(ParsedMoment(i));
    JDOfDate(ParsedMoment(i));
    TimeOfInstant(WrittenMonth(i), i.date.d, 0);
  }

  lemma DateOnlyRaw(i: Input, u: Moment)
    requires Accepted(i) && i.DateOnly? && u == ComputeJD(ParsedMoment(i)) && DateWithJD(i, u)
    requires Value(i) == Some(u.iJD)
    ensures RawReading(i) == Written(i) && Applicable(ComputeYMDHMS(ParsedMoment(i)))
  {
    var raw := ComputeYMDHMS(ParsedMoment(i));
    ReadClockOfDate(ParsedMoment(i), u, raw);
    RawDate(i, raw, u.iJD);
  }

  lemma RawDate(i: Input, raw: Moment, jd: int)
    requires i.DateOnly? && raw.Y == i.date.y && raw.M == i.date.m && raw.D == i.date.d
    requires raw.TimeMs() == 0 && raw.tz == 0 && jd == Written(i).jd
    ensures ReadingOf(raw).(jd := jd, tod := raw.UtcMs()) == Written(i)
  {
  }

  lemma DateOnlyFirst(i: Input, u: Moment)
    requires Accepted(i) && i.DateOnly? && u == ComputeJD(ParsedMoment(i)) && DateWithJD(i, u)
    ensures FirstReading(i) == if Kept(i) then Written(i) else Reread(Written(i).jd, 0)
  {
    if Kept(i) {
      ReadClock(u);
    } else {
      ReadJD(u.(validYMD := false));
    }
  }

  lemma ReadDateBounds(date: Date)
    requires 1 <= date.m <= 12 && MIN_YEAR <= date.y <= MAX_YEAR
    ensures FIRST_MONTH <= MonthIndex(date.y, date.m) <= LAST_MONTH
  {
  }

  lemma ReadDateAndTime(i: Input)
    requires Accepted(i) && i.DateAndTime?
    ensures SeenAsWritten(i)
  {
    var u := ComputeJD(ParsedMoment(i));
    JDOfDateAndTime(i, u);
    DateAndTimeRaw(i);
    DateAndTimeFirst(i, u);
    ReadDateBounds(i.date);
  }

  // The moment of a date and time once its Julian day is computed.
  predicate DateAndTimeWithJD(i: Input, u: Moment)
    requires i.DateAndTime?
  {
    && u == WithDate(WithClock(Blank(false), i.clock), i.date).(iJD := u.iJD, validJD := true)
    && u.iJD == Written(i).jd && ValidJD(u.iJD)
  }

  lemma JDOfDateAndTime(i: Input, u: Moment)
    requires Accepted(i) && i.DateAndTime? && u == ComputeJD(ParsedMoment(i))
    ensures DateAndTimeWithJD(i, u) && MIN_YEAR <= i.date.y <= MAX_YEAR && Value(i) == Some(u.iJD)
  {
    YearChecked(ParsedMoment(i));
    JDOfCivil(ParsedMoment(i));
  }

  lemma DateAndTimeRaw(i: Input)
    requires Accepted(i) && i.DateAndTime? && Value(i) == Some(Written(i).jd)
    ensures RawReading(i) == Written(i) && Applicable(ComputeYMDHMS(ParsedMoment(i)))
  {
    assert ComputeYMDHMS(ParsedMoment(i)) == ParsedMoment(i);
  }

  lemma DateAndTimeFirst(i: Input, u: Moment)
    requires Accepted(i) && i.DateAndTime? && u == ComputeJD(ParsedMoment(i)) && DateAndTimeWithJD(i, u)
    ensures FirstReading(i) == if Kept(i) then Written(i) else Reread(Written(i).jd, Written(i).tod)
  {
    if !Kept(i) {
      ReadDate(u.(validYMD := false));
    }
  }

  lemma ReadTimeOnly(i: Input)
    requires Accepted(i) && i.TimeOnly?
    ensures SeenAsWritten(i)
  {
    var t := ParsedMoment(i);
    JDOfTime(t);
    var u := ComputeJD(t);
    assert u.iJD == Written(i).jd && ValidJD(u.iJD);
    ReadDate(u);
  }

  lemma ReadTimeZoned(i: Input)
    requires Accepted(i) && i.TimeZoned?
    ensures SeenAsWritten(i)
  {
    var u := ComputeJD(ParsedMoment(i));
    IndexParts(2000, 1);
    assert u.iJD == Written(i).jd && ValidJD(u.iJD);
    ReadJD(u);
  }

  // Re-reading the date of a valid Julian day.
  lemma ReadDate(t: Moment)
    requires t.validJD && !t.validYMD && t.validHMS && ValidJD(t.iJD)
    ensures ReadingOf(ComputeYMDHMS(t)) == Reread(t.iJD, t.TimeMs())
  {
  }

  // ---- Classifying the inputs ----

  // The conditions a caller can check on the text.
  predicate FitsAsFirst(i: Input) {
    i.DateAndTime? ==> !(i.date.d == 28 == MonthLength(i.date.y, i.date.m) && i.clock.h == 24)
  }

  predicate FitsAsSecond(i: Input) {
    match i
    case JulianDay(jd) => true
    case DateOnly(date) => Real(date)
    case DateAndTime(date, clock) =>
      && Real(date)
      && (clock.h < 24 || (date.d <= 28 && (date.d < MonthLength(date.y, date.m) || clock.TimeMs() == MS_PER_DAY)))
    case TimeOnly(clock) => clock.h < 24
    case DateAndTimeZoned(date, clock, tz) => true
    case TimeZoned(clock, tz) => clock.TimeMs() >= tz * 60000
  }

  // An instant re-read with its own time of day.
  lemma RereadExact(jd: int)
    requires ValidJD(jd)
    ensures var r, cal := Reread(jd, TimeOf(jd)), MonthStarts();
      Parsed(cal, r) && Consistent(cal, r) && InMonth(cal, r) && InMonthOrEnd(cal, r) && TimeOfDay(r.tod)
  {
    IndexRoundTrip(jd);
    var r := Reread(jd, TimeOf(jd));
    MonthLengthBounds(r.k);
    RealReadingAt(r);
  }

  lemma RealReadingAt(r: Reading)
    requires ValidJD(r.jd) && FIRST_MONTH <= r.k <= LAST_MONTH && 1 <= r.d <= LengthOf(r.k) && 28 <= LengthOf(r.k) <= 31
    requires r.jd == AtMonth(r.k, r.d, r.tod) && TimeOfDay(r.tod)
    ensures var cal := MonthStarts(); Parsed(cal, r) && Consistent(cal, r) && InMonth(cal, r) && InMonthOrEnd(cal, r)
  {
    StartsOf(r.k, r.d, r.tod);
    RealReading(MonthStarts(), r, LengthOf(r.k));
  }

  // An instant re-read while hour 24 is kept.
  lemma RereadAhead(jd: int, tod: int)
    requires ValidJD(jd) && MS_PER_DAY <= tod < MS_PER_DAY + HOUR && TimeOf(jd) == tod - MS_PER_DAY
    ensures var r, cal := Reread(jd, tod), MonthStarts(); Parsed(cal, r) && DayAhead(cal, r) && InMonth(cal, r)
  {
    RereadExact(jd);
    AheadReading(MonthStarts(), Reread(jd, TimeOf(jd)), tod);
  }

  function LengthOf(k: int): int {
    MonthLength(k / 12, k % 12 + 1)
  }

  // A day that may run past its month, re-read from its instant.
  lemma RereadDate(k: int, d: int, tod: int)
    requires FIRST_MONTH <= k <= LAST_MONTH && 1 <= d <= 32 && TimeOfDay(tod) && ValidJD(AtMonth(k, d, tod))
    ensures var jd := AtMonth(k, d, tod);
      && TimeOf(jd) == tod
      && (if d <= LengthOf(k) then IndexOf(jd) == k && DateOf(DayOf(jd)).d == d
          else IndexOf(jd) == k + 1 && DateOf(DayOf(jd)).d == d - LengthOf(k))
  {
    if d <= LengthOf(k) {
      RereadRealDate(k, d, tod);
    } else {
      MonthLengthBounds(k);
      MonthLengthBounds(k + 1);
      DayCarries(k, d, tod);
      RereadRealDate(k + 1, d - LengthOf(k), tod);
    }
  }

  lemma RereadRealDate(k: int, d: int, tod: int)
    requires FIRST_MONTH <= k <= LAST_MONTH + 1 && 1 <= d <= LengthOf(k) && TimeOfDay(tod)
    ensures var jd := AtMonth(k, d, tod); TimeOf(jd) == tod && IndexOf(jd) == k && DateOf(DayOf(jd)).d == d
  {
    var date := Date(k / 12, k % 12 + 1, d);
    assert MonthIndex(date.y, date.m) == k;
    DateRoundTrip(date, tod);
  }

  lemma DayCarries(k: int, d: int, tod: int)
    requires FIRST_MONTH <= k
    ensures AtMonth(k, d, tod) == AtMonth(k + 1, d - LengthOf(k), tod)
  {
    InsideMonth(k, d, tod);
    InsideMonth(k + 1, d - LengthOf(k), tod);
  }

  lemma HourCarries(k: int, d: int, tod: int)
    ensures AtMonth(k, d, tod) == AtMonth(k, d + 1, tod - MS_PER_DAY)
  {
  }

  // How the first reading r of an input relates to what the input writes, w.
  predicate Classified(cal: Months, i: Input, r: Reading, w: Reading) {
    && Parsed(cal, r) && r.jd == w.jd
    && (if FitsAsFirst(i) then InMonth(cal, r) else Consistent(cal, r) && cal(r.k + 1) <= r.jd && r.k % 12 == 1)
    && (if FitsAsSecond(i) then InMonthOrEnd(cal, r) && Alike(r, w) else Misfit(cal, r, w))
  }

  lemma WrittenClasses(i: Input)
    requires Accepted(i) && !IsJulianDay(i) && SeenAsWritten(i)
    ensures Classified(MonthStarts(), i, FirstReading(i), Written(i))
  {
    var w := Written(i);
    if Kept(i) {
      KeptClass(i, w);
    } else if i.TimeZoned? {
      ZonedClass(i, w);
    } else if w.tod < MS_PER_DAY {
      LateClass(i, w);
    } else {
      AheadClass(i, w);
    }
  }

  lemma KeptClass(i: Input, w: Reading)
    requires Digits(i) && Kept(i) && w == Written(i) && ValidJD(w.jd) && FIRST_MONTH <= w.k <= LAST_MONTH
    ensures Classified(MonthStarts(), i, w, w)
  {
    KeptFits(i);
    MonthLengthBounds(w.k);
    StartsOf(w.k, w.d, w.tod);
    KeptClassified(MonthStarts(), i, w, LengthOf(w.k));
  }

  lemma KeptClassified(cal: Months, i: Input, w: Reading, len: int)
    requires ReadIn(cal, w, len) && w.jd == On(cal, w.k, w.d, w.tod) && 0 <= w.tod < MS_PER_DAY + HOUR && w.d <= 28
    requires FitsAsFirst(i) <==> !(w.d == len && w.tod >= MS_PER_DAY)
    requires FitsAsSecond(i) <==> !(w.d == len && w.tod > MS_PER_DAY)
    requires w.d == len ==> w.k % 12 == 1
    ensures Classified(cal, i, w, w)
  {
    EarlyReading(cal, w, len);
  }

  lemma ZonedClass(i: Input, w: Reading)
    requires Digits(i) && i.TimeZoned? && w == Written(i) && ValidJD(w.jd)
    ensures Classified(MonthStarts(), i, Reread(w.jd, TimeOf(w.jd)), w)
  {
    var day := if w.tod < 0 then 0 else if w.tod < MS_PER_DAY then 1 else 2;
    NearCenturyReading(w, day, w.tod - (day - 1) * MS_PER_DAY);
    RereadExact(w.jd);
    LeapFebruaryFollows();
    NearCentury(MonthStarts(), i, Reread(w.jd, TimeOf(w.jd)), w, day);
  }

  // What is read near the start of 2000; day 0 is 31 December 1999.
  lemma NearCenturyReading(w: Reading, day: int, tod: int)
    requires w.k == MonthIndex(2000, 1) && w.d == 1 && w.jd == AtMonth(w.k, 1, w.tod)
    requires 0 <= day <= 2 && TimeOfDay(tod) && w.tod == tod + (day - 1) * MS_PER_DAY
    ensures Reread(w.jd, TimeOf(w.jd))
      == Reading(w.jd, if day == 0 then w.k - 1 else w.k, if day == 0 then 31 else day, tod)
  {
    TurnOfCentury(day, tod, w.tod);
  }

  lemma NearCentury(cal: Months, i: Input, r: Reading, w: Reading, day: int)
    requires Digits(i) && i.TimeZoned? && w.k == MonthIndex(2000, 1) && w.d == 1
    requires w.tod == i.clock.TimeMs() - i.tz * 60000
    requires day == (if w.tod < 0 then 0 else if w.tod < MS_PER_DAY then 1 else 2)
    requires r == Reading(w.jd, if day == 0 then w.k - 1 else w.k, if day == 0 then 31 else day,
                          w.tod - (day - 1) * MS_PER_DAY)
    requires Parsed(cal, r) && Consistent(cal, r) && InMonth(cal, r) && InMonthOrEnd(cal, r)
    requires cal(w.k) - cal(w.k - 1) == 31 * MS_PER_DAY && cal(w.k + 2) - cal(w.k + 1) == 29 * MS_PER_DAY
    ensures Classified(cal, i, r, w)
  {
  }

  lemma TurnOfCentury(day: int, tod: int, past: int)
    requires 0 <= day <= 2 && TimeOfDay(tod) && past == tod + (day - 1) * MS_PER_DAY
    ensures var k := MonthIndex(2000, 1); var jd := AtMonth(k, 1, past);
      && TimeOf(jd) == tod && IndexOf(jd) == (if day == 0 then k - 1 else k)
      && DateOf(DayOf(jd)).d == (if day == 0 then 31 else day)
  {
    var k := MonthIndex(2000, 1);
    if day == 0 {
      RereadRealDate(k - 1, 31, tod);
      DayCarries(k - 1, 32, past);
    } else {
      RereadRealDate(k, day, tod);
    }
  }

  lemma LeapFebruaryFollows()
    ensures var k, cal := MonthIndex(2000, 1), MonthStarts();
      cal(k) - cal(k - 1) == 31 * MS_PER_DAY && cal(k + 2) - cal(k + 1) == 29 * MS_PER_DAY
  {
    var k := MonthIndex(2000, 1);
    DecemberLasts(k - 1, k);
    LeapFebruaryLasts(k + 1, k + 2);
  }

  lemma DecemberLasts(k: int, next: int)
    requires k == MonthIndex(1999, 12) && next == k + 1
    ensures MonthStarts()(next) - MonthStarts()(k) == 31 * MS_PER_DAY
  {
    LengthOfMonth(1999, 12, k, next, 31);
  }

  lemma LeapFebruaryLasts(k: int, next: int)
    requires k == MonthIndex(2000, 2) && next == k + 1
    ensures MonthStarts()(next) - MonthStarts()(k) == 29 * MS_PER_DAY
  {
    LengthOfMonth(2000, 2, k, next, 29);
  }

  lemma LengthOfMonth(y: int, m: int, k: int, next: int, len: int)
    requires MIN_YEAR <= y && 1 <= m <= 12 && k == MonthIndex(y, m) && next == k + 1 && MonthLength(y, m) == len
    ensures MonthStarts()(next) - MonthStarts()(k) == len * MS_PER_DAY
  {
    IndexParts(y, m);
    LastsDays(k, next, len);
  }

  lemma LastsDays(k: int, next: int, len: int)
    requires FIRST_MONTH <= k && LengthOf(k) == len && next == k + 1
    ensures MonthStarts()(next) - MonthStarts()(k) == len * MS_PER_DAY
  {
    StartsOf(k, 1, 0);
  }

  lemma LateClass(i: Input, w: Reading)
    requires Digits(i) && !IsJulianDay(i) && !Kept(i) && !i.TimeZoned? && w == Written(i) && ValidJD(w.jd)
    requires FIRST_MONTH <= w.k <= LAST_MONTH && w.tod < MS_PER_DAY
    ensures Classified(MonthStarts(), i, Reread(w.jd, w.tod), w)
  {
    var len := LengthOf(w.k);
    var r := if w.d <= len then w else w.(k := w.k + 1, d := w.d - len);
    LateFits(i);
    LateReading(w, len, r);
    LateClassified(MonthStarts(), i, r, w, len);
  }

  lemma LateReading(w: Reading, len: int, r: Reading)
    requires FIRST_MONTH <= w.k <= LAST_MONTH && 1 <= w.d <= 31 && TimeOfDay(w.tod)
    requires w.jd == AtMonth(w.k, w.d, w.tod) && ValidJD(w.jd) && len == LengthOf(w.k)
    requires r == if w.d <= len then w else w.(k := w.k + 1, d := w.d - len)
    ensures r == Reread(w.jd, w.tod) && 28 <= len
    ensures var cal := MonthStarts(); Parsed(cal, r) && Consistent(cal, r) && InMonth(cal, r) && InMonthOrEnd(cal, r)
  {
    assert 28 <= len by {
      MonthLengthBounds(w.k);
    }
    assert r == Reread(w.jd, w.tod) && TimeOf(w.jd) == w.tod by {
      RereadDate(w.k, w.d, w.tod);
    }
    RereadExact(w.jd);
  }

  lemma LateClassified(cal: Months, i: Input, r: Reading, w: Reading, len: int)
    requires Digits(i) && FitsAsFirst(i) && (FitsAsSecond(i) <==> w.d <= len) && w.d <= 31 && 28 <= len
    requires Parsed(cal, r) && Consistent(cal, r) && InMonth(cal, r) && InMonthOrEnd(cal, r)
    requires r == if w.d <= len then w else w.(k := w.k + 1, d := w.d - len)
    requires w.tod < MS_PER_DAY
    ensures Classified(cal, i, r, w)
  {
  }

  lemma AheadClass(i: Input, w: Reading)
    requires Digits(i) && !IsJulianDay(i) && !Kept(i) && !i.TimeZoned? && w == Written(i) && ValidJD(w.jd)
    requires FIRST_MONTH <= w.k <= LAST_MONTH
    requires MS_PER_DAY <= w.tod
    ensures Classified(MonthStarts(), i, Reread(w.jd, w.tod), w)
  {
    var len := LengthOf(w.k);
    var r := Reading(w.jd, if w.d < len then w.k else w.k + 1, if w.d < len then w.d + 1 else w.d + 1 - len, w.tod);
    LateFits(i);
    AheadRead(w, len, r);
    AheadClassified(MonthStarts(), i, r, w);
  }

  lemma AheadRead(w: Reading, len: int, r: Reading)
    requires FIRST_MONTH <= w.k <= LAST_MONTH && 1 <= w.d <= 31 && MS_PER_DAY <= w.tod < MS_PER_DAY + HOUR
    requires w.jd == AtMonth(w.k, w.d, w.tod) && ValidJD(w.jd) && len == LengthOf(w.k)
    requires r == Reading(w.jd, if w.d < len then w.k else w.k + 1, if w.d < len then w.d + 1 else w.d + 1 - len, w.tod)
    ensures r == Reread(w.jd, w.tod)
    ensures var cal := MonthStarts(); Parsed(cal, r) && DayAhead(cal, r) && InMonth(cal, r)
  {
    AheadReread(w, len, r, w.d + 1, w.tod - MS_PER_DAY);
    RereadAhead(w.jd, w.tod);
  }

  lemma AheadReread(w: Reading, len: int, r: Reading, d: int, tod: int)
    requires FIRST_MONTH <= w.k <= LAST_MONTH && 1 <= w.d <= 31 && TimeOfDay(tod)
    requires d == w.d + 1 && tod == w.tod - MS_PER_DAY
    requires w.jd == AtMonth(w.k, w.d, w.tod) && ValidJD(w.jd) && len == LengthOf(w.k)
    requires r == Reading(w.jd, if d <= len then w.k else w.k + 1, if d <= len then d else d - len, w.tod)
    ensures r == Reread(w.jd, w.tod) && TimeOf(w.jd) == tod
  {
    assert AtMonth(w.k, d, tod) == w.jd by {
      HourCarries(w.k, w.d, w.tod);
    }
    RereadDate(w.k, d, tod);
  }

  lemma AheadClassified(cal: Months, i: Input, r: Reading, w: Reading)
    requires FitsAsFirst(i) && !FitsAsSecond(i) && r.jd == w.jd
    requires Parsed(cal, r) && DayAhead(cal, r) && InMonth(cal, r)
    requires r.tod == w.tod && (r.k == w.k || r.k == w.k + 1)
    ensures Classified(cal, i, r, w)
  {
  }

  lemma KeptFits(i: Input)
    requires Kept(i) && Digits(i)
    ensures var w := Written(i);
      && (FitsAsFirst(i) <==> !(w.d == LengthOf(w.k) && w.tod >= MS_PER_DAY))
      && (FitsAsSecond(i) <==> !(w.d == LengthOf(w.k) && w.tod > MS_PER_DAY))
      && (w.d == LengthOf(w.k) ==> w.k % 12 == 1)
  {
    IndexParts(i.date.y, i.date.m);
  }

  lemma LateFits(i: Input)
    requires !IsJulianDay(i) && !Kept(i) && !i.TimeZoned? && Digits(i)
    ensures FitsAsFirst(i)
    ensures FitsAsSecond(i) <==> WrittenDay(i) <= LengthOf(WrittenMonth(i)) && WrittenTime(i) < MS_PER_DAY
  {
    if i.TimeOnly? {
      IndexParts(2000, 1);
    } else {
      IndexParts(i.date.y, i.date.m);
    }
  }

  lemma FirstIsParsed(i: Input)
    requires Accepted(i)
    ensures Parsed(MonthStarts(), FirstReading(i)) && FirstReading(i).jd == Value(i).value
    ensures Classified(MonthStarts(), i, FirstReading(i), RawReading(i))
    ensures Applicable(ComputeYMDHMS(ParsedMoment(i)))
    ensures FIRST_MONTH <= RawReading(i).k <= LAST_MONTH
  {
    if i.JulianDay? {
      ReadJulian(i.jd);
      RereadExact(i.jd);
    } else if i.DateAndTimeZoned? {
      ReadZoned(i);
      RereadExact(Value(i).value);
    } else {
      ReadWritten(i);
      WrittenClasses(i);
    }
  }

  lemma FirstIsCivil(i: Input)
    requires Accepted(i)
    ensures var u := ComputeYMDHMS(Checked(ParsedMoment(i), true).value); CivilFields(u) && u.validJD
  {
    CheckedIsCheckable(i);
    CivilOnceRead(Checked(ParsedMoment(i), true).value);
  }

  lemma CheckedIsCheckable(i: Input)
    requires Accepted(i)
    ensures Checkable(Checked(ParsedMoment(i), true).value)
  {
  }

  // ---- The law ----

  // The text printed by timediff(a, b), as the numbers it spells.
  function TimediffOf(a: Input, b: Input): Interval
    requires Accepted(a) && Accepted(b)
  {
    CalendarIsCalendric();
    FirstIsParsed(a);
    FirstIsParsed(b);
    Difference(MonthStarts(), FirstReading(a), FirstReading(b))
  }

  // The instant of datetime(b, v), if any.
  function Modified(b: Input, v: Interval): Option<int>
    requires Accepted(b)
  {
    match AddInterval(ParsedMoment(b), v)
    case None => None
    case Some(t) =>
      match Checked(t, false)
      case None => None
      case Some(u) => Some(u.iJD)
  }

  predicate RoundTrips(a: Input, b: Input)
    requires Accepted(a) && Accepted(b)
  {
    Modified(b, TimediffOf(a, b)) == Value(a)
  }

  function InRange(jd: int): Option<int> {
    if ValidJD(jd) then Some(jd) else None
  }

  lemma ModifiedBy(b: Input, v: Interval)
    requires Accepted(b) && Readable(v) && Applicable(ComputeYMDHMS(ParsedMoment(b)))
    requires FIRST_MONTH <= RawReading(b).k + Signed(v.negative, v.Months()) <= LAST_MONTH
    ensures var p := RawReading(b); Modified(b, v) == InRange(Led(v, p.k, p.d, p.tod))
  {
    AddIntervalJD(ParsedMoment(b), v);
    var w := AddInterval(ParsedMoment(b), v).value;
    assert w.validJD && !w.isError;
    CheckedJD(w);
  }

  lemma CheckedJD(t: Moment)
    requires t.validJD && !t.isError
    ensures Checked(t, false) == if ValidJD(t.iJD) then Some(t) else None
  {
  }

  lemma ModifiedLands(b: Input, negative: bool, steps: Steps)
    requires Accepted(b) && Spellable(steps)
    requires FIRST_MONTH <= RawReading(b).k <= LAST_MONTH
    requires FIRST_MONTH <= RawReading(b).k + Signed(negative, steps.months) <= LAST_MONTH
    ensures var at := Landing(MonthStarts(), negative, steps, RawReading(b));
      Modified(b, IntervalOf(negative, steps.months, steps.rest)) == InRange(at)
  {
    var v := Spell(negative, steps);
    LandsAs(b, v, RawReading(b), steps);
  }

  lemma Spell(negative: bool, steps: Steps) returns (v: Interval)
    requires Spellable(steps) && steps.months <= LAST_MONTH - FIRST_MONTH
    ensures v == IntervalOf(negative, steps.months, steps.rest)
    ensures Readable(v) && Spells(v, negative, steps)
  {
    v := IntervalOf(negative, steps.months, steps.rest);
    RestReadBack(negative, steps.months, steps.rest);
    MonthsReadBack(negative, steps.months, steps.rest);
    SpellsRest(v, steps.rest);
  }

  lemma SpellsRest(v: Interval, rest: int)
    requires 0 <= rest < 31 * MS_PER_DAY
    requires v.days == rest / MS_PER_DAY && v.TimeMs() == rest % MS_PER_DAY
    ensures 0 <= v.days < 31 && v.days * MS_PER_DAY + v.TimeMs() % MS_PER_DAY == rest
  {
  }

  predicate Spells(v: Interval, negative: bool, steps: Steps) {
    v.negative == negative && v.Months() == steps.months && v.days * MS_PER_DAY + v.TimeMs() % MS_PER_DAY == steps.rest
  }

  lemma LandsAs(b: Input, v: Interval, p: Reading, steps: Steps)
    requires Accepted(b) && Readable(v) && Spells(v, v.negative, steps) && p == RawReading(b)
    requires FIRST_MONTH <= p.k + Signed(v.negative, steps.months) <= LAST_MONTH
    ensures var at := Landing(MonthStarts(), v.negative, steps, p); Modified(b, v) == InRange(at)
  {
    FirstIsParsed(b);
    ModifiedBy(b, v);
    LedByLanding(v, steps, p);
  }

  lemma LedByLanding(v: Interval, steps: Steps, p: Reading)
    requires Spells(v, v.negative, steps) && FIRST_MONTH <= p.k + Signed(v.negative, steps.months)
    ensures Led(v, p.k, p.d, p.tod) == Landing(MonthStarts(), v.negative, steps, p)
  {
    LandingIs(v.negative, steps, p, p.k + Signed(v.negative, steps.months));
  }

  lemma LandingIs(negative: bool, steps: Steps, p: Reading, k: int)
    requires FIRST_MONTH <= k == p.k + Signed(negative, steps.months)
    ensures Landing(MonthStarts(), negative, steps, p) == AtMonth(k, p.d, p.tod) + Signed(negative, steps.rest)
  {
    StartsOf(k, p.d, p.tod);
  }

  lemma MonthsReadBack(negative: bool, months: int, rest: int)
    requires 0 <= months <= LAST_MONTH - FIRST_MONTH
    ensures var v := IntervalOf(negative, months, rest);
      v.negative == negative && v.Months() == months && 0 <= v.months < 12 && 0 <= v.years <= 14712
  {
  }

  // A negative number of months cannot be read by the modifier.
  lemma NegativeMonthsUnreadable(b: Input, negative: bool, steps: Steps)
    requires Accepted(b) && steps.months < 0
    ensures Modified(b, IntervalOf(negative, steps.months, steps.rest)) == None
  {
  }

  // A spellable interval round-trips exactly when it lands on a.
  lemma LandingDecides(a: Input, b: Input)
    requires Accepted(a) && Accepted(b) && FIRST_MONTH <= RawReading(b).k <= LAST_MONTH
    requires Calendric(MonthStarts()) && Parsed(MonthStarts(), FirstReading(a))
    requires Parsed(MonthStarts(), FirstReading(b))
    requires var ra, rb := FirstReading(a), FirstReading(b); var steps := StepsBetween(MonthStarts(), ra, rb);
      && Spellable(steps) && ra.jd == Value(a).value
      && FIRST_MONTH <= RawReading(b).k + Signed(ra.jd < rb.jd, steps.months) <= LAST_MONTH
    ensures var ra, rb := FirstReading(a), FirstReading(b); var steps := StepsBetween(MonthStarts(), ra, rb);
      RoundTrips(a, b) <==> Landing(MonthStarts(), ra.jd < rb.jd, steps, RawReading(b)) == ra.jd
  {
    var ra, rb := FirstReading(a), FirstReading(b);
    var steps := StepsBetween(MonthStarts(), ra, rb);
    ModifiedLands(b, ra.jd < rb.jd, steps);
    InRangeDecides(Landing(MonthStarts(), ra.jd < rb.jd, steps, RawReading(b)), ra.jd);
  }

  lemma InRangeDecides(at: int, jd: int)
    requires ValidJD(jd)
    ensures InRange(at) == Some(jd) <==> at == jd
  {
  }

  lemma NegativeDoesNot(a: Input, b: Input)
    requires Accepted(a) && Accepted(b)
    requires Calendric(MonthStarts()) && Parsed(MonthStarts(), FirstReading(a))
    requires Parsed(MonthStarts(), FirstReading(b))
    requires StepsBetween(MonthStarts(), FirstReading(a), FirstReading(b)).months < 0
    ensures !RoundTrips(a, b)
  {
    var cal, ra, rb := MonthStarts(), FirstReading(a), FirstReading(b);
    NegativeMonthsUnreadable(b, ra.jd < rb.jd, StepsBetween(cal, ra, rb));
  }

  // datetime(B, timediff(A,B)) is A, whenever A and B fit.
  lemma TimediffInverts(a: Input, b: Input)
    requires Accepted(a) && Accepted(b) && FitsAsFirst(a) && FitsAsSecond(b)
    ensures RoundTrips(a, b)
  {
    CalendarIsCalendric();
    FirstIsParsed(a);
    FirstIsParsed(b);
    FittingHits(MonthStarts(), FirstReading(a), FirstReading(b), RawReading(b));
    LandingDecides(a, b);
  }

  // A Julian-day argument is seen through its instant and its month alone.
  lemma SameSteps(cal: Months, a: Reading, a': Reading, b: Reading)
    requires Calendric(cal) && Parsed(cal, a) && Parsed(cal, a') && Parsed(cal, b)
    requires a.jd == a'.jd && a.k == a'.k
    ensures StepsBetween(cal, a, b) == StepsBetween(cal, a', b)
  {
  }

  lemma JulianMonth(r: Reading)
    requires Parsed(MonthStarts(), r) && InMonth(MonthStarts(), r)
    ensures ValidJD(r.jd) && Accepted(JulianDay(r.jd))
    ensures FirstReading(JulianDay(r.jd)).k == r.k && FirstReading(JulianDay(r.jd)).jd == r.jd
  {
    ReadJulian(r.jd);
    IndexUnique(r.jd, r.k);
  }

  // Any b that does not fit is betrayed by some instant.
  lemma MisfitSecondFails(b: Input) returns (jd: int)
    requires Accepted(b) && !FitsAsSecond(b)
    ensures ValidJD(jd) && Accepted(JulianDay(jd)) && !RoundTrips(JulianDay(jd), b)
  {
    CalendarIsCalendric();
    FirstIsParsed(b);
    var a := MissedFrom(b);
    jd := a.jd;
    JulianMonth(a);
    FirstIsParsed(JulianDay(jd));
    var ra, rb := FirstReading(JulianDay(jd)), FirstReading(b);
    SameSteps(MonthStarts(), a, ra, rb);
    if StepsBetween(MonthStarts(), ra, rb).months < 0 {
      NegativeDoesNot(JulianDay(jd), b);
    } else {
      LandingDecides(JulianDay(jd), b);
    }
  }

  lemma MissedFrom(b: Input) returns (a: Reading)
    requires Accepted(b) && !FitsAsSecond(b)
    requires Calendric(MonthStarts()) && StartsLate(MonthStarts()) && MonthStarts()(LAST_MONTH + 1) == MAX_JD + 1
    requires Parsed(MonthStarts(), FirstReading(b)) && Classified(MonthStarts(), b, FirstReading(b), RawReading(b))
    ensures Parsed(MonthStarts(), a) && InMonth(MonthStarts(), a)
    ensures Misses(MonthStarts(), a, FirstReading(b), RawReading(b)) ||
      StepsBetween(MonthStarts(), a, FirstReading(b)).months < 0
  {
    ReadWritten(b);
    WrittenBounds(b);
    var w := Written(b);
    OnIsWritten(w);
    ShortMonths(w.k);
    a := MisfitMissed(MonthStarts(), FirstReading(b), w);
  }

  lemma WrittenBounds(b: Input)
    requires Accepted(b) && !IsJulianDay(b) && SeenAsWritten(b)
    ensures FIRST_MONTH < Written(b).k && 1 <= Written(b).d <= 31
  {
    if Written(b).k == FIRST_MONTH {
      StartAt(FIRST_MONTH);
      OnIsWritten(Written(b));
    }
  }

  lemma OnIsWritten(w: Reading)
    requires FIRST_MONTH <= w.k && w.jd == AtMonth(w.k, w.d, w.tod)
    ensures On(MonthStarts(), w.k, w.d, w.tod) == w.jd
  {
    StartsOf(w.k, w.d, w.tod);
  }

  // The law holds for b against every instant exactly when b's text fits.
  lemma TimediffLawForSecond(b: Input)
    requires Accepted(b)
    ensures (forall jd | ValidJD(jd) :: Accepted(JulianDay(jd)) && RoundTrips(JulianDay(jd), b)) <==> FitsAsSecond(b)
  {
    if FitsAsSecond(b) {
      forall jd | ValidJD(jd) ensures Accepted(JulianDay(jd)) && RoundTrips(JulianDay(jd), b) {
        ReadJulian(jd);
        TimediffInverts(JulianDay(jd), b);
      }
    } else {
      var jd := MisfitSecondFails(b);
      assert ValidJD(jd) && !RoundTrips(JulianDay(jd), b);
    }
  }

  // The law holds for a against every instant exactly when a's text fits.
  lemma TimediffLawForFirst(a: Input)
    requires Accepted(a)
    ensures (forall jd | ValidJD(jd) :: Accepted(JulianDay(jd)) && RoundTrips(a, JulianDay(jd))) <==> FitsAsFirst(a)
  {
    if FitsAsFirst(a) {
      forall jd | ValidJD(jd) ensures Accepted(JulianDay(jd)) && RoundTrips(a, JulianDay(jd)) {
        ReadJulian(jd);
        TimediffInverts(a, JulianDay(jd));
      }
    } else {
      var jd := MisfitFirstFails(a);
      assert ValidJD(jd) && !RoundTrips(a, JulianDay(jd));
    }
  }

  lemma MisfitFirstFails(a: Input) returns (jd: int)
    requires Accepted(a) && !FitsAsFirst(a)
    ensures ValidJD(jd) && Accepted(JulianDay(jd)) && !RoundTrips(a, JulianDay(jd))
  {
    CalendarIsCalendric();
    var r := MisfitFirstReading(a);
    jd := FirstMissed(a, r);
  }

  lemma FirstMissed(a: Input, r: Reading) returns (jd: int)
    requires Accepted(a) && r == FirstReading(a) && Calendric(MonthStarts()) && StartsLate(MonthStarts())
    requires Parsed(MonthStarts(), r) && Consistent(MonthStarts(), r) && MonthStarts()(r.k + 1) <= r.jd && r.k % 12 == 1
    ensures ValidJD(jd) && Accepted(JulianDay(jd)) && !RoundTrips(a, JulianDay(jd))
  {
    var b := MissedFirst(MonthStarts(), r);
    jd := b.jd;
    JulianReading(b);
    BetrayedBy(a, JulianDay(jd), r, b);
  }

  lemma BetrayedBy(a: Input, b: Input, ra: Reading, rb: Reading)
    requires Accepted(a) && Accepted(b) && ra == FirstReading(a) && rb == FirstReading(b)
    requires Calendric(MonthStarts()) && Parsed(MonthStarts(), ra) && Parsed(MonthStarts(), rb)
    requires StepsBetween(MonthStarts(), ra, rb).months < 0
    ensures !RoundTrips(a, b)
  {
    NegativeDoesNot(a, b);
  }

  lemma MisfitFirstReading(a: Input) returns (r: Reading)
    requires Accepted(a) && !FitsAsFirst(a)
    ensures r == FirstReading(a)
    ensures var cal := MonthStarts();
      Parsed(cal, r) && Consistent(cal, r) && cal(r.k + 1) <= r.jd && r.k % 12 == 1
  {
    r := FirstReading(a);
    ghost var w := FirstClass(a, r);
    MisfitClass(MonthStarts(), a, r, w);
  }

  lemma FirstClass(a: Input, r: Reading) returns (w: Reading)
    requires Accepted(a) && r == FirstReading(a)
    ensures Classified(MonthStarts(), a, r, w)
  {
    w := RawReading(a);
    FirstIsParsed(a);
  }

  lemma MisfitClass(cal: Months, a: Input, r: Reading, w: Reading)
    requires Classified(cal, a, r, w) && !FitsAsFirst(a)
    ensures Parsed(cal, r) && Consistent(cal, r) && cal(r.k + 1) <= r.jd && r.k % 12 == 1
  {
  }

  lemma MissedFirst(cal: Months, a: Reading) returns (b: Reading)
    requires Calendric(cal) && StartsLate(cal) && Parsed(cal, a) && Consistent(cal, a) && cal(a.k + 1) <= a.jd
    requires a.k % 12 == 1
    ensures Parsed(cal, b) && InMonth(cal, b) && Consistent(cal, b) && TimeOfDay(b.tod)
    ensures StepsBetween(cal, a, b).months < 0
  {
    NotInFirstMonths(cal, a);
    b := PastEndOfFirstFails(cal, a);
  }

  // A consistent reading with a time of day is the reading of its Julian day.
  lemma JulianReading(b: Reading)
    requires Parsed(MonthStarts(), b) && InMonth(MonthStarts(), b) && Consistent(MonthStarts(), b) && TimeOfDay(b.tod)
    ensures ValidJD(b.jd) && Accepted(JulianDay(b.jd)) && FirstReading(JulianDay(b.jd)) == b
  {
    JulianMonth(b);
    ReadJulian(b.jd);
    RereadExact(b.jd);
    SameMonthSameReading(MonthStarts(), FirstReading(JulianDay(b.jd)), b);
  }

  lemma SameMonthSameReading(cal: Months, r: Reading, s: Reading)
    requires Consistent(cal, r) && Consistent(cal, s) && r.jd == s.jd && r.k == s.k && TimeOfDay(r.tod)
    requires TimeOfDay(s.tod)
    ensures r == s
  {
  }
}
