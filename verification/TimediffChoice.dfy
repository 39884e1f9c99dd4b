// Which texts are accepted as time values, and which of the intervals between
// two of them timediff() prints.
module TimediffChoice {
  import opened Calendar
  import opened Julian
  import opened Instants
  import opened Moments
  import opened MonthArithmetic
  import opened Timediff
  import opened TimediffLaw

  // ---- Acceptance ----

  // The instant that an input writes down, if its year is one of the calendar's.
  function WrittenInstant(i: Input): Option<int> {
    if i.JulianDay? then Some(i.jd)
    else if IsTime(i) then Some(AtMonth(MonthIndex(2000, 1), 1, ClockOf(i)))
    else if MIN_YEAR <= i.date.y <= MAX_YEAR
    then Some(AtMonth(MonthIndex(i.date.y, i.date.m), i.date.d, ClockOf(i)))
    else None
  }

  // The time of day, less the offset.
  function ClockOf(i: Input): int
    requires !i.JulianDay?
  {
    match i
    case DateOnly(_) => 0
    case DateAndTime(_, clock) => clock.TimeMs()
    case TimeOnly(clock) => clock.TimeMs()
    case DateAndTimeZoned(_, clock, tz) => clock.TimeMs() - tz * 60000
    case TimeZoned(clock, tz) => clock.TimeMs() - tz * 60000
  }

  // isDate rejects an input exactly when its year or its instant is out of
  // range, and otherwise finds the instant that is written.
  lemma AcceptedExactly(i: Input)
    requires Digits(i)
    ensures Value(i) == Accepting(WrittenInstant(i))
  {
    if IsTime(i) {
      TimeAccepted(i);
    } else if !i.JulianDay? {
      YearDecides(i, Dated(i), ComputeJD(Dated(i)));
    }
  }

  function Accepting(jd: Option<int>): Option<int> {
    if jd.Some? then InRange(jd.value) else None
  }

  // The moment of a written date, before its Julian day is computed.
  function Dated(i: Input): Moment
    requires !i.JulianDay? && !IsTime(i)
  {
    match i
    case DateOnly(date) => WithDate(Blank(false), date)
    case DateAndTime(date, clock) => WithDate(WithClock(Blank(false), clock), date)
    case DateAndTimeZoned(date, clock, tz) => WithDate(WithClock(Blank(false), clock).(tz := tz), date)
  }

  lemma TimeAccepted(i: Input)
    requires Digits(i) && IsTime(i)
    ensures Value(i) == InRange(AtMonth(MonthIndex(2000, 1), 1, ClockOf(i)))
  {
    IndexParts(2000, 1);
  }

  lemma YearDecides(i: Input, t: Moment, u: Moment)
    requires Digits(i) && !i.JulianDay? && !IsTime(i) && t == Dated(i) && u == ComputeJD(t)
    ensures Value(i) == Accepting(WrittenInstant(i))
  {
    InstantWritten(i, t, u);
    CheckedTwice(t);
    CheckedInstant(t, u);
  }

  lemma CheckedInstant(t: Moment, u: Moment)
    requires u == ComputeJD(t)
    ensures Checked(t, true).Some? <==> !u.isError && ValidJD(u.iJD)
    ensures Checked(t, true).Some? ==> Checked(t, true).value.iJD == u.iJD
  {
  }

  lemma InstantWritten(i: Input, t: Moment, u: Moment)
    requires Digits(i) && !i.JulianDay? && !IsTime(i) && t == Dated(i) && u == ComputeJD(t)
    ensures WrittenInstant(i) == if u.isError then None else Some(u.iJD)
  {
    IndexParts(i.date.y, i.date.m);
  }

  // computeJD finds nothing new when it is called again.
  lemma CheckedTwice(t: Moment)
    ensures Checked(ComputeJD(t), true) == Checked(t, true)
  {
  }

  // A number too large for a Julian day is rejected unless a modifier says how to
  // read it.
  lemma RawNumberRejected(t: Moment, lone: bool)
    requires t.rawS && !t.validJD
    ensures Checked(t, lone) == None
  {
  }

  // ---- Modifiers on what was parsed ----

  // "floor" right after a written date that runs past its month.
  lemma WrittenFloor(i: Input)
    requires Accepted(i) && (i.DateOnly? || i.DateAndTime?)
    ensures FloorDay(ParsedMoment(i)).iJD
      == AtMonth(WrittenMonth(i), DayWithin(WrittenMonth(i), i.date.d), WrittenTime(i))
  {
    AcceptedExactly(i);
    IndexParts(i.date.y, i.date.m);
    var u, k := ComputeJD(ParsedMoment(i)), WrittenMonth(i);
    FloorInMonth(u, k, i.date.d, WrittenTime(i), 0);
    FloorComputes(ParsedMoment(i), u);
  }

  lemma FloorComputes(t: Moment, u: Moment)
    requires u == ComputeJD(t) && !u.isError
    ensures FloorDay(t).iJD == FloorDay(u).iJD
  {
  }

  // Every accepted input is ready for a count of months or years.
  lemma ReadyForUnits(i: Input)
    requires Accepted(i)
    ensures var u := ComputeYMDHMS(Started(ParsedMoment(i))); CivilFields(u) && !u.isError && 1 <= u.D <= 31
  {
    var t := Started(ParsedMoment(i));
    StartedCheckable(i);
    CivilOnceRead(t);
    assert t.validYMD ==> ComputeYMDHMS(t).D == t.D;
    if !t.validYMD {
      InstantRoundTrip(t.iJD);
    }
  }

  lemma StartedCheckable(i: Input)
    requires Accepted(i)
    ensures var t := Started(ParsedMoment(i)); Checkable(t) && !t.isError && (t.validYMD ==> 1 <= t.D <= 31)
  {
  }

  // ---- The choice of timediff ----

  // The sign tells which argument is earlier; equal ones get "+".
  lemma SignIsOrder(a: Input, b: Input)
    requires Accepted(a) && Accepted(b)
    ensures TimediffOf(a, b).negative <==> Value(a).value < Value(b).value
  {
    CalendarIsCalendric();
    FirstIsParsed(a);
    FirstIsParsed(b);
  }

  // No steps of the same sign that lead from p to a have more months, unless they
  // go back past the month of a and come forward again out of a shorter month.
  lemma MostMonths(cal: Months, a: Reading, b: Reading, p: Reading, steps: Steps)
    requires Calendric(cal) && Parsed(cal, a) && Parsed(cal, b) && InMonth(cal, a) && InMonthOrEnd(cal, b)
    requires Alike(b, p) && 0 <= steps.rest
    requires if a.jd < b.jd then a.k <= p.k - steps.months else FIRST_MONTH <= p.k + steps.months
    requires Landing(cal, a.jd < b.jd, steps, p) == a.jd
    ensures steps.months <= StepsBetween(cal, a, b).months
  {
    StepsLead(cal, a, b);
    if b.jd <= a.jd {
      MostBack(cal, a, b, b.k + steps.months);
    } else {
      MostOn(cal, a, b, b.k - steps.months);
    }
  }

  lemma MostBack(cal: Months, a: Reading, b: Reading, k: int)
    requires Calendric(cal) && Parsed(cal, a) && Parsed(cal, b) && InMonth(cal, a) && InMonthOrEnd(cal, b)
    requires b.jd <= a.jd && FIRST_MONTH <= k && On(cal, k, b.d, b.tod) <= a.jd
    requires 0 <= StepsBetween(cal, a, b).months
    ensures k - b.k <= StepsBetween(cal, a, b).months
  {
    var at := Moved(cal, b, a.k);
    BackStops(cal, a, b);
    if a.k < k {
      Ordered(cal, a.k + 1, k);
    } else if k != b.k {
      assert at(k) == On(cal, k, b.d, b.tod);
    }
  }

  lemma MostOn(cal: Months, a: Reading, b: Reading, k: int)
    requires Calendric(cal) && Parsed(cal, a) && Parsed(cal, b)
    requires a.jd < b.jd && a.k <= k && a.jd <= On(cal, k, b.d, b.tod)
    requires 0 <= StepsBetween(cal, a, b).months
    ensures b.k - k <= StepsBetween(cal, a, b).months
  {
    var at := Moved(cal, b, a.k);
    OnStops(cal, a, b);
    if k != b.k {
      assert at(k) == On(cal, k, b.d, b.tod);
    }
  }

  lemma StaysInMonth(cal: Months, a: Reading, b: Reading)
    requires Calendric(cal) && Parsed(cal, a) && Parsed(cal, b) && a.jd < b.jd
    ensures a.k <= b.k - StepsBetween(cal, a, b).months
  {
    OnStops(cal, a, b);
  }

  // The interval v leads from b to a, and not by way of a month before that of a.
  predicate LeadsTo(a: Input, b: Input, v: Interval)
    requires Accepted(a) && Accepted(b)
  {
    && Readable(v) && v.negative == (Value(a).value < Value(b).value) && Modified(b, v) == Value(a)
    && (v.negative ==> IndexOf(Value(a).value) <= RawReading(b).k - v.Months())
  }

  function RestMs(v: Interval): int {
    v.days * MS_PER_DAY + v.TimeMs() % MS_PER_DAY
  }

  // timediff() prints the one with the most whole months; they leave one rest.
  lemma TimediffIsGreatest(a: Input, b: Input, v: Interval)
    requires Accepted(a) && Accepted(b) && FitsAsFirst(a) && FitsAsSecond(b) && LeadsTo(a, b, v)
    ensures var best := TimediffOf(a, b);
      && LeadsTo(a, b, best) && v.Months() <= best.Months()
      && (v.Months() == best.Months() ==> RestMs(v) == RestMs(best))
  {
    TimediffLeads(a, b);
    LedMonths(a, b, v);
    LedMonths(a, b, TimediffOf(a, b));
    FittingReadings(a, b);
    GreatestOf(MonthStarts(), FirstReading(a), FirstReading(b), RawReading(b), v, TimediffOf(a, b));
  }

  // v leads from the civil fields p to a.
  predicate LeadsFrom(cal: Months, p: Reading, v: Interval, jd: int) {
    && FIRST_MONTH <= p.k + Signed(v.negative, v.Months())
    && Landing(cal, v.negative, Steps(v.Months(), RestMs(v)), p) == jd
  }

  lemma GreatestOf(cal: Months, a: Reading, b: Reading, p: Reading, v: Interval, best: Interval)
    requires Calendric(cal) && Parsed(cal, a) && Parsed(cal, b) && InMonth(cal, a) && InMonthOrEnd(cal, b)
    requires Alike(b, p) && Readable(v) && v.negative == best.negative == (a.jd < b.jd)
    requires LeadsFrom(cal, p, v, a.jd) && LeadsFrom(cal, p, best, a.jd)
    requires v.negative ==> a.k <= p.k - v.Months()
    requires best.Months() == StepsBetween(cal, a, b).months
    ensures v.Months() <= best.Months()
    ensures v.Months() == best.Months() ==> RestMs(v) == RestMs(best)
  {
    MostMonths(cal, a, b, p, Steps(v.Months(), RestMs(v)));
  }

  lemma FittingReadings(a: Input, b: Input)
    requires Accepted(a) && Accepted(b) && FitsAsFirst(a) && FitsAsSecond(b)
    ensures var cal, ra, rb := MonthStarts(), FirstReading(a), FirstReading(b);
      && Calendric(cal) && Parsed(cal, ra) && Parsed(cal, rb) && InMonth(cal, ra) && InMonthOrEnd(cal, rb)
      && Alike(rb, RawReading(b)) && ra.jd == Value(a).value && rb.jd == Value(b).value
      && ra.k == IndexOf(ra.jd) && FIRST_MONTH <= rb.k <= LAST_MONTH
  {
    CalendarIsCalendric();
    FirstIsParsed(a);
    FirstIsParsed(b);
    FittingFirst(MonthStarts(), a, FirstReading(a), RawReading(a));
    FittingSecond(MonthStarts(), b, FirstReading(b), RawReading(b));
    OwnMonth(FirstReading(a));
  }

  lemma FittingFirst(cal: Months, i: Input, r: Reading, w: Reading)
    requires Classified(cal, i, r, w) && FitsAsFirst(i)
    ensures InMonth(cal, r)
  {
  }

  lemma FittingSecond(cal: Months, i: Input, r: Reading, w: Reading)
    requires Classified(cal, i, r, w) && FitsAsSecond(i)
    ensures InMonthOrEnd(cal, r) && Alike(r, w)
  {
  }

  lemma OwnMonth(r: Reading)
    requires Parsed(MonthStarts(), r) && InMonth(MonthStarts(), r)
    ensures r.k == IndexOf(r.jd)
  {
    IndexUnique(r.jd, r.k);
  }

  lemma TimediffLeads(a: Input, b: Input)
    requires Accepted(a) && Accepted(b) && FitsAsFirst(a) && FitsAsSecond(b)
    ensures LeadsTo(a, b, TimediffOf(a, b))
    ensures FirstReading(a).jd == Value(a).value && FirstReading(b).jd == Value(b).value
    ensures Calendric(MonthStarts())
    ensures Parsed(MonthStarts(), FirstReading(a)) && Parsed(MonthStarts(), FirstReading(b))
    ensures TimediffOf(a, b).Months() == StepsBetween(MonthStarts(), FirstReading(a), FirstReading(b)).months
  {
    var cal, ra, rb := MonthStarts(), FirstReading(a), FirstReading(b);
    FittingReadings(a, b);
    TimediffInverts(a, b);
    StepsLead(cal, ra, rb);
    PrintedSteps(cal, ra, rb);
    if ra.jd < rb.jd {
      StaysInMonth(cal, ra, rb);
    }
  }

  lemma PrintedSteps(cal: Months, a: Reading, b: Reading)
    requires Calendric(cal) && Parsed(cal, a) && Parsed(cal, b) && Leads(cal, a, b, StepsBetween(cal, a, b))
    ensures var v := Difference(cal, a, b);
      Readable(v) && v.negative == (a.jd < b.jd) && v.Months() == StepsBetween(cal, a, b).months
  {
    var v := Spell(a.jd < b.jd, StepsBetween(cal, a, b));
  }

  // The steps of an interval that leads to an instant.
  lemma LedMonths(a: Input, b: Input, v: Interval)
    requires Accepted(a) && Accepted(b) && Readable(v) && Modified(b, v) == Value(a)
    ensures LeadsFrom(MonthStarts(), RawReading(b), v, Value(a).value)
  {
    FirstIsParsed(b);
    AddIntervalJD(ParsedMoment(b), v);
    var x, p := AddInterval(ParsedMoment(b), v).value, RawReading(b);
    assert !x.isError;
    ModifiedBy(b, v);
    LedByLanding(v, Steps(v.Months(), RestMs(v)), p);
  }
}
