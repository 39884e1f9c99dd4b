// timediff() and its law: the interval it prints, used as a modifier of its
// second argument, gives back its first argument.
module Timediff {
  import opened Calendar
  import opened Julian
  import opened Instants
  import opened Moments

  // What timediff works on: an instant together with the month, day and time
  // of day that the civil fields spell out.
  datatype Reading = Reading(jd: int, k: int, d: int, tod: int)

  function ReadingOf(t: Moment): Reading {
    Reading(t.iJD, MonthIndex(t.Y, t.M), t.D, t.TimeMs())
  }

  // A calendar, seen from here: the first instant of each month.
  type Months = int -> int

  const HOUR := 3600000

  function On(cal: Months, k: int, d: int, tod: int): int {
    cal(k) + (d - 1) * MS_PER_DAY + tod
  }

  predicate MonthAt(cal: Months, k: int) {
    28 * MS_PER_DAY <= cal(k + 1) - cal(k) <= 31 * MS_PER_DAY
  }

  // Months last 28 to 31 days, and the first month ends before instant 0.
  ghost predicate Calendric(cal: Months) {
    && (forall k :: FIRST_MONTH <= k ==> MonthAt(cal, k))
    && cal(FIRST_MONTH) + 33 * MS_PER_DAY < 0
  }

  lemma {:induction false} Ordered(cal: Months, j: int, k: int)
    requires Calendric(cal) && FIRST_MONTH <= j <= k
    ensures cal(j) <= cal(k)
    decreases k - j
  {
    if j < k {
      assert MonthAt(cal, j);
      Ordered(cal, j + 1, k);
    }
  }

  // The instant of b moved to month k.  As long as b is left in its own month
  // its stored Julian day is used, not its civil fields.
  function Moved(cal: Months, b: Reading, k1: int): int -> int {
    k => if k == k1 == b.k then b.jd else On(cal, k, b.d, b.tod)
  }

  // The first month at or below k whose instant is not after a.
  function BackTo(a: int, at: int -> int, lo: int, k: int): (r: int)
    requires lo <= k && at(lo) <= a
    ensures lo <= r <= k && at(r) <= a
    ensures forall i :: r < i <= k ==> a < at(i)
    decreases k - lo
  {
    if a < at(k) then BackTo(a, at, lo, k - 1) else k
  }

  // The first month at or above k whose instant is not before a.
  function OnTo(a: int, at: int -> int, k: int, hi: int): (r: int)
    requires k <= hi && a <= at(hi)
    ensures k <= r <= hi && a <= at(r)
    ensures forall i :: k <= i < r ==> at(i) < a
    decreases hi - k
  {
    if at(k) < a then OnTo(a, at, k + 1, hi) else k
  }

  // 0000-01-01 00:00, the date from which the remainder is read off.
  const YEAR_ZERO := 148699540800000

  function IntervalOf(negative: bool, months: int, rest: int): Interval {
    var tod := TimeOf(YEAR_ZERO + rest);
    Interval(negative, months / 12, months % 12, DateOf(DayOf(YEAR_ZERO + rest)).d - 1,
             tod / 60000 / 60, tod / 60000 % 60, tod % 60000)
  }

  // A remainder of less than 31 days is read off exactly.
  lemma RestReadBack(negative: bool, months: int, rest: int)
    requires 0 <= rest < 31 * MS_PER_DAY
    ensures var v := IntervalOf(negative, months, rest);
      && v.days == rest / MS_PER_DAY && v.TimeMs() == rest % MS_PER_DAY
      && 0 <= v.h < 24 && 0 <= v.m < 60 && 0 <= v.s < 60000
  {
    YearZeroDate(Date(0, 1, 1 + rest / MS_PER_DAY), rest);
    TimeParts(rest % MS_PER_DAY);
  }

  lemma YearZeroDate(date: Date, rest: int)
    requires 0 <= rest < 31 * MS_PER_DAY && date == Date(0, 1, 1 + rest / MS_PER_DAY)
    ensures DateOf(DayOf(YEAR_ZERO + rest)) == date && TimeOf(YEAR_ZERO + rest) == rest % MS_PER_DAY
    ensures ValidJD(YEAR_ZERO + rest)
  {
    DateRoundTrip(date, rest % MS_PER_DAY);
    YearZeroInstant(date.d, rest % MS_PER_DAY);
    assert rest == (date.d - 1) * MS_PER_DAY + rest % MS_PER_DAY;
  }

  lemma YearZeroInstant(d: int, tod: int)
    ensures Instant(0, 1, d, tod) == YEAR_ZERO + (d - 1) * MS_PER_DAY + tod
  {
  }

  // The civil fields spell out the instant, as they do for every parsed time
  // except some that use hour 24.
  predicate Consistent(cal: Months, r: Reading) {
    && r.jd == On(cal, r.k, r.d, r.tod)
    && (r.tod >= MS_PER_DAY ==> r.d <= 28)
  }

  // The date was re-read from the instant but hour 24 was kept: the civil
  // fields are one day ahead.
  predicate DayAhead(cal: Months, r: Reading) {
    r.jd == On(cal, r.k, r.d, r.tod) - MS_PER_DAY && r.tod >= MS_PER_DAY
  }

  // Every reading timediff can start from.
  predicate Parsed(cal: Months, r: Reading) {
    && ValidJD(r.jd) && FIRST_MONTH <= r.k <= LAST_MONTH && 0 <= r.tod < MS_PER_DAY + HOUR
    && 1 <= r.d && r.d * MS_PER_DAY <= cal(r.k + 1) - cal(r.k)
    && (Consistent(cal, r) || DayAhead(cal, r))
  }

  // The backward loop stops: January of the first year is before every valid instant.
  lemma BackStops(cal: Months, a: Reading, b: Reading)
    requires Calendric(cal) && Parsed(cal, a) && Parsed(cal, b) && b.jd <= a.jd
    ensures Moved(cal, b, a.k)(FIRST_MONTH) <= a.jd
  {
    assert MonthAt(cal, b.k);
  }

  // The forward loop stops no later than the month of b.
  lemma OnStops(cal: Months, a: Reading, b: Reading)
    requires Calendric(cal) && Parsed(cal, a) && Parsed(cal, b) && a.jd < b.jd
    ensures var hi := if a.k < b.k then b.k else a.k; a.jd <= Moved(cal, b, a.k)(hi)
  {
    if b.k < a.k {
      Ordered(cal, b.k, a.k);
    }
  }

  // What the two loops of timediff leave: whole months and the remainder.
  datatype Steps = Steps(months: int, rest: int)

  function StepsBetween(cal: Months, a: Reading, b: Reading): Steps
    requires Calendric(cal) && Parsed(cal, a) && Parsed(cal, b)
  {
    var at := Moved(cal, b, a.k);
    if b.jd <= a.jd then
      BackStops(cal, a, b);
      var k := BackTo(a.jd, at, FIRST_MONTH, a.k);
      Steps(k - b.k, a.jd - at(k))
    else
      OnStops(cal, a, b);
      var k := OnTo(a.jd, at, a.k, if a.k < b.k then b.k else a.k);
      Steps(b.k - k, at(k) - a.jd)
  }

  lemma RestIsSmall(cal: Months, a: Reading, b: Reading)
    requires Calendric(cal) && Parsed(cal, a) && Parsed(cal, b)
    ensures 0 <= StepsBetween(cal, a, b).rest < 64 * MS_PER_DAY
  {
    var at := Moved(cal, b, a.k);
    if b.jd <= a.jd {
      BackStops(cal, a, b);
      BackIsSmall(cal, a, b, BackTo(a.jd, at, FIRST_MONTH, a.k));
    } else {
      OnStops(cal, a, b);
      OnIsSmall(cal, a, b, OnTo(a.jd, at, a.k, if a.k < b.k then b.k else a.k));
    }
  }

  lemma BackIsSmall(cal: Months, a: Reading, b: Reading, k: int)
    requires Calendric(cal) && Parsed(cal, a) && Parsed(cal, b) && FIRST_MONTH <= k <= a.k
    requires var at := Moved(cal, b, a.k); at(k) <= a.jd && (k < a.k ==> a.jd < at(k + 1))
    ensures a.jd - Moved(cal, b, a.k)(k) < 64 * MS_PER_DAY
  {
    assert MonthAt(cal, a.k) && MonthAt(cal, b.k) && MonthAt(cal, k);
  }

  lemma OnIsSmall(cal: Months, a: Reading, b: Reading, k: int)
    requires Calendric(cal) && Parsed(cal, a) && Parsed(cal, b) && a.k <= k
    requires var at := Moved(cal, b, a.k); a.jd <= at(k) && (a.k < k ==> at(k - 1) < a.jd)
    ensures Moved(cal, b, a.k)(k) - a.jd < 64 * MS_PER_DAY
  {
    assert MonthAt(cal, a.k) && MonthAt(cal, b.k);
    assert a.k < k ==> MonthAt(cal, k - 1);
  }

  // The interval that timediff prints for a and b.
  function Difference(cal: Months, a: Reading, b: Reading): Interval
    requires Calendric(cal) && Parsed(cal, a) && Parsed(cal, b)
  {
    var steps := StepsBetween(cal, a, b);
    IntervalOf(a.jd < b.jd, steps.months, steps.rest)
  }

  // ---- The law ----

  // The instant lies in the month that is spelled out.
  predicate InMonth(cal: Months, r: Reading) {
    cal(r.k) <= r.jd < cal(r.k + 1)
  }

  // The same, also allowing the very end of the month: "24:00:00.000" on its last day.
  predicate InMonthOrEnd(cal: Months, r: Reading) {
    Consistent(cal, r) && r.jd <= cal(r.k + 1)
  }

  // There are at least zero months and a remainder under 31 days, and they
  // lead from b's civil fields to a.
  predicate Leads(cal: Months, a: Reading, b: Reading, steps: Steps) {
    var k := b.k + Signed(a.jd < b.jd, steps.months);
    && 0 <= steps.months && 0 <= steps.rest < 31 * MS_PER_DAY
    && FIRST_MONTH <= k <= LAST_MONTH
    && On(cal, k, b.d, b.tod) + Signed(a.jd < b.jd, steps.rest) == a.jd
  }

  lemma StepsLead(cal: Months, a: Reading, b: Reading)
    requires Calendric(cal) && Parsed(cal, a) && Parsed(cal, b) && InMonth(cal, a) && InMonthOrEnd(cal, b)
    ensures Leads(cal, a, b, StepsBetween(cal, a, b))
  {
    if b.jd <= a.jd {
      BackStepsLead(cal, a, b);
    } else {
      OnStepsLead(cal, a, b);
    }
  }

  lemma BackStepsLead(cal: Months, a: Reading, b: Reading)
    requires Calendric(cal) && Parsed(cal, a) && Parsed(cal, b) && InMonth(cal, a) && InMonthOrEnd(cal, b)
    requires b.jd <= a.jd
    ensures Leads(cal, a, b, StepsBetween(cal, a, b))
  {
    var at := Moved(cal, b, a.k);
    BackStops(cal, a, b);
    var k := BackTo(a.jd, at, FIRST_MONTH, a.k);
    BackLeads(cal, a, b, k);
    assert at(k) == On(cal, k, b.d, b.tod);
  }

  lemma OnStepsLead(cal: Months, a: Reading, b: Reading)
    requires Calendric(cal) && Parsed(cal, a) && Parsed(cal, b) && InMonth(cal, a) && InMonthOrEnd(cal, b)
    requires a.jd < b.jd
    ensures Leads(cal, a, b, StepsBetween(cal, a, b))
  {
    var at := Moved(cal, b, a.k);
    OnStops(cal, a, b);
    var k := OnTo(a.jd, at, a.k, if a.k < b.k then b.k else a.k);
    OnLeads(cal, a, b, k);
    assert at(k) == On(cal, k, b.d, b.tod);
  }

  lemma BackLeads(cal: Months, a: Reading, b: Reading, k: int)
    requires Calendric(cal) && Parsed(cal, a) && Parsed(cal, b) && InMonth(cal, a) && InMonthOrEnd(cal, b)
    requires b.jd <= a.jd
    requires var at := Moved(cal, b, a.k);
      FIRST_MONTH <= k <= a.k && at(k) <= a.jd && forall i :: k < i <= a.k ==> a.jd < at(i)
    ensures b.k <= k && a.jd - On(cal, k, b.d, b.tod) < 31 * MS_PER_DAY
  {
    var at := Moved(cal, b, a.k);
    if a.k < b.k {
      Ordered(cal, a.k + 1, b.k);
    }
    assert at(b.k) == b.jd;
    assert MonthAt(cal, k);
    if k < a.k {
      assert a.jd < at(k + 1);
    }
  }

  lemma OnLeads(cal: Months, a: Reading, b: Reading, k: int)
    requires Calendric(cal) && Parsed(cal, a) && Parsed(cal, b) && InMonth(cal, a) && InMonthOrEnd(cal, b)
    requires a.jd < b.jd
    requires var at := Moved(cal, b, a.k); a.k <= k && a.jd <= at(k) && forall i :: a.k <= i < k ==> at(i) < a.jd
    ensures k <= b.k && On(cal, k, b.d, b.tod) - a.jd < 31 * MS_PER_DAY
  {
    var at := Moved(cal, b, a.k);
    if b.k < a.k {
      Ordered(cal, b.k + 1, a.k);
    }
    assert at(b.k) == b.jd;
    assert MonthAt(cal, b.k);
    if a.k < k {
      assert at(k - 1) < a.jd;
      assert MonthAt(cal, k - 1);
    }
  }

  // ---- When the law fails ----

  // The reading r in a month of len days.
  predicate ReadIn(cal: Months, r: Reading, len: int) {
    && ValidJD(r.jd) && FIRST_MONTH <= r.k <= LAST_MONTH && 1 <= r.d <= len && 28 <= len <= 31
    && cal(r.k + 1) - cal(r.k) == len * MS_PER_DAY
  }

  lemma RealReading(cal: Months, r: Reading, len: int)
    requires ReadIn(cal, r, len) && r.jd == On(cal, r.k, r.d, r.tod) && TimeOfDay(r.tod)
    ensures Parsed(cal, r) && Consistent(cal, r) && InMonth(cal, r) && InMonthOrEnd(cal, r)
  {
  }

  lemma AheadReading(cal: Months, r: Reading, tod: int)
    requires Parsed(cal, r) && Consistent(cal, r) && InMonth(cal, r) && TimeOfDay(r.tod)
    requires tod == r.tod + MS_PER_DAY < MS_PER_DAY + HOUR
    ensures var ahead := r.(tod := tod); Parsed(cal, ahead) && DayAhead(cal, ahead) && InMonth(cal, ahead)
  {
  }

  // A date up to the 28th, at any hour up to 24.
  lemma EarlyReading(cal: Months, r: Reading, len: int)
    requires ReadIn(cal, r, len) && r.jd == On(cal, r.k, r.d, r.tod) && 0 <= r.tod < MS_PER_DAY + HOUR && r.d <= 28
    ensures Parsed(cal, r) && Consistent(cal, r)
    ensures InMonth(cal, r) <==> !(r.d == len && r.tod >= MS_PER_DAY)
    ensures InMonthOrEnd(cal, r) <==> !(r.d == len && r.tod > MS_PER_DAY)
    ensures !InMonth(cal, r) ==> cal(r.k + 1) <= r.jd
    ensures !InMonthOrEnd(cal, r) ==> cal(r.k + 1) < r.jd
  {
  }

  // Steps that the modifier can spell: its fields have room for them.
  predicate Spellable(steps: Steps) {
    0 <= steps.months && 0 <= steps.rest < 31 * MS_PER_DAY
  }

  // Where the modifier leads from the civil fields p.
  function Landing(cal: Months, negative: bool, steps: Steps, p: Reading): int {
    On(cal, p.k + Signed(negative, steps.months), p.d, p.tod) + Signed(negative, steps.rest)
  }

  // timediff finds an interval, and applying it to p leads to a.
  predicate Hits(cal: Months, a: Reading, b: Reading, p: Reading)
    requires Calendric(cal) && Parsed(cal, a) && Parsed(cal, b)
  {
    var steps := StepsBetween(cal, a, b);
    && Spellable(steps)
    && FIRST_MONTH <= p.k + Signed(a.jd < b.jd, steps.months) <= LAST_MONTH
    && Landing(cal, a.jd < b.jd, steps, p) == a.jd
  }

  // timediff finds an interval, and applying it to p leads elsewhere than to a.
  predicate Misses(cal: Months, a: Reading, b: Reading, p: Reading)
    requires Calendric(cal) && Parsed(cal, a) && Parsed(cal, b)
  {
    var steps := StepsBetween(cal, a, b);
    && Spellable(steps)
    && FIRST_MONTH <= p.k + Signed(a.jd < b.jd, steps.months) <= LAST_MONTH
    && Landing(cal, a.jd < b.jd, steps, p) != a.jd
  }

  // Neighbours of short months are long.
  predicate ShortMonthsApart(cal: Months, k: int) {
    cal(k + 1) - cal(k) < 31 * MS_PER_DAY
    ==> cal(k) - cal(k - 1) == 31 * MS_PER_DAY == cal(k + 2) - cal(k + 1)
  }

  // A date past the end of its month: one month later or earlier, the overflow
  // spans a month of another length.
  lemma UnrealDateFails(cal: Months, b: Reading, p: Reading) returns (a: Reading)
    requires Calendric(cal) && Parsed(cal, b) && ShortMonthsApart(cal, p.k)
    requires cal(LAST_MONTH + 1) == MAX_JD + 1
    requires FIRST_MONTH <= p.k == b.k - 1 && p.d <= 31 && p.tod == b.tod < MS_PER_DAY
    requires b.jd == On(cal, p.k, p.d, p.tod) == On(cal, b.k, b.d, b.tod) && b.d <= 3
    ensures Parsed(cal, a) && InMonth(cal, a) && 1 <= a.d && 0 <= a.tod < MS_PER_DAY
    ensures Misses(cal, a, b, p)
  {
    var k := if b.k < LAST_MONTH then b.k + 1 else b.k - 1;
    a := Reading(On(cal, k, b.d, b.tod), k, b.d, b.tod);
    assert MonthAt(cal, b.k - 1) && MonthAt(cal, b.k) && MonthAt(cal, k);
    if b.k < LAST_MONTH {
      Ordered(cal, k + 1, LAST_MONTH + 1);
    }
  }

  // The first months: day 0 falls late in month 10, November of -4713.
  predicate StartsLate(cal: Months) {
    && cal(FIRST_MONTH + 10) + 5 * MS_PER_DAY < 0 <= cal(FIRST_MONTH + 10) + 27 * MS_PER_DAY
    && cal(FIRST_MONTH + 11) - cal(FIRST_MONTH + 10) == 30 * MS_PER_DAY
    && cal(FIRST_MONTH + 12) - cal(FIRST_MONTH + 11) == 31 * MS_PER_DAY
  }

  // Hour 24 on a date that is re-read: seen from the month before (or, at the
  // very start, the month after), the civil fields are a day off.
  lemma DayAheadFails(cal: Months, b: Reading, p: Reading) returns (a: Reading)
    requires Calendric(cal) && StartsLate(cal) && Parsed(cal, b) && DayAhead(cal, b)
    requires b.jd == On(cal, p.k, p.d, p.tod) && p.tod == b.tod && FIRST_MONTH <= p.k && 1 <= p.d <= 31
    requires p.k == b.k || p.k == b.k - 1
    ensures Parsed(cal, a) && InMonth(cal, a) && 1 <= a.d && 0 <= a.tod < MS_PER_DAY
    ensures Misses(cal, a, b, p)
  {
    assert MonthAt(cal, p.k);
    if b.k <= FIRST_MONTH + 10 {
      a := EndOfDay(cal, FIRST_MONTH + 11, 31);
      DayAheadAtStart(cal, a, b, p);
    } else {
      a := EndOfDay(cal, b.k - 1, 28);
      DayAheadFromBefore(cal, a, b, p);
    }
  }

  lemma DayAheadAtStart(cal: Months, a: Reading, b: Reading, p: Reading)
    requires Calendric(cal) && StartsLate(cal) && Parsed(cal, b) && DayAhead(cal, b)
    requires b.jd == On(cal, p.k, p.d, p.tod) && p.tod == b.tod && FIRST_MONTH <= p.k && 1 <= p.d <= 31
    requires p.k == b.k || p.k == b.k - 1
    requires b.k <= FIRST_MONTH + 10 && a == EndOfDay(cal, FIRST_MONTH + 11, 31)
    ensures Parsed(cal, a) && InMonth(cal, a)
    ensures Misses(cal, a, b, p)
  {
    assert MonthAt(cal, p.k);
    if b.k < FIRST_MONTH + 10 {
      Ordered(cal, b.k + 1, FIRST_MONTH + 10);
    }
    assert Moved(cal, b, a.k)(a.k) <= a.jd;
  }

  lemma DayAheadFromBefore(cal: Months, a: Reading, b: Reading, p: Reading)
    requires Calendric(cal) && StartsLate(cal) && Parsed(cal, b) && DayAhead(cal, b)
    requires b.jd == On(cal, p.k, p.d, p.tod) && p.tod == b.tod && FIRST_MONTH <= p.k && 1 <= p.d <= 31
    requires p.k == b.k || p.k == b.k - 1
    requires FIRST_MONTH + 10 < b.k && a == EndOfDay(cal, b.k - 1, 28)
    ensures Parsed(cal, a) && InMonth(cal, a)
    ensures Misses(cal, a, b, p)
  {
    Ordered(cal, FIRST_MONTH + 10, b.k - 1);
    assert MonthAt(cal, b.k - 1);
    assert Parsed(cal, a) && a.jd < b.jd;
    var at := Moved(cal, b, a.k);
    assert at(b.k) == b.jd + MS_PER_DAY;
    assert at(b.k - 1) == On(cal, b.k - 1, b.d, b.tod);
    OnStops(cal, a, b);
    var k := OnTo(a.jd, at, a.k, b.k);
    assert k == b.k - 1 || k == b.k;
    assert b.d >= 28 ==> k == b.k - 1;
    assert p.k == b.k ==> b.d == p.d + 1;
    if p.k == b.k - 1 {
      assert MonthAt(cal, p.k);
      assert b.d <= 4;
    }
  }

  function EndOfDay(cal: Months, k: int, d: int): Reading {
    Reading(On(cal, k, d, MS_PER_DAY - 1), k, d, MS_PER_DAY - 1)
  }

  // "24:00:00.001" or later on the last day of February: an instant already past
  // the month but before b makes the number of months negative.
  lemma PastEndFails(cal: Months, b: Reading) returns (a: Reading)
    requires Calendric(cal) && Parsed(cal, b) && Consistent(cal, b) && 0 <= cal(b.k + 1) < b.jd && b.k < LAST_MONTH
    ensures Parsed(cal, a) && InMonth(cal, a) && 1 <= a.d && 0 <= a.tod < MS_PER_DAY
    ensures StepsBetween(cal, a, b).months < 0
  {
    a := Reading(cal(b.k + 1), b.k + 1, 1, 0);
    assert MonthAt(cal, b.k) && MonthAt(cal, b.k + 1);
    assert a.jd <= Moved(cal, b, a.k)(a.k);
  }

  // The same on the side of a: some b between the end of the month and a.
  lemma PastEndOfFirstFails(cal: Months, a: Reading) returns (b: Reading)
    requires Calendric(cal) && Parsed(cal, a) && Consistent(cal, a) && 0 <= cal(a.k + 1) <= a.jd && a.k < LAST_MONTH
    ensures Parsed(cal, b) && InMonth(cal, b) && Consistent(cal, b) && 1 <= b.d && 0 <= b.tod < MS_PER_DAY
    ensures StepsBetween(cal, a, b).months < 0
  {
    b := Reading(cal(a.k + 1), a.k + 1, 1, 0);
    assert MonthAt(cal, a.k) && MonthAt(cal, a.k + 1);
    assert Moved(cal, b, a.k)(a.k) <= a.jd;
  }

  // Civil fields that lead to the same instants from every month.
  predicate Alike(r: Reading, p: Reading) {
    r.k == p.k && r.d * MS_PER_DAY + r.tod == p.d * MS_PER_DAY + p.tod
  }

  lemma FittingHits(cal: Months, a: Reading, b: Reading, p: Reading)
    requires Calendric(cal) && Parsed(cal, a) && Parsed(cal, b) && InMonth(cal, a) && InMonthOrEnd(cal, b)
    requires Alike(b, p)
    ensures Hits(cal, a, b, p)
  {
    StepsLead(cal, a, b);
  }

  // The four ways in which a second argument b can differ from what is written, p.
  predicate Overflows(cal: Months, b: Reading, p: Reading) {
    p.tod == b.tod < MS_PER_DAY && p.k == b.k - 1 && b.d <= 3 && Consistent(cal, b)
  }

  predicate RunsAhead(cal: Months, b: Reading, p: Reading) {
    DayAhead(cal, b) && p.tod == b.tod && (p.k == b.k || p.k == b.k - 1)
  }

  predicate PastFebruary(cal: Months, b: Reading) {
    Consistent(cal, b) && cal(b.k + 1) < b.jd && b.k % 12 == 1
  }

  // The first of a month at a time before its midnight, read as the 31st of the
  // month before; a month of 29 days comes next.
  predicate FallsBack(cal: Months, b: Reading, p: Reading) {
    && Consistent(cal, b) && p.k == b.k + 1 && p.d == 1 && b.d == 31 && p.tod == b.tod - MS_PER_DAY < 0
    && cal(p.k) - cal(b.k) == 31 * MS_PER_DAY && cal(p.k + 2) - cal(p.k + 1) == 29 * MS_PER_DAY
    && 0 <= b.jd && p.k + 2 <= LAST_MONTH
  }

  // Two months on, the 31st overflows into the month after, but the first is
  // followed back into the month of 29 days.
  lemma FallsBackFails(cal: Months, b: Reading, p: Reading, a: Reading)
    requires Calendric(cal) && Parsed(cal, b) && FallsBack(cal, b, p) && cal(LAST_MONTH + 1) == MAX_JD + 1
    requires a.k == p.k + 2 && a == Reading(On(cal, a.k, 2, b.tod), a.k, 2, b.tod)
    ensures Parsed(cal, a) && InMonth(cal, a)
    ensures StepsBetween(cal, a, b) == Steps(2, 0) && Misses(cal, a, b, p)
  {
    var k := a.k;
    assert MonthAt(cal, b.k + 1) && MonthAt(cal, k);
    Ordered(cal, k + 1, LAST_MONTH + 1);
    var at := Moved(cal, b, k);
    assert at(k) == On(cal, k, 31, b.tod) && at(k - 1) == On(cal, k - 1, 31, b.tod) == a.jd;
    BackStops(cal, a, b);
    assert BackTo(a.jd, at, FIRST_MONTH, k) == k - 1;
  }

  predicate Misfit(cal: Months, b: Reading, p: Reading) {
    Overflows(cal, b, p) || RunsAhead(cal, b, p) || (PastFebruary(cal, b) && p == b) || FallsBack(cal, b, p)
  }

  // Every second argument that does not fit is missed from some a.
  lemma MisfitMissed(cal: Months, b: Reading, p: Reading) returns (a: Reading)
    requires Calendric(cal) && StartsLate(cal) && Parsed(cal, b)
    requires cal(LAST_MONTH + 1) == MAX_JD + 1 && ShortMonthsApart(cal, p.k)
    requires FIRST_MONTH <= p.k && 1 <= p.d <= 31 && b.jd == On(cal, p.k, p.d, p.tod)
    requires Misfit(cal, b, p)
    ensures Parsed(cal, a) && InMonth(cal, a)
    ensures Misses(cal, a, b, p) || StepsBetween(cal, a, b).months < 0
  {
    if Overflows(cal, b, p) {
      a := UnrealDateFails(cal, b, p);
    } else if RunsAhead(cal, b, p) {
      a := DayAheadFails(cal, b, p);
    } else if FallsBack(cal, b, p) {
      a := Reading(On(cal, p.k + 2, 2, b.tod), p.k + 2, 2, b.tod);
      FallsBackFails(cal, b, p, a);
    } else {
      NotInFirstMonths(cal, b);
      a := PastEndFails(cal, b);
    }
  }

  lemma NotInFirstMonths(cal: Months, b: Reading)
    requires Calendric(cal) && StartsLate(cal) && Parsed(cal, b)
    requires Consistent(cal, b) && cal(b.k + 1) <= b.jd && b.k % 12 == 1
    ensures 0 <= cal(b.k + 1) && b.k < LAST_MONTH
  {
    if b.k <= FIRST_MONTH + 10 {
      Ordered(cal, b.k + 1, FIRST_MONTH + 10);
    } else {
      Ordered(cal, FIRST_MONTH + 11, b.k + 1);
    }
  }
}
