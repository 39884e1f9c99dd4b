// The DateTime structure of date.c and the routines that convert between its
// Julian-day and civil fields.  Seconds are counted in milliseconds.
module Moments {
  import opened Calendar
  import opened Julian
  import opened Instants

  // The fields of a DateTime.
  datatype Moment = Moment(iJD: int, Y: int, M: int, D: int, h: int, m: int, s: int, tz: int,
                           validJD: bool, validYMD: bool, validHMS: bool, nFloor: int,
                           rawS: bool, isError: bool)
  {
    function TimeMs(): int { h * 3600000 + m * 60000 + s }

    // The time of day less the pending timezone offset.
    function UtcMs(): int { TimeMs() - tz * 60000 }
  }

  // All fields zero.
  function Blank(isError: bool): Moment {
    Moment(0, 0, 0, 0, 0, 0, 0, 0, false, false, false, 0, false, isError)
  }

  // C division truncates toward zero.
  function CDiv(a: int, b: int): int
    requires b > 0
  {
    if a < 0 then -((-a) / b) else a / b
  }

  function CMod(a: int, b: int): int
    requires b > 0
  {
    a - CDiv(a, b) * b
  }

  function ComputeJD(t: Moment): Moment {
    var y, m, d := if t.validYMD then t.Y else 2000, if t.validYMD then t.M else 1, if t.validYMD then t.D else 1;
    if t.validJD then t
    else if y < MIN_YEAR || y > MAX_YEAR || t.rawS then Blank(true)
    else
      var jd := Instant(y, m, d, 0);
      if !t.validHMS then t.(iJD := jd, validJD := true)
      else if t.tz == 0 then t.(iJD := jd + t.TimeMs(), validJD := true)
      else t.(iJD := jd + t.TimeMs() - t.tz * 60000, validJD := true, validYMD := false, validHMS := false, tz := 0)
  }

  function ComputeYMD(t: Moment): Moment {
    if t.validYMD then t
    else if !t.validJD then t.(Y := 2000, M := 1, D := 1, validYMD := true)
    else if !ValidJD(t.iJD) then Blank(true)
    else
      var date := DateOf(DayOf(t.iJD));
      t.(Y := date.y, M := date.m, D := date.d, validYMD := true)
  }

  function ComputeHMS(t: Moment): Moment {
    if t.validHMS then t
    else
      var u := ComputeJD(t);
      var dayMs := CMod(u.iJD + HALF_DAY, MS_PER_DAY);
      var dayMin := CDiv(dayMs, 60000);
      u.(s := CMod(dayMs, 60000), m := CMod(dayMin, 60), h := CDiv(dayMin, 60), rawS := false, validHMS := true)
  }

  function ComputeYMDHMS(t: Moment): Moment {
    ComputeHMS(ComputeYMD(t))
  }

  function Cleared(t: Moment): Moment {
    t.(validYMD := false, validHMS := false, tz := 0)
  }

  // Bit k of the constant that marks the months of 31 days.
  function Power(k: nat): (p: nat)
    ensures p > 0
  {
    if k == 0 then 1 else 2 * Power(k - 1)
  }

  predicate BitSet(mask: nat, k: nat)
  {
    mask / Power(k) % 2 == 1
  }

  // The day-of-month overflow, as computeFloor finds it.
  function FloorDays(y: int, m: int, d: int): int
  {
    if d <= 28 then 0
    else if m >= 0 && BitSet(0x15aa, m) then 0
    else if m != 2 then (if d == 31 then 1 else 0)
    else if y % 4 != 0 || (y % 100 == 0 && y % 400 != 0) then d - 28
    else d - 29
  }

  lemma Powers()
    ensures Power(1) == 2 && Power(2) == 4 && Power(3) == 8 && Power(4) == 16 && Power(5) == 32 && Power(6) == 64
    ensures Power(7) == 128 && Power(8) == 256 && Power(9) == 512
    ensures Power(10) == 1024 && Power(11) == 2048 && Power(12) == 4096
  {
    assert Power(3) == 2 * Power(2);
    assert Power(4) == 2 * Power(3);
    assert Power(5) == 2 * Power(4);
    assert Power(6) == 2 * Power(5);
    assert Power(7) == 2 * Power(6);
    assert Power(8) == 2 * Power(7);
    assert Power(9) == 2 * Power(8);
    assert Power(10) == 2 * Power(9);
    assert Power(11) == 2 * Power(10);
    assert Power(12) == 2 * Power(11);
  }

  // nFloor is the number of days by which d runs past the end of its month.
  lemma FloorIsOverflow(y: int, m: int, d: int)
    requires 1 <= m <= 12 && 1 <= d <= 31
    ensures FloorDays(y, m, d) == if d > MonthLength(y, m) then d - MonthLength(y, m) else 0
  {
    Powers();
  }

  // The month normalisation shared by the month and interval modifiers.
  function Carry(m: int): int {
    if m > 0 then CDiv(m - 1, 12) else CDiv(m - 12, 12)
  }

  lemma CarryKeepsMonths(y: int, m: int)
    ensures 1 <= m - 12 * Carry(m) <= 12
    ensures MonthIndex(y + Carry(m), m - 12 * Carry(m)) == MonthIndex(y, m)
  {
  }

  // computeHMS reads back the time of day that computeJD added in.
  lemma TimeParts(tod: int)
    requires TimeOfDay(tod)
    ensures var t := Blank(false).(s := tod % 60000, m := tod / 60000 % 60, h := tod / 60000 / 60); t.TimeMs() == tod
    ensures 0 <= tod / 60000 / 60 < 24 && 0 <= tod / 60000 % 60 < 60 && 0 <= tod % 60000 < 60000
  {
    assert tod == tod / 60000 * 60000 + tod % 60000;
    var q := tod / 60000;
    assert q == q / 60 * 60 + q % 60;
  }

  // ---- Modifiers ----

  // What timediff() prints and the +/-YYYY-MM-DD HH:MM:SS.SSS modifier reads.
  datatype Interval = Interval(negative: bool, years: int, months: int, days: int, h: int, m: int, s: int)
  {
    function Months(): int { 12 * years + months }
    function TimeMs(): int { h * 3600000 + m * 60000 + s }
  }

  datatype Option<+T> = None | Some(value: T)

  // Month normalisation, then the day overflow, on a moment with civil fields.
  function CarryMonths(t: Moment): Moment {
    var u := t.(Y := t.Y + Carry(t.M), M := t.M - 12 * Carry(t.M));
    u.(nFloor := FloorDays(u.Y, u.M, u.D))
  }

  // The limits that getDigits and its caller put on the numbers of the modifier.
  predicate Readable(v: Interval) {
    && 0 <= v.years <= 14712 && 0 <= v.months < 12 && 0 <= v.days < 31
    && 0 <= v.h <= 24 && 0 <= v.m <= 59 && 0 <= v.s < 60000
  }

  function Signed(negative: bool, n: int): int {
    if negative then -n else n
  }

  function ShiftMonths(u: Moment, years: int, months: int): Moment {
    ComputeJD(CarryMonths(u.(Y := u.Y + years, M := u.M + months, validJD := false)))
  }

  function ShiftTime(w: Moment, days: int, time: int): Moment {
    var x := ComputeJD(w.(validHMS := false, validYMD := false, iJD := w.iJD + days * MS_PER_DAY));
    Cleared(x).(iJD := x.iJD + time)
  }

  function AddInterval(t: Moment, v: Interval): Option<Moment> {
    if !Readable(v) then None
    else
      var w := ShiftMonths(ComputeYMDHMS(t), Signed(v.negative, v.years), Signed(v.negative, v.months));
      Some(ShiftTime(w, Signed(v.negative, v.days), Signed(v.negative, v.TimeMs() % MS_PER_DAY)))
  }

  // How the branch for "NNN unit" modifiers begins.
  function Started(t: Moment): Moment {
    ComputeJD(t).(nFloor := 0)
  }

  // "NNN months" and "NNN years" for a whole number NNN, within the limits of
  // the table of units.
  function AddMonths(t: Moment, n: int): Option<Moment> {
    if !(-176546 < n < 176546) then None
    else Some(Cleared(ShiftMonths(ComputeYMDHMS(Started(t)), 0, n)))
  }

  function ShiftYears(u: Moment, n: int): Moment {
    ComputeJD(u.(Y := u.Y + n, nFloor := FloorDays(u.Y + n, u.M, u.D), validJD := false))
  }

  function AddYears(t: Moment, n: int): Option<Moment> {
    if !(-14713 < n < 14713) then None
    else Some(Cleared(ShiftYears(ComputeYMDHMS(Started(t)), n)))
  }

  function FloorDay(t: Moment): Moment {
    var u := ComputeJD(t);
    Cleared(u.(iJD := u.iJD - u.nFloor * MS_PER_DAY))
  }

  // The checks at the end of isDate; a lone argument is also normalised.
  function Checked(t: Moment, lone: bool): Option<Moment> {
    var u := ComputeJD(t);
    if u.isError || !ValidJD(u.iJD) then None
    else if lone && u.validYMD && u.D > 28 then Some(u.(validYMD := false))
    else Some(u)
  }

  predicate ClockRange(t: Moment) {
    0 <= t.h < 24 && 0 <= t.m < 60 && 0 <= t.s < 60000
  }

  // Reading the civil fields off a valid Julian day.
  lemma ReadJD(t: Moment)
    requires t.validJD && !t.validYMD && !t.validHMS && ValidJD(t.iJD)
    ensures var u, date := ComputeYMDHMS(t), DateOf(DayOf(t.iJD));
      && u == t.(Y := date.y, M := date.m, D := date.d, h := u.h, m := u.m, s := u.s,
                 validYMD := true, validHMS := true, rawS := false)
      && u.TimeMs() == TimeOf(t.iJD) && ClockRange(u)
  {
    ReadClock(ComputeYMD(t));
  }

  lemma ReadClock(t: Moment)
    requires t.validJD && !t.validHMS && 0 <= t.iJD
    ensures var u := ComputeHMS(t);
      && u == t.(h := u.h, m := u.m, s := u.s, validHMS := true, rawS := false)
      && u.TimeMs() == TimeOf(t.iJD) && ClockRange(u)
  {
    TimeParts(TimeOf(t.iJD));
  }

  lemma ReadClockOfDate(t: Moment, u: Moment, raw: Moment)
    requires t.validYMD && !t.validHMS && u == ComputeJD(t) && u.validJD && !u.validHMS && 0 <= u.iJD
    requires raw == ComputeYMDHMS(t)
    ensures raw == u.(h := raw.h, m := raw.m, s := raw.s, validHMS := true, rawS := false)
    ensures raw.TimeMs() == TimeOf(u.iJD)
  {
    ReadClock(u);
  }

  // A moment whose civil fields are filled in; a timezone may be pending.
  predicate Civil(u: Moment) {
    u.validYMD && u.validHMS && !u.rawS && 1 <= u.M <= 12
  }

  predicate CivilFields(u: Moment) {
    Civil(u) && u.tz == 0
  }

  lemma JDOfCivil(c: Moment)
    requires CivilFields(c) && !c.validJD && MIN_YEAR <= c.Y <= MAX_YEAR
    ensures ComputeJD(c) == c.(iJD := AtMonth(MonthIndex(c.Y, c.M), c.D, c.TimeMs()), validJD := true)
  {
    IndexParts(c.Y, c.M);
  }

  // computeJD after moving the civil fields by whole months and years.
  lemma ShiftMonthsJD(u: Moment, years: int, months: int)
    requires CivilFields(u)
    requires FIRST_MONTH <= MonthIndex(u.Y + years, u.M + months) <= LAST_MONTH
    ensures var k := MonthIndex(u.Y + years, u.M + months);
      ShiftMonths(u, years, months)
        == u.(Y := k / 12, M := k % 12 + 1, nFloor := FloorDays(k / 12, k % 12 + 1, u.D),
              iJD := AtMonth(k, u.D, u.TimeMs()), validJD := true)
  {
    var k := MonthIndex(u.Y + years, u.M + months);
    var moved := u.(Y := u.Y + years, M := u.M + months, validJD := false);
    var c := moved.(Y := k / 12, M := k % 12 + 1, nFloor := FloorDays(k / 12, k % 12 + 1, u.D));
    assert CarryMonths(moved) == c by {
      CarryMonthsFields(moved);
    }
    JDOfMonth(c, k);
  }

  lemma JDOfMonth(c: Moment, k: int)
    requires CivilFields(c) && !c.validJD && FIRST_MONTH <= k <= LAST_MONTH && c.Y == k / 12 && c.M == k % 12 + 1
    ensures ComputeJD(c) == c.(iJD := AtMonth(k, c.D, c.TimeMs()), validJD := true)
  {
  }

  // The same with a pending timezone, and past the range of years.
  predicate ShiftedTo(u: Moment, k: int, w: Moment) {
    if FIRST_MONTH <= k <= LAST_MONTH
    then w.validJD && w.isError == u.isError && w.iJD == AtMonth(k, u.D, u.UtcMs())
         && w.nFloor == FloorDays(k / 12, k % 12 + 1, u.D)
    else w == Blank(true)
  }

  lemma MonthsShifted(u: Moment, years: int, months: int, k: int)
    requires Civil(u) && k == MonthIndex(u.Y + years, u.M + months)
    ensures ShiftedTo(u, k, ShiftMonths(u, years, months))
  {
    var moved := u.(Y := u.Y + years, M := u.M + months, validJD := false);
    var c := CarryMonths(moved);
    assert c == moved.(Y := k / 12, M := k % 12 + 1, nFloor := FloorDays(k / 12, k % 12 + 1, u.D)) by {
      CarryMonthsFields(moved);
    }
    JDOfFields(c, k);
  }

  // computeJD on civil fields of month k.
  lemma JDOfFields(c: Moment, k: int)
    requires Civil(c) && !c.validJD && c.Y == k / 12 && c.M == k % 12 + 1
    requires c.nFloor == FloorDays(c.Y, c.M, c.D)
    ensures ShiftedTo(c, k, ComputeJD(c))
  {
  }

  lemma CarryMonthsFields(u: Moment)
    ensures var k := MonthIndex(u.Y, u.M);
      && CarryMonths(u) == u.(Y := k / 12, M := k % 12 + 1, nFloor := FloorDays(k / 12, k % 12 + 1, u.D))
      && MonthIndex(k / 12, k % 12 + 1) == k && 1 <= k % 12 + 1 <= 12
  {
    CarryKeepsMonths(u.Y, u.M);
    IndexParts(u.Y + Carry(u.M), u.M - 12 * Carry(u.M));
  }

  // The instant to which interval v leads from day d and time tod of month k.
  function Led(v: Interval, k: int, d: int, tod: int): int {
    AtMonth(k + Signed(v.negative, v.Months()), d, tod)
      + Signed(v.negative, v.days * MS_PER_DAY + v.TimeMs() % MS_PER_DAY)
  }

  lemma TimeShifted(w: Moment, v: Interval)
    requires w.validJD || w == Blank(true)
    ensures var x := ShiftTime(w, Signed(v.negative, v.days), Signed(v.negative, v.TimeMs() % MS_PER_DAY));
      && x.validJD && x.isError == w.isError && !x.validYMD && !x.validHMS && x.tz == 0 && x.nFloor == w.nFloor
      && (w.validJD ==> x.iJD == w.iJD + Signed(v.negative, v.days * MS_PER_DAY + v.TimeMs() % MS_PER_DAY))
  {
  }

  // The days by which day d runs past the end of month k.
  function Overflow(k: int, d: int): int {
    FloorDays(k / 12, k % 12 + 1, d)
  }

  // The moment x that interval v makes of the civil fields u: whole months first,
  // then days and time on the Julian day.  A pending timezone is applied after
  // the months.
  predicate LedBy(u: Moment, v: Interval, x: Moment) {
    var k := MonthIndex(u.Y, u.M);
    && x.validJD && !x.validYMD && !x.validHMS && x.tz == 0
    && if FIRST_MONTH <= k + Signed(v.negative, v.Months()) <= LAST_MONTH
       then x.isError == u.isError && x.iJD == Led(v, k, u.D, u.UtcMs())
            && x.nFloor == Overflow(k + Signed(v.negative, v.Months()), u.D)
       else x.isError
  }

  // What the interval modifier does to its argument.
  lemma AddIntervalJD(t: Moment, v: Interval)
    requires Civil(ComputeYMDHMS(t)) && Readable(v)
    ensures AddInterval(t, v).Some? && LedBy(ComputeYMDHMS(t), v, AddInterval(t, v).value)
  {
    FieldsLed(ComputeYMDHMS(t), v, Signed(v.negative, v.years), Signed(v.negative, v.months));
  }

  lemma FieldsLed(u: Moment, v: Interval, years: int, months: int)
    requires Civil(u) && years == Signed(v.negative, v.years) && months == Signed(v.negative, v.months)
    ensures LedBy(u, v, ShiftTime(ShiftMonths(u, years, months), Signed(v.negative, v.days),
                                  Signed(v.negative, v.TimeMs() % MS_PER_DAY)))
  {
    var k := MonthIndex(u.Y, u.M) + Signed(v.negative, v.Months());
    var w := ShiftMonths(u, years, months);
    assert ShiftedTo(u, k, w) by {
      MonthsShifted(u, years, months, k);
    }
    TimeLed(u, v, k, w);
  }

  lemma TimeLed(u: Moment, v: Interval, k: int, w: Moment)
    requires ShiftedTo(u, k, w) && k == MonthIndex(u.Y, u.M) + Signed(v.negative, v.Months())
    ensures LedBy(u, v, ShiftTime(w, Signed(v.negative, v.days), Signed(v.negative, v.TimeMs() % MS_PER_DAY)))
  {
    TimeShifted(w, v);
  }

  lemma JDOfDate(c: Moment)
    requires c.validYMD && !c.validHMS && !c.rawS && !c.validJD && 1 <= c.M <= 12 && MIN_YEAR <= c.Y <= MAX_YEAR
    ensures ComputeJD(c) == c.(iJD := AtMonth(MonthIndex(c.Y, c.M), c.D, 0), validJD := true)
  {
    IndexParts(c.Y, c.M);
  }

  lemma JDOfTime(c: Moment)
    requires !c.validYMD && c.validHMS && c.tz == 0 && !c.rawS && !c.validJD
    ensures ComputeJD(c) == c.(iJD := AtMonth(MonthIndex(2000, 1), 1, c.TimeMs()), validJD := true)
  {
    IndexParts(2000, 1);
  }

  // The year check of computeJD.
  lemma YearChecked(c: Moment)
    requires !c.validJD && c.validYMD && !ComputeJD(c).isError
    ensures MIN_YEAR <= c.Y <= MAX_YEAR
  {
  }

  // A checked moment, once all its fields are read, is civil.
  predicate Checkable(t: Moment) {
    && t.validJD && t.tz == 0 && ValidJD(t.iJD)
    && (t.validYMD ==> 1 <= t.M <= 12) && (t.rawS ==> !t.validHMS)
  }

  lemma CivilOnceRead(t: Moment)
    requires Checkable(t)
    ensures var u := ComputeYMDHMS(t); CivilFields(u) && u.validJD && u.iJD == t.iJD
  {
    InstantRoundTrip(t.iJD);
  }
}
