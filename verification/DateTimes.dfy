// The DateTime structure as date.c updates it: each routine changes fields in
// place, and its contract gives the whole new state.
module DateTimes {
  import opened Calendar
  import opened Julian
  import opened Instants
  import opened Moments
  import Timediff
  import TimediffLaw

  class DateTime {
    var iJD: int
    var Y: int
    var M: int
    var D: int
    var h: int
    var m: int
    var s: int
    var tz: int
    var validJD: bool
    var validYMD: bool
    var validHMS: bool
    var nFloor: int
    var rawS: bool
    var isError: bool

    function State(): Moment
      reads this
    {
      Moment(iJD, Y, M, D, h, m, s, tz, validJD, validYMD, validHMS, nFloor, rawS, isError)
    }

    constructor (t: Moment)
      ensures State() == t
    {
      iJD, Y, M, D, h, m, s, tz := t.iJD, t.Y, t.M, t.D, t.h, t.m, t.s, t.tz;
      validJD, validYMD, validHMS, nFloor := t.validJD, t.validYMD, t.validHMS, t.nFloor;
      rawS, isError := t.rawS, t.isError;
    }

    method SetError()
      modifies this
      ensures State() == Blank(true)
    {
      ZeroNumbers();
      validJD, validYMD, validHMS, rawS, isError := false, false, false, false, true;
    }

    method ZeroNumbers()
      modifies this`iJD, this`Y, this`M, this`D, this`h, this`m, this`s, this`tz, this`nFloor
      ensures iJD == Y == M == D == h == m == s == tz == nFloor == 0
    {
      iJD, Y, M, D, h, m, s, tz, nFloor := 0, 0, 0, 0, 0, 0, 0, 0, 0;
    }

    // The divisions are of nonnegative numbers.
    static method MeeusJD(year: int, month: int, d: int) returns (jd: int)
      requires MIN_YEAR <= year
      ensures jd == Instant(year, month, d, 0)
    {
      var y, mm := year, month;
      if mm <= 2 {
        y, mm := y - 1, mm + 12;
      }
      var a := (y + 4800) / 100;
      var b := 38 - a + a / 4;
      var x1 := 36525 * (y + 4716) / 100;
      var x2 := 306001 * (mm + 1) / 10000;
      // (x1 + x2 + d + b - 1524.5) days
      jd := (x1 + x2 + d + b - 1524) * MS_PER_DAY - HALF_DAY;
    }

    method ComputeJD()
      modifies this
      ensures State() == Moments.ComputeJD(old(State()))
    {
      if validJD { return; }
      var y, mm, d := 2000, 1, 1;
      if validYMD { y, mm, d := Y, M, D; }
      if y < MIN_YEAR || y > MAX_YEAR || rawS {
        SetError();
        return;
      }
      iJD := MeeusJD(y, mm, d);
      validJD := true;
      if validHMS {
        iJD := iJD + h * 3600000 + m * 60000 + s;
        if tz != 0 {
          iJD := iJD - tz * 60000;
          validYMD, validHMS, tz := false, false, 0;
        }
      }
    }

    method ComputeYMD()
      modifies this
      ensures State() == Moments.ComputeYMD(old(State()))
    {
      if validYMD { return; }
      if !validJD {
        Y, M, D := 2000, 1, 1;
      } else if !ValidJD(iJD) {
        SetError();
        return;
      } else {
        Y, M, D := MeeusYMD((iJD + HALF_DAY) / MS_PER_DAY);
      }
      validYMD := true;
    }

    // The divisions are of nonnegative numbers.
    static method MeeusYMD(z: int) returns (y: int, m: int, day: int)
      ensures Date(y, m, day) == DateOf(z)
    {
      var alpha := (4 * z + 128179) / 146097 - 52;
      var a := z + 1 + alpha - (alpha + 100) / 4 + 25;
      var b := a + 1524;
      var c := (20 * b - 2442) / 7305;
      var d := 36525 * (c % 32768) / 100;
      var e := (b - d) * 10000 / 306001;
      var x1 := 306001 * e / 10000;
      day := b - d - x1;
      m := if e < 14 then e - 1 else e - 13;
      y := if m > 2 then c - 4716 else c - 4715;
    }

    method ComputeHMS()
      modifies this
      ensures State() == Moments.ComputeHMS(old(State()))
    {
      if validHMS { return; }
      ComputeJD();
      var dayMs := CMod(iJD + HALF_DAY, MS_PER_DAY);
      s := CMod(dayMs, 60000);
      var dayMin := CDiv(dayMs, 60000);
      m := CMod(dayMin, 60);
      h := CDiv(dayMin, 60);
      rawS := false;
      validHMS := true;
    }

    method ComputeYMDHMS()
      modifies this
      ensures State() == Moments.ComputeYMDHMS(old(State()))
    {
      ComputeYMD();
      ComputeHMS();
    }

    method ComputeFloor()
      modifies this
      ensures State() == old(State()).(nFloor := FloorDays(old(Y), old(M), old(D)))
    {
      if D <= 28 {
        nFloor := 0;
      } else if M >= 0 && BitSet(0x15aa, M) {
        nFloor := 0;
      } else if M != 2 {
        nFloor := if D == 31 then 1 else 0;
      } else if Y % 4 != 0 || (Y % 100 == 0 && Y % 400 != 0) {
        nFloor := D - 28;
      } else {
        nFloor := D - 29;
      }
    }

    method Clear()
      modifies this
      ensures State() == Cleared(old(State()))
    {
      validYMD, validHMS, tz := false, false, 0;
    }

    method CarryMonths()
      modifies this
      ensures State() == Moments.CarryMonths(old(State()))
    {
      var x := if M > 0 then CDiv(M - 1, 12) else CDiv(M - 12, 12);
      Y := Y + x;
      M := M - x * 12;
      ComputeFloor();
    }

    method MoveMonths(years: int, months: int)
      modifies this
      ensures State() == ShiftMonths(old(State()), years, months)
    {
      validJD := false;
      Y, M := Y + years, M + months;
      CarryMonths();
      ComputeJD();
    }

    method MoveTime(days: int, time: int)
      modifies this
      ensures State() == ShiftTime(old(State()), days, time)
    {
      validHMS, validYMD := false, false;
      iJD := iJD + days * MS_PER_DAY;
      ComputeJD();
      Clear();
      iJD := iJD + time;
    }

    method ApplyInterval(v: Interval)
      requires Readable(v)
      modifies this
      ensures State() == Moments.AddInterval(old(State()), v).value
    {
      ComputeYMDHMS();
      MoveMonths(Signed(v.negative, v.years), Signed(v.negative, v.months));
      MoveTime(Signed(v.negative, v.days), Signed(v.negative, v.TimeMs() % MS_PER_DAY));
    }

    // The modifier +/-YYYY-MM-DD HH:MM:SS.SSS.
    method AddInterval(v: Interval) returns (ok: bool)
      modifies this
      ensures ok == Moments.AddInterval(old(State()), v).Some?
      ensures State() == if ok then Moments.AddInterval(old(State()), v).value else old(State())
    {
      ok := Readable(v);
      if ok {
        ApplyInterval(v);
      }
    }

    method StartUnits()
      modifies this
      ensures State() == Started(old(State()))
    {
      ComputeJD();
      nFloor := 0;
    }

    // "NNN months"
    method AddMonths(n: int) returns (ok: bool)
      modifies this
      ensures ok == Moments.AddMonths(old(State()), n).Some?
      ensures ok ==> State() == Moments.AddMonths(old(State()), n).value
    {
      StartUnits();
      ok := -176546 < n < 176546;
      if ok {
        ComputeYMDHMS();
        MoveMonths(0, n);
      }
      Clear();
    }

    method MoveYears(n: int)
      modifies this
      ensures State() == ShiftYears(old(State()), n)
    {
      Y := Y + n;
      ComputeFloor();
      validJD := false;
      ComputeJD();
    }

    // "NNN years"
    method AddYears(n: int) returns (ok: bool)
      modifies this
      ensures ok == Moments.AddYears(old(State()), n).Some?
      ensures ok ==> State() == Moments.AddYears(old(State()), n).value
    {
      StartUnits();
      ok := -14713 < n < 14713;
      if ok {
        ComputeYMDHMS();
        MoveYears(n);
      }
      Clear();
    }

    // "floor"
    method Floor()
      modifies this
      ensures State() == FloorDay(old(State()))
    {
      ComputeJD();
      iJD := iJD - nFloor * MS_PER_DAY;
      Clear();
    }

    // The end of isDate.
    method Check(lone: bool) returns (ok: bool)
      modifies this
      ensures ok == Checked(old(State()), lone).Some?
      ensures ok ==> State() == Checked(old(State()), lone).value
    {
      ComputeJD();
      if isError || !ValidJD(iJD) { return false; }
      if lone && validYMD && D > 28 {
        validYMD := false;
      }
      return true;
    }

    // Setting the month and recomputing the Julian day, as timediff does.
    method MoveTo(y: int, mon: int)
      requires CivilFields(State()) && 1 <= mon <= 12 && MIN_YEAR <= y <= MAX_YEAR
      modifies this
      ensures State() == old(State()).(
        Y := y, M := mon, iJD := AtMonth(MonthIndex(y, mon), old(D), old(State()).TimeMs()), validJD := true)
    {
      Y, M := y, mon;
      validJD := false;
      JDOfCivil(State());
      ComputeJD();
    }
  }

  // The civil fields of t spell out month k, and its Julian day is jd.
  predicate Stands(t: Moment, b: Timediff.Reading, k: int, jd: int) {
    && CivilFields(t) && t.validJD
    && MonthIndex(t.Y, t.M) == k && FIRST_MONTH <= k <= LAST_MONTH
    && t.D == b.d && t.TimeMs() == b.tod && t.iJD == jd
  }

  lemma MovedIs(b: Timediff.Reading, k1: int, k: int)
    requires FIRST_MONTH <= k
    ensures Timediff.Moved(TimediffLaw.MonthStarts(), b, k1)(k)
      == if k == k1 == b.k then b.jd else AtMonth(k, b.d, b.tod)
  {
    TimediffLaw.StartsOf(k, b.d, b.tod);
  }

  // at gives the instants of b in the months that the loops move it to.
  predicate MovesHere(at: int -> int, b: Timediff.Reading, k: int) {
    at(k) == AtMonth(k, b.d, b.tod)
  }

  ghost predicate MovesTo(at: int -> int, b: Timediff.Reading, k1: int) {
    forall k :: FIRST_MONTH <= k && !(k == k1 == b.k) ==> MovesHere(at, b, k)
  }

  lemma MovedMovesTo(b: Timediff.Reading, k1: int)
    ensures MovesTo(Timediff.Moved(TimediffLaw.MonthStarts(), b, k1), b, k1)
  {
    forall k | FIRST_MONTH <= k && !(k == k1 == b.k)
      ensures MovesHere(Timediff.Moved(TimediffLaw.MonthStarts(), b, k1), b, k)
    {
      MovedIs(b, k1, k);
    }
  }

  method PreviousMonth(d2: DateTime, ghost b: Timediff.Reading, ghost k: int, ghost at: int -> int)
    requires Stands(d2.State(), b, k, at(k)) && FIRST_MONTH < k && MovesHere(at, b, k - 1)
    modifies d2
    ensures Stands(d2.State(), b, k - 1, at(k - 1))
  {
    if d2.M > 1 {
      d2.MoveTo(d2.Y, d2.M - 1);
    } else {
      d2.MoveTo(d2.Y - 1, 12);
    }
  }

  method NextMonth(d2: DateTime, ghost b: Timediff.Reading, ghost k: int, ghost at: int -> int)
    requires Stands(d2.State(), b, k, at(k)) && k < LAST_MONTH && MovesHere(at, b, k + 1)
    modifies d2
    ensures Stands(d2.State(), b, k + 1, at(k + 1))
  {
    if d2.M < 12 {
      d2.MoveTo(d2.Y, d2.M + 1);
    } else {
      d2.MoveTo(d2.Y + 1, 1);
    }
  }

  // Moves d2 to the year and then to the month of d1.
  method Align(d1: DateTime, d2: DateTime, ghost a: Timediff.Reading, ghost b: Timediff.Reading, ghost at: int -> int)
    requires d1 != d2 && Stands(d1.State(), a, a.k, a.jd) && Stands(d2.State(), b, b.k, b.jd)
    requires if a.k == b.k then at(a.k) == b.jd else MovesHere(at, b, a.k)
    modifies d2
    ensures Stands(d2.State(), b, a.k, at(a.k))
  {
    if d1.Y != d2.Y {
      d2.MoveTo(d1.Y, d2.M);
    }
    if d1.M != d2.M {
      d2.MoveTo(d2.Y, d1.M);
    }
  }

  // The loop for a not before b.  n is the month difference so far.
  method StepBack(d1: DateTime, d2: DateTime, years: int, months: int,
                  ghost b: Timediff.Reading, ghost k1: int, ghost at: int -> int)
    returns (y: int, mon: int)
    requires d1 != d2 && MovesTo(at, b, k1) && Stands(d2.State(), b, k1, at(k1)) && at(FIRST_MONTH) <= d1.iJD
    requires 12 * years + months == k1 - b.k && 0 <= months < 12
    modifies d2
    ensures var k := Timediff.BackTo(d1.iJD, at, FIRST_MONTH, k1);
      Stands(d2.State(), b, k, at(k)) && 12 * y + mon == k - b.k && 0 <= mon < 12
  {
    y, mon := years, months;
    ghost var k := k1;
    while d1.iJD < d2.iJD
      invariant FIRST_MONTH <= k <= k1
      invariant Stands(d2.State(), b, k, at(k))
      invariant 12 * y + mon == k - b.k && 0 <= mon < 12
      invariant Timediff.BackTo(d1.iJD, at, FIRST_MONTH, k1) == Timediff.BackTo(d1.iJD, at, FIRST_MONTH, k)
      decreases k - FIRST_MONTH
    {
      mon := mon - 1;
      if mon < 0 {
        y, mon := y - 1, 11;
      }
      PreviousMonth(d2, b, k, at);
      k := k - 1;
    }
  }

  // The loop for a before b.
  method StepOn(d1: DateTime, d2: DateTime, years: int, months: int,
                ghost b: Timediff.Reading, ghost k1: int, ghost hi: int, ghost at: int -> int)
    returns (y: int, mon: int)
    requires d1 != d2 && MovesTo(at, b, k1) && Stands(d2.State(), b, k1, at(k1))
    requires k1 <= hi <= LAST_MONTH && d1.iJD <= at(hi)
    requires 12 * years + months == b.k - k1 && 0 <= months < 12
    modifies d2
    ensures var k := Timediff.OnTo(d1.iJD, at, k1, hi);
      Stands(d2.State(), b, k, at(k)) && 12 * y + mon == b.k - k && 0 <= mon < 12
  {
    y, mon := years, months;
    ghost var k := k1;
    while d2.iJD < d1.iJD
      invariant k1 <= k <= hi
      invariant Stands(d2.State(), b, k, at(k))
      invariant 12 * y + mon == b.k - k && 0 <= mon < 12
      invariant Timediff.OnTo(d1.iJD, at, k1, hi) == Timediff.OnTo(d1.iJD, at, k, hi)
      decreases hi - k
    {
      mon := mon - 1;
      if mon < 0 {
        y, mon := y - 1, 11;
      }
      NextMonth(d2, b, k, at);
      k := k + 1;
    }
  }

  // What isDate leaves of an argument of timediff, once its fields are read.
  predicate Ready(t: Moment, r: Timediff.Reading) {
    Stands(t, r, r.k, r.jd)
  }

  // Years and months between two months of the calendar.
  method MonthDifference(y1: int, m1: int, y2: int, m2: int) returns (y: int, mon: int)
    requires 1 <= m1 <= 12 && 1 <= m2 <= 12
    ensures 12 * y + mon == MonthIndex(y1, m1) - MonthIndex(y2, m2) && 0 <= mon < 12
  {
    y, mon := y1 - y2, m1 - m2;
    if mon < 0 {
      y, mon := y - 1, mon + 12;
    }
  }

  // The years, months and remainder that the loops of timediff find.
  method Forward(d1: DateTime, d2: DateTime,
                 ghost cal: Timediff.Months, ghost a: Timediff.Reading, ghost b: Timediff.Reading)
    returns (y: int, mon: int, rest: int)
    requires d1 != d2 && Ready(d1.State(), a) && Ready(d2.State(), b) && b.jd <= a.jd
    requires Timediff.Calendric(cal) && Timediff.Parsed(cal, a) && Timediff.Parsed(cal, b)
    requires MovesTo(Timediff.Moved(cal, b, a.k), b, a.k)
    modifies d2
    ensures 0 <= mon < 12
    ensures Timediff.Steps(12 * y + mon, rest) == Timediff.StepsBetween(cal, a, b)
  {
    ghost var at := Timediff.Moved(cal, b, a.k);
    assert a.k != b.k ==> MovesHere(at, b, a.k);
    Timediff.BackStops(cal, a, b);
    y, mon := MonthDifference(d1.Y, d1.M, d2.Y, d2.M);
    Align(d1, d2, a, b, at);
    y, mon := StepBack(d1, d2, y, mon, b, a.k, at);
    rest := d1.iJD - d2.iJD;
  }

  method Backward(d1: DateTime, d2: DateTime,
                  ghost cal: Timediff.Months, ghost a: Timediff.Reading, ghost b: Timediff.Reading)
    returns (y: int, mon: int, rest: int)
    requires d1 != d2 && Ready(d1.State(), a) && Ready(d2.State(), b) && a.jd < b.jd
    requires Timediff.Calendric(cal) && Timediff.Parsed(cal, a) && Timediff.Parsed(cal, b)
    requires MovesTo(Timediff.Moved(cal, b, a.k), b, a.k)
    modifies d2
    ensures 0 <= mon < 12
    ensures Timediff.Steps(12 * y + mon, rest) == Timediff.StepsBetween(cal, a, b)
  {
    ghost var at := Timediff.Moved(cal, b, a.k);
    assert a.k != b.k ==> MovesHere(at, b, a.k);
    Timediff.OnStops(cal, a, b);
    y, mon := MonthDifference(d2.Y, d2.M, d1.Y, d1.M);
    Align(d1, d2, a, b, at);
    y, mon := StepOn(d1, d2, y, mon, b, a.k, if a.k < b.k then b.k else a.k, at);
    rest := d2.iJD - d1.iJD;
  }

  method Steps(d1: DateTime, d2: DateTime, negative: bool,
               ghost cal: Timediff.Months, ghost a: Timediff.Reading, ghost b: Timediff.Reading)
    returns (y: int, mon: int, rest: int)
    requires d1 != d2 && Ready(d1.State(), a) && Ready(d2.State(), b) && negative == (a.jd < b.jd)
    requires Timediff.Calendric(cal) && Timediff.Parsed(cal, a) && Timediff.Parsed(cal, b)
    requires MovesTo(Timediff.Moved(cal, b, a.k), b, a.k)
    modifies d2
    ensures 0 <= mon < 12
    ensures Timediff.Steps(12 * y + mon, rest) == Timediff.StepsBetween(cal, a, b)
  {
    if negative {
      y, mon, rest := Backward(d1, d2, cal, a, b);
    } else {
      y, mon, rest := Forward(d1, d2, cal, a, b);
    }
  }

  // timediff(): the sign, years and months come from the loops, the rest is
  // read off the remainder as a date of year 0.
  method TimediffFields(d1: DateTime, d2: DateTime,
                        ghost cal: Timediff.Months, ghost a: Timediff.Reading, ghost b: Timediff.Reading)
    returns (v: Interval)
    requires d1 != d2
    requires Ready(d1.State(), a) && Ready(d2.State(), b)
    requires Timediff.Calendric(cal) && Timediff.Parsed(cal, a) && Timediff.Parsed(cal, b)
    requires MovesTo(Timediff.Moved(cal, b, a.k), b, a.k)
    modifies d1, d2
    ensures v == Timediff.Difference(cal, a, b)
  {
    var negative := d1.iJD < d2.iJD;
    var y, mon, rest := Steps(d1, d2, negative, cal, a, b);
    Timediff.RestIsSmall(cal, a, b);
    v := ReadRest(d1, negative, y, mon, rest);
  }

  method ReadRest(d1: DateTime, negative: bool, y: int, mon: int, rest: int) returns (v: Interval)
    requires d1.validJD && 0 <= mon < 12 && 0 <= rest < 64 * MS_PER_DAY
    modifies d1
    ensures v == Timediff.IntervalOf(negative, 12 * y + mon, rest)
  {
    d1.iJD := rest + 1486995408 * 100000;
    d1.Clear();
    ReadJD(d1.State());
    ClockFields(Moments.ComputeYMDHMS(d1.State()), TimeOf(d1.iJD));
    d1.ComputeYMDHMS();
    MonthsSplit(y, mon);
    v := Interval(negative, y, mon, d1.D - 1, d1.h, d1.m, d1.s);
  }

  lemma ClockFields(t: Moment, tod: int)
    requires ClockRange(t) && t.TimeMs() == tod
    ensures t.h == tod / 60000 / 60 && t.m == tod / 60000 % 60 && t.s == tod % 60000
  {
    assert tod / 60000 == t.h * 60 + t.m;
  }

  lemma MonthsSplit(y: int, mon: int)
    requires 0 <= mon < 12
    ensures (12 * y + mon) / 12 == y && (12 * y + mon) % 12 == mon
  {
  }

  // isDate on a lone argument, and then its civil fields.
  method ReadArgument(t: Moments.Moment) returns (ok: bool, d: DateTime)
    ensures fresh(d) && (ok <==> Moments.Checked(t, true).Some?)
    ensures ok ==> d.State() == Moments.ComputeYMDHMS(Moments.Checked(t, true).value)
  {
    d := new DateTime(t);
    ok := d.Check(true);
    if ok {
      d.ComputeYMDHMS();
    }
  }

  lemma ArgumentReady(i: TimediffLaw.Input, u: Moments.Moment)
    requires TimediffLaw.Accepted(i)
    requires u == Moments.ComputeYMDHMS(Moments.Checked(TimediffLaw.ParsedMoment(i), true).value)
    ensures Ready(u, TimediffLaw.FirstReading(i))
  {
    TimediffLaw.FirstIsCivil(i);
    TimediffLaw.FirstIsParsed(i);
    ReadyAsRead(u, TimediffLaw.FirstReading(i));
  }

  lemma ReadyAsRead(u: Moments.Moment, r: Timediff.Reading)
    requires r == Timediff.ReadingOf(u) && CivilFields(u) && u.validJD && FIRST_MONTH <= r.k <= LAST_MONTH
    ensures Ready(u, r)
  {
  }

  // timediff(a, b): NULL unless isDate accepts both arguments.
  method TimediffFunc(a: TimediffLaw.Input, b: TimediffLaw.Input) returns (v: Option<Interval>)
    requires TimediffLaw.Digits(a) && TimediffLaw.Digits(b)
    ensures v.Some? <==> TimediffLaw.Accepted(a) && TimediffLaw.Accepted(b)
    ensures v.Some? ==> v.value == TimediffLaw.TimediffOf(a, b)
  {
    var ok1, d1 := ReadArgument(TimediffLaw.ParsedMoment(a));
    if !ok1 { return None; }
    var ok2, d2 := ReadArgument(TimediffLaw.ParsedMoment(b));
    if !ok2 { return None; }
    ghost var ra, rb := TimediffLaw.FirstReading(a), TimediffLaw.FirstReading(b);
    TimediffLaw.CalendarIsCalendric();
    TimediffLaw.FirstIsParsed(a);
    TimediffLaw.FirstIsParsed(b);
    MovedMovesTo(rb, ra.k);
    ArgumentReady(a, d1.State());
    ArgumentReady(b, d2.State());
    var fields := TimediffFields(d1, d2, TimediffLaw.MonthStarts(), ra, rb);
    return Some(fields);
  }
}
