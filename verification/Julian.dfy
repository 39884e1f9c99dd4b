// The day-number arithmetic of computeJD and computeYMD.
module Julian {
  import opened Calendar

  const MS_PER_DAY := 86400000
  // 9999-12-31 23:59:59.999
  const MAX_JD := 464269060799999
  const MIN_YEAR := -4713
  const MAX_YEAR := 9999
  // Day numbers of -4713-11-24 and 9999-12-31.
  const MAX_DAY := 5373484

  // The part of a day number that depends on the year counted from March.
  function YearPart(y: int): int {
    var a := (y + 4800) / 100;
    36525 * (y + 4716) / 100 + 38 - a + a / 4
  }

  function MonthPart(m: int): int {
    306001 * (m + 1) / 10000
  }

  function DayNumber(y: int, m: int, d: int): int {
    var y', m' := if m <= 2 then y - 1 else y, if m <= 2 then m + 12 else m;
    YearPart(y') + MonthPart(m') + d - 1524
  }

  // What computeYMD extracts from a day number.
  function DateOf(z: int): Date {
    var alpha := (4 * z + 128179) / 146097 - 52;
    var a := z + 1 + alpha - (alpha + 100) / 4 + 25;
    var b := a + 1524;
    var c := (20 * b - 2442) / 7305;
    var d := 36525 * (c % 32768) / 100;
    var e := (b - d) * 10000 / 306001;
    var x1 := 306001 * e / 10000;
    var m := if e < 14 then e - 1 else e - 13;
    Date(if m > 2 then c - 4716 else c - 4715, m, b - d - x1)
  }

  // The year part counts 365 days a year and one more for each leap year so far.
  lemma YearPartCounts(y: int)
    ensures var u := y + 4800; YearPart(y) == 365 * u + u / 4 - u / 100 + u / 400 - 30643
  {
    var u := y + 4800;
    QuarterCentury(u);
    NestedDivision(u);
  }

  lemma QuarterCentury(u: int)
    ensures 36525 * (u - 84) / 100 == 365 * (u - 84) + u / 4 - 21
  {
    var q, r := u / 4, u % 4;
    assert u == 4 * q + r;
    assert 36525 * (u - 84) == 100 * (365 * (u - 84) + q - 21) + 25 * r;
  }

  lemma NestedDivision(u: int)
    ensures u / 100 / 4 == u / 400
  {
    var q, r := u / 400, u % 400;
    assert u == 400 * q + r && u / 100 == 4 * q + r / 100;
  }

  // Counting multiples: one more is passed exactly when the next number is one.
  lemma DivisionStep(u: int, k: int)
    requires k == 4 || k == 100 || k == 400
    ensures (u + 1) / k == u / k + if (u + 1) % k == 0 then 1 else 0
  {
  }

  lemma LeapShift(y: int)
    ensures Leap(y) <==> var u := y + 4800; u % 4 == 0 && (u % 100 != 0 || u % 400 == 0)
  {
    MultipleOf4(y);
    MultipleOf100(y);
    MultipleOf400(y);
  }

  lemma MultipleOf4(y: int)
    ensures (y + 4800) % 4 == 0 <==> y % 4 == 0
  {
  }

  lemma MultipleOf100(y: int)
    ensures (y + 4800) % 100 == 0 <==> y % 100 == 0
  {
  }

  lemma MultipleOf400(y: int)
    ensures (y + 4800) % 400 == 0 <==> y % 400 == 0
  {
  }

  lemma YearPartStep(y: int)
    ensures YearPart(y + 1) == YearPart(y) + if Leap(y + 1) then 366 else 365
  {
    var u := y + 4800;
    YearPartCounts(y);
    YearPartCounts(y + 1);
    DivisionStep(u, 4);
    DivisionStep(u, 100);
    DivisionStep(u, 400);
    LeapShift(y + 1);
    MultiplesNest(u + 1);
  }

  lemma MultiplesNest(u: int)
    ensures u % 400 == 0 ==> u % 100 == 0
    ensures u % 100 == 0 ==> u % 4 == 0
  {
  }

  // Moving to the same day of the following month adds the month's length.
  lemma MonthStep(y: int, m: int, d: int)
    requires MIN_YEAR - 1 <= y && 1 <= m <= 12
    ensures m < 12 ==> DayNumber(y, m + 1, d) == DayNumber(y, m, d) + MonthLength(y, m)
    ensures m == 12 ==> DayNumber(y + 1, 1, d) == DayNumber(y, m, d) + MonthLength(y, m)
  {
    YearPartStep(y - 1);
  }

  lemma NextDayNumber(date: Date)
    requires Real(date) && MIN_YEAR - 1 <= date.y
    ensures Real(NextDay(date))
    ensures var n := NextDay(date); DayNumber(n.y, n.m, n.d) == DayNumber(date.y, date.m, date.d) + 1
  {
    MonthStep(date.y, date.m, 1);
  }

  // The century found by computeYMD is the one computeJD used.  Here rest
  // counts the days since 1 March.
  lemma CenturyOf(y: int, rest: int)
    requires 0 <= rest < if Leap(y + 1) then 366 else 365
    ensures var z := YearPart(y) + rest + 123 - 1524; (4 * z + 128179) / 146097 == (y + 4800) / 100
  {
    var u := y + 4800;
    YearPartCounts(y);
    LeapShift(y + 1);
    NestedDivision(u);
    SplitCentury(u);
    var z := YearPart(y) + rest + 123 - 1524;
    CenturyBound(u / 100, u % 100, rest, 4 * z + 128179);
  }

  lemma SplitCentury(u: int)
    ensures var a, c := u / 100, u % 100;
      && u == 100 * a + c
      && u / 4 == 25 * a + c / 4
      && ((u + 1) % 4 == 0 <==> (c + 1) % 4 == 0)
      && ((u + 1) % 100 == 0 <==> c == 99)
      && ((u + 1) % 400 == 0 <==> c == 99 && (a + 1) % 4 == 0)
  {
    var a, c := u / 100, u % 100;
    FromCentury(a, c);
    if c == 99 {
      assert u + 1 == 100 * (a + 1);
      FourCenturies(a + 1);
    } else {
      MultiplesNest(u + 1);
    }
  }

  lemma FromCentury(a: int, c: int)
    requires 0 <= c < 100
    ensures (100 * a + c) / 4 == 25 * a + c / 4
    ensures (100 * a + c + 1) % 4 == 0 <==> (c + 1) % 4 == 0
    ensures (100 * a + c + 1) % 100 == 0 <==> c == 99
  {
  }

  lemma FourCenturies(a: int)
    ensures 100 * a % 400 == 0 <==> a % 4 == 0
  {
  }

  lemma CenturyBound(a: int, c: int, rest: int, w: int)
    requires 0 <= c < 100
    requires 0 <= rest < if (c + 1) % 4 == 0 && (c < 99 || (a + 1) % 4 == 0) then 366 else 365
    requires w == 4 * (365 * (100 * a + c) + 25 * a + c / 4 - a + a / 4 + rest) + 3
    ensures w / 146097 == a
  {
    var left := 4 * (365 * c + c / 4 + rest) + 3 - a % 4;
    assert w == 146097 * a + left;
    assert 0 <= left < 146097;
  }

  // Days since 1 March of the March-based year.
  function DaysSinceMarch(m: int, d: int): int {
    MonthPart(if m <= 2 then m + 12 else m) + d - 123
  }

  lemma DaysSinceMarchInYear(date: Date)
    requires Real(date)
    ensures var ys := if date.m <= 2 then date.y - 1 else date.y;
      0 <= DaysSinceMarch(date.m, date.d) < if Leap(ys + 1) then 366 else 365
  {
  }

  // The year found by computeYMD, given the day count b with the century removed.
  lemma YearOf(v: int, rest: int)
    requires 0 <= rest <= 365 && (rest == 365 ==> v % 4 == 3)
    ensures (20 * (36525 * v / 100 + rest + 123) - 2442) / 7305 == v
  {
    QuarterCentury(v + 84);
    assert 20 * (36525 * v / 100 + rest + 123) - 2442 == 7305 * v + (20 * rest + 18 - 5 * (v % 4));
  }

  // The month and the day found by computeYMD.
  lemma MonthOf(ms: int, d: int)
    requires 3 <= ms <= 14 && 1 <= d <= if ms == 14 then 29 else MonthLength(1, if ms > 12 then ms - 12 else ms)
    ensures (MonthPart(ms) + d) * 10000 / 306001 == ms + 1
  {
  }

  // The century correction of computeYMD undoes the one of computeJD.
  lemma CenturyUndone(cent: int, n: int, z: int)
    requires z == n + 38 - cent + cent / 4 - 1524
    ensures var alpha := cent - 52; z + 1 + alpha - (alpha + 100) / 4 + 25 + 1524 == n
  {
    assert (cent - 52 + 100) / 4 == cent / 4 + 12;
  }

  // computeYMD inverts computeJD on every date of the calendar.
  lemma DateOfDayNumber(date: Date)
    requires Real(date) && MIN_YEAR - 1 <= date.y <= MAX_YEAR + 1
    ensures DateOf(DayNumber(date.y, date.m, date.d)) == date
  {
    var ys, ms := if date.m <= 2 then date.y - 1 else date.y, if date.m <= 2 then date.m + 12 else date.m;
    var rest := DaysSinceMarch(date.m, date.d);
    assert 0 <= rest < if Leap(ys + 1) then 366 else 365 by {
      DaysSinceMarchInYear(date);
    }
    assert rest == 365 ==> (ys + 4801) % 4 == 0 by {
      if rest == 365 {
        LeapShift(ys + 1);
      }
    }
    DateOfParts(ys, ms, date.d, rest);
  }

  lemma DateOfParts(ys: int, ms: int, d: int, rest: int)
    requires MIN_YEAR - 2 <= ys <= MAX_YEAR + 1 && 3 <= ms <= 14
    requires 1 <= d <= if ms == 14 then 29 else MonthLength(1, if ms > 12 then ms - 12 else ms)
    requires rest == MonthPart(ms) + d - 123
    requires 0 <= rest < if Leap(ys + 1) then 366 else 365
    requires rest == 365 ==> (ys + 4801) % 4 == 0
    ensures DateOf(YearPart(ys) + MonthPart(ms) + d - 1524)
         == Date(if ms > 12 then ys + 1 else ys, if ms > 12 then ms - 12 else ms, d)
  {
    var z := YearPart(ys) + MonthPart(ms) + d - 1524;
    var cent, v := (ys + 4800) / 100, ys + 4716;
    var b := 36525 * v / 100 + rest + 123;
    assert (4 * z + 128179) / 146097 == cent by { CenturyOf(ys, rest); }
    assert z + 1 + (cent - 52) - (cent - 52 + 100) / 4 + 25 + 1524 == b by { CenturyUndone(cent, b, z); }
    assert (20 * b - 2442) / 7305 == v by { YearOf(v, rest); }
    assert (b - 36525 * v / 100) * 10000 / 306001 == ms + 1 by { MonthOf(ms, d); }
    assert v == v % 32768 by { SmallYear(v); }
    DateOfUnfolds(z, cent - 52, b, v, ms + 1);
  }

  lemma SmallYear(v: int)
    requires 0 <= v < 32768
    ensures v % 32768 == v
  {
  }

  lemma DateOfUnfolds(z: int, alpha: int, b: int, c: int, e: int)
    requires (4 * z + 128179) / 146097 - 52 == alpha
    requires z + 1 + alpha - (alpha + 100) / 4 + 25 + 1524 == b
    requires (20 * b - 2442) / 7305 == c == c % 32768
    requires (b - 36525 * c / 100) * 10000 / 306001 == e
    ensures var m := if e < 14 then e - 1 else e - 13;
      DateOf(z) == Date(if m > 2 then c - 4716 else c - 4715, m, b - 36525 * c / 100 - MonthPart(e - 1))
  {
    assert 306001 * e == 306001 * ((e - 1) + 1);
  }

  // Walking the calendar from day 0, one day at a time, reaches every day number.
  lemma {:induction false} CalendarReaches(z: int) returns (date: Date)
    requires 0 <= z <= MAX_DAY
    ensures Real(date) && MIN_YEAR <= date.y <= MAX_YEAR
    ensures DayNumber(date.y, date.m, date.d) == z
    decreases z
  {
    if z == 0 {
      date := Date(-4713, 11, 24);
    } else {
      var before := CalendarReaches(z - 1);
      NextDayNumber(before);
      date := NextDay(before);
      if date.y == MAX_YEAR + 1 {
        BeyondLastDay(date);
      }
    }
  }

  // A real date of year 10000 lies beyond the last day number.
  lemma BeyondLastDay(date: Date)
    requires Real(date) && date.y == MAX_YEAR + 1
    ensures DayNumber(date.y, date.m, date.d) > MAX_DAY
  {
  }

  // Every day number names a real date, which names it back.
  lemma DayNumberOfDate(z: int)
    requires 0 <= z <= MAX_DAY
    ensures var date := DateOf(z);
      Real(date) && MIN_YEAR <= date.y <= MAX_YEAR && DayNumber(date.y, date.m, date.d) == z
  {
    var date := CalendarReaches(z);
    DateOfDayNumber(date);
  }

  // Consecutive day numbers name consecutive days.
  lemma DatesFollowCalendar(z: int)
    requires 0 <= z < MAX_DAY
    ensures DateOf(z + 1) == NextDay(DateOf(z))
  {
    var date := DateOf(z);
    DayNumberOfDate(z);
    NextDayNumber(date);
    DateOfDayNumber(NextDay(date));
  }
}
