// Instants, in milliseconds since the start of the Julian period, and the days,
// times of day and months that they fall in.
module Instants {
  import opened Calendar
  import opened Julian

  const HALF_DAY := 43200000
  // Months from January of the first year to December of the last.
  const FIRST_MONTH := 12 * MIN_YEAR
  const LAST_MONTH := 12 * MAX_YEAR + 11

  predicate ValidJD(jd: int) {
    0 <= jd <= MAX_JD
  }

  predicate TimeOfDay(tod: int) {
    0 <= tod < MS_PER_DAY
  }

  function Instant(y: int, m: int, d: int, tod: int): int {
    DayNumber(y, m, d) * MS_PER_DAY - HALF_DAY + tod
  }

  function DayOf(jd: int): int {
    (jd + HALF_DAY) / MS_PER_DAY
  }

  function TimeOf(jd: int): int {
    (jd + HALF_DAY) % MS_PER_DAY
  }

  // Months counted from January of year 0.
  function MonthIndex(y: int, m: int): int {
    12 * y + m - 1
  }

  function AtMonth(k: int, d: int, tod: int): int {
    Instant(k / 12, k % 12 + 1, d, tod)
  }

  // A valid instant is the instant of its own date and time of day.
  lemma InstantRoundTrip(jd: int)
    requires ValidJD(jd)
    ensures var date := DateOf(DayOf(jd));
      && Real(date) && MIN_YEAR <= date.y <= MAX_YEAR
      && TimeOfDay(TimeOf(jd))
      && Instant(date.y, date.m, date.d, TimeOf(jd)) == jd
  {
    assert 0 <= DayOf(jd) <= MAX_DAY;
    DayNumberOfDate(DayOf(jd));
  }

  // A real date and time of day are recovered from their instant.
  lemma DateRoundTrip(date: Date, tod: int)
    requires Real(date) && MIN_YEAR - 1 <= date.y <= MAX_YEAR + 1 && TimeOfDay(tod)
    ensures var jd := Instant(date.y, date.m, date.d, tod);
      DayOf(jd) == DayNumber(date.y, date.m, date.d) && DateOf(DayOf(jd)) == date && TimeOf(jd) == tod
  {
    DateOfDayNumber(date);
  }

  lemma MonthAdvance(k: int, d: int, tod: int)
    requires 12 * (MIN_YEAR - 1) <= k
    ensures AtMonth(k + 1, d, tod) == AtMonth(k, d, tod) + MonthLength(k / 12, k % 12 + 1) * MS_PER_DAY
  {
    NextIndex(k, k / 12, k % 12);
    MonthStep(k / 12, k % 12 + 1, d);
  }

  lemma NextIndex(k: int, y: int, m: int)
    requires y == k / 12 && m == k % 12
    ensures (k + 1) / 12 == (if m == 11 then y + 1 else y) && (k + 1) % 12 == (if m == 11 then 0 else m + 1)
  {
  }

  lemma {:induction false} LaterMonthIsLater(j: int, k: int, d: int, tod: int)
    requires 12 * (MIN_YEAR - 1) <= j <= k
    ensures AtMonth(j, d, tod) + 28 * (k - j) * MS_PER_DAY <= AtMonth(k, d, tod)
    decreases k - j
  {
    if j < k {
      MonthAdvance(j, d, tod);
      LaterMonthIsLater(j + 1, k, d, tod);
    }
  }

  lemma IndexParts(y: int, m: int)
    requires 1 <= m <= 12
    ensures MonthIndex(y, m) / 12 == y && MonthIndex(y, m) % 12 + 1 == m
  {
  }

  // Where an instant lies relative to the month it is written in.
  lemma InsideMonth(k: int, d: int, tod: int)
    requires 12 * (MIN_YEAR - 1) <= k
    ensures AtMonth(k, d, tod) == AtMonth(k, 1, 0) + (d - 1) * MS_PER_DAY + tod
    ensures AtMonth(k + 1, 1, 0) == AtMonth(k, 1, 0) + MonthLength(k / 12, k % 12 + 1) * MS_PER_DAY
  {
    MonthAdvance(k, 1, 0);
  }

  function IndexOf(jd: int): int {
    var date := DateOf(DayOf(jd));
    MonthIndex(date.y, date.m)
  }

  // The month of a valid instant, read from the instant.
  lemma IndexRoundTrip(jd: int)
    requires ValidJD(jd)
    ensures AtMonth(IndexOf(jd), DateOf(DayOf(jd)).d, TimeOf(jd)) == jd
    ensures 12 * MIN_YEAR + 10 <= IndexOf(jd) <= 12 * MAX_YEAR + 11
    ensures 1 <= DateOf(DayOf(jd)).d <= MonthLength(IndexOf(jd) / 12, IndexOf(jd) % 12 + 1) <= 31
    ensures TimeOfDay(TimeOf(jd))
    ensures AtMonth(IndexOf(jd), 1, 0) <= jd < AtMonth(IndexOf(jd) + 1, 1, 0)
  {
    InstantRoundTrip(jd);
    DateInMonth(jd, DateOf(DayOf(jd)), TimeOf(jd), IndexOf(jd));
  }

  lemma DateInMonth(jd: int, date: Date, tod: int, k: int)
    requires 0 <= jd && Real(date) && MIN_YEAR <= date.y <= MAX_YEAR && TimeOfDay(tod)
    requires Instant(date.y, date.m, date.d, tod) == jd && k == MonthIndex(date.y, date.m)
    ensures AtMonth(k, date.d, tod) == jd && 12 * MIN_YEAR + 10 <= k <= 12 * MAX_YEAR + 11
    ensures 1 <= date.d <= MonthLength(k / 12, k % 12 + 1) <= 31
    ensures AtMonth(k, 1, 0) <= jd < AtMonth(k + 1, 1, 0)
  {
    IndexParts(date.y, date.m);
    InsideMonth(k, date.d, tod);
    if k < 12 * MIN_YEAR + 10 {
      LaterMonthIsLater(k + 1, 12 * MIN_YEAR + 10, 1, 0);
    }
  }

  // An instant inside month k has month index k.
  lemma IndexUnique(jd: int, k: int)
    requires ValidJD(jd) && 12 * (MIN_YEAR - 1) <= k
    requires AtMonth(k, 1, 0) <= jd < AtMonth(k + 1, 1, 0)
    ensures IndexOf(jd) == k
  {
    IndexRoundTrip(jd);
    if IndexOf(jd) < k {
      LaterMonthIsLater(IndexOf(jd) + 1, k, 1, 0);
    } else if k < IndexOf(jd) {
      LaterMonthIsLater(k + 1, IndexOf(jd), 1, 0);
    }
  }

  lemma TimeOfInstant(k: int, d: int, tod: int)
    requires TimeOfDay(tod)
    ensures TimeOf(AtMonth(k, d, tod)) == tod
  {
    TimeOfDayNumber(DayNumber(k / 12, k % 12 + 1, d), tod);
  }

  lemma TimeOfDayNumber(z: int, tod: int)
    requires TimeOfDay(tod)
    ensures TimeOf(z * MS_PER_DAY - HALF_DAY + tod) == tod
  {
  }
}
