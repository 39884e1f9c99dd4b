# Models of seven SQLite components

Dafny models of self-contained algorithms of SQLite 3.50.4, with proofs of the
properties their comments, assertions and documentation rely on. Code that works
in place is a class or a method over arrays, proved against a specification
function; the laws are lemmas about those functions.

- **Dates** (date.c): `Calendar` gives the Gregorian calendar by month lengths and a
  next-day function; `Julian` and `Instants` relate it to the Julian-day formulas;
  `Moments` has the DateTime record and the modifiers as functions, `DateTimes` the
  class that updates it in place; `Timediff`, `TimediffLaw` and `TimediffExamples` treat
  timediff() and the law that its comment states, `TimediffChoice` what is accepted and
  which interval is printed; `MonthArithmetic` and `WeekCalendar` the month and week rules.
- **STAT4 sampler** (analyze.c): `PrefixGroups` and `IndexRows` say what the counts
  mean; `Stat4` is the sampler on values, `StatAccums` the accumulator on arrays,
  `Stat4Invariant` what holds between rows, `Stat4Run` whole scans, `Stat4Assertions` the
  assertions along them, `Stat4Best` which row stands for a group and `Stat4Coverage` which
  groups have a sample; `StatText` is the text form of the counts.
- **Bit vectors** (bitvec.c): `BitMasks`, `Probing` and `Bitvecs` for the three
  representations, `BitvecPrograms` for the built-in test.
- **Shared-cache mutexes** (btmutex.c): `BtLocking` has the steps of one connection,
  `BtProtocol` the interleaving of any number of them.
- **Online backup** (backup.c): `Images` has byte images, `Backups` the backup object,
  its source and its destination.
- **Renaming** (alter.c): `Replacing` defines simultaneous replacement, `Quoting` the
  quoting formats, `Renaming` the in-place edit, `RenameReading` what the result means,
  `RenameUndo` that renaming back restores the statement.
- **Schema arrays** (build.c): `Columns` for storage places, `IndexEntries` and
  `WithoutRowid` for the indexes of WITHOUT ROWID tables.

`Division`, `Numbers` and `Sets` hold the arithmetic and cardinality facts that several
of them use.

Conventions of the models:

- Times are integer milliseconds. The floating-point divisions of computeYMD are exact
  rational floors, for example (4Z+128179)/146097 for (Z+32044.75)/36524.25.
- A step of a thread in `BtProtocol` is one mutex operation together with the private
  assignments around it. db->mutex is held throughout, so only the BtShared mutexes are
  contended. A try-lock may fail even on a free mutex, as it does on some systems.
- Hash values of samples, failures of page reads and writes, lock results and the page
  size the destination settles on are parameters.

Where the code differs from what is written about it, the code is followed:

- timediff() promises that its result inverts it for all arguments. That fails for a
  second argument whose day is past the end of its month, such as 2023-02-31, for some
  times of hour 24, and for a time without a date whose timezone offset puts it into
  1999, such as 02:00+05:00. It also fails for a first argument at hour 24 on 28 February
  of a common year, such as 2023-02-28 24:00. `TimediffLaw.TimediffLawForFirst` and
  `TimediffLaw.TimediffLawForSecond` give the exact conditions.
- timediff() prints the most whole months for A not before B. For an earlier A it does not
  go back past the month of A, although a longer step from the end of a long month could
  overflow back into it (`TimediffChoice.TimediffIsGreatest`).
- btreeEnterAll says that it enters in ascending address order; it goes through aDb[] in
  database order. Deadlock freedom comes from btreeLockCarefully and holds in any order.
- renameColumnTokenNext says that it returns tokens in the order of the statement; it
  returns the last one first, which renameEditSql needs.
- renameEditSql keeps two adjacent requoted tokens apart only when the statement had the
  new quote between them, so an arbitrary list of adjacent tokens can run together
  (`RenameReading.AdjacentTokensMerge`). No SQL statement is known that lists adjacent
  tokens; without them every token reads as meant (`RenameReading.SeparatedTokensRead`).
- sqlite3_backup_remaining() after the source has shrunk below the pages already copied
  is nPagecount+1-iNext modulo 2^32, not a number of pages; `Backups.Backup.Step` states it so.
- A backup into a destination in WAL mode also sets bytes 18 and 19 of page 1, and the
  commit of a destination that is not in memory stamps its own change counter and the
  library version at 24-27 and 92-99 (pager.c:3082-3095), so that these bytes are not
  the source's.
- A page that a committed transaction has freed may be copied as the cache has it although
  it is never written to the source file, and so may one that a rolled-back transaction had
  taken from the free list; such free pages may differ when a backup is done.
- sampleIsBetter assumes that anEq[iCol] and later counts are valid. They are, for every
  sample it is ever given (`Stat4Invariant.ChosenHasCounts` and the `Comparable` part of
  the invariant).

## Model

| member | source | states |
|---|---|---|
| `Julian.DatesFollowCalendar` | sqlite-src-3500400/sqlite-src-3500400/src/date.c:461-485 | The date of day Z+1 is the calendar's next day after the date of day Z, by month lengths and the leap rule alone, for every Z from 0 to the last |
| `Julian.DayNumberOfDate` | sqlite-src-3500400/sqlite-src-3500400/src/date.c:256-294 | Every day number yields a real Gregorian date between -4713 and 9999, and computing the day number of that date gives it back |
| `Julian.DateOfDayNumber` | sqlite-src-3500400/sqlite-src-3500400/src/date.c:461-485 | Every real calendar date is recovered from its own day number |
| `Julian.NextDayNumber` | sqlite-src-3500400/sqlite-src-3500400/src/date.c:273-281 | Going to the next calendar day adds exactly one to the day number, across month ends, year ends and leap days |
| `Instants.InstantRoundTrip` | sqlite-src-3500400/sqlite-src-3500400/src/date.c:454-501 | Every valid iJD is the instant of a real date and a time of day below 24 hours, which lead back to it |
| `Instants.DateRoundTrip` | sqlite-src-3500400/sqlite-src-3500400/src/date.c:256-294 | A real date with a time of day is read back, both parts, from its iJD |
| `DateTimes.DateTime.ComputeJD` | sqlite-src-3500400/sqlite-src-3500400/src/date.c:256-294 | The in-place routine leaves every field as the pure conversion says: error on years out of range or a raw number, defaults without a date, timezone applied and cleared |
| `DateTimes.DateTime.ComputeYMD` | sqlite-src-3500400/sqlite-src-3500400/src/date.c:461-485 | The in-place routine fills Y, M, D with the date of the day number, or flags an error when iJD is out of range |
| `DateTimes.DateTime.ComputeHMS` | sqlite-src-3500400/sqlite-src-3500400/src/date.c:490-501 | The in-place routine fills h, m, s from iJD and clears rawS, leaving the rest alone |
| `DateTimes.DateTime.MeeusJD` | sqlite-src-3500400/sqlite-src-3500400/src/date.c:273-281 | The half-day formula gives the instant that starts the given date |
| `Moments.FloorIsOverflow` | sqlite-src-3500400/sqlite-src-3500400/src/date.c:302-317 | nFloor, found through the 0x15aa month mask, is exactly the number of days past the end of the month, for every year, month and day up to 31 |
| `DateTimes.DateTime.ComputeFloor` | sqlite-src-3500400/sqlite-src-3500400/src/date.c:302-317 | Only nFloor changes, to the value described by FloorDays |
| `Moments.CarryKeepsMonths` | sqlite-src-3500400/sqlite-src-3500400/src/date.c:986-988 | The month carry leaves a month in 1..12 and the same value of 12*Y+M, also for negative months |
| `MonthArithmetic.AddMonthsExact` | sqlite-src-3500400/sqlite-src-3500400/src/date.c:1048-1058 | N months move 12*Y+M by exactly N at the same day and time; a following floor lands on day min(D, month length); outside -4713..9999 the result is an error |
| `MonthArithmetic.AddYearsExact` | sqlite-src-3500400/sqlite-src-3500400/src/date.c:1060-1069 | N years move 12*Y+M by exactly 12*N, with the same floor and range behaviour |
| `MonthArithmetic.FlooredDate` | sqlite-src-3500400/sqlite-src-3500400/src/date.c:773-779 | The date read back after floor is the same day, or the last day of a shorter month, at the same time of day |
| `DateTimes.DateTime.AddMonths` | sqlite-src-3500400/sqlite-src-3500400/src/date.c:1041-1074 | The in-place months modifier computes the pure result, and refuses counts outside the table limit |
| `TimediffChoice.AcceptedExactly` | sqlite-src-3500400/sqlite-src-3500400/src/date.c:1097-1136 | A time value in any of six forms is rejected exactly when its year is before -4713 or the instant it writes, offset taken off, is out of range; otherwise its value is that instant |
| `TimediffChoice.RawNumberRejected` | sqlite-src-3500400/sqlite-src-3500400/src/date.c:261-271 | A number that is no Julian day is rejected as long as no modifier says how to read it |
| `TimediffChoice.WrittenFloor` | sqlite-src-3500400/sqlite-src-3500400/src/date.c:773-779 | A floor right after a written date lands on its day, or on the last day of a shorter month, at the written time |
| `TimediffChoice.ReadyForUnits` | sqlite-src-3500400/sqlite-src-3500400/src/date.c:1041-1074 | Every accepted time value has the civil fields that a count of months or years is added to |
| `DateTimes.DateTime.AddInterval` | sqlite-src-3500400/sqlite-src-3500400/src/date.c:961-1029 | The in-place interval modifier moves by years and months, then days, then time of day, keeps the day overflow of the month for a later floor, and leaves the state alone when the numbers are out of range |
| `Moments.AddIntervalJD` | sqlite-src-3500400/sqlite-src-3500400/src/date.c:961-1029 | The interval modifier leads to the instant that is Months later on the civil fields, a pending timezone offset taken off after that, and then days and time later on the Julian day; nFloor is the overflow past the end of the shifted month; a shift out of the years -4713 to 9999 is an error |
| `MonthArithmetic.IntervalFloor` | sqlite-src-3500400/sqlite-src-3500400/src/date.c:773-779 | After an interval a floor lands on day min(D, month length) of the shifted month, moved by the days and the time of the interval |
| `Timediff.BackStops` | sqlite-src-3500400/sqlite-src-3500400/src/date.c:1640-1653 | The first loop stops: the first month of the range is never after a valid instant |
| `Timediff.OnStops` | sqlite-src-3500400/sqlite-src-3500400/src/date.c:1674-1687 | The second loop stops no later than the month of the second argument |
| `Timediff.RestIsSmall` | sqlite-src-3500400/sqlite-src-3500400/src/date.c:1654-1655 | The remainder left by the loops is never negative and below 64 days for every pair of accepted arguments |
| `Timediff.RestReadBack` | sqlite-src-3500400/sqlite-src-3500400/src/date.c:1691-1696 | A remainder below 31 days, added to 0000-01-01, is read back exactly as days and time of day |
| `Timediff.StepsLead` | sqlite-src-3500400/sqlite-src-3500400/src/date.c:1621-1690 | When both readings lie in the month they spell, the loops leave a nonnegative month count and a remainder under 31 days that lead from the second argument to the first |
| `DateTimes.StepBack` | sqlite-src-3500400/sqlite-src-3500400/src/date.c:1640-1653 | The loop finds the last month at or before the start whose instant is not after d1, while 12*Y+M keeps track of the distance and 0<=M<=11 |
| `DateTimes.StepOn` | sqlite-src-3500400/sqlite-src-3500400/src/date.c:1674-1687 | The mirror loop finds the first month whose instant is not before d1, with the same accounting |
| `DateTimes.TimediffFunc` | sqlite-src-3500400/sqlite-src-3500400/src/date.c:1608-1698 | The in-place function is NULL unless both arguments pass isDate, and otherwise prints exactly the specified interval |
| `TimediffLaw.TimediffInverts` | sqlite-src-3500400/sqlite-src-3500400/src/date.c:1599-1603 | datetime(B, timediff(A,B)) equals A, to the millisecond, for every accepted A and B that fit their months |
| `TimediffLaw.TimediffLawForSecond` | sqlite-src-3500400/sqlite-src-3500400/src/date.c:1599-1603 | B satisfies the law against every instant A if and only if its date, if any, is in the calendar, hour 24 is used only on a day up to the 28th that is not the last of its month or at exactly 24:00:00, and a time without a date is not put before 2000-01-01 by its timezone offset; any date and time with an offset fits |
| `TimediffLaw.TimediffLawForFirst` | sqlite-src-3500400/sqlite-src-3500400/src/date.c:1599-1603 | A satisfies the law against every instant B if and only if it is not 24:00 or later on 28 February of a common year |
| `TimediffLaw.MisfitSecondFails` | sqlite-src-3500400/sqlite-src-3500400/src/date.c:1599-1603 | For every accepted B outside that condition there is an instant A for which the documented law fails |
| `TimediffChoice.SignIsOrder` | sqlite-src-3500400/sqlite-src-3500400/src/date.c:1621-1657 | The sign is minus exactly when A is before B; equal arguments get plus |
| `TimediffChoice.TimediffIsGreatest` | sqlite-src-3500400/sqlite-src-3500400/src/date.c:1599-1690 | Of all intervals of the right sign that lead from B to A, and not by way of a month before that of A, timediff prints the one with the most whole months, and its days and time are then the only ones |
| `TimediffExamples.UnrealDateExample` | sqlite-src-3500400/sqlite-src-3500400/src/date.c:1127-1132 | 2023-02-31 is accepted and means 2023-03-03, and breaks the law for some A |
| `TimediffExamples.PendingOffsetExample` | sqlite-src-3500400/sqlite-src-3500400/src/date.c:231-239 | 02:00+05:00 is accepted and means 1999-12-31 21:00; timediff from it to 2000-03-02 21:00 is two months, which as its modifier lead to 2000-02-29 21:00 |
| `TimediffExamples.HourAfterLastExample` | sqlite-src-3500400/sqlite-src-3500400/src/date.c:1599-1603 | 2023-03-31 24:00 is accepted and means 2023-04-01, and breaks the law for some A |
| `TimediffExamples.FirstArgumentExample` | sqlite-src-3500400/sqlite-src-3500400/src/date.c:1599-1603 | As a first argument, 2023-02-28 24:00 is accepted and means 2023-03-01, and breaks the law for some B |
| `WeekCalendar.WeekIsIso` | sqlite-src-3500400/sqlite-src-3500400/src/date.c:1443-1456 | %G and %V name the week of section 2.2.10 of ISO 8601:2004 that holds the date: Monday based, week 1 holds 4 January, number in 1..53 |
| `WeekCalendar.WeekIsShared` | sqlite-src-3500400/sqlite-src-3500400/src/date.c:1530-1539 | All seven days of a week get the same %G and %V |
| `WeekCalendar.FirstThursday` | sqlite-src-3500400/sqlite-src-3500400/src/date.c:1530-1539 | The week that holds the year's first Thursday is the week that holds 4 January |
| `WeekCalendar.WeekAtHour24` | sqlite-src-3500400/sqlite-src-3500400/src/date.c:1329-1340 | With hour 24, %V is unchanged if and only if the year does not begin on a Thursday or the week is its first |
| `WeekCalendar.DaysAfterJan01` | sqlite-src-3500400/sqlite-src-3500400/src/date.c:1329-1340 | The method gives the whole days from 1 January, 0 to 365, when the fields are those of the instant; with hour 24 it gives the rounded difference from 1 January at that hour |
| `WeekCalendar.WeekFields` | sqlite-src-3500400/sqlite-src-3500400/src/date.c:1443-1456 | The steps of %G and %V compute WeekYear and WeekNumber of the argument's instant |
| `Stat4.BetterOrder` | sqlite-src-3500400/sqlite-src-3500400/src/analyze.c:535-552 | Being preferred is a strict weak order, which the scans for an upgrade and for iMin rely on |
| `Stat4.BetterMeans` | sqlite-src-3500400/sqlite-src-3500400/src/analyze.c:535-552 | A larger count at iCol is preferred; with equal counts the smaller iCol; and with equal iCol the later counts and the hash decide |
| `Stat4.PostMeans` | sqlite-src-3500400/sqlite-src-3500400/src/analyze.c:511-529 | The preference past iCol compares the later counts from the left, the first that differs deciding, and then the hash |
| `Stat4.MinIsLeast` | sqlite-src-3500400/sqlite-src-3500400/src/analyze.c:628-640 | The search for iMin over a full array finds a non-periodic sample (so the assertion iMin>=0 holds) and none is less preferred |
| `Stat4.InsertShaped` | sqlite-src-3500400/sqlite-src-3500400/src/analyze.c:558-641 | sampleInsert never exceeds mxSample, never evicts a periodic sample, and leaves iMin least preferred whenever the array is full |
| `Stat4Invariant.ScanMeaning` | sqlite-src-3500400/sqlite-src-3500400/src/analyze.c:580-590 | The backward scan reports a covering periodic sample, or the most preferred waiting sample, or that none waits |
| `Stat4Invariant.OfferedExact` | sqlite-src-3500400/sqlite-src-3500400/src/analyze.c:655-657 | When an i-group ends, aBest[i] with its patched count has the exact group sizes from column i on, because it is the last row of its (i+1)-group |
| `Stat4Invariant.OfferedBetter` | sqlite-src-3500400/sqlite-src-3500400/src/analyze.c:584-585 | The asserts pOld->iCol>pNew->iCol and sampleIsBetter(pNew,pOld) hold at every upgrade |
| `Stat4Invariant.ChosenHasCounts` | sqlite-src-3500400/sqlite-src-3500400/src/analyze.c:535-552 | The sample chosen for upgrade is the one whose counts the comparison reads and has them filled in |
| `Stat4Invariant.NothingWaits` | sqlite-src-3500400/sqlite-src-3500400/src/analyze.c:614-618 | When nothing waits for a count at i, every sample precedes the inserted row: the order assertion at insertion holds |
| `Stat4Invariant.OfferKeeps` | sqlite-src-3500400/sqlite-src-3500400/src/analyze.c:655-661 | One turn of the loop over aBest keeps every sample's counts right, guards every sample left waiting and keeps iMin least preferred |
| `Stat4Invariant.FillKeeps` | sqlite-src-3500400/sqlite-src-3500400/src/analyze.c:671-679 | Back-filling below nMaxEqZero settles every count from iChng on with the size of the group just ended, and does not disturb iMin |
| `Stat4Invariant.BestMoves` | sqlite-src-3500400/sqlite-src-3500400/src/analyze.c:764-769 | An aBest[i] that is not replaced by the current row is still the last row of its (i+1)-group |
| `Stat4Invariant.StatPushKeeps` | sqlite-src-3500400/sqlite-src-3500400/src/analyze.c:702-772 | stat_push keeps the whole invariant for any row, and as long as rows stay within nEst there is room for the periodic sample |
| `Stat4Run.FinishedExact` | sqlite-src-3500400/sqlite-src-3500400/src/analyze.c:883-887 | After any scan of an index and the closing samplePushPrevious(p,0), each sample's anEq, anLt and anDLt are the numbers of rows equal to, rows less than and distinct keys less than its first j+1 columns over the whole index, and its rowid is its row's |
| `Stat4Run.EveryIndexScans` | sqlite-src-3500400/sqlite-src-3500400/src/analyze.c:718-743 | Every index in key order, with any rowids, hashes and a row estimate that is not too low, is such a scan |
| `Stat4Coverage.FinishedCovers` | sqlite-src-3500400/sqlite-src-3500400/src/analyze.c:621-626 | Over a whole scan, every value of every number of leading columns has a row among the samples, or the array is full and the value is no more frequent than that for which any non-periodic sample was chosen |
| `Stat4Best.BestIsBest` | sqlite-src-3500400/sqlite-src-3500400/src/analyze.c:764-769 | After every row of every scan, no row of the open i-group is preferred to the candidate aBest[i] by the counts of the later columns when it was pushed and then by its hash |
| `Stat4Run.FinishedOrdered` | sqlite-src-3500400/sqlite-src-3500400/src/analyze.c:613-618 | The samples are strictly increasing in row order and at most mxSample, and a full array's iMin is a least preferred non-periodic sample |
| `Stat4Run.FinishedPeriodic` | sqlite-src-3500400/sqlite-src-3500400/src/analyze.c:755-762 | The rows of the periodic samples retained are exactly those x with x/period different from (x+1)/period, which number nRow/period: none is ever evicted |
| `Stat4Assertions.FlushAsserts` | sqlite-src-3500400/sqlite-src-3500400/src/analyze.c:568-671 | After any number of rows of any scan and for every column the loop comes to, the assertions of sampleInsert hold: the candidate has a count, every sample it could upgrade has a later iCol and is less preferred, an inserted sample comes after the last one, and a least preferred sample is found when full; no zero count is left at nMaxEqZero or beyond |
| `Stat4Assertions.RowAsserts` | sqlite-src-3500400/sqlite-src-3500400/src/analyze.c:755-762 | At every row of every scan, inserting a periodic sample finds it behind the last sample and leaves a least preferred sample when full |
| `Stat4Run.PeriodicShare` | sqlite-src-3500400/sqlite-src-3500400/src/analyze.c:460 | Within nEst rows at most mxSample/3 periodic samples fall due |
| `IndexRows.CountsAreGroups` | sqlite-src-3500400/sqlite-src-3500400/src/analyze.c:718-743 | Group sizes and group starts are the counts of rows with an equal, and with a smaller, prefix in key order |
| `IndexRows.KeysCounted` | sqlite-src-3500400/sqlite-src-3500400/src/analyze.c:737-738 | The count of distinct smaller prefixes is the number of groups before |
| `StatAccums.IsBetter` | sqlite-src-3500400/sqlite-src-3500400/src/analyze.c:511-552 | The comparison loops decide the specified preference |
| `StatAccums.StatAccum.SampleInsert` | sqlite-src-3500400/sqlite-src-3500400/src/analyze.c:558-641 | The in-place routine on the arrays a and its counters computes SampleInsert of the old contents, which decides whether the sample is kept, upgrades another or is dropped; what that retains over a scan is Stat4Coverage.FinishedCovers |
| `StatAccums.StatAccum.PushPrevious` | sqlite-src-3500400/sqlite-src-3500400/src/analyze.c:650-680 | The in-place routine computes PushPrevious of the old contents |
| `StatAccums.StatAccum.StatPush` | sqlite-src-3500400/sqlite-src-3500400/src/analyze.c:702-772 | The in-place routine computes StatPush of the old contents, including current and aBest |
| `Analyze.Samples` | sqlite-src-3500400/sqlite-src-3500400/src/analyze.c:401-476 | stat_init, a stat_push per row and the closing flush return exactly the samples of the specified run, of which Stat4Run.FinishedExact, Stat4Run.FinishedPeriodic and Stat4Coverage.FinishedCovers hold |
| `StatText.StatTextRoundTrip` | sqlite-src-3500400/sqlite-src-3500400/src/analyze.c:911-915 | Reading the printed list gives back the array of unsigned 64-bit counts |
| `StatText.NoLeadingZero` | sqlite-src-3500400/sqlite-src-3500400/src/analyze.c:911-915 | A printed count begins with the digit 0 only if it is 0 |
| `StatText.Print` | sqlite-src-3500400/sqlite-src-3500400/src/analyze.c:911-915 | The printing loop produces the specified text, with the trailing space removed |
| `StatText.DecodeIntArray` | sqlite-src-3500400/sqlite-src-3500400/src/analyze.c:1537-1553 | The decoding loop stores the numbers of the text into the output, up to nOut, with 64-bit wrap-around, and leaves the rest |
| `Bitvecs.Bitvec.constructor` | sqlite-src-3500400/sqlite-src-3500400/src/bitvec.c:115-122 | A new bit vector is valid and empty |
| `Bitvecs.Bitvec.TestNotNull` | sqlite-src-3500400/sqlite-src-3500400/src/bitvec.c:134-152 | For any unsigned 32-bit i, also 0 and beyond iSize, the test is true exactly when i is in the set, in all three representations and through any redirections |
| `Bitvecs.Bitvec.SetBit` | sqlite-src-3500400/sqlite-src-3500400/src/bitvec.c:169-234 | Setting adds exactly i to the set and keeps the structure valid, including the conversion of a full hash table |
| `Bitvecs.Bitvec.SetRehashing` | sqlite-src-3500400/sqlite-src-3500400/src/bitvec.c:205-229 | Turning the hash table into sub-vectors loses no stored value and adds only i |
| `Bitvecs.Bitvec.ClearBit` | sqlite-src-3500400/sqlite-src-3500400/src/bitvec.c:242-274 | Clearing removes exactly i, in all three representations, for any i in range and any i beyond iSize for which the arrays have an element |
| `Bitvecs.Bitvec.RebuildWithout` | sqlite-src-3500400/sqlite-src-3500400/src/bitvec.c:257-272 | Rebuilding the table leaves every other value reachable and only v gone, with nSet the number of occupied slots |
| `Bitvecs.Bitvec.Probe` | sqlite-src-3500400/sqlite-src-3500400/src/bitvec.c:186-203 | The probe of an insertion stops, at the value's slot or at the first empty slot on its way |
| `Probing.EmptySlot` | sqlite-src-3500400/sqlite-src-3500400/src/bitvec.c:146-150 | A table that keeps nSet below 124 has an empty slot, so every probe loop stops |
| `Probing.Inserted` | sqlite-src-3500400/sqlite-src-3500400/src/bitvec.c:231-232 | Filling the empty slot that the probe met keeps every entry reachable and nSet equal to the number of entries |
| `Probing.NotFound` | sqlite-src-3500400/sqlite-src-3500400/src/bitvec.c:146-151 | A probe that meets an empty slot has looked at every place the value could be |
| `Bitvecs.BinInRange` | sqlite-src-3500400/sqlite-src-3500400/src/bitvec.c:138-141 | bin is always below the number of pointers |
| `Bitvecs.DivisorShrinks` | sqlite-src-3500400/sqlite-src-3500400/src/bitvec.c:219-221 | Each sub-vector is strictly smaller than its parent |
| `Bitvecs.AtMostFourRedirections` | sqlite-src-3500400/sqlite-src-3500400/src/bitvec.c:138-145 | Any 32-bit size needs at most four redirections |
| `Bitvecs.SplitGains` | sqlite-src-3500400/sqlite-src-3500400/src/bitvec.c:177-184 | Adding the remainder to one sub-vector adds exactly one number to the whole set |
| `BitvecPrograms.BuiltinTest` | sqlite-src-3500400/sqlite-src-3500400/src/bitvec.c:339-412 | The built-in test reports 0 if and only if the program's faults left no difference; without deliberate faults it always reports 0 |
| `BitvecPrograms.BuiltByLast` | sqlite-src-3500400/sqlite-src-3500400/src/bitvec.c:367-394 | A number is in the set a program builds if and only if the last operation that decides about it sets it |
| `BtProtocol.BlocksAscending` | sqlite-src-3500400/sqlite-src-3500400/src/btmutex.c:71-137 | In every reachable state of any number of connections a blocking mutex_enter is made while owning only mutexes of smaller address |
| `BtProtocol.NoCycle` | sqlite-src-3500400/sqlite-src-3500400/src/btmutex.c:71-137 | No reachable state has a cycle of waits |
| `BtProtocol.SomeOwnerMoves` | sqlite-src-3500400/sqlite-src-3500400/src/btmutex.c:71-137 | Whenever a connection waits, some owner of a mutex is not waiting: it can step or is between calls |
| `BtProtocol.LocksMatchWishes` | sqlite-src-3500400/sqlite-src-3500400/src/btmutex.c:93-97 | Between calls wantToLock>0 if and only if locked if and only if the connection owns the mutex and BtShared.db names it |
| `BtProtocol.OneOwner` | sqlite-src-3500400/sqlite-src-3500400/src/btmutex.c:27-50 | Two connections never both have the same BtShared locked |
| `BtProtocol.AssertionsHold` | sqlite-src-3500400/sqlite-src-3500400/src/btmutex.c:27-50 | The assertions of lockBtreeMutex and unlockBtreeMutex about p->locked, the mutex and BtShared.db hold at every step |
| `BtProtocol.EnterRestores` | sqlite-src-3500400/sqlite-src-3500400/src/btmutex.c:101-137 | Whatever other connections do meanwhile, a sqlite3BtreeEnter that returns leaves the connection owning what it owned before and p, after at most 2n+2 of its own steps |
| `BtProtocol.CallReturns` | sqlite-src-3500400/sqlite-src-3500400/src/btmutex.c:71-215 | From any reachable state, after Enter, Leave, EnterAll or LeaveAll is called and whatever other connections do, a bounded number of own steps (2n+3 for every Btree it is about) brings the thread back; wantToLock has then changed by exactly what was asked, for the other Btrees not at all, and the connection owns exactly the mutexes that it wants |
| `BtProtocol.StepsUnlessBlocked` | sqlite-src-3500400/sqlite-src-3500400/src/btmutex.c:71-137 | A thread whose calls have not all returned can always take a step unless it waits for a mutex that another connection owns |
| `BtProtocol.BalancedReleases` | sqlite-src-3500400/sqlite-src-3500400/src/btmutex.c:143-152 | Between calls a connection owns a mutex if and only if it entered it more often than it left it, over any run of Enter, Leave, EnterAll and LeaveAll; a balanced run releases everything |
| `BtProtocol.ApplyInv` | sqlite-src-3500400/sqlite-src-3500400/src/btmutex.c:71-152 | Every request and every step of any connection keeps the invariant |
| `BtLocking.StepLocks` | sqlite-src-3500400/sqlite-src-3500400/src/btmutex.c:101-152 | Each step changes the locked fields exactly as it changes the mutexes |
| `BtLocking.StepInside` | sqlite-src-3500400/sqlite-src-3500400/src/btmutex.c:101-137 | Each step inside Enter uses up one of a bounded number and leaves wantToLock alone |
| `BtProtocol.WishesCount` | sqlite-src-3500400/sqlite-src-3500400/src/btmutex.c:186-215 | wantToLock plus the calls still queued by EnterAll or LeaveAll is the number of enters less the number of leaves |
| `Backups.Backup.BackupOnePage` | sqlite-src-3500400/sqlite-src-3500400/src/backup.c:226-279 | On success every byte of the source page outside the hole around the pending byte and the page-count field is at its offset, nothing outside the page's range changes, and page 1 gets the source's page count, or its own when updating |
| `Backups.Backup.CopyChunk` | sqlite-src-3500400/sqlite-src-3500400/src/backup.c:255-272 | One round puts the right part of the source page at the right place of the right destination page, and writes the page count into page 1 unless updating |
| `Backups.Backup.CopyPages` | sqlite-src-3500400/sqlite-src-3500400/src/backup.c:389-402 | On success everything below iNext is in place, and iNext has passed the source or advanced by nPage |
| `Backups.Backup.Step` | sqlite-src-3500400/sqlite-src-3500400/src/backup.c:314-566 | A step keeps the invariant and what a rollback would restore; without both locks, or with page sizes that are not allowed, it copies nothing and returns BUSY, the source's or the destination's refusal, or READONLY; the destination is locked exactly when both locks are granted, and takes the source's page size, if it can, before its first lock is tried; is frozen after DONE or an error; on OK is attached with the right progress counts; on DONE the destination is complete, stamped as this step's commit does, with the page count that page 1 was last copied or reported with; and it is DONE when all pages are copied, else OK, if nothing fails |
| `Backups.Backup.Finalize` | sqlite-src-3500400/sqlite-src-3500400/src/backup.c:426-538 | The end of the backup leaves the destination complete, with the new schema cookie and the stamps of the commit, or fails |
| `Backups.Backup.WriteChangeCounter` | sqlite-src-3500400/sqlite-src-3500400/src/pager.c:3082-3095 | The commit puts the destination's change counter plus one at offsets 24 and 92 and the library version at 96 of page 1, and changes nothing else |
| `Backups.Backup.CopyBehindPending` | sqlite-src-3500400/sqlite-src-3500400/src/backup.c:505-520 | The raw writes put every source page behind the source's pending byte page, inside the destination's, in place, free pages as the cache has them |
| `Backups.Backup.LastPage` | sqlite-src-3500400/sqlite-src-3500400/src/backup.c:449-482 | The assertions about nDestTruncate hold for every page count and every pair of sizes |
| `Backups.TruncationPoint` | sqlite-src-3500400/sqlite-src-3500400/src/backup.c:478-482 | nDestTruncate destination pages hold the whole source, unless the source ends inside the destination's pending byte page |
| `Backups.Cut` | sqlite-src-3500400/sqlite-src-3500400/src/backup.c:521-523 | Cutting the file at the size of the source keeps every source byte and the first 512 bytes, and gives exactly the source's size unless the source ends with its pending byte page |
| `Backups.Backup.BackupUpdate` | sqlite-src-3500400/sqlite-src-3500400/src/backup.c:661-685 | A reported change of a page below iNext is copied, page 1 with its own page count; others, and changes after an error, are not; it fails only if a destination page does |
| `Backups.Backup.WriteBack` | sqlite-src-3500400/sqlite-src-3500400/src/backup.c:661-685 | Writing any page of the source but the pending byte page, also past the end, keeps everything below iNext in place; the page is no longer free and pages that the file grows past are; without faults the backup goes on |
| `Backups.Backup.DontWrite` | sqlite-src-3500400/sqlite-src-3500400/src/pager.c:6266-6271 | A page freed by the open transaction need not be written; nothing else changes |
| `Backups.Backup.GetNoContent` | sqlite-src-3500400/sqlite-src-3500400/src/pager.c:5573-5596 | A page taken from the free list without content is not journalled, so that a rollback does not restore it |
| `Backups.Backup.EndWrite` | sqlite-src-3500400/sqlite-src-3500400/src/pager.c:2119-2135 | A commit leaves the pages that the transaction freed free, a rollback those it took from the free list; everything below iNext stays in place |
| `Backups.Backup.Extend` | sqlite-src-3500400/sqlite-src-3500400/src/pager.c:6647-6650 | The commit may extend the source file by free pages; everything below iNext stays in place |
| `Backups.Backup.Restart` | sqlite-src-3500400/sqlite-src-3500400/src/backup.c:701-707 | After a change by another process an attached backup starts again and the invariant holds for the new source |
| `Backups.Backup.Finish` | sqlite-src-3500400/sqlite-src-3500400/src/backup.c:571-619 | Finishing returns OK for DONE and keeps the destination, else returns rc and restores the destination, locked or not, to what it held before it was locked |
| `Backups.RunBackup` | sqlite-src-3500400/sqlite-src-3500400/src/backup.c:314-566 | Over any sequence of steps, source transactions, reported writes, freed and reused pages, extensions, truncations, commits, rollbacks, restarts, BUSY results and faults, the source is exactly what its own events made of it, and DONE means the destination is that source but for the pending byte page, the offsets that these events left in free pages, the page count at 28-31 (that of the last copied or reported page 1), the new schema cookie, bytes 18-19 in WAL mode, and, unless the destination is in memory, the change counter and version that the commit stamps at 24-27 and 92-99; before that everything below iNext is in place |
| `Backups.BackUp` | sqlite-src-3500400/sqlite-src-3500400/src/backup.c:140-619 | From sqlite3_backup_init over any events to sqlite3_backup_finish: unless a step reported DONE the destination is byte for byte what it was at the beginning; if one did it is the source as its events made it, and the cookie is the one after that of the destination at the beginning |
| `Backups.UnfreeMeansEqual` | sqlite-src-3500400/sqlite-src-3500400/src/backup.c:314-566 | If no commit leaves freed pages, no rollback pages taken from the free list, and the file grows page by page, DONE means that every source byte outside the pending byte page and the stamped fields is in the destination; pages that a rolled-back transaction freed are no exception |
| `Backups.CookieChanges` | sqlite-src-3500400/sqlite-src-3500400/src/backup.c:426-437 | After DONE the schema cookie, read from the destination, is the old one plus one and so has changed |
| `Backups.PageEqual` | sqlite-src-3500400/sqlite-src-3500400/src/backup.c:226-279 | With equal page sizes every page from 2 on except the pending byte page and pages that are free is identical when the backup is done |
| `Renaming.RenameEditSql` | sqlite-src-3500400/sqlite-src-3500400/src/alter.c:1195-1297 | The in-place edit returns the simultaneous replacement of all listed tokens, decided from the original text, empties the list and stays inside the allocated buffer |
| `Renaming.ReplaceLast` | sqlite-src-3500400/sqlite-src-3500400/src/alter.c:1244-1287 | Each round replaces the last remaining token: positions strictly decrease and the text from there on is finished |
| `Renaming.RenameColumnTokenNext` | sqlite-src-3500400/sqlite-src-3500400/src/alter.c:1038-1050 | The token of greatest offset is unlinked and the others stay in order |
| `Renaming.Parse.RenameTokenFind` | sqlite-src-3500400/sqlite-src-3500400/src/alter.c:964-987 | The first token of the element moves to the head of the context's list and is counted, or nothing changes |
| `Renaming.ReplaceAt` | sqlite-src-3500400/sqlite-src-3500400/src/alter.c:1277-1285 | The move and copy replace n characters at iOff, keep what is before and after and terminate the text |
| `Renaming.RoomStep` | sqlite-src-3500400/sqlite-src-3500400/src/alter.c:1225-1229 | Each replaced token keeps the output inside nSql+nList*nQuot+1, or 2*nSql+1 when quotes are fixed |
| `Renaming.FixLength` | sqlite-src-3500400/sqlite-src-3500400/src/alter.c:1260-1274 | A token given single quotes, with its space, is less than twice as long, so the limit of snprintf never cuts it |
| `Replacing.OrderIrrelevant` | sqlite-src-3500400/sqlite-src-3500400/src/alter.c:1038-1050 | The result depends only on the set of tokens, not on the order in which they were found |
| `Replacing.DoneStep` | sqlite-src-3500400/sqlite-src-3500400/src/alter.c:1277-1285 | Replacing the last token before p extends the finished part to that token |
| `RenameReading.ReadsAsMeant` | sqlite-src-3500400/sqlite-src-3500400/src/alter.c:1250-1274 | Read from a requoted token on, the result begins with the new name (or the unchanged string value) if and only if no other listed token follows at once with a quote added in front |
| `RenameReading.ResultReads` | sqlite-src-3500400/sqlite-src-3500400/src/alter.c:1244-1287 | Every requoted token is found in the result with that reading |
| `RenameReading.SeparatedTokensRead` | sqlite-src-3500400/sqlite-src-3500400/src/alter.c:1244-1287 | When no listed token starts where another one ends, every requoted token is found in the result and reads as the new name, or as its unchanged string value |
| `RenameReading.TokenSpelled` | sqlite-src-3500400/sqlite-src-3500400/src/alter.c:1250-1274 | At the place of every token that no other one follows at once, the result has the new name in double quotes, reading back as the name, if the name was quoted or the token does not start with an identifier character, and the bare name otherwise; a string is put in single quotes and keeps its value |
| `RenameReading.NothingElse` | sqlite-src-3500400/sqlite-src-3500400/src/alter.c:1250-1287 | At the place of any token the result has exactly the quoted or bare name, or the requoted string, and then the rest of the result; a space comes between only where a quoted token would meet a quote of its own kind in the statement |
| `RenameReading.AdjacentTokensMerge` | sqlite-src-3500400/sqlite-src-3500400/src/alter.c:1250-1257 | A token list with two adjacent bracketed references makes the new names run together |
| `RenameUndo.RenameBack` | sqlite-src-3500400/sqlite-src-3500400/src/alter.c:1244-1287 | Renaming a bare identifier and renaming it back at the places where the new name was put, which are again disjoint tokens inside the result, restores the statement exactly |
| `RenameUndo.PlacedInside` | sqlite-src-3500400/sqlite-src-3500400/src/alter.c:1276-1285 | Each new name stands in the result at the offset of its token shifted by the earlier length changes |
| `Quoting.QuoteReadsBack` | sqlite-src-3500400/sqlite-src-3500400/src/util.c:298-319 | Dequoting a quoted text gives the text back unless one more quote follows |
| `Columns.PlacesOrdered` | sqlite-src-3500400/sqlite-src-3500400/src/build.c:1144-1159 | Storage places keep the order within virtual and within other columns and put virtual columns last |
| `Columns.PlacesDistinct` | sqlite-src-3500400/sqlite-src-3500400/src/build.c:1144-1159 | Storage places are in 0..nCol-1 and distinct |
| `Columns.PlaceTaken` | sqlite-src-3500400/sqlite-src-3500400/src/build.c:1144-1159 | Every place is some column's: the places are a permutation |
| `Columns.Table.TableColumnToStorage` | sqlite-src-3500400/sqlite-src-3500400/src/build.c:1144-1159 | The counting loop computes the place, and returns negative numbers unchanged |
| `Columns.Table.StorageColumnToTable` | sqlite-src-3500400/sqlite-src-3500400/src/build.c:1096-1105 | The loop with its growing bound stops at the non-virtual column that has the given place |
| `Columns.RoundTrip` | sqlite-src-3500400/sqlite-src-3500400/src/build.c:1096-1159 | The two conversions undo each other, on storage numbers below nNVCol and on columns that are not virtual |
| `Columns.Table.AddColumn` | sqlite-src-3500400/sqlite-src-3500400/src/build.c:1578-1579 | Adding a column appends it and keeps nNVCol the number of columns that are not virtual |
| `Columns.Table.AddGenerated` | sqlite-src-3500400/sqlite-src-3500400/src/build.c:1970-1985 | Making the last column generated keeps nNVCol and the virtual flag right, and refuses a column that has an expression already and a type that is neither VIRTUAL nor STORED |
| `WithoutRowid.Index.RemoveRedundant` | sqlite-src-3500400/sqlite-src-3500400/src/build.c:2408-2418 | The in-place loop leaves exactly the first occurrences of each (column, collation) pair |
| `IndexEntries.DedupeDistinct` | sqlite-src-3500400/sqlite-src-3500400/src/build.c:2408-2418 | No pair is repeated afterwards |
| `IndexEntries.DedupeHas` | sqlite-src-3500400/sqlite-src-3500400/src/build.c:2408-2418 | No pair is lost and none is new |
| `IndexEntries.DedupeKeeps` | sqlite-src-3500400/sqlite-src-3500400/src/build.c:2408-2418 | An entry is kept exactly when no earlier one is the same pair, in the original order |
| `WithoutRowid.Index.ReplaceRowid` | sqlite-src-3500400/sqlite-src-3500400/src/build.c:2440-2469 | The rowid entry gives way to exactly the missing PRIMARY KEY entries, in order; nColumn is their total; bAscKeyBug is set if and only if a descending one is added |
| `IndexEntries.ExtendedHolds` | sqlite-src-3500400/sqlite-src-3500400/src/build.c:2455-2465 | An extended index holds a pair if and only if its own key or the PRIMARY KEY does |
| `IndexEntries.AppendedDistinct` | sqlite-src-3500400/sqlite-src-3500400/src/build.c:2455-2465 | What is appended is not in the key and not repeated |
| `WithoutRowid.Index.CoverTable` | sqlite-src-3500400/sqlite-src-3500400/src/build.c:2471-2490 | The PRIMARY KEY index gains exactly the columns that are neither virtual nor in it; nColumn is their total and at least nNVCol |
| `IndexEntries.Covers` | sqlite-src-3500400/sqlite-src-3500400/src/build.c:2471-2488 | Every column that is not virtual is then in the PRIMARY KEY index |
| `IndexEntries.SurplusPlain` | sqlite-src-3500400/sqlite-src-3500400/src/build.c:2480-2488 | The columns appended to cover the table are in ascending order, once each, with collation BINARY |
| `IndexEntries.CaseFolds` | sqlite-src-3500400/sqlite-src-3500400/src/util.c:416-434 | Collating sequences are compared without the case of letters A to Z, all other characters as they are |
| `IndexEntries.CoverSize` | sqlite-src-3500400/sqlite-src-3500400/src/build.c:2489-2490 | The assertion nNVCol<=j holds, also when a column occurs under several collations |
| `WithoutRowid.Index.IsDupColumn` | sqlite-src-3500400/sqlite-src-3500400/src/build.c:2246-2280 | The loop finds whether any of the first entries has the same column and the same collation, ignoring case |
| `WithoutRowid.ConvertToWithoutRowid` | sqlite-src-3500400/sqlite-src-3500400/src/build.c:2340-2492 | Over all indexes of the table: the PRIMARY KEY is deduplicated and covering, every other index is extended by the missing PRIMARY KEY columns |

## Left out

- `StatAccums`, `Stat4`: counts are unbounded naturals, so the wrap-around of tRowcnt is not modelled; the memory of samples is not (they are values in an array); builds without STAT4, mxSample 0, the skip-ahead of nLimit and the first line of stat_get (averages) are left out; the number of rows is at most nEst, which is exact under STAT4; stat_get comes after at least one row.
- `StatText.DecodeIntArray`: the logarithmic output and the options that follow the numbers are left out.
- `Moments`, `DateTimes`: text parsing and printing, "now", localtime and utc, unix timestamps, fractional months, "start of", "weekday", "ceiling" and the date-only form of the interval modifier are left out; parsed digits are taken as given.
- `TimediffLaw.TimediffLawForSecond`, `TimediffLaw.TimediffLawForFirst`: the other argument ranges over the instants, as Julian days; `TimediffLaw.TimediffInverts` has both arguments in any form.
- `WeekCalendar.WeekIsIso`: dates whose week has its Thursday outside the range of valid instants, and hour 24 (see `WeekCalendar.WeekAtHour24`), are excluded.
- `Bitvecs.Bitvec`: the union is three arrays of which one is in use; descending into sub-vectors recurses where the C code loops; allocation succeeds; freeing memory is left out.
- `Bitvecs.Bitvec.ClearBit`: a number beyond iSize for which the arrays have no element, which the C code does not check and no caller passes, is excluded.
- `BitvecPrograms`: programs are given as their sequence of bit operations, random numbers included, not as opcodes with counters.
- `BtProtocol.Apply`: the steps are functions on values, because any thread may run between two of them; Btrees that are not sharable, which all calls skip, and the noSharedCache shortcut are left out; the set of Btrees of a connection is fixed.
- `Backups.Backup`: the pager is a byte image; a failed page read, page write or commit ends the backup (the destination is locked exclusively from the first step, so the commit does not wait); the journal pass over pages about to be truncated, which changes no bytes, is left out; so is sqlite3BtreeCopyFile, whose pDestDb is null; the contents of a new empty database, the change counter that the pager has read and whether the commit writes page 1 are parameters.
- `Backups.Backup.LockDest`: opening the write transaction may give an empty destination its first page or correct its page count field; both are overwritten before a backup completes and rolled back otherwise, and are left out.
- `Backups.Backup.BackupOnePage`: a page size divides the other and the pending byte starts a page of both, which powers of two give.
- `Renaming.RenameEditSql`: tokens are nonempty, disjoint and inside the statement, and strings whose quotes are fixed are well-formed; out-of-memory returns are left out; so is finding the tokens in the parse tree.
- `WithoutRowid.ConvertToWithoutRowid`: starts from the PRIMARY KEY index (making one for an INTEGER PRIMARY KEY is left out); NOT NULL marking, root pages, row estimates and the column bit mask are left out; allocation succeeds.
- `Columns.Table`: column names, types and affinities are left out; column numbers are unbounded, the limit of columns being a parameter.
- SQL parsing, code generation, the pager, VFS and B-tree layers, and the Python and JavaScript application around the sources are not part of this model.
