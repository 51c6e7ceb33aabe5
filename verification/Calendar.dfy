/**
  Seconds since the Epoch and Gregorian dates (NeilOS/kernel/common/time.c; section 4.16
  of POSIX.1-2017, "Seconds Since the Epoch").
*/
module Calendar {
  const EPOCH_YEAR: nat := 1970
  const SECONDS_PER_DAY: nat := 86400
  const SECONDS_PER_HOUR: nat := 3600
  const SECONDS_PER_MIN: nat := 60
  const TWO32: nat := 0x1_0000_0000
  const LAST_COUNTED: nat := 2306   // the last year the 8-bit counters reach

  // date_t
  datatype Date = Date(year: nat, month: nat, day: nat, hour: nat, minute: nat, second: nat)

  predicate IsLeapYear(y: nat) {
    (y % 4 == 0 && y % 100 != 0) || y % 400 == 0
  }

  function DaysInYear(y: nat): nat { if IsLeapYear(y) then 366 else 365 }

  // days_per_month; months count from 1
  function DaysInMonth(y: nat, m: nat): nat
    requires 1 <= m <= 12
  {
    if m == 2 then (if IsLeapYear(y) then 29 else 28)
    else if m == 4 || m == 6 || m == 9 || m == 11 then 30 else 31
  }

  predicate ValidDate(d: Date) {
    && d.year >= EPOCH_YEAR && 1 <= d.month <= 12 && 1 <= d.day <= DaysInMonth(d.year, d.month)
    && d.hour < 24 && d.minute < 60 && d.second < 60
  }

  // ----- the defining sums -----

  // Days in the years from 1970 up to, not including, y.
  function YearDays(y: nat): nat
    requires y >= EPOCH_YEAR
  {
    if y == EPOCH_YEAR then 0 else YearDays(y - 1) + DaysInYear(y - 1)
  }

  // Days in the months before m.
  function MonthDays(y: nat, m: nat): nat
    requires 1 <= m <= 12
  {
    if m == 1 then 0 else MonthDays(y, m - 1) + DaysInMonth(y, m - 1)
  }

  function DayNumber(y: nat, m: nat, d: nat): nat
    requires y >= EPOCH_YEAR && 1 <= m <= 12 && d >= 1
  {
    YearDays(y) + MonthDays(y, m) + d - 1
  }

  function UnixTime(d: Date): nat
    requires ValidDate(d)
  {
    DayNumber(d.year, d.month, d.day) * SECONDS_PER_DAY
    + d.hour * SECONDS_PER_HOUR + d.minute * SECONDS_PER_MIN + d.second
  }

  // ----- get_current_date: the division formula -----

  // c counts years from March, d the days of that year.
  function MarchYearOfDay(val: nat): (nat, nat) {
    var a := (4 * val + 102032) / 146097 + 15;
    var b := val + 2442113 + a - a / 4;
    var c := (20 * b - 2442) / 7305;
    (c, b - 365 * c - c / 4)
  }

  function MonthOfMarchDay(c: nat, d: nat): (int, int, int) {
    var e := d * 1000 / 30601;
    var f := d - e * 30 - e * 601 / 1000;
    if e <= 13 then (c - 4716, e - 1, f) else (c - 4715, e - 13, f)
  }

  function DateOfDay(val: nat): (int, int, int) {
    MonthOfMarchDay(MarchYearOfDay(val).0, MarchYearOfDay(val).1)
  }

  // ----- closed forms of the sums -----

  // Leap years before year y, counted from year 1.
  function LeapsBefore(y: nat): int
    requires y >= 1
  {
    (y - 1) / 4 - (y - 1) / 100 + (y - 1) / 400
  }

  lemma NextFour(z: nat)
    requires z >= 1
    ensures z / 4 - (z - 1) / 4 == if z % 4 == 0 then 1 else 0
  {
  }

  lemma NextHundred(z: nat)
    requires z >= 1
    ensures z / 100 - (z - 1) / 100 == if z % 100 == 0 then 1 else 0
  {
  }

  lemma NextFourHundred(z: nat)
    requires z >= 1
    ensures z / 400 - (z - 1) / 400 == if z % 400 == 0 then 1 else 0
  {
  }

  lemma FourTimes(k: nat)
    ensures 4 * k % 4 == 0
  {
  }

  lemma HundredTimes(k: nat)
    ensures 100 * k % 100 == 0
  {
  }

  lemma MultiplesOf(z: nat)
    ensures (z % 100 == 0 ==> z % 4 == 0) && (z % 400 == 0 ==> z % 100 == 0)
  {
    if z % 100 == 0 {
      FourTimes(25 * (z / 100));
      assert z == 4 * (25 * (z / 100));
    }
    if z % 400 == 0 {
      HundredTimes(4 * (z / 400));
      assert z == 100 * (4 * (z / 400));
    }
  }

  lemma LeapStep(y: nat)
    requires y >= 1
    ensures LeapsBefore(y + 1) == LeapsBefore(y) + if IsLeapYear(y) then 1 else 0
  {
    NextFour(y);
    NextHundred(y);
    NextFourHundred(y);
    MultiplesOf(y);
  }

  lemma {:induction false} YearDaysClosed(y: nat)
    requires y >= EPOCH_YEAR
    ensures YearDays(y) == 365 * (y - 1970) + LeapsBefore(y) - 477
  {
    if y > EPOCH_YEAR {
      YearDaysClosed(y - 1);
      LeapStep(y - 1);
    }
  }

  // The March-based day of the year, 1 March being 123.
  function MarchDay(e: nat, f: nat): nat { e * 30 + e * 601 / 1000 + f }

  lemma MonthDaysClosed(y: nat, m: nat)
    requires 1 <= m <= 12
    ensures MonthDays(y, m) ==
      (if m <= 2 then MarchDay(m + 13, 0) - 428 else MarchDay(m + 1, 0) - 122 + 59 + (if IsLeapYear(y) then 1 else 0))
  {
    assert m == 1 || m == 2 || m == 3 || m == 4 || m == 5 || m == 6 || m == 7 || m == 8 || m == 9 || m == 10 || m == 11 || m == 12;
    assert MonthDays(y, 2) == 31;
    assert MonthDays(y, 3) == 31 + DaysInMonth(y, 2);
    assert MonthDays(y, 4) == 31 + DaysInMonth(y, 2) + 31;
    assert MonthDays(y, 5) == 31 + DaysInMonth(y, 2) + 61;
    assert MonthDays(y, 6) == 31 + DaysInMonth(y, 2) + 92;
    assert MonthDays(y, 7) == 31 + DaysInMonth(y, 2) + 122;
    assert MonthDays(y, 8) == 31 + DaysInMonth(y, 2) + 153;
    assert MonthDays(y, 9) == 31 + DaysInMonth(y, 2) + 184;
    assert MonthDays(y, 10) == 31 + DaysInMonth(y, 2) + 214;
    assert MonthDays(y, 11) == 31 + DaysInMonth(y, 2) + 245;
  }

  // ----- the formula, step by step -----
  //
  // A March year runs from March; its days count from 123 on 1 March, to 488 on a leap day.

  predicate InMarchYear(marchYear: nat, marchDay: nat) {
    marchYear >= 1969 && 123 <= marchDay && (marchDay <= 487 || (marchDay == 488 && IsLeapYear(marchYear + 1)))
  }

  // The day number in these terms.
  function MarchDayNumber(marchYear: nat, marchDay: nat): int {
    365 * marchYear + marchYear / 4 - marchYear / 100 + marchYear / 400 + marchDay - 719591
  }

  lemma DayNumberFromMarch(y: nat, m: nat, f: nat)
    requires y >= EPOCH_YEAR && 1 <= m <= 12 && 1 <= f <= DaysInMonth(y, m)
    ensures var marchYear := if m <= 2 then y - 1 else y;
      var marchDay := MarchDay(if m <= 2 then m + 13 else m + 1, f);
      InMarchYear(marchYear, marchDay) && DayNumber(y, m, f) == MarchDayNumber(marchYear, marchDay)
  {
    YearDaysClosed(y);
    MonthDaysClosed(y, m);
    LeapStep(y);
  }

  lemma SplitYear(century: nat, r: nat)
    requires r < 100
    ensures (100 * century + r) / 100 == century
    ensures (100 * century + r) / 4 == 25 * century + r / 4
    ensures (100 * century + r) / 400 == century / 4
  {
  }

  // One hundredth year in four is a leap year.
  lemma LeapCentury(century: nat)
    requires IsLeapYear(100 * century)
    ensures century % 4 == 0
  {
    SplitYear(century, 0);
    assert 100 * century % 100 == 0;
    assert 100 * century == 400 * (100 * century / 400);
  }

  lemma CenturyStepIn(century: nat, r: nat, marchDay: nat)
    requires r < 100 && MarchDayNumber(100 * century + r, marchDay) >= 0
    requires 123 <= marchDay <= 488 && (marchDay == 488 && r == 99 ==> century % 4 == 3)
    ensures (4 * MarchDayNumber(100 * century + r, marchDay) + 102032) / 146097 + 15 == century - 4
  {
    SplitYear(century, r);
    var j := century % 4;
    var rem := 1460 * r + 4 * (r / 4) + 4 * marchDay - 489 - j;
    assert 4 * MarchDayNumber(100 * century + r, marchDay) + 102032 == 146097 * (century - 19) + rem;
    assert 0 <= rem < 146097;
  }

  lemma LastDayOfCentury(marchYear: nat, century: nat)
    requires InMarchYear(marchYear, 488) && marchYear == 100 * century + 99
    ensures century % 4 == 3
  {
    LeapCentury(century + 1);
    assert century + 1 == 4 * ((century + 1) / 4);
  }

  // a counts centuries, four behind.
  lemma CenturyStep(marchYear: nat, marchDay: nat)
    requires InMarchYear(marchYear, marchDay) && MarchDayNumber(marchYear, marchDay) >= 0
    ensures (4 * MarchDayNumber(marchYear, marchDay) + 102032) / 146097 + 15 == marchYear / 100 - 4
  {
    var century, r := marchYear / 100, marchYear % 100;
    assert marchYear == 100 * century + r;
    if marchDay == 488 && r == 99 { LastDayOfCentury(marchYear, century); }
    CenturyStepIn(century, r, marchDay);
  }

  // b is a Julian day count, c its year.
  lemma YearStep(c: nat, marchDay: nat)
    requires 123 <= marchDay && (marchDay <= 487 || (marchDay == 488 && c % 4 == 3))
    ensures (20 * (365 * c + c / 4 + marchDay) - 2442) / 7305 == c
  {
    var q, r := c / 4, c % 4;
    assert 20 * (365 * c + c / 4 + marchDay) - 2442 == 7305 * c + (20 * marchDay - 2442 - 5 * r);
  }

  // e is the month, f the day in it.
  lemma MonthStep(e: nat, f: nat)
    requires 4 <= e <= 15 && 1 <= f <= 31
    requires f == 31 ==> e != 5 && e != 7 && e != 10 && e != 12
    requires e == 15 ==> f <= 29
    ensures MarchDay(e, f) * 1000 / 30601 == e
  {
  }

  lemma JulianDaysIn(century: nat, r: nat, marchDay: nat)
    requires century >= 19 && r < 100
    ensures var marchYear, a := 100 * century + r, century - 4;
      MarchDayNumber(marchYear, marchDay) + 2442113 + a - a / 4 ==
      365 * (marchYear + 4716) + (marchYear + 4716) / 4 + marchDay
  {
    SplitYear(century, r);
    assert (century - 4) / 4 == century / 4 - 1;
    assert (100 * century + r + 4716) / 4 == 25 * century + r / 4 + 1179;
  }

  lemma FoursAhead(z: nat)
    requires z % 4 == 0
    ensures (z + 4715) % 4 == 3
  {
    assert z + 4715 == 4 * (z / 4 + 1178) + 3;
  }

  lemma LeapAhead(marchYear: nat)
    requires IsLeapYear(marchYear + 1)
    ensures (marchYear + 4716) % 4 == 3
  {
    MultiplesOf(marchYear + 1);
    FoursAhead(marchYear + 1);
  }

  lemma JulianDays(marchYear: nat, marchDay: nat)
    requires InMarchYear(marchYear, marchDay)
    ensures var a := marchYear / 100 - 4;
      MarchDayNumber(marchYear, marchDay) + 2442113 + a - a / 4 ==
      365 * (marchYear + 4716) + (marchYear + 4716) / 4 + marchDay
    ensures marchDay == 488 ==> (marchYear + 4716) % 4 == 3
  {
    JulianDaysIn(marchYear / 100, marchYear % 100, marchDay);
    if marchDay == 488 { LeapAhead(marchYear); }
  }

  lemma FromJulianDays(val: nat, a: nat, c: nat, marchDay: nat)
    requires (4 * val + 102032) / 146097 + 15 == a && val + 2442113 + a - a / 4 == 365 * c + c / 4 + marchDay
    requires 123 <= marchDay && (marchDay <= 487 || (marchDay == 488 && c % 4 == 3))
    ensures MarchYearOfDay(val) == (c, marchDay)
  {
    YearStep(c, marchDay);
  }

  lemma MarchYearFound(marchYear: nat, marchDay: nat)
    requires InMarchYear(marchYear, marchDay) && MarchDayNumber(marchYear, marchDay) >= 0
    ensures MarchYearOfDay(MarchDayNumber(marchYear, marchDay)) == (marchYear + 4716, marchDay)
  {
    CenturyStep(marchYear, marchDay);
    JulianDays(marchYear, marchDay);
    FromJulianDays(MarchDayNumber(marchYear, marchDay), marchYear / 100 - 4, marchYear + 4716, marchDay);
  }

  lemma MonthFound(c: nat, e: nat, f: nat)
    requires 4 <= e <= 15 && 1 <= f <= 31
    requires f == 31 ==> e != 5 && e != 7 && e != 10 && e != 12
    requires e == 15 ==> f <= 29
    ensures MonthOfMarchDay(c, MarchDay(e, f)) == if e <= 13 then (c - 4716, e - 1, f) else (c - 4715, e - 13, f)
  {
    MonthStep(e, f);
  }

  lemma DateFound(val: nat, c: nat, d: nat)
    requires MarchYearOfDay(val) == (c, d)
    ensures DateOfDay(val) == MonthOfMarchDay(c, d)
  {
  }

  lemma ShortMonths(y: nat, m: nat, f: nat)
    requires 1 <= m <= 12 && 1 <= f <= DaysInMonth(y, m)
    ensures f <= 31 && (f == 31 ==> m != 2 && m != 4 && m != 6 && m != 9 && m != 11) && (m == 2 ==> f <= 29)
  {
  }

  /** Dates survive the trip: the formula undoes the sums. */
  lemma FormulaUndoesSums(y: nat, m: nat, f: nat)
    requires y >= EPOCH_YEAR && 1 <= m <= 12 && 1 <= f <= DaysInMonth(y, m)
    ensures DateOfDay(DayNumber(y, m, f)) == (y, m, f)
  {
    var marchYear := if m <= 2 then y - 1 else y;
    var e := if m <= 2 then m + 13 else m + 1;
    DayNumberFromMarch(y, m, f);
    MarchYearFound(marchYear, MarchDay(e, f));
    DateFound(DayNumber(y, m, f), marchYear + 4716, MarchDay(e, f));
    ShortMonths(y, m, f);
    MonthFound(marchYear + 4716, e, f);
  }

  // ----- every day number has a date -----

  lemma {:induction false} YearExists(val: nat, y: nat) returns (r: nat)
    requires y >= EPOCH_YEAR && YearDays(y) <= val
    ensures r >= EPOCH_YEAR && YearDays(r) <= val < YearDays(r + 1)
    decreases val - YearDays(y)
  {
    if val < YearDays(y + 1) { r := y; } else { r := YearExists(val, y + 1); }
  }

  lemma {:induction false} MonthExists(y: nat, k: nat, m: nat) returns (r: nat)
    requires 1 <= m <= 12 && MonthDays(y, m) <= k < MonthDays(y, 12) + 31
    ensures 1 <= r <= 12 && MonthDays(y, r) <= k < MonthDays(y, r) + DaysInMonth(y, r)
    decreases 12 - m
  {
    if k < MonthDays(y, m) + DaysInMonth(y, m) { r := m; } else { r := MonthExists(y, k, m + 1); }
  }

  lemma DateExists(val: nat) returns (y: nat, m: nat, f: nat)
    ensures y >= EPOCH_YEAR && 1 <= m <= 12 && 1 <= f <= DaysInMonth(y, m)
    ensures DayNumber(y, m, f) == val
  {
    y := YearExists(val, EPOCH_YEAR);
    MonthDaysClosed(y, 12);
    m := MonthExists(y, val - YearDays(y), 1);
    f := val - YearDays(y) - MonthDays(y, m) + 1;
  }

  /** Day numbers survive the trip: the formula yields a valid date, whose sums give the
      day number back, for every day since the Epoch. */
  lemma SumsUndoFormula(val: nat)
    ensures var (y, m, f) := DateOfDay(val);
      && y >= EPOCH_YEAR && 1 <= m <= 12 && 1 <= f <= DaysInMonth(y, m)
      && DayNumber(y, m, f) == val
  {
    var y, m, f := DateExists(val);
    FormulaUndoesSums(y, m, f);
  }

  // ----- seconds -----

  // get_current_date, of the seconds in current_time
  function GetCurrentDate(seconds: nat): (d: Date)
    ensures ValidDate(d) && UnixTime(d) == seconds
  {
    SumsUndoFormula(seconds / 60 / 60 / 24);
    SplitSeconds(seconds);
    var (y, m, d) := DateOfDay(seconds / 60 / 60 / 24);
    Date(y, m, d, seconds / 60 / 60 % 24, seconds / 60 % 60, seconds % 60)
  }

  lemma SplitSeconds(s: nat)
    ensures s == s / 60 / 60 / 24 * SECONDS_PER_DAY + s / 60 / 60 % 24 * SECONDS_PER_HOUR
                 + s / 60 % 60 * SECONDS_PER_MIN + s % 60
  {
  }

  lemma JoinSeconds(day: nat, h: nat, mi: nat, s: nat)
    requires h < 24 && mi < 60 && s < 60
    ensures var t := day * SECONDS_PER_DAY + h * SECONDS_PER_HOUR + mi * SECONDS_PER_MIN + s;
      t / 60 / 60 / 24 == day && t / 60 / 60 % 24 == h && t / 60 % 60 == mi && t % 60 == s
  {
    var t := day * SECONDS_PER_DAY + h * SECONDS_PER_HOUR + mi * SECONDS_PER_MIN + s;
    assert t / 60 == (day * 24 + h) * 60 + mi;
    assert t / 60 / 60 == day * 24 + h;
  }

  /** Date to time and back, for every valid date since the Epoch; `GetCurrentDate` itself
      promises the other direction. */
  lemma TimeRoundTrip(d: Date)
    requires ValidDate(d)
    ensures GetCurrentDate(UnixTime(d)) == d
  {
    JoinSeconds(DayNumber(d.year, d.month, d.day), d.hour, d.minute, d.second);
    FormulaUndoesSums(d.year, d.month, d.day);
  }

  // ----- get_current_unix_time_rtc: the summing loops -----

  lemma {:induction false} YearsBound(y: nat)
    requires y >= EPOCH_YEAR
    ensures YearDays(y) >= 365 * (y - EPOCH_YEAR)
  {
    if y > EPOCH_YEAR { YearsBound(y - 1); }
  }

  // Leap and other years from 1970 up to, not including, y.
  function LeapYears(y: nat): nat
    requires y >= EPOCH_YEAR
  {
    if y == EPOCH_YEAR then 0 else LeapYears(y - 1) + if IsLeapYear(y - 1) then 1 else 0
  }

  function OtherYears(y: nat): nat
    requires y >= EPOCH_YEAR
  {
    if y == EPOCH_YEAR then 0 else OtherYears(y - 1) + if IsLeapYear(y - 1) then 0 else 1
  }

  lemma {:induction false} YearCounts(y: nat)
    requires y >= EPOCH_YEAR
    ensures LeapYears(y) == LeapsBefore(y) - 477 && OtherYears(y) == y - EPOCH_YEAR - LeapYears(y)
    ensures OtherYears(y) * 365 + LeapYears(y) * 366 == YearDays(y)
    ensures y <= LAST_COUNTED ==> OtherYears(y) < 256 && LeapYears(y) < 256
  {
    if y > EPOCH_YEAR {
      YearCounts(y - 1);
      LeapStep(y - 1);
    }
  }

  lemma {:induction false} CountsWrapAfter(y: nat)
    requires y > LAST_COUNTED
    ensures OtherYears(y) >= 256
  {
    if y > LAST_COUNTED + 1 { CountsWrapAfter(y - 1); } else { YearCounts(y); }
  }

  // The days lost to 8-bit counters, by 256.
  function Lost(others: nat, leaps: nat): nat {
    others / 256 * 365 + leaps / 256 * 366
  }

  lemma CountersLose(others: nat, leaps: nat)
    ensures others % 256 * 365 + leaps % 256 * 366 == others * 365 + leaps * 366 - 256 * Lost(others, leaps)
  {
  }

  lemma LossBounds(others: nat, leaps: nat)
    ensures others + leaps < 0x8000 ==> Lost(others, leaps) < 0x2_0000
    ensures others < 256 && leaps < 256 ==> Lost(others, leaps) == 0
    ensures others >= 256 ==> Lost(others, leaps) > 0
  {
  }

  // 256 * 86400 is 675 * 2^15, and 675 has an inverse modulo 2^17.
  lemma OddFactor(k: int, m: int)
    requires 675 * k == 0x2_0000 * m
    ensures k % 0x2_0000 == 0
  {
    assert k == 0x2_0000 * (114955 * m - 592 * k);
  }

  lemma Multiple(total: int, d: int) returns (m: int)
    requires (total - d) % TWO32 == total % TWO32
    ensures d == TWO32 * m
  {
    m := total / TWO32 - (total - d) / TWO32;
  }

  // So 32 bits of seconds do not hide the loss.
  lemma LossShows(total: int, k: nat)
    requires k < 0x2_0000
    ensures (total - 256 * k * SECONDS_PER_DAY) % TWO32 == total % TWO32 <==> k == 0
  {
    if (total - 256 * k * SECONDS_PER_DAY) % TWO32 == total % TWO32 {
      var m := Multiple(total, 256 * k * SECONDS_PER_DAY);
      OddFactor(k, m);
    }
  }

  lemma CountsBounded(y: nat)
    requires y >= EPOCH_YEAR
    ensures OtherYears(y) + LeapYears(y) == y - EPOCH_YEAR
    ensures if y <= LAST_COUNTED then OtherYears(y) < 256 && LeapYears(y) < 256 else OtherYears(y) >= 256
  {
    YearCounts(y);
    if y > LAST_COUNTED { CountsWrapAfter(y); }
  }

  lemma LostAfter(y: nat)
    requires EPOCH_YEAR <= y < 0x8000
    ensures Lost(OtherYears(y), LeapYears(y)) < 0x2_0000
    ensures Lost(OtherYears(y), LeapYears(y)) == 0 <==> y <= LAST_COUNTED
  {
    CountsBounded(y);
    LossBounds(OtherYears(y), LeapYears(y));
  }

  /** The first year that goes wrong: by 2307 the counter of other years has wrapped. */
  lemma FirstWrongYear()
    ensures OtherYears(2307) == 256 && Lost(OtherYears(2307), LeapYears(2307)) == 365
  {
    YearCounts(2307);
  }

  lemma ExactUpTo(date: Date, k: nat, sum: int)
    requires ValidDate(date) && k == Lost(OtherYears(date.year), LeapYears(date.year))
    requires sum == UnixTime(date) - 256 * k * SECONDS_PER_DAY
    ensures date.year < 0x8000 ==> (sum % TWO32 == UnixTime(date) % TWO32 <==> date.year <= LAST_COUNTED)
    ensures UnixTime(date) < TWO32 ==> sum % TWO32 == UnixTime(date)
  {
    YearsBound(date.year);
    if date.year < 0x8000 {
      LostAfter(date.year);
      LossShows(UnixTime(date), k);
    }
  }

  // ts += n, in 32 bits; `exact` is the sum had it not wrapped.
  method Plus(ts: nat, ghost exact: int, n: nat) returns (r: nat, ghost sum: int)
    requires ts == exact % TWO32
    ensures r == sum % TWO32 && sum == exact + n
  {
    r, sum := (ts + n) % TWO32, exact + n;
  }

  // c++, in 8 bits
  method Increment(c: nat, ghost exact: nat) returns (r: nat)
    requires c == exact % 256
    ensures r == (exact + 1) % 256
  {
    r := (c + 1) % 256;
  }

  // The years before `year`, in two 8-bit counters.
  method CountYears(year: nat) returns (years: nat, leapYears: nat)
    requires year >= EPOCH_YEAR
    ensures years == OtherYears(year) % 256 && leapYears == LeapYears(year) % 256
  {
    years, leapYears := 0, 0;
    for yk := EPOCH_YEAR to year
      invariant years == OtherYears(yk) % 256 && leapYears == LeapYears(yk) % 256
    {
      if IsLeapYear(yk) {
        leapYears := Increment(leapYears, LeapYears(yk));
      } else {
        years := Increment(years, OtherYears(yk));
      }
    }
  }

  // ts += days_per_month[year_index][mo_k] * SECONDS_PER_DAY, for the months before `month`
  method AddMonths(year: nat, month: nat, start: nat, ghost exact: int) returns (ts: nat, ghost sum: int)
    requires 1 <= month <= 12 && start == exact % TWO32
    ensures ts == sum % TWO32 && sum == exact + MonthDays(year, month) * SECONDS_PER_DAY
    ensures ts == (exact + MonthDays(year, month) * SECONDS_PER_DAY) % TWO32
  {
    ts, sum := start, exact;
    for mo := 0 to month - 1
      invariant ts == sum % TWO32 && sum == exact + MonthDays(year, mo + 1) * SECONDS_PER_DAY
    {
      ts, sum := Plus(ts, sum, DaysInMonth(year, mo + 1) * SECONDS_PER_DAY);
    }
  }

  // The year counters are 8 bits wide and the sums 32, wrapping.  Of all years a date_t can
  // hold (16 bits, signed), exactly those to 2306 are converted right modulo 2^32; an answer
  // that fits in 32 bits is exact.
  method GetUnixTimeRtc(date: Date) returns (ts: nat)
    requires ValidDate(date)
    ensures date.year < 0x8000 ==> (ts == UnixTime(date) % TWO32 <==> date.year <= LAST_COUNTED)
    ensures UnixTime(date) < TWO32 ==> ts == UnixTime(date)
  {
    ghost var sum: int;
    var years, leapYears := CountYears(date.year);
    ts, sum := Plus(0, 0, (years * 365 + leapYears * 366) * SECONDS_PER_DAY);
    ts, sum := AddMonths(date.year, date.month, ts, sum);
    ts, sum := Plus(ts, sum, (date.day - 1) * SECONDS_PER_DAY);
    ts, sum := Plus(ts, sum, date.hour * SECONDS_PER_HOUR);
    ts, sum := Plus(ts, sum, date.minute * SECONDS_PER_MIN);
    ts, sum := Plus(ts, sum, date.second);
    YearCounts(date.year);
    CountersLose(OtherYears(date.year), LeapYears(date.year));
    ExactUpTo(date, Lost(OtherYears(date.year), LeapYears(date.year)), sum);
  }

  /** In 32 bits of seconds the two conversions are inverse: loading the clock from a date
      and reading the date back changes nothing, through 2106. */
  method LoadThenRead(date: Date) returns (again: Date)
    requires ValidDate(date) && UnixTime(date) < TWO32
    ensures again == date
  {
    var seconds := GetUnixTimeRtc(date);
    again := GetCurrentDate(seconds);
    TimeRoundTrip(date);
  }
}
