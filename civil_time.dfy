/** Wall-clock time as the app reads it through java.util.Calendar, under one fixed local offset
    with no daylight-saving changes. An instant is a count of milliseconds (java.util.Date.getTime),
    a day number counts days from 1970-01-01, and a civil date is a proleptic Gregorian
    (year, month 1..12, day of month). */
module CivilTime {

  import opened IntMath

  // Durations are written as literals: 1000 ms a second, 60_000 a minute, 3_600_000 an hour and
  // 86_400_000 a day.

  // ---------------------------------------------------------------------------------------------
  // Instants, day numbers and time of day

  /** The day an instant falls on (Dafny's `/` rounds down, also before 1970). */
  function DayNumber(t: int): int
  {
    t / 86_400_000
  }

  function TimeOfDay(t: int): (r: int)
    ensures 0 <= r < 86_400_000
  {
    t % 86_400_000
  }

  /** Midnight at the start of day `z`. */
  function DayStart(z: int): int
  {
    z * 86_400_000
  }

  /** An instant is the start of its day plus its time of day. */
  lemma InstantOfDay(t: int)
    ensures t == DayStart(DayNumber(t)) + TimeOfDay(t)
  {
  }

  /** The instant with HOUR_OF_DAY, MINUTE, SECOND and MILLISECOND set to 0. */
  function Midnight(t: int): (r: int)
    ensures r <= t < r + 86_400_000
    ensures DayNumber(r) == DayNumber(t) && TimeOfDay(r) == 0
  {
    DayStart(DayNumber(t))
  }

  /** Calendar.add(DAY_OF_MONTH, n) and add(DAY_OF_YEAR, n): with no DST a day is always 24 hours. */
  function AddDays(t: int, n: int): (r: int)
    ensures DayNumber(r) == DayNumber(t) + n && TimeOfDay(r) == TimeOfDay(t)
  {
    t + n * 86_400_000
  }

  lemma DayNumberOfDayStart(z: int, r: int)
    requires 0 <= r < 86_400_000
    ensures DayNumber(DayStart(z) + r) == z && TimeOfDay(DayStart(z) + r) == r
  {
  }

  /** Two instants are on the same day exactly when their midnights coincide. */
  lemma {:induction false} SameDayIffSameMidnight(a: int, b: int)
    ensures DayNumber(a) == DayNumber(b) <==> Midnight(a) == Midnight(b)
  {
  }

  function HourOf(t: int): (h: int)
    ensures 0 <= h < 24
  {
    TimeOfDay(t) / 3_600_000
  }

  function MinuteOf(t: int): (m: int)
    ensures 0 <= m < 60
  {
    TimeOfDay(t) % 3_600_000 / 60_000
  }

  function SecondOf(t: int): (s: int)
    ensures 0 <= s < 60
  {
    TimeOfDay(t) % 60_000 / 1000
  }

  function MilliOf(t: int): (ms: int)
    ensures 0 <= ms < 1000
  {
    TimeOfDay(t) % 1000
  }

  /** The time of day is exactly its hour, minute, second and millisecond fields. */
  lemma TimeOfDayFields(t: int)
    ensures TimeOfDay(t) == HourOf(t) * 3_600_000 + MinuteOf(t) * 60_000 + SecondOf(t) * 1000 + MilliOf(t)
  {
    var r := TimeOfDay(t);
    var h, m, s, ms := r / 3_600_000, r % 3_600_000 / 60_000, r % 60_000 / 1000, r % 1000;
    var inHour := r % 3_600_000;
    assert r == h * 3_600_000 + inHour;
    assert inHour == m * 60_000 + inHour % 60_000;
    DivModUnique(r, 60_000, h * 60 + m, inHour % 60_000);
    var inMinute := r % 60_000;
    assert inMinute == s * 1000 + inMinute % 1000;
    DivModUnique(r, 1000, h * 3600 + m * 60 + s, inMinute % 1000);
  }

  /** The instant on day `z` at the given fields; fields beyond their range carry over, as a
      lenient Calendar does. */
  function AtTime(z: int, hour: int, minute: int, second: int, milli: int): int
  {
    DayStart(z) + hour * 3_600_000 + minute * 60_000 + second * 1000 + milli
  }

  lemma AtTimeFields(z: int, hour: int, minute: int, second: int, milli: int)
    requires 0 <= hour < 24 && 0 <= minute < 60 && 0 <= second < 60 && 0 <= milli < 1000
    ensures var t := AtTime(z, hour, minute, second, milli);
      DayNumber(t) == z && TimeOfDay(t) == hour * 3_600_000 + minute * 60_000 + second * 1000 + milli &&
      HourOf(t) == hour && MinuteOf(t) == minute && SecondOf(t) == second && MilliOf(t) == milli
  {
    var t := AtTime(z, hour, minute, second, milli);
    var r := hour * 3_600_000 + minute * 60_000 + second * 1000 + milli;
    DivModUnique(t, 86_400_000, z, r);
    DivModUnique(r, 3_600_000, hour, minute * 60_000 + second * 1000 + milli);
    DivModUnique(minute * 60_000 + second * 1000 + milli, 60_000, minute, second * 1000 + milli);
    DivModUnique(r, 60_000, hour * 60 + minute, second * 1000 + milli);
    DivModUnique(second * 1000 + milli, 1000, second, milli);
    DivModUnique(r, 1000, hour * 3600 + minute * 60 + second, milli);
  }

  // ---------------------------------------------------------------------------------------------
  // Weekdays

  /** Weekday of day `z`, 0 = Sunday .. 6 = Saturday; 1970-01-01 was a Thursday. */
  function Weekday(z: int): (w: int)
    ensures 0 <= w < 7
  {
    (z + 4) % 7
  }

  /** Calendar.get(DAY_OF_WEEK): SUNDAY = 1 .. SATURDAY = 7. */
  function DayOfWeekField(t: int): (c: int)
    ensures 1 <= c <= 7
  {
    Weekday(DayNumber(t)) + 1
  }

  const CalendarSunday: int := 1

  /** Days one week apart share their weekday, and consecutive days have consecutive weekdays. */
  lemma WeekdayShift(z: int, k: int)
    ensures Weekday(z + 7 * k) == Weekday(z)
    ensures Weekday(z + k) == (Weekday(z) + k) % 7
  {
  }

  // ---------------------------------------------------------------------------------------------
  // Civil dates

  /** A civil date; `month` is 1..12, that is Calendar.MONTH + 1. */
  datatype Date = Date(year: int, month: int, day: int)

  predicate IsLeapYear(y: int)
  {
    y % 4 == 0 && (y % 100 != 0 || y % 400 == 0)
  }

  /** Calendar.getActualMaximum(DAY_OF_MONTH). */
  function DaysInMonth(y: int, m: int): (n: int)
    requires 1 <= m <= 12
    ensures 28 <= n <= 31
    ensures m == 2 ==> (n == 29 <==> IsLeapYear(y))
    ensures m != 2 ==> (n == 30 <==> m in {4, 6, 9, 11})
  {
    if m == 2 then (if IsLeapYear(y) then 29 else 28)
    else if m == 4 || m == 6 || m == 9 || m == 11 then 30
    else 31
  }

  predicate ValidDate(d: Date)
  {
    1 <= d.month <= 12 && 1 <= d.day <= DaysInMonth(d.year, d.month)
  }

  // Years are counted from March 1, so that a leap day is the last day of its year, and the
  // Gregorian cycle of 400 years (an era) has 146097 days. Day 719468 after 0000-03-01 is
  // 1970-01-01, day number 0.


  /** Days from 0000-03-01 to March 1 of civil year `y`. */
  function YearStart(y: int): int
  {
    365 * y + y / 4 - y / 100 + y / 400
  }

  /** Length of the year that starts on March 1 of civil year `y`. */
  function MarchYearLength(y: int): int
  {
    if IsLeapYear(y + 1) then 366 else 365
  }

  /** Days from March 1 to the first day of the month `mp` months later (mp = 0 is March). */
  function MonthStart(mp: int): int
  {
    (153 * mp + 2) / 5
  }

  /** Months counted from March: March = 0 .. February = 11. */
  function MarchMonth(m: int): int
  {
    if m > 2 then m - 3 else m + 9
  }

  function CivilMonth(mp: int): int
  {
    if mp < 10 then mp + 3 else mp - 9
  }

  /** The civil year whose March 1 starts the year (counted from March) that `date` lies in. */
  function MarchYear(date: Date): int
  {
    if date.month <= 2 then date.year - 1 else date.year
  }

  lemma DivStep(k: int, b: int)
    requires b > 0
    ensures (k + 1) / b == k / b + (if (k + 1) % b == 0 then 1 else 0)
  {
    if k % b == b - 1 {
      DivModUnique(k + 1, b, k / b + 1, 0);
    } else {
      DivModUnique(k + 1, b, k / b, k % b + 1);
    }
  }

  lemma DivisibleChain(x: int)
    ensures x % 400 == 0 ==> x % 100 == 0
    ensures x % 100 == 0 ==> x % 4 == 0
  {
    if x % 400 == 0 {
      DivModUnique(x, 100, (x / 400) * 4, 0);
    }
    if x % 100 == 0 {
      DivModUnique(x, 4, (x / 100) * 25, 0);
    }
  }

  /** The year from March 1 of `y` ends the day before March 1 of `y + 1`. */
  lemma YearLength(y: int)
    ensures YearStart(y + 1) - YearStart(y) == MarchYearLength(y)
  {
    DivStep(y, 4);
    DivStep(y, 100);
    DivStep(y, 400);
    DivisibleChain(y + 1);
  }

  /** Each era adds the same number of days. */
  lemma EraYearStart(e: int, k: int)
    ensures YearStart(400 * e + k) == e * 146097 + YearStart(k)
  {
    DivModUnique(400 * e + k, 4, 100 * e + k / 4, k % 4);
    DivModUnique(400 * e + k, 100, 4 * e + k / 100, k % 100);
    DivModUnique(400 * e + k, 400, e + k / 400, k % 400);
  }

  lemma YearStartMonotonic(a: int, b: int)
    requires 0 <= a <= b <= 400
    ensures YearStart(a) <= YearStart(b)
    ensures a < b ==> YearStart(a + 1) <= YearStart(b)
  {
  }

  /** The month lengths from March on; February, the last month, is left to the year's length. */
  lemma MonthLengths(mp: int)
    requires 0 <= mp <= 10
    ensures MonthStart(mp + 1) - MonthStart(mp) == DaysInMonth(2001, CivilMonth(mp))
  {
  }

  lemma MonthStartMonotonic(a: int, b: int)
    requires a <= b
    ensures MonthStart(a) <= MonthStart(b)
  {
  }

  /** The year of the era that day `doe` of the era falls in, searched upwards from `k`. */
  function FindYear(doe: int, k: int): (r: int)
    requires 0 <= k <= 399 && YearStart(k) <= doe < 146097
    requires doe < YearStart(k + 2) || k == 399
    decreases 399 - k
    ensures k <= r <= 399 && YearStart(r) <= doe < YearStart(r + 1)
  {
    if k == 399 || doe < YearStart(k + 1) then k
    else
      assert k + 1 == 399 || doe < YearStart(k + 3) by { YearStartMonotonic(k + 2, if k + 3 <= 400 then k + 3 else 400); }
      FindYear(doe, k + 1)
  }

  /** The month (from March) that day `doy` of a year counted from March falls in. */
  function FindMonth(doy: int, mp: int): (r: int)
    requires 0 <= mp <= 11 && MonthStart(mp) <= doy < MonthStart(12)
    decreases 11 - mp
    ensures mp <= r <= 11 && MonthStart(r) <= doy < MonthStart(r + 1)
  {
    if mp == 11 || doy < MonthStart(mp + 1) then mp else FindMonth(doy, mp + 1)
  }

  function YearOfEra(doe: int): (r: int)
    requires 0 <= doe < 146097
    ensures 0 <= r <= 399 && YearStart(r) <= doe < YearStart(r + 1) && doe - YearStart(r) <= 365
  {
    var k := doe / 366;
    assert YearStart(k) <= doe;
    assert doe < YearStart(k + 2) || k == 399;
    var r := FindYear(doe, k);
    YearLength(r);
    r
  }

  function MonthOfYear(doy: int): (r: int)
    requires 0 <= doy <= 365
    ensures 0 <= r <= 11 && MonthStart(r) <= doy < MonthStart(r + 1)
  {
    FindMonth(doy, doy / 31)
  }

  /** The year of the era that day `doe` lies in is the only one whose bounds hold it. */
  lemma YearOfEraUnique(doe: int, k: int)
    requires 0 <= k <= 399 && YearStart(k) <= doe < YearStart(k + 1)
    ensures YearOfEra(doe) == k
  {
    var r := YearOfEra(doe);
    var lo, hi := if r < k then r else k, if r < k then k else r;
    YearStartMonotonic(lo, hi);
  }

  /** Day number of a date. A day past the end of its month counts on into the following months,
      as Calendar.set(DAY_OF_MONTH, d) does in lenient mode. */
  function DaysFromCivil(date: Date): int
    requires 1 <= date.month <= 12
  {
    YearStart(MarchYear(date)) + MonthStart(MarchMonth(date.month)) + date.day - 1 - 719468
  }

  /** The date `doy` days after March 1 of civil year `y`. */
  function DateOfMarchDay(y: int, doy: int): Date
    requires 0 <= doy <= 365
  {
    var mp := MonthOfYear(doy);
    var m := CivilMonth(mp);
    Date(if m <= 2 then y + 1 else y, m, doy - MonthStart(mp) + 1)
  }

  /** The date of day `doe` of era `era` (an era starts on March 1 of a year divisible by 400). */
  function EraDayDate(era: int, doe: int): Date
    requires 0 <= doe < 146097
  {
    var yoe := YearOfEra(doe);
    DateOfMarchDay(era * 400 + yoe, doe - YearStart(yoe))
  }

  /** The date of day number `z`. */
  function CivilFromDays(z: int): Date
  {
    var s := z + 719468;
    EraDayDate(s / 146097, s % 146097)
  }

  lemma MarchDayValid(y: int, doy: int)
    requires 0 <= doy < MarchYearLength(y)
    ensures ValidDate(DateOfMarchDay(y, doy))
  {
    var mp := MonthOfYear(doy);
    if mp <= 10 {
      MonthLengths(mp);
    }
  }

  lemma MarchDayDays(y: int, doy: int)
    requires 0 <= doy <= 365
    ensures DaysFromCivil(DateOfMarchDay(y, doy)) == YearStart(y) + doy - 719468
  {
  }

  /** Every real date is some day of the year counted from the March 1 before it. */
  lemma MarchDayOfDate(date: Date)
    requires ValidDate(date)
    ensures var doy := MonthStart(MarchMonth(date.month)) + date.day - 1;
      0 <= doy < MarchYearLength(MarchYear(date)) && DateOfMarchDay(MarchYear(date), doy) == date
  {
    var mp := MarchMonth(date.month);
    var doy := MonthStart(mp) + date.day - 1;
    if mp <= 10 {
      assert MonthStart(mp + 1) - MonthStart(mp) == DaysInMonth(date.year, date.month) by { MonthLengths(mp); }
      assert MonthStart(mp + 1) <= MonthStart(11) by { MonthStartMonotonic(mp + 1, 11); }
    }
    assert 0 <= doy < MarchYearLength(MarchYear(date));
    var m' := MonthOfYear(doy);
    assert m' == mp by {
      var lo, hi := if m' < mp then m' else mp, if m' < mp then mp else m';
      MonthStartMonotonic(lo + 1, if lo < hi then hi else lo + 1);
    }
  }

  lemma CivilFromDaysOfEraDay(z: int, era: int, doe: int)
    requires 0 <= doe < 146097 && z + 719468 == era * 146097 + doe
    ensures CivilFromDays(z) == EraDayDate(era, doe)
  {
    var s := z + 719468;
    assert s / 146097 == era && s % 146097 == doe by { DivModUnique(s, 146097, era, doe); }
  }

  lemma EraDayOfYear(era: int, k: int, doe: int, y: int, doy: int)
    requires 0 <= k <= 399 && YearStart(k) <= doe < YearStart(k + 1) && doe < 146097
    requires y == era * 400 + k && doy == doe - YearStart(k)
    ensures 0 <= doy <= 365 && EraDayDate(era, doe) == DateOfMarchDay(y, doy)
  {
    YearOfEraUnique(doe, k);
  }

  lemma CivilOfEraYearDay(z: int, e: int, k: int, doe: int, y: int, doy: int)
    requires 0 <= k <= 399 && YearStart(k) <= doe < YearStart(k + 1) && doe < 146097
    requires y == e * 400 + k && doy == doe - YearStart(k)
    requires z + 719468 == e * 146097 + doe
    ensures 0 <= doy <= 365 && CivilFromDays(z) == DateOfMarchDay(y, doy)
  {
    CivilFromDaysOfEraDay(z, e, doe);
    EraDayOfYear(e, k, doe, y, doy);
  }

  /** Where day `doy` of the year from March 1 of `y` lies in its era. */
  lemma MarchDayOfEra(y: int, doy: int) returns (e: int, k: int, doe: int)
    requires 0 <= doy < MarchYearLength(y)
    ensures 0 <= k <= 399 && YearStart(k) <= doe < YearStart(k + 1) && doe < 146097
    ensures y == e * 400 + k && doy == doe - YearStart(k)
    ensures YearStart(y) + doy == e * 146097 + doe
  {
    e, k := y / 400, y % 400;
    assert YearStart(y) == e * 146097 + YearStart(k) by { EraYearStart(e, k); }
    assert YearStart(y + 1) == e * 146097 + YearStart(k + 1) by { EraYearStart(e, k + 1); }
    assert YearStart(y + 1) - YearStart(y) == MarchYearLength(y) by { YearLength(y); }
    assert YearStart(k + 1) <= 146097 by { YearStartMonotonic(k + 1, 400); }
    doe := YearStart(k) + doy;
  }

  /** Day `doy` of the year from March 1 of `y` is the date of its day number `z`. */
  lemma CivilOfMarchDay(z: int, y: int, doy: int)
    requires 0 <= doy < MarchYearLength(y) && z == YearStart(y) + doy - 719468
    ensures CivilFromDays(z) == DateOfMarchDay(y, doy)
  {
    var e, k, doe := MarchDayOfEra(y, doy);
    CivilOfEraYearDay(z, e, k, doe, y, doy);
  }

  /** The era and the day of the era that day number `z` falls on. */
  lemma EraOfDay(z: int) returns (era: int, doe: int)
    ensures 0 <= doe < 146097 && z + 719468 == era * 146097 + doe
  {
    era, doe := (z + 719468) / 146097, (z + 719468) % 146097;
  }

  /** The decomposition CivilFromDays makes: the year from some March 1 and the day in it. */
  lemma CivilFromDaysSplit(z: int) returns (y: int, doy: int)
    ensures 0 <= doy < MarchYearLength(y) && z == YearStart(y) + doy - 719468
    ensures CivilFromDays(z) == DateOfMarchDay(y, doy)
  {
    var era, doe := EraOfDay(z);
    var yoe := YearOfEra(doe);
    y, doy := YearOfDay(z, era, doe, yoe);
    assert CivilFromDays(z) == DateOfMarchDay(y, doy) by { CivilOfEraYearDay(z, era, yoe, doe, y, doy); }
  }

  lemma YearOfDay(z: int, era: int, doe: int, yoe: int) returns (y: int, doy: int)
    requires 0 <= doe < 146097 && z + 719468 == era * 146097 + doe
    requires 0 <= yoe <= 399 && YearStart(yoe) <= doe < YearStart(yoe + 1)
    ensures y == era * 400 + yoe && doy == doe - YearStart(yoe)
    ensures 0 <= doy < MarchYearLength(y) && z == YearStart(y) + doy - 719468
  {
    y, doy := era * 400 + yoe, doe - YearStart(yoe);
    assert YearStart(y) == era * 146097 + YearStart(yoe) by { EraYearStart(era, yoe); }
    assert YearStart(y + 1) == era * 146097 + YearStart(yoe + 1) by { EraYearStart(era, yoe + 1); }
    assert YearStart(y + 1) - YearStart(y) == MarchYearLength(y) by { YearLength(y); }
  }

  /** Every day number names a real date. */
  lemma {:induction false} CivilFromDaysValid(z: int)
    ensures ValidDate(CivilFromDays(z))
  {
    var y, doy := CivilFromDaysSplit(z);
    MarchDayValid(y, doy);
  }

  /** Converting a day number to its date and back gives the same day number. */
  lemma {:induction false} DaysFromCivilOfCivil(z: int)
    ensures DaysFromCivil(CivilFromDays(z)) == z
  {
    var y, doy := CivilFromDaysSplit(z);
    MarchDayDays(y, doy);
  }

  /** Converting a real date to its day number and back gives the same date. */
  lemma {:induction false} CivilOfDaysFromCivil(date: Date)
    requires ValidDate(date)
    ensures CivilFromDays(DaysFromCivil(date)) == date
  {
    var z, y, doy := DaysFromCivil(date), MarchYear(date), MonthStart(MarchMonth(date.month)) + date.day - 1;
    assert 0 <= doy < MarchYearLength(y) && DateOfMarchDay(y, doy) == date by { MarchDayOfDate(date); }
    CivilOfMarchDay(z, y, doy);
  }

  /** Different days have different dates. */
  lemma CivilFromDaysInjective(a: int, b: int)
    ensures CivilFromDays(a) == CivilFromDays(b) <==> a == b
  {
    if CivilFromDays(a) == CivilFromDays(b) {
      DaysFromCivilOfCivil(a);
      DaysFromCivilOfCivil(b);
    }
  }

  function NextMonthFirst(y: int, m: int): Date
    requires 1 <= m <= 12
  {
    if m == 12 then Date(y + 1, 1, 1) else Date(y, m + 1, 1)
  }

  /** The day after the last day of a month is the first day of the next month. */
  lemma {:induction false} FirstOfNextMonth(y: int, m: int)
    requires 1 <= m <= 12
    ensures DaysFromCivil(NextMonthFirst(y, m)) == DaysFromCivil(Date(y, m, DaysInMonth(y, m))) + 1
  {
    if m == 2 {
      YearLength(y - 1);
    } else if 3 <= m <= 11 {
      MonthLengths(MarchMonth(m));
    }
  }

  // ---------------------------------------------------------------------------------------------
  // Calendar field access and arithmetic on instants

  /** Calendar.get(YEAR), get(MONTH) + 1 and get(DAY_OF_MONTH) of an instant. */
  function CivilOf(t: int): (d: Date)
    ensures ValidDate(d) && DaysFromCivil(d) == DayNumber(t)
  {
    CivilFromDaysValid(DayNumber(t));
    DaysFromCivilOfCivil(DayNumber(t));
    DaysFromCivilInjective();
    var d :| ValidDate(d) && DaysFromCivil(d) == DayNumber(t); d
  }

  /** A real date is determined by its day number. */
  lemma SameDayNumberSameDate(a: Date, b: Date)
    requires ValidDate(a) && ValidDate(b) && DaysFromCivil(a) == DaysFromCivil(b)
    ensures a == b
  {
    CivilOfDaysFromCivil(a);
    CivilOfDaysFromCivil(b);
  }

  /** The same, for every pair of dates. */
  lemma DaysFromCivilInjective()
    ensures forall a: Date, b: Date :: ValidDate(a) && ValidDate(b) && DaysFromCivil(a) == DaysFromCivil(b) ==> a == b
  {
    forall a: Date, b: Date | ValidDate(a) && ValidDate(b) && DaysFromCivil(a) == DaysFromCivil(b)
      ensures a == b
    {
      SameDayNumberSameDate(a, b);
    }
  }

  /** The instant on `date` at time of day `tod`. */
  function AtDate(date: Date, tod: int): int
    requires 1 <= date.month <= 12
  {
    DayStart(DaysFromCivil(date)) + tod
  }

  function Min(a: int, b: int): int
  {
    if a <= b then a else b
  }

  /** GregorianCalendar.add(MONTH, n) on a date: the month moves by n, carrying into the year, and
      the day of month is clamped to the length of the new month. */
  function AddMonths(date: Date, n: int): (r: Date)
    requires 1 <= date.month <= 12
    ensures 1 <= r.month <= 12 && r.year * 12 + r.month == date.year * 12 + date.month + n
    ensures r.day == Min(date.day, DaysInMonth(r.year, r.month))
    ensures 1 <= date.day ==> ValidDate(r)
  {
    var total := date.year * 12 + date.month - 1 + n;
    var m := total % 12 + 1;
    Date(total / 12, m, Min(date.day, DaysInMonth(total / 12, m)))
  }

  /** Moving back by the same number of months restores a day of month that every month has. */
  lemma AddMonthsInverse(date: Date, n: int)
    requires ValidDate(date) && date.day <= 28
    ensures AddMonths(AddMonths(date, n), -n) == date
  {
  }

  /** The example of java.util.GregorianCalendar: January 31, 2024 plus one month is February 29. */
  lemma AddMonthsClampsDay()
    ensures AddMonths(Date(2024, 1, 31), 1) == Date(2024, 2, 29)
    ensures AddMonths(Date(2023, 1, 31), 1) == Date(2023, 2, 28)
    ensures AddMonths(Date(2024, 12, 15), 1) == Date(2025, 1, 15)
  {
  }

  /** The date and the time of day of the instant on `date` at `tod` are `date` and `tod`. */
  lemma AtDateFields(date: Date, tod: int)
    requires ValidDate(date) && 0 <= tod < 86_400_000
    ensures var r := AtDate(date, tod);
      DayNumber(r) == DaysFromCivil(date) && TimeOfDay(r) == tod && CivilOf(r) == date
  {
    var z := DaysFromCivil(date);
    DayNumberOfDayStart(z, tod);
    CivilOfDay(AtDate(date, tod), date);
  }

  /** Calendar.add(MONTH, n) on an instant: the time of day is kept. */
  function AddMonthsTo(t: int, n: int): (r: int)
    ensures CivilOf(r) == AddMonths(CivilOf(t), n) && TimeOfDay(r) == TimeOfDay(t)
    ensures DayNumber(r) == DaysFromCivil(AddMonths(CivilOf(t), n))
  {
    var d := AddMonths(CivilOf(t), n);
    AtDateFields(d, TimeOfDay(t));
    AtDate(d, TimeOfDay(t))
  }

  /** The instant of a day is on the date of that day. */
  lemma CivilOfDay(t: int, date: Date)
    requires ValidDate(date) && DayNumber(t) == DaysFromCivil(date)
    ensures CivilOf(t) == date
  {
    SameDayNumberSameDate(CivilOf(t), date);
  }

  /** Within a month, the day number grows one per day of month. */
  lemma DaysFromCivilShift(y: int, m: int, d: int, k: int)
    requires 1 <= m <= 12
    ensures DaysFromCivil(Date(y, m, d + k)) == DaysFromCivil(Date(y, m, d)) + k
  {
  }

  /** Counting `k` days on within a month advances the day of month by `k`. */
  lemma DayOfMonthShift(t: int, k: int)
    requires 0 <= k && CivilOf(t).day + k <= DaysInMonth(CivilOf(t).year, CivilOf(t).month)
    ensures CivilOf(AddDays(t, k)) == CivilOf(t).(day := CivilOf(t).day + k)
  {
    var c := CivilOf(t);
    var d := c.(day := c.day + k);
    DaysFromCivilShift(c.year, c.month, c.day, k);
    CivilOfDay(AddDays(t, k), d);
  }

  /** A month after the first of a month is the first of the next one, as many days later as
      the month is long. */
  lemma MonthAfterFirst(date: Date)
    requires ValidDate(date) && date.day == 1
    ensures DaysFromCivil(AddMonths(date, 1)) == DaysFromCivil(date) + DaysInMonth(date.year, date.month)
  {
    var y, m := date.year, date.month;
    assert AddMonths(date, 1) == NextMonthFirst(y, m);
    FirstOfNextMonth(y, m);
    DaysFromCivilShift(y, m, 1, DaysInMonth(y, m) - 1);
  }

  /** A month after an instant on the first of a month is as many days later as the month is long. */
  lemma MonthAfterFirstInstant(t: int)
    requires CivilOf(t).day == 1
    ensures DayNumber(AddMonthsTo(t, 1)) == DayNumber(t) + DaysInMonth(CivilOf(t).year, CivilOf(t).month)
  {
    MonthAfterFirst(CivilOf(t));
  }

  /** Months in a running count: year * 12 + month. */
  function MonthIndex(d: Date): int
  {
    d.year * 12 + d.month
  }

  /** A date in a later month is a later day. */
  lemma {:induction false} LaterMonthLaterDay(a: Date, b: Date)
    requires ValidDate(a) && ValidDate(b) && MonthIndex(a) < MonthIndex(b)
    ensures DaysFromCivil(a) < DaysFromCivil(b)
    decreases MonthIndex(b) - MonthIndex(a)
  {
    var y, m := a.year, a.month;
    var c := NextMonthFirst(y, m);
    var da, dc, db := DaysFromCivil(a), DaysFromCivil(c), DaysFromCivil(b);
    assert da < dc by {
      FirstOfNextMonth(y, m);
      DaysFromCivilShift(y, m, a.day, DaysInMonth(y, m) - a.day);
    }
    assert MonthIndex(c) == MonthIndex(a) + 1;
    if MonthIndex(c) < MonthIndex(b) {
      LaterMonthLaterDay(c, b);
      assert dc < db;
    } else {
      assert dc <= db by {
        MonthIndexUnique(c, b);
        assert c == Date(b.year, b.month, 1);
        DaysFromCivilShift(b.year, b.month, 1, b.day - 1);
      }
    }
  }

  /** Dates with valid months share their month index only when they share year and month. */
  lemma MonthIndexUnique(a: Date, b: Date)
    requires 1 <= a.month <= 12 && 1 <= b.month <= 12 && MonthIndex(a) == MonthIndex(b)
    ensures a.year == b.year && a.month == b.month
  {
  }

  /** Adding a positive number of months moves an instant forward. */
  lemma AddMonthsToLater(t: int, n: int)
    requires n >= 1
    ensures AddMonthsTo(t, n) > t
  {
    var c := CivilOf(t);
    var r := AddMonthsTo(t, n);
    assert MonthIndex(CivilOf(r)) == MonthIndex(c) + n;
    LaterMonthLaterDay(c, CivilOf(r));
  }

  /** Calendar.set(DAY_OF_MONTH, day) on an instant, lenient: a day past the month's end rolls on. */
  function SetDayOfMonth(t: int, day: int): (r: int)
    ensures var c := CivilOf(t); DayNumber(r) == DaysFromCivil(Date(c.year, c.month, day))
    ensures TimeOfDay(r) == TimeOfDay(t)
  {
    var c := CivilOf(t);
    DayNumberOfDayStart(DaysFromCivil(Date(c.year, c.month, day)), TimeOfDay(t));
    AtDate(Date(c.year, c.month, day), TimeOfDay(t))
  }

  /** Calendar.set(YEAR, year) on an instant, lenient: February 29 becomes March 1 in a common year. */
  function SetYear(t: int, year: int): (r: int)
    ensures var c := CivilOf(t); DayNumber(r) == DaysFromCivil(Date(year, c.month, c.day))
    ensures TimeOfDay(r) == TimeOfDay(t)
  {
    var c := CivilOf(t);
    DayNumberOfDayStart(DaysFromCivil(Date(year, c.month, c.day)), TimeOfDay(t));
    AtDate(Date(year, c.month, c.day), TimeOfDay(t))
  }

  /** 2024-01-01 is day 19723 and a Monday. */
  lemma NewYear2024()
    ensures DaysFromCivil(Date(2024, 1, 1)) == 19723
    ensures Weekday(19723) == 1
  {
    assert YearStart(2023) == 738885;
    assert MonthStart(10) == 306;
  }

  /** An instant of day 19723 is on January 1, 2024. */
  lemma NewYear2024Instant(t: int)
    requires DayNumber(t) == 19723
    ensures CivilOf(t) == Date(2024, 1, 1)
  {
    NewYear2024();
    CivilOfDay(t, Date(2024, 1, 1));
  }

  /** The first of a month of 31 days. */
  lemma NewYear2024Month(t: int)
    requires DayNumber(t) == 19723
    ensures CivilOf(t).day == 1 && DaysInMonth(CivilOf(t).year, CivilOf(t).month) == 31
  {
    NewYear2024Instant(t);
  }

  /** A month after an instant on January 1, 2024 is on February 1, 31 days later. */
  lemma MonthAfterNewYear2024(t: int)
    requires DayNumber(t) == 19723
    ensures DayNumber(AddMonthsTo(t, 1)) == 19754
  {
    NewYear2024Month(t);
    MonthAfterFirstInstant(t);
  }
}
