/** The Gregorian calendar behind the `time` package calls of the cron engine.

    An instant is a whole number of seconds since 0001-01-01T00:00:00 on the clock of
    one fixed-offset zone; a day number is a whole number of days since that date.
    Both may be negative. Dafny's `/` and `%` round towards minus infinity for the
    positive constant divisors used here, which is the calendar's own rounding. */
module Calendar {

  const SECONDS_PER_DAY := 86400
  const DAYS_PER_ERA := 146097  // 400 Gregorian years

  predicate IsLeap(y: int) {
    y % 4 == 0 && (y % 100 != 0 || y % 400 == 0)
  }

  /** The day number of January 1 of year `y`. */
  function DaysBeforeYear(y: int): int {
    365 * (y - 1) + (y - 1) / 4 - (y - 1) / 100 + (y - 1) / 400
  }

  /** Days of a year that precede month `m`; month 13 stands for the end of the year. */
  function DaysBeforeMonth(leap: bool, m: int): int
    requires 1 <= m <= 13
  {
    (match m
     case 1 => 0 case 2 => 31 case 3 => 59 case 4 => 90 case 5 => 120 case 6 => 151
     case 7 => 181 case 8 => 212 case 9 => 243 case 10 => 273 case 11 => 304 case 12 => 334
     case _ => 365) + if leap && m > 2 then 1 else 0
  }

  function MonthLength(y: int, m: int): int
    requires 1 <= m <= 12
  {
    DaysBeforeMonth(IsLeap(y), m + 1) - DaysBeforeMonth(IsLeap(y), m)
  }

  lemma QuarterStep(y: int)
    ensures y / 4 == (y - 1) / 4 + if y % 4 == 0 then 1 else 0
  {
  }

  lemma CenturyStep(y: int)
    ensures y / 100 == (y - 1) / 100 + if y % 100 == 0 then 1 else 0
  {
  }

  lemma EraStep(y: int)
    ensures y / 400 == (y - 1) / 400 + if y % 400 == 0 then 1 else 0
  {
  }

  lemma MultiplesNest(y: int)
    ensures y % 400 == 0 ==> y % 100 == 0
    ensures y % 100 == 0 ==> y % 4 == 0
  {
    var c, r := y / 100, y % 100;
    assert y == 4 * (25 * c) + r;
    var e, f := y / 400, y % 400;
    assert y == 100 * (4 * e) + f;
  }

  lemma YearLength(y: int)
    ensures DaysBeforeYear(y + 1) - DaysBeforeYear(y) == (if IsLeap(y) then 366 else 365)
  {
    QuarterStep(y);
    CenturyStep(y);
    EraStep(y);
    MultiplesNest(y);
    var a, b, c := y / 4, y / 100, y / 400;
    var a', b', c' := (y - 1) / 4, (y - 1) / 100, (y - 1) / 400;
    assert DaysBeforeYear(y + 1) == 365 * y + a - b + c;
    assert DaysBeforeYear(y) == 365 * (y - 1) + a' - b' + c';
  }

  lemma YearsAscend(y: int, z: int)
    requires y <= z
    ensures DaysBeforeYear(z) - DaysBeforeYear(y) >= 365 * (z - y)
    decreases z - y
  {
    if y < z {
      YearLength(z - 1);
      YearsAscend(y, z - 1);
    }
  }

  /** The Gregorian cycle repeats every 400 years. */
  lemma EraShift(y: int, era: int)
    ensures DaysBeforeYear(y + 400 * era) == DaysBeforeYear(y) + DAYS_PER_ERA * era
  {
    var p := y - 1;
    assert (p + 400 * era) / 4 == p / 4 + 100 * era;
    assert (p + 400 * era) / 100 == p / 100 + 4 * era;
    assert (p + 400 * era) / 400 == p / 400 + era;
  }

  /** The year containing day `n`, searched upwards from a year that starts no later. */
  function YearFrom(y: int, n: int): (r: int)
    requires DaysBeforeYear(y) <= n
    ensures DaysBeforeYear(r) <= n < DaysBeforeYear(r + 1)
    decreases n - DaysBeforeYear(y)
  {
    YearLength(y);
    if n < DaysBeforeYear(y + 1) then y else YearFrom(y + 1, n)
  }

  function YearOfDay(n: int): (y: int)
    ensures DaysBeforeYear(y) <= n < DaysBeforeYear(y + 1)
  {
    var era := n / DAYS_PER_ERA;
    var y := YearFrom(1, n % DAYS_PER_ERA);
    EraShift(y, era);
    EraShift(y + 1, era);
    y + 400 * era
  }

  function MonthFrom(leap: bool, m: int, dayOfYear: int): (r: int)
    requires 1 <= m <= 12
    requires DaysBeforeMonth(leap, m) <= dayOfYear < DaysBeforeMonth(leap, 13)
    ensures m <= r <= 12
    ensures DaysBeforeMonth(leap, r) <= dayOfYear < DaysBeforeMonth(leap, r + 1)
    decreases 12 - m
  {
    if dayOfYear < DaysBeforeMonth(leap, m + 1) then m else MonthFrom(leap, m + 1, dayOfYear)
  }

  function MonthOfDay(n: int): (m: int)
    ensures 1 <= m <= 12
  {
    var y := YearOfDay(n);
    YearLength(y);
    MonthFrom(IsLeap(y), 1, n - DaysBeforeYear(y))
  }

  function FirstOfMonth(n: int): int {
    DaysBeforeYear(YearOfDay(n)) + DaysBeforeMonth(IsLeap(YearOfDay(n)), MonthOfDay(n))
  }

  function DayOfMonth(n: int): int {
    n - FirstOfMonth(n) + 1
  }

  /** 0 is Sunday; 0001-01-01 was a Monday. */
  function WeekdayOfDay(n: int): (w: int)
    ensures 0 <= w <= 6
  {
    (n + 1) % 7
  }

  // The accessors of `time.Time`.

  function DayIndex(t: int): int { t / SECONDS_PER_DAY }
  function Year(t: int): int { YearOfDay(DayIndex(t)) }
  function Month(t: int): (m: int) ensures 1 <= m <= 12 { MonthOfDay(DayIndex(t)) }
  function Day(t: int): (d: int)
    ensures 1 <= d <= 31
  {
    DayBounds(DayIndex(t));
    DayOfMonth(DayIndex(t))
  }
  function Weekday(t: int): (w: int) ensures 0 <= w <= 6 { WeekdayOfDay(DayIndex(t)) }
  function Hour(t: int): (h: int) ensures 0 <= h <= 23 { t % SECONDS_PER_DAY / 3600 }
  function Minute(t: int): (m: int) ensures 0 <= m <= 59 { t % 3600 / 60 }
  function Second(t: int): (s: int) ensures 0 <= s <= 59 { t % 60 }

  lemma DayBounds(n: int)
    ensures 1 <= DayOfMonth(n) <= MonthLength(YearOfDay(n), MonthOfDay(n)) <= 31
  {
    YearLength(YearOfDay(n));
  }

  /** `time.Date`: a month outside 1..12 carries into the year, and a day, hour, minute
      or second outside its range carries into the next larger field. */
  function Date(y: int, m: int, d: int, hh: int, mm: int, ss: int): int {
    var year := y + (m - 1) / 12;
    var month := (m - 1) % 12 + 1;
    (DaysBeforeYear(year) + DaysBeforeMonth(IsLeap(year), month) + d - 1) * SECONDS_PER_DAY
    + hh * 3600 + mm * 60 + ss
  }

  /** `Time.AddDate` keeps the clock and normalizes the shifted date like `Date`. */
  function AddDate(t: int, years: int, months: int, days: int): int {
    Date(Year(t) + years, Month(t) + months, Day(t) + days, Hour(t), Minute(t), Second(t))
  }

  /** `Time.Truncate` to a multiple of `unit`, counted from the zero time. */
  function Truncate(t: int, unit: int): int
    requires unit > 0
  {
    t - t % unit
  }

  /** The first instant of the year. */
  function YearStart(y: int): int { DaysBeforeYear(y) * SECONDS_PER_DAY }

  lemma YearIsUnique(n: int, y: int)
    requires DaysBeforeYear(y) <= n < DaysBeforeYear(y + 1)
    ensures YearOfDay(n) == y
  {
    var z := YearOfDay(n);
    if z < y {
      YearsAscend(z + 1, y);
    } else if y < z {
      YearsAscend(y + 1, z);
    }
  }

  lemma MonthIsUnique(leap: bool, doy: int, m: int, r: int)
    requires 1 <= m <= 12 && 1 <= r <= 12
    requires DaysBeforeMonth(leap, m) <= doy < DaysBeforeMonth(leap, m + 1)
    requires DaysBeforeMonth(leap, r) <= doy < DaysBeforeMonth(leap, r + 1)
    ensures m == r
  {
  }

  /** Reading a valid date's day number back gives the date: the calendar is a bijection. */
  lemma DayNumberRoundTrip(y: int, m: int, d: int)
    requires 1 <= m <= 12 && 1 <= d <= MonthLength(y, m)
    ensures var n := DaysBeforeYear(y) + DaysBeforeMonth(IsLeap(y), m) + d - 1;
            YearOfDay(n) == y && MonthOfDay(n) == m && DayOfMonth(n) == d
  {
    hide YearOfDay, DaysBeforeYear, IsLeap;
    var n := DaysBeforeYear(y) + DaysBeforeMonth(IsLeap(y), m) + d - 1;
    YearLength(y);
    YearIsUnique(n, y);
    MonthIsUnique(IsLeap(y), n - DaysBeforeYear(y), m, MonthOfDay(n));
  }

  lemma SplitDay(t: int, n: int, sod: int)
    requires 0 <= sod < SECONDS_PER_DAY && t == n * SECONDS_PER_DAY + sod
    ensures t / SECONDS_PER_DAY == n && t % SECONDS_PER_DAY == sod
  {
  }

  lemma SplitHour(t: int, h: int, soh: int)
    requires 0 <= soh < 3600 && t == h * 3600 + soh
    ensures t / 3600 == h && t % 3600 == soh
  {
  }

  lemma SplitMinute(t: int, m: int, s: int)
    requires 0 <= s < 60 && t == m * 60 + s
    ensures t / 60 == m && t % 60 == s
  {
  }

  /** The clock fields and the day index determine the instant ... */
  lemma ClockParts(t: int)
    ensures t == DayIndex(t) * SECONDS_PER_DAY + Hour(t) * 3600 + Minute(t) * 60 + Second(t)
  {
    var n, sod := t / SECONDS_PER_DAY, t % SECONDS_PER_DAY;
    var h, soh := sod / 3600, sod % 3600;
    SplitHour(t, 24 * n + h, soh);
    SplitMinute(t, 1440 * n + 60 * h + soh / 60, soh % 60);
  }

  /** ... and are determined by it. */
  lemma ClockFields(t: int, n: int, hh: int, mm: int, ss: int)
    requires 0 <= hh <= 23 && 0 <= mm <= 59 && 0 <= ss <= 59
    requires t == n * SECONDS_PER_DAY + hh * 3600 + mm * 60 + ss
    ensures DayIndex(t) == n && Hour(t) == hh && Minute(t) == mm && Second(t) == ss
  {
    SplitDay(t, n, hh * 3600 + mm * 60 + ss);
    SplitHour(t, 24 * n + hh, mm * 60 + ss);
    SplitHour(hh * 3600 + mm * 60 + ss, hh, mm * 60 + ss);
    SplitMinute(mm * 60 + ss, mm, ss);
    SplitMinute(t, 1440 * n + 60 * hh + mm, ss);
  }

  /** `Date` and the accessors are inverse on valid fields ... */
  lemma FieldsOfDate(y: int, m: int, d: int, hh: int, mm: int, ss: int)
    requires 1 <= m <= 12 && 1 <= d <= MonthLength(y, m)
    requires 0 <= hh <= 23 && 0 <= mm <= 59 && 0 <= ss <= 59
    ensures var t := Date(y, m, d, hh, mm, ss);
            Year(t) == y && Month(t) == m && Day(t) == d && Hour(t) == hh && Minute(t) == mm && Second(t) == ss
  {
    hide YearOfDay, MonthOfDay, DayOfMonth, DayIndex, Hour, Minute, Second, DaysBeforeYear, DaysBeforeMonth;
    DayNumberRoundTrip(y, m, d);
    ClockFields(Date(y, m, d, hh, mm, ss), DaysBeforeYear(y) + DaysBeforeMonth(IsLeap(y), m) + d - 1, hh, mm, ss);
  }

  /** ... and on every instant. */
  lemma DateOfFields(t: int)
    ensures Date(Year(t), Month(t), Day(t), Hour(t), Minute(t), Second(t)) == t
  {
    hide YearOfDay, MonthOfDay, DayIndex, Hour, Minute, Second, DaysBeforeYear, DaysBeforeMonth;
    ClockParts(t);
  }

  // The calendar told by succession, from one known date.

  /** 30 days hath September, April, June, and November. */
  function DaysOfMonth(y: int, m: int): int {
    if m in {4, 6, 9, 11} then 30
    else if m != 2 then 31
    else if y % 400 == 0 || (y % 4 == 0 && y % 100 != 0) then 29
    else 28
  }

  lemma MonthLengths(y: int, m: int)
    requires 1 <= m <= 12
    ensures MonthLength(y, m) == DaysOfMonth(y, m)
  {
  }

  /** January 2, 2001 was a Tuesday. */
  lemma KnownTuesday()
    ensures var t := Date(2001, 1, 2, 0, 0, 0);
            Year(t) == 2001 && Month(t) == 1 && Day(t) == 2 && Weekday(t) == 2
  {
    hide YearOfDay, MonthOfDay, DayOfMonth, Hour, Minute, Second;
    MonthLengths(2001, 1);
    FieldsOfDate(2001, 1, 2, 0, 0, 0);
  }

  lemma NextWeekday(n: int)
    ensures WeekdayOfDay(n + 1) == (WeekdayOfDay(n) + 1) % 7
  {
  }

  /** The day after a date is the next day of the month, or the first of the next month, with the
      next day of the week; the clock stays. */
  lemma DayAfter(t: int)
    ensures var u, y, m, d := t + SECONDS_PER_DAY, Year(t), Month(t), Day(t);
            && 1 <= d <= DaysOfMonth(y, m)
            && Weekday(u) == (Weekday(t) + 1) % 7
            && Hour(u) == Hour(t) && Minute(u) == Minute(t) && Second(u) == Second(t)
            && (Year(u), Month(u), Day(u)) ==
               if d < DaysOfMonth(y, m) then (y, m, d + 1) else if m < 12 then (y, m + 1, 1) else (y + 1, 1, 1)
  {
    hide YearOfDay, MonthOfDay, DayOfMonth, DayIndex, Hour, Minute, Second, DaysBeforeYear, DaysBeforeMonth, WeekdayOfDay;
    var n := DayIndex(t);
    ClockParts(t);
    ClockFields(t + SECONDS_PER_DAY, n + 1, Hour(t), Minute(t), Second(t));
    NextWeekday(n);
    DateAfter(n);
  }

  lemma DateAfter(n: int)
    ensures var y, m, d := YearOfDay(n), MonthOfDay(n), DayOfMonth(n);
            && 1 <= d <= DaysOfMonth(y, m)
            && (YearOfDay(n + 1), MonthOfDay(n + 1), DayOfMonth(n + 1)) ==
               if d < DaysOfMonth(y, m) then (y, m, d + 1) else if m < 12 then (y, m + 1, 1) else (y + 1, 1, 1)
  {
    DayBounds(n);
    DayNumberOf(n);
    hide YearOfDay, MonthOfDay, DayOfMonth, DaysBeforeYear, DaysOfMonth, DaysBeforeMonth, MonthLength;
    MonthLengths(YearOfDay(n), MonthOfDay(n));
    DateAfterDate(YearOfDay(n), MonthOfDay(n), DayOfMonth(n));
  }

  lemma DateAfterDate(y: int, m: int, d: int)
    requires 1 <= m <= 12 && 1 <= d <= MonthLength(y, m)
    ensures var n := DaysBeforeYear(y) + DaysBeforeMonth(IsLeap(y), m) + d - 1;
            (YearOfDay(n + 1), MonthOfDay(n + 1), DayOfMonth(n + 1)) ==
            if d < MonthLength(y, m) then (y, m, d + 1) else if m < 12 then (y, m + 1, 1) else (y + 1, 1, 1)
  {
    hide YearOfDay, MonthOfDay, DayOfMonth, DaysBeforeYear, DaysOfMonth, IsLeap;
    if d < MonthLength(y, m) {
      DayNumberRoundTrip(y, m, d + 1);
    } else if m < 12 {
      FirstOfEachMonth(y, m + 1);
      DayNumberRoundTrip(y, m + 1, 1);
    } else {
      YearLength(y);
      FirstOfEachMonth(y + 1, 1);
      DayNumberRoundTrip(y + 1, 1, 1);
    }
  }

  lemma FirstOfEachMonth(y: int, m: int)
    requires 1 <= m <= 12
    ensures MonthLength(y, m) >= 1
  {
  }

  lemma DayNumberOf(n: int)
    ensures n == DaysBeforeYear(YearOfDay(n)) + DaysBeforeMonth(IsLeap(YearOfDay(n)), MonthOfDay(n)) + DayOfMonth(n) - 1
  {
  }

  lemma SevenStep(x: int)
    ensures (x % 7 + 1) % 7 == (x + 1) % 7
  {
  }

  lemma {:induction false} WeekdayFrom(known: int, n: int)
    ensures WeekdayOfDay(n) == (WeekdayOfDay(known) + n - known) % 7
    decreases if n < known then known - n else n - known
  {
    hide WeekdayOfDay;
    var w := WeekdayOfDay(known);
    if n < known {
      WeekdayFrom(known, n + 1);
      NextWeekday(n);
      SevenStep(w + n - known);
    } else if n > known {
      WeekdayFrom(known, n - 1);
      NextWeekday(n - 1);
      SevenStep(w + n - 1 - known);
    }
  }

  /** The weekday of every date follows from the known Tuesday by counting days. */
  lemma WeekdayOfDate(y: int, m: int, d: int, hh: int, mm: int, ss: int)
    requires 1 <= m <= 12 && 1 <= d <= DaysOfMonth(y, m) && 0 <= hh <= 23 && 0 <= mm <= 59 && 0 <= ss <= 59
    ensures var days := (Date(y, m, d, 0, 0, 0) - Date(2001, 1, 2, 0, 0, 0)) / SECONDS_PER_DAY;
            Weekday(Date(y, m, d, hh, mm, ss)) == (2 + days) % 7
  {
    hide WeekdayOfDay, DaysBeforeYear, DaysBeforeMonth, Hour, Minute, Second;
    var n := DaysBeforeYear(y) + DaysBeforeMonth(IsLeap(y), m) + d - 1;
    var known := DaysBeforeYear(2001) + DaysBeforeMonth(IsLeap(2001), 1) + 1;
    ClockFields(Date(y, m, d, hh, mm, ss), n, hh, mm, ss);
    ClockFields(Date(2001, 1, 2, 0, 0, 0), known, 0, 0, 0);
    KnownTuesday();
    WeekdayFrom(known, n);
  }
}
