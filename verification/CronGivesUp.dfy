/** Exactly when the search of a schedule gives up although an activation still comes. */
module CronGivesUp {
  import opened Results
  import opened Search
  import opened Calendar
  import opened CronSpec
  import opened CronActivations
  import CronParser
  import Mask

  /** Every star bit stands for a full field, which parsing makes sure of. */
  ghost predicate StarsAreFull(s: SpecSchedule) {
    && (Mask.Star(s.dom) ==> forall d: nat :: 1 <= d <= 31 ==> Mask.Has(s.dom, d))
    && (Mask.Star(s.dow) ==> forall w: nat :: w <= 6 ==> Mask.Has(s.dow, w))
  }

  lemma ParsedStarsAreFull(s: SpecSchedule, fields: seq<string>)
    requires CronParser.Schedules(s, fields)
    ensures StarsAreFull(s)
  {
    hide Mask.Has, Mask.Star, CronParser.FieldOk, CronParser.FieldMask;
    StarFieldIsFull(s.dom, fields[3], CronParser.DOM);
    StarFieldIsFull(s.dow, fields[5], CronParser.DOW);
  }

  lemma StarFieldIsFull(bits: bv64, field: string, b: CronParser.Bounds)
    requires b.max < 63 && CronParser.FieldOk(field, b) && CronParser.FieldMask(bits, field, b)
    ensures Mask.Star(bits) ==> forall k: nat :: b.min <= k <= b.max ==> Mask.Has(bits, k)
  {
    hide Mask.Has, Mask.Star, CronParser.FieldOk, CronParser.InField, CronParser.HasStar;
    Mask.StarIsBit63(bits);
    CronParser.FieldsAreUsable(bits, field, b);
  }

  predicate ClockEnabled(s: SpecSchedule, hh: nat, mm: nat, ss: nat) {
    hh <= 23 && mm <= 59 && ss <= 59 && Mask.Has(s.hour, hh) && Mask.Has(s.minute, mm) && Mask.Has(s.second, ss)
  }

  ghost predicate HasClock(s: SpecSchedule) {
    exists hh: nat, mm: nat, ss: nat :: ClockEnabled(s, hh, mm, ss)
  }

  /** Some weekday makes a day match whatever its date. */
  ghost predicate WeekdayDecides(s: SpecSchedule) {
    (Mask.Star(s.dom) || !Mask.Star(s.dow)) && exists w: nat :: w <= 6 && Mask.Has(s.dow, w)
  }

  ghost predicate DateEnabled(s: SpecSchedule, m: nat, d: nat)
    requires m <= 12 && d <= 31
  {
    Mask.Has(s.month, m) && exists w: nat :: w <= 6 && DayRule(s, d, w)
  }

  /** The days of the month in a common year. */
  function CommonLength(m: int): (n: int)
    requires 1 <= m <= 12
    ensures 28 <= n <= 31
  {
    DaysBeforeMonth(false, m + 1) - DaysBeforeMonth(false, m)
  }

  /** The next five years hold no leap year: `y` is 96, 97 or 98 of a century whose end is none. */
  predicate NoLeapYearAhead(y: int) {
    96 <= y % 100 <= 98 && (y / 100 + 1) % 4 != 0
  }

  lemma NoLeapYearAheadExactly(y: int)
    ensures NoLeapYearAhead(y) <==> forall k :: y < k <= y + 5 ==> !IsLeap(k)
  {
    var c, r := y / 100, y % 100;
    assert y == 100 * c + r;
    if NoLeapYearAhead(y) {
      forall k | y < k <= y + 5 ensures !IsLeap(k) {
        LeapOfCentury(c, k - 100 * c);
      }
    } else if 96 <= r <= 98 {
      LeapOfCentury(c, 100);
      assert IsLeap(100 * c + 100);
    } else if r == 99 {
      LeapOfCentury(c, 104);
      assert IsLeap(100 * c + 104);
    } else if r < 96 {
      var k := r + 4 - r % 4;
      LeapOfCentury(c, k);
      assert IsLeap(100 * c + k);
    }
  }

  lemma LeapOfCentury(c: int, k: int)
    requires 0 < k < 200
    ensures IsLeap(100 * c + k) <==> k % 4 == 0 && (k == 100 ==> (c + 1) % 4 == 0)
  {
    assert 100 * c + k == 4 * (25 * c) + k;
    if k == 100 {
      assert 100 * c + k == 100 * (c + 1);
      var q, r := (c + 1) / 4, (c + 1) % 4;
      assert 100 * c + k == 400 * q + 100 * r;
    }
  }

  /** No date of a common year is enabled. */
  ghost predicate NoCommonDate(s: SpecSchedule) {
    forall m: nat, d: nat :: 1 <= m <= 12 && 1 <= d <= CommonLength(m) ==> !DateEnabled(s, m, d)
  }

  /** The last enabled clock time of this year's February 29 lies before the given second. */
  ghost predicate LeapDayIsPast(s: SpecSchedule, start: int) {
    forall hh: nat, mm: nat, ss: nat :: ClockEnabled(s, hh, mm, ss) ==> Date(Year(start), 2, 29, hh, mm, ss) < start
  }

  /** The schedule fires on no date but February 29, and no February 29 after the given instant
      lies within the search's years, although one comes later. */
  ghost predicate LosesLeapDay(s: SpecSchedule, nanos: int) {
    var start := UpcomingSecond(nanos);
    && HasClock(s) && !WeekdayDecides(s) && NoCommonDate(s) && DateEnabled(s, 2, 29)
    && NoLeapYearAhead(Year(start)) && (IsLeap(Year(start)) ==> LeapDayIsPast(s, start))
  }

  // Dates that match.

  lemma SameRuleOnEveryWeekday(s: SpecSchedule, d: nat, v: nat, w: nat)
    requires StarsAreFull(s) && !WeekdayDecides(s) && 1 <= d <= 31 && v <= 6 && w <= 6
    ensures DayRule(s, d, v) == DayRule(s, d, w)
  {
    hide Mask.Has, Mask.Star;
  }

  lemma LengthOfMonth(y: int, m: int)
    requires 1 <= m <= 12
    ensures MonthLength(y, m) == CommonLength(m) + if IsLeap(y) && m == 2 then 1 else 0
    ensures CommonLength(2) == 28
  {
  }

  lemma DateMatches(s: SpecSchedule, y: int, m: nat, d: nat, hh: nat, mm: nat, ss: nat, w: nat)
    requires 1 <= m <= 12 && 1 <= d <= MonthLength(y, m) && d <= 31 && ClockEnabled(s, hh, mm, ss)
    requires Mask.Has(s.month, m) && w <= 6 && DayRule(s, d, w)
    requires w == Weekday(Date(y, m, d, hh, mm, ss)) || (StarsAreFull(s) && !WeekdayDecides(s))
    ensures Matches(s, Date(y, m, d, hh, mm, ss))
  {
    hide Mask.Has, DayRule, Year, Month, Day, Weekday, Hour, Minute, Second, Date, MonthLength, StarsAreFull, WeekdayDecides;
    var t := Date(y, m, d, hh, mm, ss);
    FieldsOfDate(y, m, d, hh, mm, ss);
    if w != Weekday(t) {
      SameRuleOnEveryWeekday(s, d, w, Weekday(t));
    }
  }

  /** Some day of the first week of the month falls on the weekday. */
  lemma WeekdayInMonth(y: int, m: nat, w: nat, hh: nat, mm: nat, ss: nat) returns (d: nat)
    requires 1 <= m <= 12 && w <= 6 && hh <= 23 && mm <= 59 && ss <= 59
    ensures 1 <= d <= 7 && Weekday(Date(y, m, d, hh, mm, ss)) == w
  {
    hide DaysBeforeYear, DaysBeforeMonth, DayIndex, Hour, Minute, Second;
    var first := DaysBeforeYear(y) + DaysBeforeMonth(IsLeap(y), m);
    d := 1 + (w - WeekdayOfDay(first)) % 7;
    ClockFields(Date(y, m, d, hh, mm, ss), first + d - 1, hh, mm, ss);
  }

  lemma WithinSearch(s: SpecSchedule, nanos: int, u: int)
    requires Matches(s, u) && Year(UpcomingSecond(nanos)) < Year(u) <= Year(UpcomingSecond(nanos)) + 5
    ensures NextActivation(s, nanos).Some?
  {
    hide Matches, Year, NextActivation;
    NextIsLeastMatch(s, nanos);
    LaterYearIsLater(UpcomingSecond(nanos), u);
  }

  lemma LaterYearIsLater(t: int, u: int)
    requires Year(t) < Year(u)
    ensures t < u
  {
    hide Year, YearStart;
    YearBounds(t, Year(t));
    YearBounds(u, Year(t));
  }

  lemma YearOfDate(y: int, m: nat, d: nat, hh: nat, mm: nat, ss: nat)
    requires 1 <= m <= 12 && 1 <= d <= MonthLength(y, m) && hh <= 23 && mm <= 59 && ss <= 59
    ensures Year(Date(y, m, d, hh, mm, ss)) == y
  {
    hide Year, Date, MonthLength, Month, Day, Hour, Minute, Second;
    FieldsOfDate(y, m, d, hh, mm, ss);
  }

  lemma WeekdayRule(s: SpecSchedule, d: nat, w: nat)
    requires StarsAreFull(s) && (Mask.Star(s.dom) || !Mask.Star(s.dow)) && w <= 6 && Mask.Has(s.dow, w) && 1 <= d <= 31
    ensures DayRule(s, d, w)
  {
    hide Mask.Has, Mask.Star;
  }

  lemma MatchOnWeekday(s: SpecSchedule, nanos: int, m: nat)
    requires StarsAreFull(s) && HasClock(s) && WeekdayDecides(s) && 1 <= m <= 12 && Mask.Has(s.month, m)
    ensures NextActivation(s, nanos).Some?
  {
    hide Mask.Has, Mask.Star, Matches, Year, Date, Weekday, MonthLength, CommonLength, NextActivation, StarsAreFull;
    var hh: nat, mm: nat, ss: nat :| ClockEnabled(s, hh, mm, ss);
    var w: nat :| w <= 6 && Mask.Has(s.dow, w);
    var y := Year(UpcomingSecond(nanos)) + 1;
    var d := WeekdayInMonth(y, m, w, hh, mm, ss);
    LengthOfMonth(y, m);
    assert DayRule(s, d, w) by { WeekdayRule(s, d, w); }
    DateMatches(s, y, m, d, hh, mm, ss, w);
    YearOfDate(y, m, d, hh, mm, ss);
    WithinSearch(s, nanos, Date(y, m, d, hh, mm, ss));
  }

  lemma MatchIsEnabled(s: SpecSchedule, u: int)
    requires Matches(s, u)
    ensures DateEnabled(s, Month(u), Day(u)) && ClockEnabled(s, Hour(u), Minute(u), Second(u))
    ensures Day(u) <= MonthLength(Year(u), Month(u))
  {
    hide Mask.Has, DayRule, YearOfDay, MonthOfDay, DayOfMonth, DayIndex, Hour, Minute, Second, MonthLength, WeekdayOfDay;
    DayBounds(DayIndex(u));
    assert DayRule(s, Day(u), Weekday(u));
  }

  /** Without an enabled date of a common year only February 29 can match. */
  lemma OnlyLeapDay(s: SpecSchedule, u: int)
    requires Matches(s, u)
    requires NoCommonDate(s)
    ensures Month(u) == 2 && Day(u) == 29 && IsLeap(Year(u)) && DateEnabled(s, 2, 29)
  {
    hide Matches, DateEnabled, Year, Month, Day, MonthLength, CommonLength, IsLeap, ClockEnabled;
    MatchIsEnabled(s, u);
    LengthOfMonth(Year(u), Month(u));
  }

  lemma MatchOnDate(s: SpecSchedule, nanos: int, y: int, m: nat, d: nat)
    requires StarsAreFull(s) && HasClock(s) && !WeekdayDecides(s)
    requires 1 <= m <= 12 && 1 <= d <= MonthLength(y, m) && d <= 31 && DateEnabled(s, m, d)
    requires Year(UpcomingSecond(nanos)) < y
    ensures exists u :: nanos < u * NANOS && Matches(s, u)
    ensures y <= Year(UpcomingSecond(nanos)) + 5 ==> NextActivation(s, nanos).Some?
  {
    hide Mask.Has, Matches, Year, Date, MonthLength, DayRule, NextActivation, StarsAreFull, WeekdayDecides;
    var hh: nat, mm: nat, ss: nat :| ClockEnabled(s, hh, mm, ss);
    var w: nat :| w <= 6 && DayRule(s, d, w);
    var u := Date(y, m, d, hh, mm, ss);
    DateMatches(s, y, m, d, hh, mm, ss, w);
    YearOfDate(y, m, d, hh, mm, ss);
    LaterYearIsLater(UpcomingSecond(nanos), u);
    assert nanos < u * NANOS && Matches(s, u);
    if y <= Year(UpcomingSecond(nanos)) + 5 {
      WithinSearch(s, nanos, u);
    }
  }

  lemma LeapYearAfter(y: int) returns (k: int)
    ensures y < k && IsLeap(k)
  {
    k := 400 * (y / 400 + 1);
  }

  lemma MatchThisLeapDay(s: SpecSchedule, nanos: int, y: int, hh: nat, mm: nat, ss: nat)
    requires StarsAreFull(s) && !WeekdayDecides(s) && DateEnabled(s, 2, 29) && ClockEnabled(s, hh, mm, ss)
    requires y == Year(UpcomingSecond(nanos)) && IsLeap(y) && UpcomingSecond(nanos) <= Date(y, 2, 29, hh, mm, ss)
    ensures NextActivation(s, nanos).Some?
  {
    hide Mask.Has, Matches, Year, Date, MonthLength, CommonLength, DayRule, NextActivation, StarsAreFull, WeekdayDecides, IsLeap;
    var w: nat :| w <= 6 && DayRule(s, 29, w);
    LengthOfMonth(y, 2);
    DateMatches(s, y, 2, 29, hh, mm, ss, w);
    YearOfDate(y, 2, 29, hh, mm, ss);
    NextIsLeastMatch(s, nanos);
  }

  lemma LosingMeansNone(s: SpecSchedule, nanos: int)
    requires StarsAreFull(s) && LosesLeapDay(s, nanos)
    ensures NextActivation(s, nanos) == None && exists u :: nanos < u * NANOS && Matches(s, u)
  {
    hide Matches, Year, Month, Day, Hour, Minute, Second, Date, MonthLength, CommonLength, DateEnabled, NextActivation;
    hide StarsAreFull, WeekdayDecides, IsLeap, NoLeapYearAhead, HasClock, ClockEnabled;
    var start := UpcomingSecond(nanos);
    var later := LeapYearAfter(Year(start));
    LengthOfMonth(later, 2);
    MatchOnDate(s, nanos, later, 2, 29);
    NextIsLeastMatch(s, nanos);
    if NextActivation(s, nanos).Some? {
      NoMatchInSearch(s, nanos, NextActivation(s, nanos).value);
    }
  }

  lemma NoMatchInSearch(s: SpecSchedule, nanos: int, u: int)
    requires LosesLeapDay(s, nanos) && Matches(s, u) && UpcomingSecond(nanos) <= u
    ensures Year(u) > Year(UpcomingSecond(nanos)) + 5
  {
    hide Matches, Year, Month, Day, Hour, Minute, Second, Date, MonthLength, CommonLength, DateEnabled, NextActivation;
    hide WeekdayDecides, IsLeap, NoLeapYearAhead, HasClock, ClockEnabled;
    var start := UpcomingSecond(nanos);
    OnlyLeapDay(s, u);
    MatchIsEnabled(s, u);
    DateOfFields(u);
    NoLeapYearAheadExactly(Year(start));
    if Year(u) < Year(start) {
      LaterYearIsLater(u, start);
    }
  }

  lemma NoneMeansLosing(s: SpecSchedule, nanos: int, u: int)
    requires StarsAreFull(s) && NextActivation(s, nanos) == None && nanos < u * NANOS && Matches(s, u)
    ensures LosesLeapDay(s, nanos)
  {
    hide Matches, Year, Month, Day, Hour, Minute, Second, Date, MonthLength, CommonLength, DateEnabled, NextActivation;
    hide StarsAreFull, WeekdayDecides, IsLeap, NoLeapYearAhead, HasClock, ClockEnabled;
    var y := Year(UpcomingSecond(nanos));
    MatchIsEnabled(s, u);
    assert HasClock(s) by { ClockExists(s, Hour(u), Minute(u), Second(u)); }
    if WeekdayDecides(s) {
      EnabledMonth(s, Month(u), Day(u));
      MatchOnWeekday(s, nanos, Month(u));
    }
    forall m: nat, d: nat | 1 <= m <= 12 && 1 <= d <= CommonLength(m) ensures !DateEnabled(s, m, d) {
      LengthOfMonth(y + 1, m);
      if DateEnabled(s, m, d) {
        MatchOnDate(s, nanos, y + 1, m, d);
      }
    }
    OnlyLeapDay(s, u);
    forall k | y < k <= y + 5 ensures !IsLeap(k) {
      LengthOfMonth(k, 2);
      if IsLeap(k) {
        MatchOnDate(s, nanos, k, 2, 29);
      }
    }
    NoLeapYearAheadExactly(y);
    if IsLeap(y) {
      forall hh: nat, mm: nat, ss: nat | ClockEnabled(s, hh, mm, ss) ensures Date(y, 2, 29, hh, mm, ss) < UpcomingSecond(nanos) {
        if Date(y, 2, 29, hh, mm, ss) >= UpcomingSecond(nanos) {
          MatchThisLeapDay(s, nanos, y, hh, mm, ss);
        }
      }
    }
  }

  lemma ClockExists(s: SpecSchedule, hh: nat, mm: nat, ss: nat)
    requires ClockEnabled(s, hh, mm, ss)
    ensures HasClock(s)
  {
  }

  lemma EnabledMonth(s: SpecSchedule, m: nat, d: nat)
    requires m <= 12 && d <= 31 && DateEnabled(s, m, d)
    ensures Mask.Has(s.month, m)
  {
  }

  /** The search reports no activation although one still comes for exactly these schedules and
      instants: those that fire on February 29 alone, asked when no February 29 is near. */
  lemma GivesUpExactly(s: SpecSchedule, nanos: int)
    requires StarsAreFull(s)
    ensures NextActivation(s, nanos) == None && (exists u :: nanos < u * NANOS && Matches(s, u)) <==> LosesLeapDay(s, nanos)
  {
    hide LosesLeapDay, NextActivation, Matches, StarsAreFull;
    if LosesLeapDay(s, nanos) {
      LosingMeansNone(s, nanos);
    }
    if NextActivation(s, nanos) == None {
      if u :| nanos < u * NANOS && Matches(s, u) {
        NoneMeansLosing(s, nanos, u);
      }
    }
  }
}
