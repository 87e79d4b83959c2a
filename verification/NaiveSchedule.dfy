/** The second cron implementation of the repository: it tries one second, or one minute,
    after another for four years. */
module NaiveSchedule {
  import opened Results
  import opened Search
  import opened Calendar
  import CronSpec
  import CronActivations
  import Mask

  const NANOS := CronSpec.NANOS

  type Positive = x: int | x > 0 witness 1

  datatype FieldMatcher =
    | Wildcard
    | Exact(value: int)
    | Range(start: int, end: int)
    | ListOf(values: seq<int>)
    | Step(step: Positive, min: int, max: int)
  {
    predicate Accepts(v: int) {
      match this
      case Wildcard => true
      case Exact(value) => v == value
      case Range(start, end) => start <= v <= end
      case ListOf(values) => v in values
      case Step(step, min, max) => min <= v <= max && (v - min) % step == 0
    }
  }

  datatype Schedule = Schedule(seconds: FieldMatcher, minutes: FieldMatcher, hours: FieldMatcher,
                               days: FieldMatcher, months: FieldMatcher, weekdays: FieldMatcher, hasSecs: bool)
  {
    /** A five-field expression runs at second 0. */
    predicate Valid() {
      !hasSecs ==> seconds == Exact(0)
    }

    predicate Matches(t: int) {
      && seconds.Accepts(Second(t)) && minutes.Accepts(Minute(t)) && hours.Accepts(Hour(t))
      && months.Accepts(Month(t)) && (days.Accepts(Day(t)) || weekdays.Accepts(Weekday(t)))
    }

    function Activation(): int -> bool {
      t => Matches(t)
    }

    function Unit(): (u: int)
      ensures u == 1 || u == 60
    {
      if hasSecs then 1 else 60
    }

    /** The start of the unit after the given instant: `from.Add(unit).Truncate(unit)`. */
    function From(nanos: int): int {
      Truncate((nanos + Unit() * NANOS) / NANOS, Unit())
    }

    function Result(nanos: int): Option<int> {
      FirstWhere(Activation(), From(nanos), AddDate(From(nanos), 4, 0, 0))
    }

    /** Stepping by minutes misses nothing: the result is the first matching second. */
    method Next(nanos: int) returns (r: Option<int>)
      requires Valid()
      ensures r == Result(nanos)
    {
      hide Matches, AddDate;
      var from := Truncate((nanos + Unit() * NANOS) / NANOS, Unit());
      var maxTime := AddDate(from, 4, 0, 0);
      assert from % Unit() == 0 by { TruncateIsAligned((nanos + Unit() * NANOS) / NANOS, Unit()); }
      while from < maxTime
        invariant From(nanos) <= from && from % Unit() == 0
        invariant Nowhere(Activation(), From(nanos), from)
        decreases maxTime - from
      {
        if Matches(from) {
          FirstWhereIsUnique(Activation(), From(nanos), maxTime, Some(from));
          return Some(from);
        }
        SkipsNoMatch(from);
        from := from + Unit();
      }
      FirstWhereIsUnique(Activation(), From(nanos), maxTime, None);
      return None;
    }

    lemma SkipsNoMatch(t: int)
      requires Valid() && t % Unit() == 0 && !Matches(t)
      ensures (t + Unit()) % Unit() == 0 && Nowhere(Activation(), t, t + Unit())
    {
      hide Hour, Minute, Day, Month, Weekday;
    }
  }

  lemma TruncateIsAligned(t: int, unit: int)
    requires unit == 1 || unit == 60
    ensures Truncate(t, unit) % unit == 0 && Truncate(t, unit) <= t < Truncate(t, unit) + unit
  {
  }

  // Comparison with SpecSchedule.

  /** Both schedules accept the same values in every field. */
  ghost predicate SameFields(n: Schedule, c: CronSpec.SpecSchedule) {
    && (forall v: nat :: v <= 59 ==> (n.seconds.Accepts(v) <==> Mask.Has(c.second, v)))
    && (forall v: nat :: v <= 59 ==> (n.minutes.Accepts(v) <==> Mask.Has(c.minute, v)))
    && (forall v: nat :: v <= 23 ==> (n.hours.Accepts(v) <==> Mask.Has(c.hour, v)))
    && (forall v: nat :: 1 <= v <= 31 ==> (n.days.Accepts(v) <==> Mask.Has(c.dom, v)))
    && (forall v: nat :: 1 <= v <= 12 ==> (n.months.Accepts(v) <==> Mask.Has(c.month, v)))
    && (forall v: nat :: v <= 6 ==> (n.weekdays.Accepts(v) <==> Mask.Has(c.dow, v)))
  }

  /** Both schedules accept the same days. */
  ghost predicate SameDays(n: Schedule, c: CronSpec.SpecSchedule) {
    forall d: nat, w: nat :: 1 <= d <= 31 && w <= 6 ==>
      (CronSpec.DayRule(c, d, w) <==> n.days.Accepts(d) || n.weekdays.Accepts(w))
  }

  ghost predicate AllOrNothing(c: CronSpec.SpecSchedule, all: bool) {
    && (forall d: nat :: 1 <= d <= 31 ==> Mask.Has(c.dom, d) == all)
    && (forall w: nat :: w <= 6 ==> Mask.Has(c.dow, w) == all)
  }

  /** With equal fields the day rules differ exactly when a star bit is set and the two day
      fields are neither both full nor both empty: one star makes the cron engine
      intersect the two fields, while the naive schedule always unites them. */
  lemma SameDaysExactly(n: Schedule, c: CronSpec.SpecSchedule)
    requires SameFields(n, c)
    ensures SameDays(n, c) <==>
            (!Mask.Star(c.dom) && !Mask.Star(c.dow)) || AllOrNothing(c, true) || AllOrNothing(c, false)
  {
    hide Mask.Has, Mask.Star;
    if SameDays(n, c) && (Mask.Star(c.dom) || Mask.Star(c.dow)) {
      forall d: nat, w: nat | 1 <= d <= 31 && w <= 6 ensures Mask.Has(c.dom, d) == Mask.Has(c.dow, w) {
        assert CronSpec.DayRule(c, d, w) <==> n.days.Accepts(d) || n.weekdays.Accepts(w);
      }
      var all := Mask.Has(c.dom, 1);
      forall w: nat | w <= 6 ensures Mask.Has(c.dow, w) == all {}
      forall d: nat | 1 <= d <= 31 ensures Mask.Has(c.dom, d) == all {
        assert Mask.Has(c.dow, 0) == all;
      }
      assert AllOrNothing(c, all);
    }
  }

  lemma SameMatches(n: Schedule, c: CronSpec.SpecSchedule, t: int)
    requires SameFields(n, c) && SameDays(n, c)
    ensures n.Matches(t) == CronSpec.Matches(c, t)
  {
    hide Mask.Has, Hour, Minute, Second, Day, Month, Weekday, CronSpec.DayRule;
    var d: nat, w: nat := Day(t), Weekday(t);
    assert 1 <= d <= 31 && w <= 6;
  }

  /** The four-year window of the naive search lies inside the five-year window of the fast one. */
  lemma WindowsNest(n: Schedule, nanos: int)
    ensures var start := CronSpec.UpcomingSecond(nanos);
            && start <= n.From(nanos) < start + n.Unit()
            && AddDate(n.From(nanos), 4, 0, 0) <= CronSpec.SearchEnd(nanos)
  {
    hide Year, DaysBeforeYear, AddDate, YearStart, Schedule.From, CronSpec.UpcomingSecond;
    var start, from := CronSpec.UpcomingSecond(nanos), n.From(nanos);
    FromIsNear(n, nanos);
    FourYearsLater(from);
    YearOfNextMinute(start, from);
    YearStartsAscend(Year(from) + 5, Year(start) + 6);
  }

  lemma FromIsNear(n: Schedule, nanos: int)
    ensures var start := CronSpec.UpcomingSecond(nanos);
            start <= n.From(nanos) < start + n.Unit()
  {
    var start := CronSpec.UpcomingSecond(nanos);
    hide Truncate;
    assert (nanos + n.Unit() * NANOS) / NANOS == start - 1 + n.Unit();
    TruncateIsAligned(start - 1 + n.Unit(), n.Unit());
  }

  lemma YearStartsAscend(y: int, z: int)
    requires y <= z
    ensures YearStart(z) >= YearStart(y) + 365 * (z - y) * SECONDS_PER_DAY
  {
    hide DaysBeforeYear;
    YearsAscend(y, z);
  }

  lemma YearOfNextMinute(start: int, from: int)
    requires from < start + 60
    ensures Year(from) <= Year(start) + 1
  {
    hide Year, YearStart;
    CronSpec.YearBounds(start, Year(start));
    YearStartsAscend(Year(start) + 1, Year(start) + 2);
    CronSpec.YearBounds(from, Year(start) + 1);
  }

  lemma FourYearsLater(t: int)
    ensures t < AddDate(t, 4, 0, 0) <= YearStart(Year(t) + 5)
  {
    hide YearOfDay, MonthOfDay, DaysBeforeYear, DayIndex, Hour, Minute, Second, DaysBeforeMonth, IsLeap;
    var y, m, d := Year(t), Month(t), Day(t);
    DayBounds(DayIndex(t));
    ClockParts(t);
    YearLength(y + 4);
    YearsAscend(y + 1, y + 4);
    DayOfYearBounds(IsLeap(y), IsLeap(y + 4), m, d);
    YearLength(y);
  }

  /** A date of one year still falls inside another year when it is carried over. */
  lemma DayOfYearBounds(leap: bool, other: bool, m: int, d: int)
    requires 1 <= m <= 12 && 1 <= d <= DaysBeforeMonth(leap, m + 1) - DaysBeforeMonth(leap, m)
    ensures 0 <= DaysBeforeMonth(other, m) + d - 1 < 365 + if other then 1 else 0
    ensures DaysBeforeMonth(leap, m) + d - 1 <= 366
  {
  }

  /** Seconds before the naive start do not match: they are not at a full minute. */
  lemma NothingBeforeFrom(n: Schedule, nanos: int)
    requires n.Valid()
    ensures Nowhere(n.Activation(), CronSpec.UpcomingSecond(nanos), n.From(nanos))
  {
    hide Hour, Minute, Day, Month, Weekday, AddDate, CronSpec.SearchEnd;
    var start := CronSpec.UpcomingSecond(nanos);
    assert (nanos + n.Unit() * NANOS) / NANOS == start - 1 + n.Unit();
    TruncateIsAligned(start - 1 + n.Unit(), n.Unit());
    forall u | start <= u < n.From(nanos) ensures !n.Matches(u) {
      assert u % 60 != 0;
    }
  }

  /** The fast search refines the naive one: they return the same instant unless the fast one
      looks beyond the naive four-year cap, where the naive one gives up. */
  lemma FastRefinesNaive(n: Schedule, c: CronSpec.SpecSchedule, nanos: int)
    requires n.Valid() && SameFields(n, c) && SameDays(n, c)
    ensures var fast := CronSpec.NextActivation(c, nanos);
            n.Result(nanos) == if fast.Some? && fast.value < AddDate(n.From(nanos), 4, 0, 0) then fast else None
    ensures n.Result(nanos).Some? ==> CronSpec.NextActivation(c, nanos) == n.Result(nanos)
  {
    hide Schedule.Matches, CronSpec.Matches, AddDate, CronSpec.SearchEnd, Schedule.From, CronSpec.UpcomingSecond;
    WindowsNest(n, nanos);
    NothingBeforeFrom(n, nanos);
    forall t ensures n.Activation()(t) == CronSpec.Activation(c)(t) {
      SameMatches(n, c, t);
    }
    var fast := CronSpec.NextActivation(c, nanos);
    var maxTime := AddDate(n.From(nanos), 4, 0, 0);
    FirstWhereIsUnique(n.Activation(), n.From(nanos), maxTime,
                       if fast.Some? && fast.value < maxTime then fast else None);
  }

  // One star is enough to separate the two.

  const NAIVE_THIRTEENTH := Schedule(Exact(0), Exact(0), Exact(0), Exact(13), Exact(1), Wildcard, true)

  const CRON_THIRTEENTH := CronSpec.SpecSchedule(Mask.Bit(0), Mask.Bit(0), Mask.Bit(0), Mask.Bit(13), Mask.Bit(1),
                                                 CronActivations.EVERY_WEEKDAY)  // 0 0 0 13 1 *

  /** `0 0 0 13 1 *` asked just before January 2, 2001: the naive search answers January 2, since
      the star accepts every day; the fast one does not. */
  lemma OneStarSeparatesTheSearches()
    ensures SameFields(NAIVE_THIRTEENTH, CRON_THIRTEENTH) && !SameDays(NAIVE_THIRTEENTH, CRON_THIRTEENTH)
    ensures var january2 := Date(2001, 1, 2, 0, 0, 0);
            && NAIVE_THIRTEENTH.Result((january2 - 1) * NANOS) == Some(january2)
            && CronSpec.NextActivation(CRON_THIRTEENTH, (january2 - 1) * NANOS) != Some(january2)
  {
    hide Mask.Has, Mask.Bit, Mask.Star, YearOfDay, MonthOfDay, DayOfMonth, DayIndex, Date, CronSpec.SearchEnd;
    hide Hour, Minute, Second, Weekday, AddDate, Truncate;
    ThirteenthFields();
    assert !CronSpec.DayRule(CRON_THIRTEENTH, 2, 0) && NAIVE_THIRTEENTH.weekdays.Accepts(0);
    var t := Date(2001, 1, 2, 0, 0, 0);
    assert MonthLength(2001, 1) == 31;
    FieldsOfDate(2001, 1, 2, 0, 0, 0);
    assert NAIVE_THIRTEENTH.Activation()(t) && !CronSpec.Activation(CRON_THIRTEENTH)(t);
    assert NAIVE_THIRTEENTH.From((t - 1) * NANOS) == t by { TruncateIsAligned(t, 1); }
    FourYearsLater(t);
  }

  lemma ThirteenthFields()
    ensures SameFields(NAIVE_THIRTEENTH, CRON_THIRTEENTH) && Mask.Star(CRON_THIRTEENTH.dow)
  {
    hide Mask.Has, Mask.Bit, Mask.Star;
    forall v: nat | v < 64 ensures Mask.Has(Mask.Bit(0), v) == (v == 0) { Mask.HasBit(0, v); }
    forall v: nat | v < 64 ensures Mask.Has(Mask.Bit(1), v) == (v == 1) { Mask.HasBit(1, v); }
    forall v: nat | v < 64 ensures Mask.Has(Mask.Bit(13), v) == (v == 13) { Mask.HasBit(13, v); }
    CronActivations.EveryWeekdayMask();
  }
}
