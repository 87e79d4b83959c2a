/** The reference every schedule search is compared with: try each second in turn. */
module Search {
  import opened Results

  ghost predicate Nowhere(p: int -> bool, lo: int, hi: int) {
    forall u :: lo <= u < hi ==> !p(u)
  }

  /** The least element of [lo, hi) that satisfies `p`. */
  function FirstWhere(p: int -> bool, lo: int, hi: int): (r: Option<int>)
    ensures IsFirst(p, lo, hi, r)
    decreases hi - lo
  {
    if lo >= hi then None
    else if p(lo) then Some(lo)
    else FirstWhere(p, lo + 1, hi)
  }

  ghost predicate IsFirst(p: int -> bool, lo: int, hi: int, r: Option<int>) {
    match r
    case Some(t) => lo <= t < hi && p(t) && Nowhere(p, lo, t)
    case None => Nowhere(p, lo, hi)
  }

  lemma FirstWhereIsUnique(p: int -> bool, lo: int, hi: int, r: Option<int>)
    requires IsFirst(p, lo, hi, r)
    ensures FirstWhere(p, lo, hi) == r
  {
  }
}

/** `SpecSchedule`: the five-field search for the next activation of a cron schedule. */
module CronSpec {
  import opened Results
  import opened Search
  import opened Calendar
  import Mask

  const NANOS := 1_000_000_000

  datatype SpecSchedule = SpecSchedule(second: bv64, minute: bv64, hour: bv64, dom: bv64, month: bv64, dow: bv64)

  predicate MonthOk(s: SpecSchedule, t: int) { Mask.Has(s.month, Month(t)) }
  predicate HourOk(s: SpecSchedule, t: int) { Mask.Has(s.hour, Hour(t)) }
  predicate MinuteOk(s: SpecSchedule, t: int) { Mask.Has(s.minute, Minute(t)) }
  predicate SecondOk(s: SpecSchedule, t: int) { Mask.Has(s.second, Second(t)) }

  predicate DayRule(s: SpecSchedule, day: nat, weekday: nat)
    requires day < 64 && weekday < 64
  {
    var domMatch := Mask.Has(s.dom, day);
    var dowMatch := Mask.Has(s.dow, weekday);
    if Mask.Star(s.dom) || Mask.Star(s.dow) then domMatch && dowMatch else domMatch || dowMatch
  }

  predicate DayMatches(s: SpecSchedule, t: int) {
    DayRule(s, Day(t), Weekday(t))
  }

  /** The instant is an activation of the schedule: all six masks accept it. */
  predicate Matches(s: SpecSchedule, t: int) {
    MonthOk(s, t) && DayMatches(s, t) && HourOk(s, t) && MinuteOk(s, t) && SecondOk(s, t)
  }

  function Activation(s: SpecSchedule): int -> bool {
    t => Matches(s, t)
  }

  /** The upcoming whole second, strictly after the given instant in nanoseconds. */
  function UpcomingSecond(nanos: int): (t: int)
    ensures (t - 1) * NANOS <= nanos < t * NANOS
  {
    nanos / NANOS + 1
  }

  /** The end of the search: the first instant after the year (start year + 5). */
  function SearchEnd(nanos: int): int {
    YearStart(Year(UpcomingSecond(nanos)) + 6)
  }

  function NextActivation(s: SpecSchedule, nanos: int): Option<int> {
    FirstWhere(Activation(s), UpcomingSecond(nanos), SearchEnd(nanos))
  }

  predicate Midnight(t: int) {
    Hour(t) == 0 && Minute(t) == 0 && Second(t) == 0
  }

  /** A field that mismatches once the search has moved has all finer fields at their minimum. */
  predicate FinerAtMinimum(s: SpecSchedule, t: int) {
    && (!MonthOk(s, t) ==> Day(t) == 1 && Midnight(t))
    && (!DayMatches(s, t) ==> Midnight(t))
    && (!HourOk(s, t) ==> Minute(t) == 0 && Second(t) == 0)
    && (!MinuteOk(s, t) ==> Second(t) == 0)
  }

  /** What holds at every loop head of the search. */
  ghost predicate Searching(s: SpecSchedule, start: int, added: bool, t: int) {
    if added then start <= t && Nowhere(Activation(s), start, t) && FinerAtMinimum(s, t) else t == start
  }

  // Calendar facts about neighbouring instants.

  function MonthStart(t: int): int { FirstOfMonth(DayIndex(t)) * SECONDS_PER_DAY }

  function MonthEnd(t: int): int {
    (FirstOfMonth(DayIndex(t)) + MonthLength(Year(t), Month(t))) * SECONDS_PER_DAY
  }

  lemma DayIsConstant(t: int, u: int)
    requires DayIndex(t) * SECONDS_PER_DAY <= u < (DayIndex(t) + 1) * SECONDS_PER_DAY
    ensures DayIndex(u) == DayIndex(t)
  {
  }

  lemma MonthIsConstant(t: int, u: int)
    requires MonthStart(t) <= u < MonthEnd(t)
    ensures Year(u) == Year(t) && Month(u) == Month(t) && FirstOfMonth(DayIndex(u)) == FirstOfMonth(DayIndex(t))
  {
    hide YearOfDay, MonthOfDay, DaysBeforeYear, DaysBeforeMonth;
    var y, m := Year(t), Month(t);
    var first := FirstOfMonth(DayIndex(t));
    assert first <= DayIndex(u) < first + MonthLength(y, m);
    DayNumberRoundTrip(y, m, DayIndex(u) - first + 1);
  }

  lemma WithinMonth(t: int)
    ensures MonthStart(t) <= t < MonthEnd(t) <= YearStart(Year(t) + 1)
    ensures Date(Year(t), Month(t), 1, 0, 0, 0) == MonthStart(t)
  {
    hide YearOfDay, MonthOfDay, DaysBeforeYear, DaysBeforeMonth;
    DayBounds(DayIndex(t));
    YearLength(Year(t));
    DaysBeforeMonthAscends(IsLeap(Year(t)), Month(t) + 1);
  }

  lemma DaysBeforeMonthAscends(leap: bool, m: int)
    requires 1 <= m <= 13
    ensures DaysBeforeMonth(leap, m) <= DaysBeforeMonth(leap, 13) == (if leap then 366 else 365)
  {
  }

  /** The month after the one of `t` starts at MonthEnd(t). */
  lemma NextMonthStarts(t: int)
    ensures var e := MonthEnd(t);
            && AddDate(MonthStart(t), 0, 1, 0) == e
            && Day(e) == 1 && Midnight(e)
            && (Month(e) != 1 ==> Year(e) == Year(t))
  {
    hide YearOfDay, MonthOfDay, DaysBeforeYear, DayIndex, Hour, Minute, Second;
    var y, m, b, e := Year(t), Month(t), MonthStart(t), MonthEnd(t);
    WithinMonth(t);
    MonthIsConstant(t, b);
    YearLength(y);
    ClockFields(b, FirstOfMonth(DayIndex(t)), 0, 0, 0);
    ClockFields(e, FirstOfMonth(DayIndex(t)) + MonthLength(y, m), 0, 0, 0);
    if m == 12 {
      DayNumberRoundTrip(y + 1, 1, 1);
    } else {
      DayNumberRoundTrip(y, m + 1, 1);
    }
  }

  lemma AddDays(t: int, days: int)
    ensures AddDate(t, 0, 0, days) == t + days * SECONDS_PER_DAY
  {
    hide YearOfDay, MonthOfDay, DaysBeforeYear, DaysBeforeMonth, DayIndex, Hour, Minute, Second;
    DateOfFields(t);
  }

  /** Two consecutive days lie in the same month unless the later one is a first. */
  lemma SameMonthAsYesterday(t: int, u: int)
    requires DayIndex(u) == DayIndex(t) + 1 && Day(u) != 1
    ensures Year(u) == Year(t) && Month(u) == Month(t)
  {
    hide YearOfDay, MonthOfDay, DaysBeforeYear, DaysBeforeMonth;
    WithinMonth(u);
    MonthIsConstant(u, t);
  }

  lemma YearBounds(t: int, y: int)
    ensures Year(t) <= y <==> t < YearStart(y + 1)
  {
    hide DaysBeforeYear;
    if Year(t) <= y {
      YearsAscend(Year(t) + 1, y + 1);
    } else {
      YearsAscend(y + 1, Year(t));
    }
  }

  lemma BelowLimit(t: int, y: int)
    requires Year(t) <= y
    ensures t < YearStart(Year(t) + 1) <= YearStart(y + 1)
  {
    hide DaysBeforeYear;
    YearBounds(t, y);
    YearsAscend(Year(t) + 1, y + 1);
  }

  /** `u` is the start of the minute, hour or day that follows the one of `t`. */
  lemma NextMinute(t: int, u: int)
    requires u == t - Second(t) + 60
    ensures Second(u) == 0
    ensures Minute(u) != 0 ==> DayIndex(u) == DayIndex(t) && Hour(u) == Hour(t)
    ensures Minute(u) == 0 ==> u == t - Minute(t) * 60 - Second(t) + 3600
  {
    hide DayIndex, Hour, Minute, Second;
    ClockParts(t);
    if Minute(t) < 59 {
      ClockFields(u, DayIndex(t), Hour(t), Minute(t) + 1, 0);
    } else if Hour(t) < 23 {
      ClockFields(u, DayIndex(t), Hour(t) + 1, 0, 0);
    } else {
      ClockFields(u, DayIndex(t) + 1, 0, 0, 0);
    }
  }

  lemma NextHour(t: int, u: int)
    requires u == t - Minute(t) * 60 - Second(t) + 3600
    ensures Minute(u) == 0 && Second(u) == 0
    ensures Hour(u) != 0 ==> DayIndex(u) == DayIndex(t)
    ensures Hour(u) == 0 ==> u == (DayIndex(t) + 1) * SECONDS_PER_DAY
  {
    hide DayIndex, Hour, Minute, Second;
    ClockParts(t);
    if Hour(t) < 23 {
      ClockFields(u, DayIndex(t), Hour(t) + 1, 0, 0);
    } else {
      ClockFields(u, DayIndex(t) + 1, 0, 0, 0);
    }
  }

  lemma NextDay(t: int, u: int)
    requires u == (DayIndex(t) + 1) * SECONDS_PER_DAY
    ensures DayIndex(u) == DayIndex(t) + 1 && Midnight(u)
    ensures t < u <= YearStart(Year(t) + 1)
    ensures Day(u) != 1 ==> Year(u) == Year(t) && Month(u) == Month(t)
  {
    hide YearOfDay, MonthOfDay, DaysBeforeYear, DaysBeforeMonth, DayIndex, Hour, Minute, Second;
    ClockParts(t);
    ClockFields(u, DayIndex(t) + 1, 0, 0, 0);
    if Day(u) != 1 {
      SameMonthAsYesterday(t, u);
    }
  }

  // What a carry out of the minutes, hours or days preserves.

  lemma CarryIntoDay(s: SpecSchedule, t: int, u: int)
    requires MonthOk(s, t) && u == (DayIndex(t) + 1) * SECONDS_PER_DAY
    ensures FinerAtMinimum(s, u) && t < u <= YearStart(Year(t) + 1)
    ensures Day(u) != 1 ==> MonthOk(s, u) && Year(u) == Year(t)
  {
    hide YearOfDay, MonthOfDay, DayOfMonth, DayIndex, Hour, Minute, Second, DaysBeforeYear, DayRule, Mask.Has;
    NextDay(t, u);
  }

  lemma CarryIntoHour(s: SpecSchedule, t: int, u: int)
    requires MonthOk(s, t) && DayMatches(s, t) && u == t - Minute(t) * 60 - Second(t) + 3600
    ensures FinerAtMinimum(s, u) && t < u <= YearStart(Year(t) + 1)
    ensures Hour(u) != 0 ==> MonthOk(s, u) && DayMatches(s, u) && Year(u) == Year(t)
  {
    hide YearOfDay, MonthOfDay, DayOfMonth, DayIndex, Hour, Minute, Second, DaysBeforeYear, DayRule, Mask.Has;
    NextHour(t, u);
    YearBounds(u, Year(t));
    if Hour(u) == 0 {
      CarryIntoDay(s, t, u);
    }
  }

  lemma CarryIntoMinute(s: SpecSchedule, t: int, u: int)
    requires MonthOk(s, t) && DayMatches(s, t) && HourOk(s, t) && u == t - Second(t) + 60
    ensures FinerAtMinimum(s, u) && t < u <= YearStart(Year(t) + 1)
    ensures Minute(u) != 0 ==> MonthOk(s, u) && DayMatches(s, u) && HourOk(s, u) && Year(u) == Year(t)
  {
    hide YearOfDay, MonthOfDay, DayOfMonth, DayIndex, Hour, Minute, Second, DaysBeforeYear, DayRule, Mask.Has;
    NextMinute(t, u);
    YearBounds(u, Year(t));
    if Minute(u) == 0 {
      CarryIntoHour(s, t, u);
    }
  }

  // One round of each loop of the search. `t` is where the round begins, `u` where it ends.

  lemma MonthRound(s: SpecSchedule, start: int, added: bool, t: int)
    requires Searching(s, start, added, t) && !MonthOk(s, t)
    ensures var b := if added then t else Date(Year(t), Month(t), 1, 0, 0, 0);
            var u := AddDate(b, 0, 1, 0);
            t < u <= YearStart(Year(t) + 1) && Searching(s, start, true, u) && (Month(u) != 1 ==> Year(u) == Year(t))
  {
    hide YearOfDay, MonthOfDay, DayIndex, Hour, Minute, Second, DaysBeforeYear, DaysBeforeMonth, DayRule, Mask.Has;
    ClockParts(t);
    WithinMonth(t);
    NextMonthStarts(t);
    forall x | MonthStart(t) <= x < MonthEnd(t) ensures !MonthOk(s, x) {
      MonthIsConstant(t, x);
    }
  }

  lemma DayRound(s: SpecSchedule, start: int, added: bool, t: int)
    requires Searching(s, start, added, t) && MonthOk(s, t) && !DayMatches(s, t)
    ensures var b := if added then t else Date(Year(t), Month(t), Day(t), 0, 0, 0);
            var u := AddDate(b, 0, 0, 1);
            && t < u <= YearStart(Year(t) + 1) && Hour(u) == 0 && Searching(s, start, true, u)
            && (Day(u) != 1 ==> MonthOk(s, u) && Year(u) == Year(t))
  {
    hide YearOfDay, MonthOfDay, DayIndex, Hour, Minute, Second, DaysBeforeYear, DaysBeforeMonth, DayRule, Mask.Has;
    var b := if added then t else Date(Year(t), Month(t), Day(t), 0, 0, 0);
    ClockParts(t);
    DateOfFields(t);
    assert b == DayIndex(t) * SECONDS_PER_DAY;
    AddDays(b, 1);
    CarryIntoDay(s, t, b + SECONDS_PER_DAY);
    NextDay(t, b + SECONDS_PER_DAY);
    forall x | b <= x < b + SECONDS_PER_DAY ensures !DayMatches(s, x) {
      DayIsConstant(t, x);
    }
  }

  lemma HourRound(s: SpecSchedule, start: int, added: bool, t: int)
    requires Searching(s, start, added, t) && MonthOk(s, t) && DayMatches(s, t) && !HourOk(s, t)
    ensures var b := if added then t else Date(Year(t), Month(t), Day(t), Hour(t), 0, 0);
            var u := b + 3600;
            && t < u <= YearStart(Year(t) + 1) && Searching(s, start, true, u)
            && (Hour(u) != 0 ==> MonthOk(s, u) && DayMatches(s, u) && Year(u) == Year(t))
  {
    hide YearOfDay, MonthOfDay, DayIndex, Hour, Minute, Second, DaysBeforeYear, DaysBeforeMonth, DayRule, Mask.Has;
    var b := if added then t else Date(Year(t), Month(t), Day(t), Hour(t), 0, 0);
    ClockParts(t);
    DateOfFields(t);
    assert b == t - Minute(t) * 60 - Second(t);
    CarryIntoHour(s, t, b + 3600);
    forall x | b <= x < b + 3600 ensures !HourOk(s, x) {
      ClockFields(x, DayIndex(t), Hour(t), (x - b) / 60, (x - b) % 60);
    }
  }

  lemma TruncatedMinute(t: int)
    ensures Truncate(t, 60) == t - Second(t)
  {
  }

  lemma MinuteRound(s: SpecSchedule, start: int, added: bool, t: int)
    requires Searching(s, start, added, t)
    requires MonthOk(s, t) && DayMatches(s, t) && HourOk(s, t) && !MinuteOk(s, t)
    ensures var b := if added then t else Truncate(t, 60);
            var u := b + 60;
            && t < u <= YearStart(Year(t) + 1) && Searching(s, start, true, u)
            && (Minute(u) != 0 ==> MonthOk(s, u) && DayMatches(s, u) && HourOk(s, u) && Year(u) == Year(t))
  {
    hide YearOfDay, MonthOfDay, DayIndex, Hour, Minute, Second, DaysBeforeYear, DaysBeforeMonth, DayRule, Mask.Has;
    var b := if added then t else Truncate(t, 60);
    ClockParts(t);
    TruncatedMinute(t);
    CarryIntoMinute(s, t, b + 60);
    forall x | b <= x < b + 60 ensures !MinuteOk(s, x) {
      ClockFields(x, DayIndex(t), Hour(t), Minute(t), x - b);
    }
  }

  lemma SecondRound(s: SpecSchedule, start: int, added: bool, t: int)
    requires Searching(s, start, added, t)
    requires MonthOk(s, t) && DayMatches(s, t) && HourOk(s, t) && MinuteOk(s, t) && !SecondOk(s, t)
    ensures var u := t + 1;
            && u <= YearStart(Year(t) + 1) && Searching(s, start, true, u)
            && (Second(u) != 0 ==>
                  MonthOk(s, u) && DayMatches(s, u) && HourOk(s, u) && MinuteOk(s, u) && Year(u) == Year(t))
  {
    hide YearOfDay, MonthOfDay, DayIndex, Hour, Minute, Second, DaysBeforeYear, DaysBeforeMonth, DayRule, Mask.Has;
    ClockParts(t);
    if Second(t) == 59 {
      CarryIntoMinute(s, t, t + 1);
      NextMinute(t, t + 1);
    } else {
      ClockFields(t + 1, DayIndex(t), Hour(t), Minute(t), Second(t) + 1);
      YearBounds(t + 1, Year(t));
    }
  }

  /** The search finds exactly what trying every second up to the year limit would find. */
  method Next(s: SpecSchedule, nanos: int) returns (r: Option<int>)
    ensures r == NextActivation(s, nanos)
  {
    hide YearOfDay, MonthOfDay, DayOfMonth, DayIndex, Hour, Minute, Second, DaysBeforeYear, Date, AddDate, DayRule, Mask.Has;
    var t := (nanos + NANOS - nanos % NANOS) / NANOS;
    ghost var start := t;
    var added := false;
    var yearLimit := Year(t) + 5;
    ghost var end := YearStart(yearLimit + 1);
    YearBounds(t, yearLimit);

    label WRAP:
    while true
      invariant Searching(s, start, added, t) && t <= end
      decreases !added, end - t
    {
      YearBounds(t, yearLimit);
      if Year(t) > yearLimit {
        FirstWhereIsUnique(Activation(s), start, end, None);
        return None;
      }

      while !MonthOk(s, t)
        invariant Searching(s, start, added, t) && Year(t) <= yearLimit
        decreases !added, end - t
      {
        MonthRound(s, start, added, t);
        BelowLimit(t, yearLimit);
        if !added {
          added := true;
          t := Date(Year(t), Month(t), 1, 0, 0, 0);
        }
        t := AddDate(t, 0, 1, 0);
        if Month(t) == 1 {
          continue WRAP;
        }
      }

      while !DayMatches(s, t)
        invariant Searching(s, start, added, t) && Year(t) <= yearLimit && MonthOk(s, t)
        decreases !added, end - t
      {
        DayRound(s, start, added, t);
        BelowLimit(t, yearLimit);
        if !added {
          added := true;
          t := Date(Year(t), Month(t), Day(t), 0, 0, 0);
        }
        t := AddDate(t, 0, 0, 1);
        if Day(t) == 1 {
          continue WRAP;
        }
      }

      while !HourOk(s, t)
        invariant Searching(s, start, added, t) && Year(t) <= yearLimit && MonthOk(s, t) && DayMatches(s, t)
        decreases !added, end - t
      {
        HourRound(s, start, added, t);
        BelowLimit(t, yearLimit);
        if !added {
          added := true;
          t := Date(Year(t), Month(t), Day(t), Hour(t), 0, 0);
        }
        t := t + 3600;
        if Hour(t) == 0 {
          continue WRAP;
        }
      }

      while !MinuteOk(s, t)
        invariant Searching(s, start, added, t) && Year(t) <= yearLimit && MonthOk(s, t) && DayMatches(s, t) && HourOk(s, t)
        decreases !added, end - t
      {
        MinuteRound(s, start, added, t);
        BelowLimit(t, yearLimit);
        if !added {
          added := true;
          t := Truncate(t, 60);
        }
        t := t + 60;
        if Minute(t) == 0 {
          continue WRAP;
        }
      }

      while !SecondOk(s, t)
        invariant Searching(s, start, added, t) && Year(t) <= yearLimit
        invariant MonthOk(s, t) && DayMatches(s, t) && HourOk(s, t) && MinuteOk(s, t)
        decreases !added, end - t
      {
        SecondRound(s, start, added, t);
        BelowLimit(t, yearLimit);
        if !added {
          added := true;
          t := Truncate(t, 1);
        }
        t := t + 1;
        if Second(t) == 0 {
          continue WRAP;
        }
      }

      BelowLimit(t, yearLimit);
      FirstWhereIsUnique(Activation(s), start, end, Some(t));
      return Some(t);
    }
  }
}
