/** What the results of `SpecSchedule.Next` mean for a schedule over time. */
module CronActivations {
  import opened Results
  import opened Search
  import opened Calendar
  import opened CronSpec
  import Mask

  /** Next returns the least matching second after the given instant, and nothing only
      when no second matches through the end of the fifth year after the start. */
  lemma NextIsLeastMatch(s: SpecSchedule, nanos: int)
    ensures match NextActivation(s, nanos)
            case Some(r) =>
              && nanos < r * NANOS && Matches(s, r) && Year(r) <= Year(UpcomingSecond(nanos)) + 5
              && (forall u :: nanos < u * NANOS && u < r ==> !Matches(s, u))
            case None =>
              forall u :: nanos < u * NANOS && Year(u) <= Year(UpcomingSecond(nanos)) + 5 ==> !Matches(s, u)
  {
    hide Year, Matches, YearStart;
    var start, limit := UpcomingSecond(nanos), Year(UpcomingSecond(nanos)) + 5;
    forall u | start <= u ensures Year(u) <= limit <==> u < SearchEnd(nanos) {
      YearBounds(u, limit);
    }
    forall u | nanos < u * NANOS ensures start <= u {}
    forall u ensures Activation(s)(u) == Matches(s, u) {}
  }

  /** The first `n` activations after an instant, found by iterating Next. */
  function Activations(s: SpecSchedule, nanos: int, n: nat): seq<int>
    decreases n
  {
    if n == 0 then []
    else match NextActivation(s, nanos)
         case None => []
         case Some(r) => [r] + Activations(s, r * NANOS, n - 1)
  }

  /** `a` lists, in increasing order, every instant of `p` after `nanos` up to its last element. */
  ghost predicate Enumerates(p: int -> bool, nanos: int, a: seq<int>) {
    && (forall i, j :: 0 <= i < j < |a| ==> a[i] < a[j])
    && (forall i :: 0 <= i < |a| ==> p(a[i]) && nanos < a[i] * NANOS)
    && (forall u :: |a| > 0 && nanos < u * NANOS && u <= a[|a| - 1] && p(u) ==> u in a)
  }

  lemma PrependActivation(p: int -> bool, nanos: int, r: int, rest: seq<int>)
    requires p(r) && nanos < r * NANOS && forall u :: nanos < u * NANOS && u < r ==> !p(u)
    requires Enumerates(p, r * NANOS, rest)
    ensures Enumerates(p, nanos, [r] + rest)
  {
    forall i | 0 <= i < |rest| ensures r < rest[i] {
      assert r * NANOS < rest[i] * NANOS;
    }
  }

  /** Iterating Next enumerates every matching second exactly once, in increasing order. */
  lemma {:induction false} IterationEnumeratesMatches(s: SpecSchedule, nanos: int, n: nat)
    ensures Enumerates(Activation(s), nanos, Activations(s, nanos, n))
    decreases n
  {
    hide Matches, Year, Enumerates;
    NextIsLeastMatch(s, nanos);
    if n > 0 && NextActivation(s, nanos).Some? {
      var r := NextActivation(s, nanos).value;
      IterationEnumeratesMatches(s, r * NANOS, n - 1);
      PrependActivation(Activation(s), nanos, r, Activations(s, r * NANOS, n - 1));
    } else {
      NothingEnumerated(Activation(s), nanos);
    }
  }

  lemma NothingEnumerated(p: int -> bool, nanos: int)
    ensures Enumerates(p, nanos, [])
  {
  }

  /** A schedule that names a second, a minute, an hour, a month and a day up to 28 that
      exist, and that every weekday satisfies. */
  ghost predicate NamesAYearlyDate(s: SpecSchedule) {
    && (exists x: nat :: x <= 59 && Mask.Has(s.second, x))
    && (exists x: nat :: x <= 59 && Mask.Has(s.minute, x))
    && (exists x: nat :: x <= 23 && Mask.Has(s.hour, x))
    && (exists x: nat :: 1 <= x <= 12 && Mask.Has(s.month, x))
    && (exists x: nat :: 1 <= x <= 28 && Mask.Has(s.dom, x))
    && (forall w: nat :: w <= 6 ==> Mask.Has(s.dow, w))
  }

  lemma MonthHas28Days(y: int, m: int)
    requires 1 <= m <= 12
    ensures MonthLength(y, m) >= 28
  {
  }

  /** Such a schedule never runs dry. */
  lemma YearlyDateNeverRunsDry(s: SpecSchedule, nanos: int)
    requires NamesAYearlyDate(s)
    ensures NextActivation(s, nanos).Some?
  {
    hide Mask.Has, YearOfDay, MonthOfDay, DayOfMonth, DaysBeforeYear, Hour, Minute, Second, DayIndex, Date, MonthLength;
    var ss: nat :| ss <= 59 && Mask.Has(s.second, ss);
    var mm: nat :| mm <= 59 && Mask.Has(s.minute, mm);
    var hh: nat :| hh <= 23 && Mask.Has(s.hour, hh);
    var m: nat :| 1 <= m <= 12 && Mask.Has(s.month, m);
    var d: nat :| 1 <= d <= 28 && Mask.Has(s.dom, d);
    var start := UpcomingSecond(nanos);
    var y := Year(start) + 1;
    MonthHas28Days(y, m);
    var u := Date(y, m, d, hh, mm, ss);
    FieldsOfDate(y, m, d, hh, mm, ss);
    assert Matches(s, u);
    NextIsLeastMatch(s, nanos);
    YearBounds(u, y - 1);
    YearBounds(start, y - 1);
  }

  lemma YearlyDateIteratesForever(s: SpecSchedule, nanos: int, n: nat)
    requires NamesAYearlyDate(s)
    ensures |Activations(s, nanos, n)| == n
    decreases n
  {
    hide NamesAYearlyDate, NextActivation;
    if n > 0 {
      YearlyDateNeverRunsDry(s, nanos);
      YearlyDateIteratesForever(s, NextActivation(s, nanos).value * NANOS, n - 1);
    }
  }

  const EVERY_WEEKDAY: bv64 := Mask.STAR_BIT | 0x7F

  const LEAP_DAY := SpecSchedule(Mask.Bit(0), Mask.Bit(0), Mask.Bit(0), Mask.Bit(29), Mask.Bit(2), EVERY_WEEKDAY)  // 0 0 0 29 2 *

  /** The five-year limit is not harmless: midnight of February 29 exists after 2097, yet Next
      reports that no activation can be found, because 2100 is no leap year. */
  lemma LeapDayIsGivenUp()
    ensures NextActivation(LEAP_DAY, YearStart(2097) * NANOS) == None
    ensures YearStart(2097) < Date(2104, 2, 29, 0, 0, 0) && Matches(LEAP_DAY, Date(2104, 2, 29, 0, 0, 0))
  {
    hide Year, Matches, DaysBeforeYear, NextActivation, Date;
    var start := YearStart(2097) + 1;
    LeapDayIn2104();
    LeapDayMatchesInLeapYearsOnly();
    YearBounds(start, 2096);
    YearsAscend(2097, 2098);
    YearBounds(start, 2097);
    NextIsLeastMatch(LEAP_DAY, YearStart(2097) * NANOS);
    assert UpcomingSecond(YearStart(2097) * NANOS) == start;
    forall u | start <= u && Year(u) <= 2102 ensures !Matches(LEAP_DAY, u) {
      YearBounds(u, 2096);
    }
  }

  lemma LeapDayMatchesInLeapYearsOnly()
    ensures forall u :: Matches(LEAP_DAY, u) ==> IsLeap(Year(u))
  {
    hide YearOfDay, MonthOfDay, DayOfMonth, DayIndex, Mask.Has, DaysBeforeYear;
    LeapDayMask();
    forall u | Matches(LEAP_DAY, u) ensures IsLeap(Year(u)) {
      DayBounds(DayIndex(u));
      assert Month(u) == 2 && Day(u) == 29;
    }
  }

  lemma LeapDayIn2104()
    ensures YearStart(2097) < Date(2104, 2, 29, 0, 0, 0) && Matches(LEAP_DAY, Date(2104, 2, 29, 0, 0, 0))
  {
    LeapDayIsLater();
    hide YearOfDay, MonthOfDay, DayOfMonth, DayIndex, Hour, Minute, Second, Mask.Has, Date, DaysBeforeYear;
    var leapDay := Date(2104, 2, 29, 0, 0, 0);
    assert MonthLength(2104, 2) == 29;
    FieldsOfDate(2104, 2, 29, 0, 0, 0);
    LeapDayMask();
  }

  lemma LeapDayIsLater()
    ensures YearStart(2097) < Date(2104, 2, 29, 0, 0, 0)
  {
  }

  lemma LeapDayMask()
    ensures forall m: nat :: m < 64 ==> (Mask.Has(LEAP_DAY.month, m) <==> m == 2)
    ensures forall d: nat :: d < 64 ==> (Mask.Has(LEAP_DAY.dom, d) <==> d == 29)
    ensures forall w: nat :: w <= 6 ==> Mask.Has(LEAP_DAY.dow, w)
    ensures Mask.Has(LEAP_DAY.second, 0) && Mask.Has(LEAP_DAY.minute, 0) && Mask.Has(LEAP_DAY.hour, 0)
    ensures Mask.Star(LEAP_DAY.dow)
  {
    hide Mask.Has, Mask.Shl;
    Mask.HasBit(0, 0);
    forall k: nat | k < 64 ensures Mask.Has(Mask.Bit(2), k) <==> k == 2 { Mask.HasBit(2, k); }
    forall k: nat | k < 64 ensures Mask.Has(Mask.Bit(29), k) <==> k == 29 { Mask.HasBit(29, k); }
    EveryWeekdayMask();
  }

  lemma EveryWeekdayMask()
    ensures forall w: nat :: w <= 6 ==> Mask.Has(EVERY_WEEKDAY, w)
    ensures Mask.Star(EVERY_WEEKDAY)
  {
    assert Mask.Bit(0) == 1;
    assert Mask.Bit(1) == 2;
    assert Mask.Bit(2) == 4;
    assert Mask.Bit(3) == 8;
    assert Mask.Bit(4) == 16;
    assert Mask.Bit(5) == 32;
    assert Mask.Bit(6) == 64;
  }
}
