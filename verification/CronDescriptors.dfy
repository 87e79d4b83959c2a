/** The predefined schedules `@yearly`, `@monthly`, `@weekly`, `@daily` and `@hourly`. */
module CronDescriptors {
  import opened Results
  import opened Calendar
  import opened CronSpec
  import opened CronActivations
  import opened CronParser
  import opened CronText
  import CacheKeys
  import Mask

  /** All bits within the bounds, and the star bit. */
  function All(b: Bounds): bv64 {
    (!Mask.Shl(Mask.ONES, b.max + 1) & Mask.Shl(Mask.ONES, b.min)) | Mask.STAR_BIT
  }

  datatype Descriptor =
    | Yearly   // @yearly, @annually
    | Monthly  // @monthly
    | Weekly   // @weekly
    | Daily    // @daily, @midnight
    | Hourly   // @hourly

  function Predefined(d: Descriptor): SpecSchedule {
    var second, minute, hour, dom := Mask.Bit(SECONDS.min), Mask.Bit(MINUTES.min), Mask.Bit(HOURS.min), Mask.Bit(DOM.min);
    match d
    case Yearly => SpecSchedule(second, minute, hour, dom, Mask.Bit(MONTHS.min), All(DOW))
    case Monthly => SpecSchedule(second, minute, hour, dom, All(MONTHS), All(DOW))
    case Weekly => SpecSchedule(second, minute, hour, All(DOM), All(MONTHS), Mask.Bit(DOW.min))
    case Daily => SpecSchedule(second, minute, hour, All(DOM), All(MONTHS), All(DOW))
    case Hourly => SpecSchedule(second, minute, All(HOURS), All(DOM), All(MONTHS), All(DOW))
  }

  /** The fields each predefined schedule abbreviates. */
  function FieldsOf(d: Descriptor): (fields: seq<string>)
    ensures |fields| == 6
  {
    match d
    case Yearly => ["0", "0", "0", "1", "1", "*"]
    case Monthly => ["0", "0", "0", "1", "*", "*"]
    case Weekly => ["0", "0", "0", "*", "*", "0"]
    case Daily => ["0", "0", "0", "*", "*", "*"]
    case Hourly => ["0", "0", "*", "*", "*", "*"]
  }

  lemma AllIsStar(b: Bounds)
    requires b.min <= b.max < 63
    ensures Masks(All(b), Range(b.min, b.max, 1, true))
  {
    hide Mask.Has, Mask.Shl;
    var above, from := Mask.Shl(Mask.ONES, b.max + 1), Mask.Shl(Mask.ONES, b.min);
    ShiftForm(Range(b.min, b.max, 1, false), above, from);
    WithStarBit(!above & from, Range(b.min, b.max, 1, false));
  }

  lemma BitIsValue(k: nat)
    requires k < 63
    ensures Masks(Mask.Bit(k), Range(k, k, 1, false))
  {
    hide Mask.Has, Mask.Shl;
    forall j: nat | j < 64 ensures Mask.Has(Mask.Bit(k), j) <==> RangeBit(Range(k, k, 1, false), j) {
      Mask.HasBit(k, j);
    }
  }

  lemma OnePart(s: string)
    requires |s| == 1 && s[0] != ','
    ensures Parts(s) == [s]
  {
    SplitNowhere(s, ',');
    assert NonEmpty([s][1..]) == [];
  }

  lemma ValueField(s: string, k: nat, b: Bounds)
    requires (s == "0" && k == 0) || (s == "1" && k == 1)
    requires b.min <= k <= b.max < 63 && NamesAreWords(b)
    ensures Parts(s) == [s] && RangeOf(s, b) == Ok(Range(k, k, 1, false))
  {
    assert s == CacheKeys.Digits(k);
    hide Split, RangeOf;
    OnePart(s);
    ValueTextParses(k, 1, b);
  }

  lemma StarField(b: Bounds)
    requires b.min <= b.max < 63
    ensures Parts("*") == ["*"] && RangeOf("*", b) == Ok(Range(b.min, b.max, 1, true))
  {
    hide Split, RangeOf;
    OnePart("*");
    StarTextParses("*", 1, b);
  }

  lemma SinglePart(bits: bv64, field: string, b: Bounds, r: Range)
    requires b.max < 63 && Parts(field) == [field] && RangeOf(field, b) == Ok(r) && Masks(bits, r)
    ensures FieldOk(field, b) && FieldMask(bits, field, b)
  {
    hide Mask.Has, Parts, RangeOf, RangeBit;
    assert Parts(field)[0] == field;
    forall k: nat | k < 64
      ensures Mask.Has(bits, k) <==> exists j :: 0 <= j < |Parts(field)| && RangeBit(RangeOf(Parts(field)[j], b).value, k)
    {
      if Mask.Has(bits, k) {
        assert RangeBit(RangeOf(Parts(field)[0], b).value, k);
      }
    }
    FieldMaskOfParts(bits, field, b);
  }

  lemma ValueMask(k: nat, s: string, b: Bounds)
    requires (s == "0" && k == 0) || (s == "1" && k == 1)
    requires b.min <= k <= b.max < 63 && NamesAreWords(b)
    ensures FieldOk(s, b) && FieldMask(Mask.Bit(k), s, b)
  {
    hide Mask.Has, Parts, RangeOf, FieldMask, FieldOk, Masks;
    ValueField(s, k, b);
    BitIsValue(k);
    SinglePart(Mask.Bit(k), s, b, Range(k, k, 1, false));
  }

  lemma StarMask(b: Bounds)
    requires b.min <= b.max < 63
    ensures FieldOk("*", b) && FieldMask(All(b), "*", b)
  {
    hide Mask.Has, Parts, RangeOf, FieldMask, FieldOk, Masks, All;
    StarField(b);
    AllIsStar(b);
    SinglePart(All(b), "*", b, Range(b.min, b.max, 1, true));
  }

  lemma HourFieldValue()
    ensures FieldOk("0", HOURS) && FieldMask(Mask.Bit(0), "0", HOURS)
  {
    hide Mask.Has, Mask.Bit, FieldMask, FieldOk, NamesAreWords;
    NoNamesAreWords();
    ValueMask(0, "0", HOURS);
  }

  lemma HourField(d: Descriptor)
    ensures FieldOk(FieldsOf(d)[2], HOURS) && FieldMask(Predefined(d).hour, FieldsOf(d)[2], HOURS)
  {
    hide Mask.Has, Mask.Bit, FieldMask, FieldOk, All;
    if d.Hourly? { StarMask(HOURS); } else { HourFieldValue(); }
  }

  lemma DomFieldValue()
    ensures FieldOk("1", DOM) && FieldMask(Mask.Bit(1), "1", DOM)
  {
    hide Mask.Has, Mask.Bit, FieldMask, FieldOk, NamesAreWords;
    NoNamesAreWords();
    ValueMask(1, "1", DOM);
  }

  lemma DomField(d: Descriptor)
    ensures FieldOk(FieldsOf(d)[3], DOM) && FieldMask(Predefined(d).dom, FieldsOf(d)[3], DOM)
  {
    hide Mask.Has, Mask.Bit, FieldMask, FieldOk, All;
    if !d.Yearly? && !d.Monthly? { StarMask(DOM); } else { DomFieldValue(); }
  }

  lemma MonthFieldValue()
    ensures FieldOk("1", MONTHS) && FieldMask(Mask.Bit(1), "1", MONTHS)
  {
    hide Mask.Has, Mask.Bit, FieldMask, FieldOk, NamesAreWords;
    MonthNamesAreWords();
    ValueMask(1, "1", MONTHS);
  }

  lemma MonthField(d: Descriptor)
    ensures FieldOk(FieldsOf(d)[4], MONTHS) && FieldMask(Predefined(d).month, FieldsOf(d)[4], MONTHS)
  {
    hide Mask.Has, Mask.Bit, FieldMask, FieldOk, All;
    if !d.Yearly? { StarMask(MONTHS); } else { MonthFieldValue(); }
  }

  lemma DowFieldValue()
    ensures FieldOk("0", DOW) && FieldMask(Mask.Bit(0), "0", DOW)
  {
    hide Mask.Has, Mask.Bit, FieldMask, FieldOk, NamesAreWords;
    WeekdayNamesAreWords();
    ValueMask(0, "0", DOW);
  }

  lemma DowField(d: Descriptor)
    ensures FieldOk(FieldsOf(d)[5], DOW) && FieldMask(Predefined(d).dow, FieldsOf(d)[5], DOW)
  {
    hide Mask.Has, Mask.Bit, FieldMask, FieldOk, All;
    if !d.Weekly? { StarMask(DOW); } else { DowFieldValue(); }
  }

  lemma ClockFieldsOf(d: Descriptor)
    ensures FieldsOf(d)[0] == FieldsOf(d)[1] == "0"
    ensures Predefined(d).second == Predefined(d).minute == Mask.Bit(0)
  {
    hide Mask.Bit, All;
  }

  /** A predefined schedule has the masks that parsing the fields it abbreviates would give. */
  lemma PredefinedAbbreviates(d: Descriptor)
    ensures Schedules(Predefined(d), FieldsOf(d))
  {
    hide Mask.Has, Mask.Bit, FieldMask, FieldOk, All, Predefined, FieldsOf, NamesAreWords;
    NoNamesAreWords();
    ClockFieldsOf(d);
    ValueMask(0, "0", SECONDS);
    ValueMask(0, "0", MINUTES);
    HourField(d);
    DomField(d);
    MonthField(d);
    DowField(d);
  }

  lemma AllCovers(b: Bounds)
    requires b.min <= b.max < 63
    ensures forall k: nat :: b.min <= k <= b.max ==> Mask.Has(All(b), k)
    ensures Mask.Star(All(b))
  {
    hide Mask.Has, Mask.Star, All;
    AllIsStar(b);
    Mask.StarIsBit63(All(b));
    assert RangeBit(Range(b.min, b.max, 1, true), 63);
  }

  lemma BitCovers(k: nat)
    requires k < 64
    ensures Mask.Has(Mask.Bit(k), k)
  {
    Mask.HasBit(k, k);
  }

  /** A schedule for midnight of one weekday. */
  ghost predicate NamesAWeekday(s: SpecSchedule, weekday: nat)
    requires weekday <= 6
  {
    && Mask.Has(s.second, 0) && Mask.Has(s.minute, 0) && Mask.Has(s.hour, 0) && Mask.Has(s.dow, weekday)
    && (forall d: nat :: 1 <= d <= 31 ==> Mask.Has(s.dom, d))
    && (forall m: nat :: 1 <= m <= 12 ==> Mask.Has(s.month, m))
  }

  lemma WeekdayAhead(n: int, weekday: nat, ahead: int)
    requires weekday <= 6 && ahead == (weekday - WeekdayOfDay(n) - 1) % 7 + 1
    ensures 1 <= ahead <= 7 && WeekdayOfDay(n + ahead) == weekday
  {
  }

  lemma WeekdayMatches(s: SpecSchedule, weekday: nat, start: int, ahead: int, u: int)
    requires weekday <= 6 && NamesAWeekday(s, weekday)
    requires ahead == (weekday - Weekday(start) - 1) % 7 + 1 && u == (DayIndex(start) + ahead) * SECONDS_PER_DAY
    ensures Matches(s, u) && start < u <= start + 7 * SECONDS_PER_DAY
  {
    hide Mask.Has, YearOfDay, MonthOfDay, DayOfMonth, DaysBeforeYear, DayIndex, Hour, Minute, Second, WeekdayOfDay, MonthLength;
    WeekdayAhead(DayIndex(start), weekday, ahead);
    ClockParts(start);
    ClockFields(u, DayIndex(start) + ahead, 0, 0, 0);
    DayBounds(DayIndex(u));
  }

  lemma NextWeekIsNear(start: int, u: int)
    requires u <= start + 7 * SECONDS_PER_DAY
    ensures Year(u) <= Year(start) + 1
  {
    hide DaysBeforeYear, Year;
    YearBounds(start, Year(start));
    YearsAscend(Year(start) + 1, Year(start) + 2);
    YearBounds(u, Year(start) + 1);
  }

  /** Such a schedule never runs dry either. */
  lemma WeekdayNeverRunsDry(s: SpecSchedule, weekday: nat, nanos: int)
    requires weekday <= 6 && NamesAWeekday(s, weekday)
    ensures NextActivation(s, nanos).Some?
  {
    hide Mask.Has, Matches, Year, DayIndex, Weekday, NamesAWeekday, NextActivation;
    var start := UpcomingSecond(nanos);
    var ahead := (weekday - Weekday(start) - 1) % 7 + 1;
    var u := (DayIndex(start) + ahead) * SECONDS_PER_DAY;
    WeekdayMatches(s, weekday, start, ahead, u);
    NextIsLeastMatch(s, nanos);
    NextWeekIsNear(start, u);
  }

  /** No predefined schedule ever reports that it has no next activation. */
  lemma PredefinedNeverRunsDry(d: Descriptor, nanos: int)
    ensures NextActivation(Predefined(d), nanos).Some?
  {
    hide Mask.Has, Mask.Bit, All, NextActivation;
    BitCovers(0);
    BitCovers(1);
    AllCovers(HOURS);
    AllCovers(DOM);
    AllCovers(MONTHS);
    AllCovers(DOW);
    var s := Predefined(d);
    if d.Weekly? {
      WeekdayNeverRunsDry(s, 0, nanos);
    } else {
      assert Mask.Has(s.hour, 0) && Mask.Has(s.dom, 1) && Mask.Has(s.month, 1);
      YearlyDateNeverRunsDry(s, nanos);
    }
  }

  // What the predefined schedules mean in calendar terms.

  lemma AllHas(b: Bounds, k: nat)
    requires b.min <= k <= b.max < 63
    ensures Mask.Has(All(b), k) && Mask.Star(All(b))
  {
    hide Mask.Has, Mask.Star, All;
    AllCovers(b);
  }

  lemma MidnightMasks(s: SpecSchedule, t: int)
    requires s.second == s.minute == s.hour == Mask.Bit(0)
    ensures HourOk(s, t) && MinuteOk(s, t) && SecondOk(s, t) <==> Hour(t) == 0 && Minute(t) == 0 && Second(t) == 0
  {
    hide Mask.Has, Mask.Bit, Hour, Minute, Second;
    Mask.HasBit(0, Hour(t));
    Mask.HasBit(0, Minute(t));
    Mask.HasBit(0, Second(t));
  }

  /** Midnight of every day of one weekday, as in `0 0 0 * * 2`. */
  function OnWeekday(w: nat): SpecSchedule {
    SpecSchedule(Mask.Bit(0), Mask.Bit(0), Mask.Bit(0), All(DOM), All(MONTHS), Mask.Bit(w))
  }

  lemma OnWeekdayMeans(w: nat, t: int)
    requires w <= 6
    ensures Matches(OnWeekday(w), t) <==> Hour(t) == 0 && Minute(t) == 0 && Second(t) == 0 && Weekday(t) == w
  {
    hide Mask.Has, Mask.Star, Mask.Bit, All, Year, Month, Day, Weekday, Hour, Minute, Second;
    MidnightMasks(OnWeekday(w), t);
    AllHas(DOM, Day(t));
    AllHas(MONTHS, Month(t));
    Mask.HasBit(w, Weekday(t));
  }

  /** Each predefined schedule fires at exactly the instants its name says. */
  lemma PredefinedMeans(d: Descriptor, t: int)
    ensures Matches(Predefined(d), t) <==>
            match d
            case Hourly => Minute(t) == 0 && Second(t) == 0
            case Daily => Hour(t) == 0 && Minute(t) == 0 && Second(t) == 0
            case Weekly => Hour(t) == 0 && Minute(t) == 0 && Second(t) == 0 && Weekday(t) == 0
            case Monthly => Hour(t) == 0 && Minute(t) == 0 && Second(t) == 0 && Day(t) == 1
            case Yearly => Hour(t) == 0 && Minute(t) == 0 && Second(t) == 0 && Day(t) == 1 && Month(t) == 1
  {
    hide Mask.Has, Mask.Star, Mask.Bit, All, Year, Month, Day, Weekday, Hour, Minute, Second;
    Mask.HasBit(0, Hour(t));
    Mask.HasBit(0, Minute(t));
    Mask.HasBit(0, Second(t));
    Mask.HasBit(0, Weekday(t));
    Mask.HasBit(1, Day(t));
    Mask.HasBit(1, Month(t));
    AllHas(HOURS, Hour(t));
    AllHas(DOM, Day(t));
    AllHas(MONTHS, Month(t));
    AllHas(DOW, Weekday(t));
  }

  /** Asked on Monday, January 1, 2001, `0 0 0 * * 2` answers Tuesday, January 2. */
  lemma TuesdayFollowsMonday()
    ensures NextActivation(OnWeekday(2), Date(2001, 1, 1, 0, 0, 0) * NANOS) == Some(Date(2001, 1, 2, 0, 0, 0))
  {
    hide Matches, Date, Year, YearStart, NextActivation, Weekday, Hour, Minute, Second, DayIndex;
    var monday, tuesday := Date(2001, 1, 1, 0, 0, 0), Date(2001, 1, 2, 0, 0, 0);
    MondayAndTuesday();
    OnWeekdayMeans(2, tuesday);
    forall u | monday < u < tuesday ensures !Matches(OnWeekday(2), u) {
      OnWeekdayMeans(2, u);
      SameDayIsMonday(u);
    }
    NextIsLeastMatch(OnWeekday(2), monday * NANOS);
    assert UpcomingSecond(monday * NANOS) == monday + 1;
    SameDayIsMonday(monday + 1);
  }

  lemma MondayAndTuesday()
    ensures var tuesday := Date(2001, 1, 2, 0, 0, 0);
            && Date(2001, 1, 1, 0, 0, 0) == tuesday - SECONDS_PER_DAY == YearStart(2001)
            && Weekday(tuesday) == 2 && Year(tuesday) == 2001
            && Hour(tuesday) == 0 && Minute(tuesday) == 0 && Second(tuesday) == 0
            && tuesday == DayIndex(tuesday) * SECONDS_PER_DAY
  {
    KnownTuesday();
    hide YearOfDay, Weekday, DayIndex, Hour, Minute, Second, MonthLength;
    MonthLengths(2001, 1);
    FieldsOfDate(2001, 1, 2, 0, 0, 0);
    ClockParts(Date(2001, 1, 2, 0, 0, 0));
  }

  lemma SameDayIsMonday(u: int)
    requires Date(2001, 1, 1, 0, 0, 0) <= u < Date(2001, 1, 2, 0, 0, 0)
    ensures Weekday(u) == 1 && Year(u) == 2001
  {
    MondayAndTuesday();
    hide YearOfDay, Date, WeekdayOfDay, DaysBeforeYear;
    var tuesday := Date(2001, 1, 2, 0, 0, 0);
    DayIsConstant(tuesday - SECONDS_PER_DAY, u);
    NextWeekday(DayIndex(tuesday) - 1);
    YearBounds(tuesday, 2001);
    YearBounds(u, 2001);
    YearBounds(u, 2000);
  }
}
