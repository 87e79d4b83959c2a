/** Which ranges the texts of the cron grammar denote. */
module CronText {
  import opened Results
  import opened CacheKeys
  import opened CronParser
  import opened CronSpec
  import Calendar
  import Mask

  /** No name of the field looks like a number. */
  ghost predicate NamesAreWords(b: Bounds) {
    forall name :: name in b.names ==> |name| > 0 && !('0' <= name[0] <= '9')
  }

  lemma NoNamesAreWords()
    ensures NamesAreWords(SECONDS) && NamesAreWords(MINUTES) && NamesAreWords(HOURS) && NamesAreWords(DOM)
  {
  }

  lemma MonthNamesAreWords()
    ensures NamesAreWords(MONTHS)
  {
  }

  lemma WeekdayNamesAreWords()
    ensures NamesAreWords(DOW)
  {
  }

  lemma {:induction false} DigitsParse(n: nat)
    ensures DigitsValue(Digits(n)) == Ok(n)
  {
    var s := Digits(n);
    if n >= 10 {
      DigitsParse(n / 10);
      assert s[..|s| - 1] == Digits(n / 10);
    } else {
      assert s[..|s| - 1] == "" && DigitsValue("") == Ok(0);
    }
  }

  lemma DigitsAreNoSigns(n: nat)
    ensures var s := Digits(n); '-' !in s && '/' !in s && ',' !in s && '*' !in s && '?' !in s && '+' !in s
    ensures '0' <= Digits(n)[0] <= '9' && !IsStar(Digits(n))
  {
    assert Digits(n)[0] in Digits(n);
  }

  /** A decimal number parses to itself. */
  lemma NumberParses(n: nat)
    requires n < TWO_63
    ensures MustParseInt(Digits(n)) == Ok(n)
  {
    hide DigitsValue, Digits;
    DigitsParse(n);
    DigitsAreNoSigns(n);
  }

  lemma NumberIsNoName(n: nat, b: Bounds)
    requires n < TWO_63 && NamesAreWords(b)
    ensures ParseIntOrName(Digits(n), b.names) == Ok(n)
  {
    hide MustParseInt, Digits;
    NumberParses(n);
    DigitsAreNoSigns(n);
    assert Lower(Digits(n))[0] == Digits(n)[0];
  }

  lemma {:induction false} SplitNowhere(s: string, c: char)
    requires c !in s
    ensures Split(s, c) == [s]
  {
    if |s| > 0 {
      SplitNowhere(s[1..], c);
      assert [s[0]] + s[1..] == s;
      assert s[0] in s;
    }
  }

  lemma {:induction false} SplitFirst(x: string, c: char, y: string)
    requires c !in x
    ensures Split(x + [c] + y, c) == [x] + Split(y, c)
    decreases |x|
  {
    var s := x + [c] + y;
    if |x| == 0 {
      assert s[1..] == y;
    } else {
      SplitFirst(x[1..], c, y);
      assert s[1..] == x[1..] + [c] + y;
      assert x == [x[0]] + x[1..] && x[0] in x;
    }
  }

  lemma SplitTwo(x: string, c: char, y: string)
    requires c !in x && c !in y
    ensures Split(x + [c] + y, c) == [x, y]
  {
    SplitFirst(x, c, y);
    SplitNowhere(y, c);
  }

  /** `a-e/s` is every s-th value from a to e. */
  lemma RangeTextParses(a: nat, e: nat, s: nat, b: Bounds)
    requires b.max < 63 && NamesAreWords(b) && Within(Range(a, e, s, false), b)
    ensures RangeOf(Digits(a) + "-" + Digits(e) + "/" + Digits(s), b) == Ok(Range(a, e, s, false))
  {
    hide Split, ParseIntOrName, MustParseInt, Digits;
    var ends, step := Digits(a) + "-" + Digits(e), Digits(s);
    DigitsAreNoSigns(a);
    DigitsAreNoSigns(e);
    DigitsAreNoSigns(s);
    SplitTwo(ends, '/', step);
    SplitTwo(Digits(a), '-', Digits(e));
    NumberIsNoName(a, b);
    NumberIsNoName(e, b);
    NumberParses(s);
  }

  /** ... and an error when they do not lie within the bounds in this order, or the step is 0. */
  lemma RangeTextRejected(a: nat, e: nat, s: nat, b: Bounds)
    requires b.max < 63 && NamesAreWords(b) && a < TWO_63 && e < TWO_63 && s < TWO_63 && !Within(Range(a, e, s, false), b)
    ensures RangeOf(Digits(a) + "-" + Digits(e) + "/" + Digits(s), b).Err?
  {
    hide Split, ParseIntOrName, MustParseInt, Digits;
    var ends, step := Digits(a) + "-" + Digits(e), Digits(s);
    DigitsAreNoSigns(a);
    DigitsAreNoSigns(e);
    DigitsAreNoSigns(s);
    SplitTwo(ends, '/', step);
    SplitTwo(Digits(a), '-', Digits(e));
    NumberIsNoName(a, b);
    NumberIsNoName(e, b);
    NumberParses(s);
  }

  /** A plus sign changes nothing, a minus sign is an error but for 0, and so is a number of 2^63 or more. */
  lemma SignedNumbers(n: nat)
    ensures n < TWO_63 ==> MustParseInt("+" + Digits(n)) == Ok(n)
    ensures n > 0 ==> MustParseInt("-" + Digits(n)).Err?
    ensures n >= TWO_63 ==> MustParseInt(Digits(n)).Err?
  {
    hide DigitsValue, Digits;
    DigitsParse(n);
    DigitsAreNoSigns(n);
    assert ("+" + Digits(n))[1..] == Digits(n) && ("-" + Digits(n))[1..] == Digits(n);
  }

  /** Letter case does not matter in names. */
  lemma LowerMeans(s: string, i: nat)
    requires i < |s|
    ensures |Lower(s)| == |s|
    ensures 'A' <= s[i] <= 'Z' ==> Lower(s)[i] as int == s[i] as int + 32
    ensures !('A' <= s[i] <= 'Z') ==> Lower(s)[i] == s[i]
  {
  }

  /** `a-e` is every value from a to e. */
  lemma PlainRangeTextParses(a: nat, e: nat, b: Bounds)
    requires b.max < 63 && NamesAreWords(b) && Within(Range(a, e, 1, false), b)
    ensures RangeOf(Digits(a) + "-" + Digits(e), b) == Ok(Range(a, e, 1, false))
  {
    hide Split, ParseIntOrName, MustParseInt, Digits;
    var ends := Digits(a) + "-" + Digits(e);
    DigitsAreNoSigns(a);
    DigitsAreNoSigns(e);
    SplitNowhere(ends, '/');
    SplitTwo(Digits(a), '-', Digits(e));
    NumberIsNoName(a, b);
    NumberIsNoName(e, b);
  }

  /** `a` is that value alone, and `a/s` every s-th value from there on. */
  lemma ValueTextParses(a: nat, s: nat, b: Bounds)
    requires b.max < 63 && NamesAreWords(b) && Within(Range(a, b.max, s, false), b)
    ensures RangeOf(Digits(a), b) == Ok(Range(a, a, 1, false))
    ensures RangeOf(Digits(a) + "/" + Digits(s), b) == Ok(Range(a, b.max, s, false))
  {
    hide Split, ParseIntOrName, MustParseInt, Digits;
    DigitsAreNoSigns(a);
    DigitsAreNoSigns(s);
    SplitNowhere(Digits(a), '/');
    SplitNowhere(Digits(a), '-');
    SplitTwo(Digits(a), '/', Digits(s));
    NumberIsNoName(a, b);
    NumberParses(s);
  }

  /** A name stands for its value, in upper or lower case. */
  lemma NameParses(name: string, b: Bounds)
    requires Lower(name) in b.names && '-' !in name && '/' !in name && !IsStar(name)
    requires b.min <= b.names[Lower(name)] <= b.max
    ensures RangeOf(name, b) == Ok(Range(b.names[Lower(name)], b.names[Lower(name)], 1, false))
  {
    hide Split, MustParseInt, Lower;
    SplitNowhere(name, '/');
    SplitNowhere(name, '-');
  }

  function MonthName(m: nat): string
    requires 1 <= m <= 12
  {
    match m
    case 1 => "jan" case 2 => "feb" case 3 => "mar" case 4 => "apr" case 5 => "may" case 6 => "jun"
    case 7 => "jul" case 8 => "aug" case 9 => "sep" case 10 => "oct" case 11 => "nov" case _ => "dec"
  }

  lemma MonthNameParses(m: nat)
    requires 1 <= m <= 12
    ensures RangeOf(MonthName(m), MONTHS) == Ok(Range(m, m, 1, false))
  {
    hide RangeOf;
    var name := MonthName(m);
    assert |name| == 3 && forall i :: 0 <= i < 3 ==> 'a' <= name[i] <= 'z';
    assert Lower(name) == name;
    NameParses(name, MONTHS);
  }

  function WeekdayName(w: nat): string
    requires w <= 6
  {
    match w
    case 0 => "sun" case 1 => "mon" case 2 => "tue" case 3 => "wed" case 4 => "thu" case 5 => "fri" case _ => "sat"
  }

  lemma WeekdayNameParses(w: nat)
    requires w <= 6
    ensures RangeOf(WeekdayName(w), DOW) == Ok(Range(w, w, 1, false))
  {
    hide RangeOf;
    var name := WeekdayName(w);
    assert |name| == 3 && forall i :: 0 <= i < 3 ==> 'a' <= name[i] <= 'z';
    assert Lower(name) == name;
    NameParses(name, DOW);
  }

  /** `*` and `?` are every value, the star bit included; with a step above 1 they set none. */
  lemma StarTextParses(star: string, s: nat, b: Bounds)
    requires IsStar(star) && b.max < 63 && Within(Range(b.min, b.max, s, false), b)
    ensures RangeOf(star, b) == Ok(Range(b.min, b.max, 1, true))
    ensures RangeOf(star + "/" + Digits(s), b) == Ok(Range(b.min, b.max, s, s == 1))
  {
    hide Split, ParseIntOrName, MustParseInt, Digits;
    DigitsAreNoSigns(s);
    SplitNowhere(star, '/');
    SplitNowhere(star, '-');
    SplitTwo(star, '/', Digits(s));
    NumberParses(s);
  }

  // Fields of one part.

  /** A text without commas is a field of one range. */
  lemma SingleRangeField(text: string, b: Bounds, r: Range)
    requires |text| > 0 && ',' !in text && RangeOf(text, b) == Ok(r)
    ensures Parts(text) == [text] && FieldOk(text, b)
    ensures forall k :: InField(text, b, k) <==> InSteps(r, k)
    ensures HasStar(text, b) <==> r.star
  {
    hide RangeOf, InSteps;
    SplitNowhere(text, ',');
    assert NonEmpty([text][1..]) == [];
    assert Parts(text)[0] == text;
  }

  /** `*` in the six fields: seconds and minutes 0 to 59, hours 0 to 23, days 1 to 31, months 1 to
      12, weekdays 0 to 6. */
  lemma StarFieldValues(bits: bv64, b: Bounds, k: nat)
    requires b in {SECONDS, MINUTES, HOURS, DOM, MONTHS, DOW} && k < 63
    requires FieldOk("*", b) && FieldMask(bits, "*", b)
    ensures Mask.Has(bits, k) <==>
            if b == SECONDS || b == MINUTES then k <= 59
            else if b == HOURS then k <= 23
            else if b == DOM then 1 <= k <= 31
            else if b == MONTHS then 1 <= k <= 12
            else k <= 6
  {
    hide Mask.Has, RangeOf, FieldOk;
    StarTextParses("*", 1, b);
    SingleRangeField("*", b, Range(b.min, b.max, 1, true));
    assert InField("*", b, k) <==> b.min <= k <= b.max;
  }

  // The places of a spec.

  const STANDARD := {MinutePlace, HourPlace, DomPlace, MonthPlace, DowPlace}

  /** A spec of five fields runs at second 0 only; the fields are minute, hour, day, month and weekday. */
  lemma StandardSpecRunsAtSecondZero(fields: seq<string>, expanded: seq<string>, s: SpecSchedule, t: int)
    requires |fields| == CountPlaces(STANDARD, 6) && Expands(fields, STANDARD, expanded) && Schedules(s, expanded)
    ensures |fields| == 5 && expanded == ["0", fields[0], fields[1], fields[2], fields[3], fields[4]]
    ensures SecondOk(s, t) <==> Calendar.Second(t) == 0
  {
    StandardExpansion(fields, expanded);
    hide Mask.Has, RangeOf, Expands, FieldOk, Calendar.Second;
    NoNamesAreWords();
    assert "0" == Digits(0);
    ValueTextParses(0, 1, SECONDS);
    SingleRangeField("0", SECONDS, Range(0, 0, 1, false));
    var second: nat := Calendar.Second(t);
    assert InField("0", SECONDS, second) <==> second == 0;
  }

  lemma CountsOfStandard()
    ensures CountPlaces(STANDARD, 0) == 0 && CountPlaces(STANDARD, 1) == 0 && CountPlaces(STANDARD, 2) == 1
    ensures CountPlaces(STANDARD, 3) == 2 && CountPlaces(STANDARD, 4) == 3 && CountPlaces(STANDARD, 5) == 4
    ensures CountPlaces(STANDARD, 6) == 5
  {
    assert CountPlaces(STANDARD, 0) == 0;
    assert CountPlaces(STANDARD, 1) == 0;
    assert CountPlaces(STANDARD, 2) == 1;
    assert CountPlaces(STANDARD, 3) == 2;
    assert CountPlaces(STANDARD, 4) == 3;
    assert CountPlaces(STANDARD, 5) == 4;
  }

  lemma StandardExpansion(fields: seq<string>, expanded: seq<string>)
    requires |fields| == CountPlaces(STANDARD, 6) && Expands(fields, STANDARD, expanded)
    ensures |fields| == 5 && expanded == ["0", fields[0], fields[1], fields[2], fields[3], fields[4]]
  {
    CountsOfStandard();
    hide CountPlaces;
    assert PLACES[0] == SecondPlace && PLACES[1] == MinutePlace && PLACES[2] == HourPlace;
    assert PLACES[3] == DomPlace && PLACES[4] == MonthPlace && PLACES[5] == DowPlace;
    assert forall i :: 0 <= i < 6 ==> expanded[i] == if i == 0 then "0" else fields[i - 1];
  }

  /** An omitted optional second is 0, and an omitted optional weekday is a star. */
  lemma OmittedFields(fields: seq<string>)
    requires |fields| == 5
    ensures Filled(fields, Options(STANDARD, true, false)) == Ok(["0"] + fields)
    ensures Filled(fields[..4], Options(STANDARD - {DowPlace}, false, true)) == Ok(fields[..4] + ["*"])
  {
    CountsOfStandard();
    assert Configured(Options(STANDARD, true, false)) == STANDARD + {SecondPlace};
    assert Configured(Options(STANDARD - {DowPlace}, false, true)) == STANDARD;
    CountWithSecond();
  }

  lemma CountWithSecond()
    ensures CountPlaces(STANDARD + {SecondPlace}, 6) == 6
  {
    var all := STANDARD + {SecondPlace};
    assert CountPlaces(all, 1) == 1;
    assert CountPlaces(all, 2) == 2;
    assert CountPlaces(all, 3) == 3;
    assert CountPlaces(all, 4) == 4;
    assert CountPlaces(all, 5) == 5;
  }

  /** Without any configured place: second, minute and hour 0 of every day. */
  lemma NothingConfigured(expanded: seq<string>)
    requires CountPlaces({}, 6) == 0 && Expands([], {}, expanded)
    ensures expanded == ["0", "0", "0", "*", "*", "*"]
  {
    assert forall i :: 0 <= i < 6 ==> expanded[i] == DEFAULTS[i];
  }
}
