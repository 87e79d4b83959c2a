/** From the text of a cron field to its mask, and from a list of field texts to a schedule. */
module CronParser {
  import opened Results
  import opened CronSpec
  import Mask

  const TWO_63 := 0x8000_0000_0000_0000
  const TWO_64 := 0x1_0000_0000_0000_0000

  type Names = map<string, nat>

  datatype Bounds = Bounds(min: nat, max: nat, names: Names)

  const SECONDS := Bounds(0, 59, map[])
  const MINUTES := Bounds(0, 59, map[])
  const HOURS := Bounds(0, 23, map[])
  const DOM := Bounds(1, 31, map[])
  const MONTHS := Bounds(1, 12, map["jan" := 1, "feb" := 2, "mar" := 3, "apr" := 4, "may" := 5, "jun" := 6,
                                    "jul" := 7, "aug" := 8, "sep" := 9, "oct" := 10, "nov" := 11, "dec" := 12])
  const DOW := Bounds(0, 6, map["sun" := 0, "mon" := 1, "tue" := 2, "wed" := 3, "thu" := 4, "fri" := 5, "sat" := 6])

  // Text.

  /** `strings.Split` at a one-character separator. */
  function Split(s: string, separator: char): (parts: seq<string>)
    ensures |parts| > 0
  {
    if |s| == 0 then [""]
    else
      var rest := Split(s[1..], separator);
      if s[0] == separator then [""] + rest else [[s[0]] + rest[0]] + rest[1..]
  }

  function NonEmpty(parts: seq<string>): seq<string> {
    if |parts| == 0 then [] else (if parts[0] == "" then [] else [parts[0]]) + NonEmpty(parts[1..])
  }

  /** The comma-separated parts of a field, empty ones dropped. */
  function Parts(field: string): seq<string> {
    NonEmpty(Split(field, ','))
  }

  function Lower(s: string): string {
    seq(|s|, i requires 0 <= i < |s| => if 'A' <= s[i] <= 'Z' then s[i] - 'A' + 'a' else s[i])
  }

  function DigitsValue(s: string): Result<nat> {
    if |s| == 0 then Ok(0)
    else
      var c := s[|s| - 1];
      var front := DigitsValue(s[..|s| - 1]);
      if front.Err? then front
      else if '0' <= c <= '9' then Ok(front.value * 10 + (c as int - '0' as int))
      else Err("invalid syntax")
  }

  /** `strconv.Atoi` followed by the rejection of negative numbers. */
  function MustParseInt(s: string): (r: Result<nat>)
    ensures r.Ok? ==> r.value < TWO_63
  {
    var digits := if |s| > 0 && (s[0] == '+' || s[0] == '-') then s[1..] else s;
    if |digits| == 0 then Err("failed to parse number")
    else
      var n := DigitsValue(digits);
      if n.Err? then Err("failed to parse number")
      else if s[0] == '-' then
        if n.value > TWO_63 then Err("failed to parse number")
        else if n.value > 0 then Err("number must be positive") else Ok(0)
      else if n.value >= TWO_63 then Err("failed to parse number")
      else Ok(n.value)
  }

  function ParseIntOrName(s: string, names: Names): Result<nat> {
    if Lower(s) in names then Ok(names[Lower(s)]) else MustParseInt(s)
  }

  // Ranges.

  /** The values start, start + step, ... up to end; `star` when every value was asked for. */
  datatype Range = Range(start: nat, end: nat, step: nat, star: bool)

  predicate InSteps(r: Range, k: int) {
    r.start <= k <= r.end && r.step > 0 && (k - r.start) % r.step == 0
  }

  predicate Within(r: Range, b: Bounds) {
    b.min <= r.start <= r.end <= b.max && 0 < r.step < TWO_63
  }

  predicate IsStar(s: string) { s == "*" || s == "?" }

  /** number | number "-" number [ "/" number ], with "*" or "?" for the whole range, and "N/step"
      for "N-max/step". */
  function RangeOf(expr: string, b: Bounds): (r: Result<Range>)
    ensures r.Ok? ==> Within(r.value, b)
  {
    var parts := Split(expr, '/');
    var ends := Split(parts[0], '-');
    var low := if IsStar(ends[0]) then Ok(b.min) else ParseIntOrName(ends[0], b.names);
    var high := if IsStar(ends[0]) then Ok(b.max)
                else if |ends| == 1 then low
                else if |ends| == 2 then ParseIntOrName(ends[1], b.names)
                else Err("too many hyphens");
    if low.Err? then Err(low.reason)
    else if high.Err? then Err(high.reason)
    else
      var step := if |parts| == 1 then Ok(1) else if |parts| == 2 then MustParseInt(parts[1]) else Err("too many slashes");
      if step.Err? then Err(step.reason)
      else
        var end := if |parts| == 2 && |ends| == 1 then b.max else high.value;
        if low.value < b.min then Err("beginning of range below minimum")
        else if end > b.max then Err("end of range above maximum")
        else if low.value > end then Err("beginning of range after end")
        else if step.value == 0 then Err("step cannot be zero")
        else Ok(Range(low.value, end, step.value, IsStar(ends[0]) && step.value == 1))
  }

  // Masks.

  predicate RangeBit(r: Range, k: int) {
    InSteps(r, k) || (k == 63 && r.star)
  }

  /** The mask has exactly the values of the range, and the star bit if the range is a star. */
  ghost predicate Masks(bits: bv64, r: Range) {
    forall k: nat :: k < 64 ==> (Mask.Has(bits, k) <==> RangeBit(r, k))
  }

  lemma AddModulus(a: int, m: int)
    requires m > 0
    ensures (a + m) % m == a % m
  {
    var q, r := a / m, a % m;
    assert a == q * m + r;
    assert a + m == (q + 1) * m + r;
    ModIsUnique(a + m, m, q + 1, r);
  }

  lemma ModIsUnique(a: int, m: int, q: int, r: int)
    requires m > 0 && a == q * m + r && 0 <= r < m
    ensures a % m == r
  {
    var q', r' := a / m, a % m;
    assert q * m + r == q' * m + r';
    assert (q - q') * m == r' - r;
    if q > q' {
      MulGrows(q - q', m);
    } else if q < q' {
      assert (q' - q) * m == r - r';
      MulGrows(q' - q, m);
    }
  }

  lemma MulGrows(d: int, m: int)
    requires d >= 1 && m > 0
    ensures d * m >= m
  {
  }

  /** Between two multiples of the step there is no third one. */
  lemma NothingBetweenSteps(r: Range, i: int, k: int)
    requires r.step > 0 && (i - r.start) % r.step == 0 && i < k < i + r.step
    ensures (k - r.start) % r.step != 0
  {
    var q := (i - r.start) / r.step;
    assert i - r.start == q * r.step + 0;
    ModIsUnique(k - r.start, r.step, q, k - i);
  }

  lemma OnesFrom(n: nat, k: nat)
    requires k < 64
    ensures Mask.Has(Mask.Shl(Mask.ONES, n), k) <==> k >= n
  {
    hide Mask.Has, Mask.Shl;
    Mask.HasShl(Mask.ONES, n, k);
    if k >= n { Mask.HasOnes(k - n); }
  }

  lemma ShiftFormAt(r: Range, k: nat, above: bv64, from: bv64)
    requires r.step == 1 && r.start <= r.end < 63 && k < 64
    requires above == Mask.Shl(Mask.ONES, r.end + 1) && from == Mask.Shl(Mask.ONES, r.start)
    ensures Mask.Has(!above & from, k) <==> InSteps(r, k)
  {
    OnesFrom(r.end + 1, k);
    OnesFrom(r.start, k);
    hide Mask.Has, Mask.Shl;
    Mask.HasAndNot(above, from, k);
  }

  lemma ShiftForm(r: Range, above: bv64, from: bv64)
    requires r.step == 1 && r.start <= r.end < 63 && !r.star
    requires above == Mask.Shl(Mask.ONES, r.end + 1) && from == Mask.Shl(Mask.ONES, r.start)
    ensures Masks(!above & from, r)
  {
    hide Mask.Has, Mask.Shl;
    forall k: nat | k < 64 ensures Mask.Has(!above & from, k) <==> RangeBit(r, k) {
      ShiftFormAt(r, k, above, from);
    }
  }

  /** Sets the bits of the range: by shifts when the step is 1, by a loop otherwise. The loop's
      64-bit index never wraps around, whatever step was accepted. */
  method GetBits(min: nat, max: nat, step: nat) returns (bits: bv64)
    requires min <= max < 63 && 0 < step < TWO_63
    ensures Masks(bits, Range(min, max, step, false))
  {
    hide Mask.Has, Mask.Shl;
    ghost var r := Range(min, max, step, false);
    if step == 1 {
      var above, from := Mask.Shl(Mask.ONES, max + 1), Mask.Shl(Mask.ONES, min);
      ShiftForm(r, above, from);
      return !above & from;
    }
    bits := 0;
    var i := min;
    NoBits();
    while i <= max
      invariant min <= i < TWO_64 && (i - min) % step == 0
      invariant forall k: nat :: k < 64 ==> (Mask.Has(bits, k) <==> k < i && InSteps(r, k))
      decreases max + 1 - i
    {
      ghost var before := bits;
      bits := bits | Mask.Bit(i);
      forall k: nat | k < 64 ensures Mask.Has(bits, k) <==> k < i + step && InSteps(r, k) {
        Mask.HasOr(before, Mask.Bit(i), k);
        Mask.HasBit(i, k);
        if i < k < i + step {
          NothingBetweenSteps(r, i, k);
        }
      }
      AddModulus(i - min, step);
      assert i + step - min == (i - min) + step && (i + step) % TWO_64 == i + step;
      i := (i + step) % TWO_64;
    }
  }

  lemma NoBits()
    ensures forall k: nat :: k < 64 ==> !Mask.Has(0, k)
  {
  }

  lemma WithStarBit(bits: bv64, r: Range)
    requires Masks(bits, r.(star := false)) && r.end < 63
    ensures Masks(bits | Mask.STAR_BIT, r.(star := true))
  {
    hide Mask.Has, Mask.Shl;
    Mask.BitTable();
    forall k: nat | k < 64 ensures Mask.Has(bits | Mask.STAR_BIT, k) <==> RangeBit(r.(star := true), k) {
      Mask.HasOr(bits, Mask.Bit(63), k);
      Mask.HasBit(63, k);
    }
  }

  method GetRange(expr: string, b: Bounds) returns (r: Result<bv64>)
    requires b.max < 63
    ensures r.Ok? <==> RangeOf(expr, b).Ok?
    ensures r.Ok? ==> Masks(r.value, RangeOf(expr, b).value)
  {
    hide Mask.Has, Mask.Shl, Split, ParseIntOrName, MustParseInt;
    var start, end, step: nat;
    var rangeAndStep := Split(expr, '/');
    var lowAndHigh := Split(rangeAndStep[0], '-');
    var singleDigit := |lowAndHigh| == 1;
    var extra := false;
    if IsStar(lowAndHigh[0]) {
      start, end, extra := b.min, b.max, true;
    } else {
      var low := ParseIntOrName(lowAndHigh[0], b.names);
      if low.Err? {
        return Err(low.reason);
      }
      start := low.value;
      if |lowAndHigh| == 1 {
        end := start;
      } else if |lowAndHigh| == 2 {
        var high := ParseIntOrName(lowAndHigh[1], b.names);
        if high.Err? {
          return Err(high.reason);
        }
        end := high.value;
      } else {
        return Err("too many hyphens");
      }
    }
    if |rangeAndStep| == 1 {
      step := 1;
    } else if |rangeAndStep| == 2 {
      var s := MustParseInt(rangeAndStep[1]);
      if s.Err? {
        return Err(s.reason);
      }
      step := s.value;
      if singleDigit {
        end := b.max;
      }
      if step > 1 {
        extra := false;
      }
    } else {
      return Err("too many slashes");
    }
    if start < b.min {
      return Err("beginning of range below minimum");
    }
    if end > b.max {
      return Err("end of range above maximum");
    }
    if start > end {
      return Err("beginning of range after end");
    }
    if step == 0 {
      return Err("step cannot be zero");
    }
    assert RangeOf(expr, b) == Ok(Range(start, end, step, extra));
    var bits := GetBits(start, end, step);
    if extra {
      WithStarBit(bits, Range(start, end, step, true));
      bits := bits | Mask.STAR_BIT;
    }
    return Ok(bits);
  }

  /** The field parses: every part is a range. */
  ghost predicate FieldOk(field: string, b: Bounds) {
    forall i :: 0 <= i < |Parts(field)| ==> RangeOf(Parts(field)[i], b).Ok?
  }

  /** The value lies in one of the field's ranges. */
  ghost predicate InField(field: string, b: Bounds, k: int)
    requires FieldOk(field, b)
  {
    exists i :: 0 <= i < |Parts(field)| && InSteps(RangeOf(Parts(field)[i], b).value, k)
  }

  ghost predicate HasStar(field: string, b: Bounds)
    requires FieldOk(field, b)
  {
    exists i :: 0 <= i < |Parts(field)| && RangeOf(Parts(field)[i], b).value.star
  }

  ghost predicate FieldMask(bits: bv64, field: string, b: Bounds)
    requires FieldOk(field, b)
  {
    && (forall k: nat :: k < 63 ==> (Mask.Has(bits, k) <==> InField(field, b, k)))
    && (Mask.Has(bits, 63) <==> HasStar(field, b))
  }

  ghost predicate PartsMask(bits: bv64, ranges: seq<string>, b: Bounds) {
    && (forall j :: 0 <= j < |ranges| ==> RangeOf(ranges[j], b).Ok?)
    && forall k: nat :: k < 64 ==>
         (Mask.Has(bits, k) <==>
          exists j :: 0 <= j < |ranges| && RangeBit(RangeOf(ranges[j], b).value, k))
  }

  lemma AddPart(bits: bv64, ranges: seq<string>, i: nat, b: Bounds, bit: bv64)
    requires i < |ranges| && PartsMask(bits, ranges[..i], b)
    requires RangeOf(ranges[i], b).Ok? && Masks(bit, RangeOf(ranges[i], b).value)
    ensures PartsMask(bits | bit, ranges[..i + 1], b)
  {
    hide Mask.Has, RangeOf, RangeBit;
    var more, both := ranges[..i + 1], bits | bit;
    forall k: nat | k < 64
      ensures Mask.Has(both, k) <==>
              exists j :: 0 <= j < |more| && RangeBit(RangeOf(more[j], b).value, k)
    {
      Mask.HasOr(bits, bit, k);
      if Mask.Has(bit, k) {
        assert more[i] == ranges[i];
      }
      if Mask.Has(bits, k) {
        var j :| 0 <= j < i && RangeBit(RangeOf(ranges[..i][j], b).value, k);
        assert more[j] == ranges[..i][j];
      }
      if j :| 0 <= j < |more| && RangeBit(RangeOf(more[j], b).value, k) {
        if j < i {
          assert more[j] == ranges[..i][j];
        }
      }
    }
  }

  /** A parsed field's mask has exactly the values in one of its ranges; its star bit is set
      exactly when some part is a star with step 1. The first bad part is an error. */
  method GetField(field: string, b: Bounds) returns (r: Result<bv64>)
    requires b.max < 63
    ensures r.Ok? <==> FieldOk(field, b)
    ensures r.Ok? ==> FieldMask(r.value, field, b)
  {
    hide Mask.Has, RangeOf, InSteps;
    var bits: bv64 := 0;
    var ranges := Parts(field);
    NoBits();
    for i := 0 to |ranges|
      invariant PartsMask(bits, ranges[..i], b)
    {
      var bit := GetRange(ranges[i], b);
      if bit.Err? {
        return bit;
      }
      AddPart(bits, ranges, i, b, bit.value);
      bits := bits | bit.value;
    }
    assert ranges[..|ranges|] == ranges;
    FieldMaskOfParts(bits, field, b);
    return Ok(bits);
  }

  lemma FieldMaskOfParts(bits: bv64, field: string, b: Bounds)
    requires b.max < 63 && PartsMask(bits, Parts(field), b)
    ensures FieldOk(field, b) && FieldMask(bits, field, b)
  {
    hide Mask.Has, Parts;
    var ranges := Parts(field);
    forall j | 0 <= j < |ranges| ensures !InSteps(RangeOf(ranges[j], b).value, 63) {
      assert Within(RangeOf(ranges[j], b).value, b);
    }
  }

  /** A parsed field with at least one part always accepts a value within its bounds, and a mask
      never accepts a value outside them. */
  lemma FieldsAreUsable(bits: bv64, field: string, b: Bounds)
    requires b.max < 63 && FieldOk(field, b) && FieldMask(bits, field, b)
    ensures |Parts(field)| > 0 <==> exists k: nat :: b.min <= k <= b.max && Mask.Has(bits, k)
    ensures forall k: nat :: k < 63 && Mask.Has(bits, k) ==> b.min <= k <= b.max
    ensures HasStar(field, b) ==> forall k: nat :: b.min <= k <= b.max ==> Mask.Has(bits, k)
  {
    hide Mask.Has, Parts;
    if |Parts(field)| > 0 {
      var r := RangeOf(Parts(field)[0], b).value;
      assert InSteps(r, r.start);
      assert Mask.Has(bits, r.start);
    }
    if HasStar(field, b) {
      var i :| 0 <= i < |Parts(field)| && RangeOf(Parts(field)[i], b).value.star;
      hide RangeOf;
      StarCoversBounds(Parts(field)[i], b);
    }
  }

  lemma StarCoversBounds(expr: string, b: Bounds)
    requires RangeOf(expr, b).Ok? && RangeOf(expr, b).value.star
    ensures forall k :: b.min <= k <= b.max ==> InSteps(RangeOf(expr, b).value, k)
  {
    hide Split;
  }

  // Lists of fields.

  datatype Place = SecondPlace | MinutePlace | HourPlace | DomPlace | MonthPlace | DowPlace

  const PLACES := [SecondPlace, MinutePlace, HourPlace, DomPlace, MonthPlace, DowPlace]
  const DEFAULTS := ["0", "0", "0", "*", "*", "*"]

  /** Parse options: the configured places, and which of the two optional ones is optional. */
  datatype Options = Options(places: set<Place>, secondOptional: bool, dowOptional: bool)

  function Configured(o: Options): set<Place> {
    o.places + (if o.secondOptional then {SecondPlace} else {}) + (if o.dowOptional then {DowPlace} else {})
  }

  /** How many of the first `n` places are configured. */
  function CountPlaces(places: set<Place>, n: nat): nat
    requires n <= 6
  {
    if n == 0 then 0 else CountPlaces(places, n - 1) + if PLACES[n - 1] in places then 1 else 0
  }

  /** The given fields with the optional one filled in. */
  function Filled(fields: seq<string>, o: Options): Result<seq<string>> {
    var max := CountPlaces(Configured(o), 6);
    if o.secondOptional && o.dowOptional then Err("multiple optionals may not be configured")
    else
      var min := max - if o.secondOptional || o.dowOptional then 1 else 0;
      if |fields| < min || |fields| > max then Err("incorrect number of fields")
      else if min < max && |fields| == min then
        if o.dowOptional then Ok(fields + [DEFAULTS[5]]) else Ok([DEFAULTS[0]] + fields)
      else Ok(fields)
  }

  /** Each configured place has the next field, every other place its default. */
  ghost predicate Expands(fields: seq<string>, places: set<Place>, expanded: seq<string>)
    requires |fields| == CountPlaces(places, 6)
  {
    && |expanded| == 6
    && forall i :: 0 <= i < 6 ==>
         expanded[i] == if PLACES[i] in places then (CountPlacesBelow(places, i); fields[CountPlaces(places, i)]) else DEFAULTS[i]
  }

  lemma {:induction false} CountPlacesBelow(places: set<Place>, i: nat)
    requires i < 6 && PLACES[i] in places
    ensures CountPlaces(places, i) < CountPlaces(places, 6)
  {
    CountPlacesMonotone(places, i + 1, 6);
  }

  lemma {:induction false} CountPlacesMonotone(places: set<Place>, i: nat, j: nat)
    requires i <= j <= 6
    ensures CountPlaces(places, i) <= CountPlaces(places, j)
    decreases j - i
  {
    if i < j {
      CountPlacesMonotone(places, i, j - 1);
    }
  }

  method NormalizeFields(fields: seq<string>, o: Options) returns (r: Result<seq<string>>)
    ensures r.Ok? <==> Filled(fields, o).Ok?
    ensures r.Ok? ==>
              |Filled(fields, o).value| == CountPlaces(Configured(o), 6)
              && Expands(Filled(fields, o).value, Configured(o), r.value)
  {
    var optionals := 0;
    var places := o.places;
    if o.secondOptional {
      places := places + {SecondPlace};
      optionals := optionals + 1;
    }
    if o.dowOptional {
      places := places + {DowPlace};
      optionals := optionals + 1;
    }
    if optionals > 1 {
      return Err("multiple optionals may not be configured");
    }
    assert places == Configured(o);
    var max := 0;
    for i := 0 to 6
      invariant max == CountPlaces(places, i)
    {
      if PLACES[i] in places {
        max := max + 1;
      }
    }
    var min := max - optionals;
    if |fields| < min || |fields| > max {
      return Err("incorrect number of fields");
    }
    var filled := fields;
    if min < max && |fields| == min {
      if o.dowOptional {
        filled := filled + [DEFAULTS[5]];
      } else {
        filled := [DEFAULTS[0]] + filled;
      }
    }
    var n := 0;
    var expanded := DEFAULTS;
    for i := 0 to 6
      invariant |expanded| == 6 && n == CountPlaces(places, i) && |filled| == CountPlaces(places, 6)
      invariant forall j :: i <= j < 6 ==> expanded[j] == DEFAULTS[j]
      invariant forall j :: 0 <= j < i ==>
                  expanded[j] == if PLACES[j] in places then (CountPlacesBelow(places, j); filled[CountPlaces(places, j)]) else DEFAULTS[j]
    {
      if PLACES[i] in places {
        CountPlacesBelow(places, i);
        expanded := expanded[i := filled[n]];
        n := n + 1;
      }
    }
    return Ok(expanded);
  }

  ghost predicate AllParse(fields: seq<string>)
    requires |fields| == 6
  {
    && FieldOk(fields[0], SECONDS) && FieldOk(fields[1], MINUTES) && FieldOk(fields[2], HOURS)
    && FieldOk(fields[3], DOM) && FieldOk(fields[4], MONTHS) && FieldOk(fields[5], DOW)
  }

  /** A schedule whose six masks are those of six field texts. */
  ghost predicate Schedules(s: SpecSchedule, fields: seq<string>) {
    && |fields| == 6 && AllParse(fields)
    && FieldMask(s.second, fields[0], SECONDS)
    && FieldMask(s.minute, fields[1], MINUTES)
    && FieldMask(s.hour, fields[2], HOURS)
    && FieldMask(s.dom, fields[3], DOM)
    && FieldMask(s.month, fields[4], MONTHS)
    && FieldMask(s.dow, fields[5], DOW)
  }

  /** Parses a spec that was split into fields at white space: it succeeds exactly when the number
      of fields fits the options and every field parses. */
  method ParseFields(fields: seq<string>, o: Options) returns (r: Result<SpecSchedule>)
    ensures Filled(fields, o).Err? ==> r.Err?
    ensures Filled(fields, o).Ok? ==>
              && |Filled(fields, o).value| == CountPlaces(Configured(o), 6)
              && exists expanded :: Expands(Filled(fields, o).value, Configured(o), expanded)
                                    && if AllParse(expanded) then r.Ok? && Schedules(r.value, expanded) else r.Err?
  {
    hide FieldOk, FieldMask, Filled;
    var normalized := NormalizeFields(fields, o);
    if normalized.Err? {
      return Err(normalized.reason);
    }
    var texts := normalized.value;
    var second := GetField(texts[0], SECONDS);
    if second.Err? { return Err(second.reason); }
    var minute := GetField(texts[1], MINUTES);
    if minute.Err? { return Err(minute.reason); }
    var hour := GetField(texts[2], HOURS);
    if hour.Err? { return Err(hour.reason); }
    var dom := GetField(texts[3], DOM);
    if dom.Err? { return Err(dom.reason); }
    var month := GetField(texts[4], MONTHS);
    if month.Err? { return Err(month.reason); }
    var dow := GetField(texts[5], DOW);
    if dow.Err? { return Err(dow.reason); }
    return Ok(SpecSchedule(second.value, minute.value, hour.value, dom.value, month.value, dow.value));
  }
}
