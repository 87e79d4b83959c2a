/** Each kind of matcher of the naive schedule accepts the values that the cron engine's mask has
    for the same text. */
module NaiveFields {
  import opened Results
  import opened CacheKeys
  import opened CronParser
  import opened CronText
  import NaiveSchedule
  import Mask

  /** The matcher and the mask agree on every value of the field. */
  ghost predicate Agrees(m: NaiveSchedule.FieldMatcher, bits: bv64, b: Bounds) {
    forall v: nat :: b.min <= v <= b.max < 63 ==> (m.Accepts(v) <==> Mask.Has(bits, v))
  }

  ghost predicate IsMaskOf(bits: bv64, text: string, b: Bounds) {
    FieldOk(text, b) && FieldMask(bits, text, b)
  }

  lemma AgreesOnRange(m: NaiveSchedule.FieldMatcher, bits: bv64, text: string, b: Bounds, r: Range)
    requires IsMaskOf(bits, text, b) && |text| > 0 && ',' !in text && RangeOf(text, b) == Ok(r)
    requires forall v: nat :: b.min <= v <= b.max ==> (m.Accepts(v) <==> InSteps(r, v))
    ensures Agrees(m, bits, b)
  {
    hide Mask.Has, RangeOf, InSteps, FieldOk;
    SingleRangeField(text, b, r);
  }

  /** `*` */
  lemma WildcardAgrees(bits: bv64, b: Bounds)
    requires b.min <= b.max < 63 && IsMaskOf(bits, "*", b)
    ensures Agrees(NaiveSchedule.Wildcard, bits, b)
  {
    hide RangeOf, IsMaskOf;
    StarTextParses("*", 1, b);
    AgreesOnRange(NaiveSchedule.Wildcard, bits, "*", b, Range(b.min, b.max, 1, true));
  }

  /** `a` */
  lemma ExactAgrees(a: nat, bits: bv64, b: Bounds)
    requires b.min <= a <= b.max < 63 && NamesAreWords(b) && IsMaskOf(bits, Digits(a), b)
    ensures Agrees(NaiveSchedule.Exact(a), bits, b)
  {
    hide RangeOf, IsMaskOf, Digits;
    ValueTextParses(a, 1, b);
    DigitsAreNoSigns(a);
    AgreesOnRange(NaiveSchedule.Exact(a), bits, Digits(a), b, Range(a, a, 1, false));
  }

  /** `a-e` */
  lemma RangeAgrees(a: nat, e: nat, bits: bv64, b: Bounds)
    requires b.min <= a <= e <= b.max < 63 && NamesAreWords(b) && IsMaskOf(bits, Digits(a) + "-" + Digits(e), b)
    ensures Agrees(NaiveSchedule.FieldMatcher.Range(a, e), bits, b)
  {
    hide RangeOf, IsMaskOf, Digits;
    PlainRangeTextParses(a, e, b);
    DigitsAreNoSigns(a);
    DigitsAreNoSigns(e);
    AgreesOnRange(NaiveSchedule.FieldMatcher.Range(a, e), bits, Digits(a) + "-" + Digits(e), b, Range(a, e, 1, false));
  }

  /** `*` with a step */
  lemma StepAgrees(s: nat, bits: bv64, b: Bounds)
    requires b.min <= b.max < 63 && 1 <= s <= b.max && IsMaskOf(bits, "*/" + Digits(s), b)
    ensures Agrees(NaiveSchedule.Step(s, b.min, b.max), bits, b)
  {
    hide RangeOf, IsMaskOf, Digits;
    assert "*/" + Digits(s) == "*" + "/" + Digits(s);
    StarTextParses("*", s, b);
    DigitsAreNoSigns(s);
    AgreesOnRange(NaiveSchedule.Step(s, b.min, b.max), bits, "*/" + Digits(s), b, Range(b.min, b.max, s, s == 1));
  }

  // Lists.

  function ListText(values: seq<nat>): string
    requires |values| > 0
  {
    if |values| == 1 then Digits(values[0]) else Digits(values[0]) + "," + ListText(values[1..])
  }

  lemma {:induction false} PartsOfList(values: seq<nat>)
    requires |values| > 0
    ensures |Parts(ListText(values))| == |values|
    ensures forall i :: 0 <= i < |values| ==> Parts(ListText(values))[i] == Digits(values[i])
  {
    hide Digits;
    var first := Digits(values[0]);
    DigitsAreNoSigns(values[0]);
    if |values| == 1 {
      SplitNowhere(first, ',');
      assert NonEmpty([first][1..]) == [];
    } else {
      var rest := ListText(values[1..]);
      SplitFirst(first, ',', rest);
      PartsOfList(values[1..]);
      assert ([first] + Split(rest, ','))[1..] == Split(rest, ',');
    }
  }

  lemma ListField(values: seq<nat>, b: Bounds, v: nat)
    requires |values| > 0 && b.max < 63 && NamesAreWords(b) && forall i :: 0 <= i < |values| ==> b.min <= values[i] <= b.max
    requires FieldOk(ListText(values), b)
    ensures InField(ListText(values), b, v) <==> v in values
  {
    hide RangeOf, Digits, Parts, ListText, FieldOk, NamesAreWords;
    var parts := Parts(ListText(values));
    PartsOfList(values);
    forall i | 0 <= i < |values| ensures RangeOf(parts[i], b) == Ok(Range(values[i], values[i], 1, false)) {
      ValueTextParses(values[i], 1, b);
    }
    if v in values {
      var i :| 0 <= i < |values| && values[i] == v;
      assert InSteps(RangeOf(parts[i], b).value, v);
    }
  }

  /** `a,b,c` */
  lemma ListAgrees(values: seq<nat>, bits: bv64, b: Bounds)
    requires |values| > 0 && b.max < 63 && NamesAreWords(b) && forall i :: 0 <= i < |values| ==> b.min <= values[i] <= b.max
    requires IsMaskOf(bits, ListText(values), b)
    ensures Agrees(NaiveSchedule.ListOf(values), bits, b)
  {
    hide Mask.Has, ListText, FieldOk, InField, HasStar;
    forall v: nat | b.min <= v <= b.max ensures v in values <==> Mask.Has(bits, v) {
      ListField(values, b, v);
    }
  }
}
