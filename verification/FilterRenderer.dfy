/** The renderer: walks a condition tree, emits SQL text and collects arguments as it goes. */
module FilterRenderer {
  import opened Results
  import opened FilterSql
  import opened FilterIR
  import opened FilterMeaning
  import opened FilterBinding

  datatype RenderResult = RenderResult(sql: seq<Token>, trivial: bool, unsatisfiable: bool)

  datatype Statement = Statement(sql: seq<Token>, args: seq<Value>)

  const ONE_IS_ZERO := [Primary(Contradiction, [])]

  /** The text of a condition whose first value is bound at position `n`. */
  function Text(d: Dialect, f: Formula<Value>, n: nat): seq<Token> {
    Print(Map(MarkOf(d), Number(f, n)))
  }

  function OutcomeResult(d: Dialect, o: Outcome): RenderResult {
    match o
    case Trivial => RenderResult([], true, false)
    case Unsatisfiable => RenderResult(ONE_IS_ZERO, false, true)
    case Sql(f) => RenderResult(Print(Map(MarkOf(d), f)), false, false)
  }

  /** What a list of arguments and texts amounts to when a rendered outcome is finished. */
  function StatementOf(d: Dialect, r: Rendering): Statement {
    match Printed(r.outcome)
    case None => Statement([], r.args)
    case Some(f) => Statement(Print(Map(MarkOf(d), f)), r.args)
  }

  lemma ContradictionText(d: Dialect)
    ensures Print(Map(MarkOf(d), CONTRADICTION)) == ONE_IS_ZERO
  {
    assert Map(MarkOf(d), CONTRADICTION).binds == [];
  }

  function CombineAnd(left: RenderResult, right: RenderResult): RenderResult {
    if left.unsatisfiable || right.unsatisfiable then RenderResult(ONE_IS_ZERO, false, true)
    else if left.trivial then right
    else if right.trivial then left
    else RenderResult([LParen] + left.sql + [AndWord] + right.sql + [RParen], false, false)
  }

  function CombineOr(left: RenderResult, right: RenderResult): RenderResult {
    if left.trivial || right.trivial then RenderResult([], true, false)
    else if left.unsatisfiable then right
    else if right.unsatisfiable then left
    else RenderResult([LParen] + left.sql + [OrWord] + right.sql + [RParen], false, false)
  }

  lemma PrintPairs(a: Formula<Mark>, b: Formula<Mark>)
    ensures Print(All([a, b])) == [LParen] + Print(a) + [AndWord] + Print(b) + [RParen]
    ensures Print(Any([a, b])) == [LParen] + Print(a) + [OrWord] + Print(b) + [RParen]
  {
    assert [a, b][1..] == [b];
    assert Join([a, b], AndWord) == Print(a) + [AndWord] + Print(b);
    assert Join([a, b], OrWord) == Print(a) + [OrWord] + Print(b);
    assert Print(All([a, b])) == [LParen] + Join([a, b], AndWord) + [RParen];
    assert Print(Any([a, b])) == [LParen] + Join([a, b], OrWord) + [RParen];
  }

  /** The text combinators follow the folding of conditions. */
  lemma CombineFollowsFold(d: Dialect, l: Outcome, r: Outcome)
    ensures CombineAnd(OutcomeResult(d, l), OutcomeResult(d, r)) == OutcomeResult(d, FoldAnd(l, r))
    ensures CombineOr(OutcomeResult(d, l), OutcomeResult(d, r)) == OutcomeResult(d, FoldOr(l, r))
  {
    if l.Sql? && r.Sql? {
      MapPairs(MarkOf(d), l.formula, r.formula);
      PrintPairs(Map(MarkOf(d), l.formula), Map(MarkOf(d), r.formula));
    }
  }

  // Texts of the leaf formulas.

  function Marks(d: Dialect, values: seq<Value>, n: nat): seq<Mark> {
    seq(|values|, i requires 0 <= i < |values| => MarkOf(d)(Bind(values[i], n + i)))
  }

  lemma TextOfLeaf(d: Dialect, shape: Shape, values: seq<Value>, n: nat)
    ensures Text(d, Atom(shape, values), n) == [Primary(shape, Marks(d, values, n))]
  {
    assert Map(MarkOf(d), Number(Atom(shape, values), n)).binds == Marks(d, values, n);
  }

  lemma TextOfBare(d: Dialect, shape: Shape, n: nat)
    ensures Text(d, Atom(shape, []), n) == [Primary(shape, [])]
  {
    TextOfLeaf(d, shape, [], n);
    assert Marks(d, [], n) == [];
  }

  lemma NumberCons(d: Dialect, a: Formula<Value>, fs: seq<Formula<Value>>, n: nat)
    ensures NumberList([a] + fs, n) == [Number(a, n)] + NumberList(fs, n + |Flat(a)|)
    ensures MapList(MarkOf(d), NumberList([a] + fs, n)) ==
            [Map(MarkOf(d), Number(a, n))] + MapList(MarkOf(d), NumberList(fs, n + |Flat(a)|))
    ensures FlatList([a] + fs) == Flat(a) + FlatList(fs)
  {
    assert ([a] + fs)[1..] == fs;
    ConsList(MarkOf(d), Number(a, n), NumberList(fs, n + |Flat(a)|));
  }

  lemma TextOfAny(d: Dialect, a: Formula<Value>, b: Formula<Value>, n: nat)
    ensures Text(d, Any([a, b]), n) == [LParen] + Text(d, a, n) + [OrWord] + Text(d, b, n + |Flat(a)|) + [RParen]
    ensures Flat(Any([a, b])) == Flat(a) + Flat(b)
  {
    NumberCons(d, b, [], n + |Flat(a)|);
    NumberCons(d, a, [b], n);
    assert [b] + [] == [b] && [a] + [b] == [a, b];
    FlatPairs(a, b);
    var x, y := Map(MarkOf(d), Number(a, n)), Map(MarkOf(d), Number(b, n + |Flat(a)|));
    PrintPairs(x, y);
    assert MapList(MarkOf(d), NumberList([a, b], n)) == [x] + [y] == [x, y];
    assert Map(MarkOf(d), Number(Any([a, b]), n)) == Any([x, y]);
  }

  lemma PrintTriple(x: Formula<Mark>, y: Formula<Mark>, z: Formula<Mark>)
    ensures Print(All([x, y, z])) ==
            [LParen] + Print(x) + [AndWord] + Print(y) + [AndWord] + Print(z) + [RParen]
  {
    assert [x, y, z][1..] == [y, z] && [y, z][1..] == [z];
    assert Join([y, z], AndWord) == Print(y) + [AndWord] + Print(z);
    assert Join([x, y, z], AndWord) == Print(x) + [AndWord] + Join([y, z], AndWord);
  }

  lemma FlatOfWrapped(a: Formula<Value>, s: Shape, t: Shape)
    ensures Flat(All([a, Atom(s, []), Atom(t, [])])) == Flat(a)
  {
    var p: Formula<Value>, q: Formula<Value> := Atom(s, []), Atom(t, []);
    assert [a, p, q][1..] == [p, q] && [p, q][1..] == [q];
    assert |FlatList([q])| == 0 && |FlatList([p, q])| == 0;
  }

  lemma NumberTriple(d: Dialect, a: Formula<Value>, p: Formula<Value>, q: Formula<Value>, n: nat, m: nat)
    requires m == n + |Flat(a)| && |Flat(p)| == 0
    ensures Map(MarkOf(d), Number(All([a, p, q]), n)) ==
            All([Map(MarkOf(d), Number(a, n)), Map(MarkOf(d), Number(p, m)), Map(MarkOf(d), Number(q, m))])
  {
    hide Flat, MarkOf;
    NumberCons(d, q, [], m);
    NumberCons(d, p, [q], m);
    NumberCons(d, a, [p, q], n);
    assert [q] + [] == [q] && [p] + [q] == [p, q] && [a] + [p, q] == [a, p, q];
  }

  /** `(condition AND array IS NOT NULL AND array is not empty)`. */
  lemma TextOfWrapped(d: Dialect, a: Formula<Value>, s: Shape, t: Shape, n: nat)
    ensures Text(d, All([a, Atom(s, []), Atom(t, [])]), n) ==
            [LParen] + Text(d, a, n) + [AndWord, Primary(s, []), AndWord, Primary(t, []), RParen]
  {
    var p, q, m := Atom(s, []), Atom(t, []), n + |Flat(a)|;
    assert |Flat(p)| == 0;
    hide Print, Flat, Map, Number, MarkOf;
    NumberTriple(d, a, p, q, n, m);
    TextOfBare(d, s, m);
    TextOfBare(d, t, m);
    var g := MarkOf(d);
    PrintTriple(Map(g, Number(a, n)), Map(g, Number(p, m)), Map(g, Number(q, m)));
  }

  /** `strings.Join(texts, separator)`. */
  function JoinTexts(texts: seq<seq<Token>>, separator: Token): seq<Token> {
    if |texts| == 0 then []
    else if |texts| == 1 then texts[0]
    else texts[0] + [separator] + JoinTexts(texts[1..], separator)
  }

  function Texts(d: Dialect, fs: seq<Formula<Value>>, n: nat): seq<seq<Token>> {
    if |fs| == 0 then [] else [Text(d, fs[0], n)] + Texts(d, fs[1..], n + |Flat(fs[0])|)
  }

  lemma TextsOne(d: Dialect, f: Formula<Value>, n: nat)
    ensures Texts(d, [f], n) == [Text(d, f, n)] && FlatList([f]) == Flat(f)
  {
    hide Text, Flat;
    assert [f][1..] == [];
  }

  lemma {:induction false} TextsAppend(d: Dialect, fs: seq<Formula<Value>>, f: Formula<Value>, n: nat)
    ensures Texts(d, fs + [f], n) == Texts(d, fs, n) + [Text(d, f, n + |FlatList(fs)|)]
    ensures FlatList(fs + [f]) == FlatList(fs) + Flat(f)
  {
    hide Text, Flat;
    var all := fs + [f];
    if |fs| == 0 {
      assert all == [f];
      TextsOne(d, f, n);
    } else {
      var m := n + |Flat(fs[0])|;
      TextsAppend(d, fs[1..], f, m);
      assert all[0] == fs[0] && all[1..] == fs[1..] + [f];
      assert Texts(d, all, n) == [Text(d, fs[0], n)] + Texts(d, all[1..], m);
      assert FlatList(all) == Flat(fs[0]) + FlatList(all[1..]);
    }
  }

  lemma {:induction false} JoinedTexts(d: Dialect, fs: seq<Formula<Value>>, n: nat)
    ensures |Texts(d, fs, n)| == |fs|
    ensures JoinTexts(Texts(d, fs, n), OrWord) == Join(MapList(MarkOf(d), NumberList(fs, n)), OrWord)
  {
    if |fs| > 0 {
      var m := n + |Flat(fs[0])|;
      JoinedTexts(d, fs[1..], m);
      var r := MapList(MarkOf(d), NumberList(fs[1..], m));
      assert fs == [fs[0]] + fs[1..];
      NumberCons(d, fs[0], fs[1..], n);
      assert ([Map(MarkOf(d), Number(fs[0], n))] + r)[1..] == r;
      assert Texts(d, fs, n)[1..] == Texts(d, fs[1..], m);
    }
  }

  lemma TagStep(d: Dialect, field: Field, values: seq<ValueExpr>, i: nat, n: nat)
    requires i < |values| && AllStrings(values[..i]) && values[i].LiteralValue? && values[i].value.StringLit?
    ensures AllStrings(values[..i + 1])
    ensures var before, tag := TagFormulas(d, field, values[..i]), TagFormula(d, field, values[i].value.s);
            && TagFormulas(d, field, values[..i + 1]) == before + [tag]
            && Texts(d, before + [tag], n) == Texts(d, before, n) + [Text(d, tag, n + |FlatList(before)|)]
            && FlatList(before + [tag]) == FlatList(before) + Flat(tag)
  {
    hide TagFormula;
    TextsAppend(d, TagFormulas(d, field, values[..i]), TagFormula(d, field, values[i].value.s), n);
  }

  /** The text of a list of tag conditions, of which a single one needs no brackets. */
  lemma TagListText(d: Dialect, fs: seq<Formula<Value>>, n: nat)
    ensures var texts := Texts(d, fs, n);
            var f := if |fs| == 1 then fs[0] else Any(fs);
            && |texts| == |fs| && Flat(f) == FlatList(fs)
            && Text(d, f, n) == if |fs| == 1 then texts[0] else [LParen] + JoinTexts(texts, OrWord) + [RParen]
  {
    JoinedTexts(d, fs, n);
    hide JoinTexts, Join, Texts;
    if |fs| == 1 {
      assert fs == [fs[0]];
      TextsOne(d, fs[0], n);
    }
  }

  lemma NoTexts()
    ensures forall d, n :: Texts(d, [], n) == []
    ensures forall d, f :: TagFormulas(d, f, []) == []
    ensures |FlatList<Value>([])| == 0
  {
  }

  class Renderer {
    const schema: Schema
    const dialect: Dialect
    const placeholderOffset: nat
    var placeholderCounter: nat
    var args: seq<Value>

    ghost predicate Valid()
      reads this
    {
      placeholderCounter == |args|
    }

    ghost function Position(): nat
      reads this
    {
      placeholderOffset + |args|
    }

    constructor (schema: Schema, dialect: Dialect, placeholderOffset: nat)
      ensures Valid() && args == []
      ensures this.schema == schema && this.dialect == dialect && this.placeholderOffset == placeholderOffset
    {
      this.schema, this.dialect, this.placeholderOffset := schema, dialect, placeholderOffset;
      placeholderCounter, args := 0, [];
    }

    /** The leaf was rendered as `spec` says, its values bound from position `n` on. */
    ghost predicate Emits(r: Result<seq<Token>>, spec: Result<Formula<Value>>, n: nat, before: seq<Value>)
      reads this
    {
      && Valid()
      && (r.Ok? <==> spec.Ok?)
      && (r.Ok? ==> r.value == Text(dialect, spec.value, n) && args == before + Flat(spec.value))
    }

    method AddArg(value: Value) returns (mark: Mark)
      requires Valid()
      modifies this
      ensures Valid() && args == old(args) + [value]
      ensures mark == MarkOf(dialect)(Bind(value, old(Position())))
    {
      placeholderCounter := placeholderCounter + 1;
      args := args + [value];
      mark := if dialect == Postgres then Dollar(placeholderOffset + placeholderCounter) else Question;
    }

    /** A primary with one bound value. */
    method EmitBound(form: Form, column: string, operator: string, value: Value) returns (text: seq<Token>)
      requires Valid()
      modifies this
      ensures Valid() && args == old(args) + [value]
      ensures text == Text(dialect, Leaf(form, column, operator, [value]), old(Position()))
    {
      TextOfLeaf(dialect, Predicate(form, column, operator), [value], Position());
      assert Marks(dialect, [value], Position()) == [MarkOf(dialect)(Bind(value, Position()))];
      var mark := AddArg(value);
      text := [Primary(Predicate(form, column, operator), [mark])];
    }

    method RenderFieldPredicate(name: string) returns (r: Result<seq<Token>>)
      requires Valid()
      modifies this
      ensures Emits(r, FieldPredicateFormula(schema, dialect, name), old(Position()), old(args))
    {
      if name !in schema {
        return Err("unknown field");
      }
      var field := schema[name];
      match field.kind
      case BoolColumn =>
        var shape := Predicate(ColumnIsTrue, QualifyColumn(dialect, field), "IS TRUE");
        TextOfBare(dialect, shape, Position());
        return Ok([Primary(shape, [])]);
      case JsonBool =>
        var shape := Predicate(JsonIsTrue, JsonExtractExpr(dialect, field), "IS TRUE");
        TextOfBare(dialect, shape, Position());
        return Ok([Primary(shape, [])]);
      case _ => return Err("field cannot be used as a predicate");
    }

    method RenderComparison(c: Condition) returns (r: Result<seq<Token>>)
      requires Valid() && c.Comparison?
      modifies this
      ensures Emits(r, ComparisonFormula(schema, dialect, c), old(Position()), old(args))
    {
      match c.lhs
      case FieldRef(name) =>
        if name !in schema {
          return Err("unknown field");
        }
        var field := schema[name];
        match field.kind {
          case BoolColumn => r := RenderBoolColumnComparison(field, c.comparison, c.rhs);
          case JsonBool => r := RenderJsonBoolComparison(field, c.comparison, c.rhs);
          case Scalar => r := RenderScalarComparison(field, c.comparison, c.rhs);
          case _ => r := Err("field does not support comparison");
        }
      case FunctionValue(fn, fargs) =>
        if fn != "size" {
          return Err("unsupported function");
        }
        if |fargs| != 1 {
          return Err("size() expects one argument");
        }
        if !fargs[0].FieldRef? {
          return Err("size() argument must be a field");
        }
        if fargs[0].name !in schema {
          return Err("unknown field");
        }
        var field := schema[fargs[0].name];
        if field.kind != JsonList {
          return Err("size() only supports tag lists");
        }
        if !c.rhs.LiteralValue? || !c.rhs.value.IntLit? {
          return Err("numeric literal required");
        }
        var text := EmitBound(SizeCompare, JsonArrayExpr(dialect, field), c.comparison.Sql(), Int(c.rhs.value.i));
        return Ok(text);
      case LiteralValue(_) => return Err("comparison must start with a field reference or supported function");
    }

    method RenderBoolColumnComparison(field: Field, op: ComparisonOperator, right: ValueExpr)
        returns (r: Result<seq<Token>>)
      requires Valid()
      modifies this
      ensures Emits(r, if right.LiteralValue? && right.value.BoolLit?
                       then Ok(Leaf(ColumnCompare, QualifyColumn(dialect, field), op.Sql(),
                                    [BoolValue(dialect, right.value.b)]))
                       else Err("boolean literal required"), old(Position()), old(args))
    {
      if !right.LiteralValue? || !right.value.BoolLit? {
        return Err("boolean literal required");
      }
      var v := if dialect == SQLite then (if right.value.b then Int(1) else Int(0)) else Bool(right.value.b);
      var text := EmitBound(ColumnCompare, QualifyColumn(dialect, field), op.Sql(), v);
      return Ok(text);
    }

    method RenderJsonBoolComparison(field: Field, op: ComparisonOperator, right: ValueExpr)
        returns (r: Result<seq<Token>>)
      requires Valid()
      modifies this
      ensures Emits(r, if right.LiteralValue? && right.value.BoolLit?
                       then JsonBoolFormula(dialect, field, op, right.value.b)
                       else Err("boolean literal required"), old(Position()), old(args))
    {
      if !right.LiteralValue? || !right.value.BoolLit? {
        return Err("boolean literal required");
      }
      var value := right.value.b;
      var column := JsonExtractExpr(dialect, field);
      var compare := Predicate(JsonLiteralCompare(value), column, op.Sql());
      var isTrue := Predicate(JsonIsTrue, column, "IS TRUE");
      TextOfBare(dialect, compare, Position());
      TextOfBare(dialect, isTrue, Position());
      match dialect
      case SQLite =>
        match op {
          case Eq =>
            if field.name == "has_task_list" {
              return Ok([Primary(compare, [])]);
            }
            if value {
              return Ok([Primary(isTrue, [])]);
            }
            return Ok([NotWord, LParen, Primary(isTrue, []), RParen]);
          case Neq =>
            if field.name == "has_task_list" {
              return Ok([Primary(compare, [])]);
            }
            if value {
              return Ok([NotWord, LParen, Primary(isTrue, []), RParen]);
            }
            return Ok([Primary(isTrue, [])]);
          case _ => return Err("operator not supported for boolean JSON field");
        }
      case MySQL => return Ok([Primary(compare, [])]);
      case Postgres =>
        var text := EmitBound(JsonBoolCompare, column, op.Sql(), Bool(value));
        return Ok(text);
    }

    method RenderScalarComparison(field: Field, op: ComparisonOperator, right: ValueExpr)
        returns (r: Result<seq<Token>>)
      requires Valid()
      modifies this
      ensures Emits(r, if right.LiteralValue? then ScalarFormula(dialect, field, op, right.value)
                       else Err("expression must be a literal"), old(Position()), old(args))
    {
      if !right.LiteralValue? {
        return Err("expression must be a literal");
      }
      var column := ColumnExpr(dialect, field);
      match right.value
      case NullLit =>
        var isNull, isNotNull := Predicate(IsNull, column, "IS NULL"), Predicate(IsNotNull, column, "IS NOT NULL");
        TextOfBare(dialect, isNull, Position());
        TextOfBare(dialect, isNotNull, Position());
        match op {
          case Eq => return Ok([Primary(isNull, [])]);
          case Neq => return Ok([Primary(isNotNull, [])]);
          case _ => return Err("operator not supported for null comparison");
        }
      case StringLit(s) =>
        if field.typ != StringType {
          return Err("unexpected string");
        }
        var text := EmitBound(ScalarCompare, column, op.Sql(), Str(s));
        return Ok(text);
      case IntLit(i) =>
        if field.typ != IntType && field.typ != TimestampType {
          return Err("unexpected integer");
        }
        var text := EmitBound(ScalarCompare, column, op.Sql(), Int(i));
        return Ok(text);
      case BoolLit(_) => return Err("unexpected boolean");
    }

    method RenderElement(field: Field, s: string) returns (text: seq<Token>)
      requires Valid()
      modifies this
      ensures Valid() && text == Text(dialect, ElementFormula(dialect, field, s), old(Position()))
      ensures args == old(args) + Flat(ElementFormula(dialect, field, s))
    {
      var column := JsonArrayExpr(dialect, field);
      if dialect == SQLite {
        text := EmitBound(ArrayLike, column, "LIKE", Str("%" + Quoted(s) + "%"));
      } else {
        text := EmitBound(ArrayContains, column, "CONTAINS", Str(Quoted(s)));
      }
    }

    method RenderTag(field: Field, s: string) returns (text: seq<Token>)
      requires Valid()
      modifies this
      ensures Valid() && text == Text(dialect, TagFormula(dialect, field, s), old(Position()))
      ensures args == old(args) + Flat(TagFormula(dialect, field, s))
    {
      var like := "%\"" + s + "/%";
      TextOfAny(dialect, ElementFormula(dialect, field, s), ArrayLikeFormula(dialect, field, like), Position());
      var exactMatch := RenderElement(field, s);
      var prefixMatch := EmitBound(ArrayLike, JsonArrayExpr(dialect, field), "LIKE", Str(like));
      text := [LParen] + exactMatch + [OrWord] + prefixMatch + [RParen];
    }

    method RenderTagInList(c: Condition) returns (r: Result<seq<Token>>)
      requires Valid() && c.In? && c.element.FieldRef? && c.element.name == "tag"
      modifies this
      ensures Emits(r, InFormula(schema, dialect, c), old(Position()), old(args))
    {
      hide TagFormula, JsonArrayExpr, TagFormulas, Text, Flat, FlatList, Texts, JoinTexts;
      NoTexts();
      var alias := ResolveAlias(schema, "tag");
      if alias.None? {
        return Err("tag attribute is not configured");
      }
      var field, values := alias.value, c.values;
      var conditions: seq<seq<Token>> := [];
      ghost var n := Position();
      for i := 0 to |values|
        invariant Valid() && AllStrings(values[..i])
        invariant conditions == Texts(dialect, TagFormulas(dialect, field, values[..i]), n)
        invariant args == old(args) + FlatList(TagFormulas(dialect, field, values[..i]))
      {
        if !values[i].LiteralValue? || !values[i].value.StringLit? {
          return Err("tags must be compared with string literals");
        }
        TagStep(dialect, field, values, i, n);
        var expr := RenderTag(field, values[i].value.s);
        conditions := conditions + [expr];
      }
      assert values[..|values|] == values;
      TagListText(dialect, TagFormulas(dialect, field, values), n);
      if |conditions| == 1 {
        return Ok(conditions[0]);
      }
      return Ok([LParen] + JoinTexts(conditions, OrWord) + [RParen]);
    }

    method RenderInCondition(c: Condition) returns (r: Result<seq<Token>>)
      requires Valid() && c.In?
      modifies this
      ensures Emits(r, InFormula(schema, dialect, c), old(Position()), old(args))
    {
      if !c.element.FieldRef? {
        return Err("IN operator requires a field on the left-hand side");
      }
      if c.element.name == "tag" {
        r := RenderTagInList(c);
        return;
      }
      if c.element.name !in schema {
        return Err("unknown field");
      }
      var field, values := schema[c.element.name], c.values;
      if field.kind != Scalar {
        return Err("field does not support IN()");
      }
      var placeholders: seq<Mark> := [];
      ghost var n := Position();
      for i := 0 to |values|
        invariant Valid() && forall j :: 0 <= j < i ==> InValue(field.typ, values[j]).Some?
        invariant args == old(args) + InValues(field.typ, values[..i])
        invariant placeholders == Marks(dialect, InValues(field.typ, values[..i]), n)
      {
        var value: Value;
        if values[i].LiteralValue? && field.typ == StringType && values[i].value.StringLit? {
          value := Str(values[i].value.s);
        } else if values[i].LiteralValue? && field.typ == IntType && values[i].value.IntLit? {
          value := Int(values[i].value.i);
        } else {
          assert InValue(field.typ, values[i]).None?;
          return Err("unexpected IN() value");
        }
        assert InValues(field.typ, values[..i + 1]) == InValues(field.typ, values[..i]) + [value];
        var mark := AddArg(value);
        placeholders := placeholders + [mark];
      }
      assert values[..|values|] == values;
      var shape := Predicate(InList, ColumnExpr(dialect, field), "IN");
      TextOfLeaf(dialect, shape, InValues(field.typ, values), n);
      return Ok([Primary(shape, placeholders)]);
    }

    method RenderElementIn(c: Condition) returns (r: Result<seq<Token>>)
      requires Valid() && c.ElementIn?
      modifies this
      ensures Emits(r, ElementInFormula(schema, dialect, c), old(Position()), old(args))
    {
      if c.field !in schema {
        return Err("unknown field");
      }
      if schema[c.field].kind != JsonList {
        return Err("field is not a tag list");
      }
      if !c.element.LiteralValue? || !c.element.value.StringLit? {
        return Err("tags membership requires string literal");
      }
      var text := RenderElement(schema[c.field], c.element.value.s);
      return Ok(text);
    }

    method RenderContains(c: Condition) returns (r: Result<seq<Token>>)
      requires Valid() && c.Contains?
      modifies this
      ensures Emits(r, ContainsFormula(schema, dialect, c), old(Position()), old(args))
    {
      if c.field !in schema {
        return Err("unknown field");
      }
      var text := EmitBound(ContainsLike, ColumnExpr(dialect, schema[c.field]), "LIKE", Str("%" + c.text + "%"));
      return Ok(text);
    }

    method RenderExactTag(field: Field, s: string) returns (text: seq<Token>)
      requires Valid()
      modifies this
      ensures Valid() && text == Text(dialect, ExactTag(dialect, field, s), old(Position()))
      ensures args == old(args) + Flat(ExactTag(dialect, field, s))
    {
      if dialect == Postgres {
        text := RenderElement(field, s);
      } else {
        text := EmitBound(ArrayLike, JsonArrayExpr(dialect, field), "LIKE", Str("%" + Quoted(s) + "%"));
      }
    }

    method RenderTagPredicate(field: Field, p: PredicateExpr) returns (text: seq<Token>)
      requires Valid()
      modifies this
      ensures Valid() && text == Text(dialect, TagPredicate(dialect, field, p), old(Position()))
      ensures args == old(args) + Flat(TagPredicate(dialect, field, p))
    {
      var column := JsonArrayExpr(dialect, field);
      match p
      case Equals(v) => text := RenderExactTag(field, v);
      case StartsWith(v) =>
        var like := "%\"" + v + "%";
        TextOfAny(dialect, ExactTag(dialect, field, v), ArrayLikeFormula(dialect, field, like), Position());
        var exactMatch := RenderExactTag(field, v);
        var prefixMatch := EmitBound(ArrayLike, column, "LIKE", Str(like));
        text := [LParen] + exactMatch + [OrWord] + prefixMatch + [RParen];
      case EndsWith(v) => text := EmitBound(ArrayLike, column, "LIKE", Str("%" + v + "\"%"));
      case ContainsText(v) => text := EmitBound(ArrayLike, column, "LIKE", Str("%" + v + "%"));
    }

    method RenderListComprehension(c: Condition) returns (r: Result<seq<Token>>)
      requires Valid() && c.ListComprehension?
      modifies this
      ensures Emits(r, ComprehensionFormula(schema, dialect, c), old(Position()), old(args))
    {
      if c.field !in schema {
        return Err("unknown field");
      }
      var field := schema[c.field];
      if field.kind != JsonList {
        return Err("field is not a JSON list");
      }
      var column := JsonArrayExpr(dialect, field);
      var notNull, notEmpty := Predicate(ArrayNotNull, column, "IS NOT NULL"), Predicate(ArrayNotEmpty, column, "!=");
      TextOfWrapped(dialect, TagPredicate(dialect, field, c.each), notNull, notEmpty, Position());
      FlatOfWrapped(TagPredicate(dialect, field, c.each), notNull, notEmpty);
      var condition := RenderTagPredicate(field, c.each);
      return Ok([LParen] + condition + [AndWord, Primary(notNull, []), AndWord, Primary(notEmpty, []), RParen]);
    }

    method RenderLeaf(c: Condition) returns (r: Result<seq<Token>>)
      requires Valid() && c.IsLeaf()
      modifies this
      ensures Emits(r, LeafFormula(schema, dialect, c), old(Position()), old(args))
    {
      match c
      case FieldPredicate(name) => r := RenderFieldPredicate(name);
      case Comparison(_, _, _) => r := RenderComparison(c);
      case In(_, _) => r := RenderInCondition(c);
      case ElementIn(_, _) => r := RenderElementIn(c);
      case Contains(_, _) => r := RenderContains(c);
      case ListComprehension(_, _) => r := RenderListComprehension(c);
    }

    /** Rendering is folding: the text prints the folded condition with every placeholder at the
        place its argument took, and the arguments are all that were bound on the way. */
    method RenderCondition(c: Condition) returns (r: Result<RenderResult>)
      requires Valid()
      modifies this
      ensures Valid()
      ensures r.Ok? <==> Fold(schema, dialect, c, old(Position())).Ok?
      ensures r.Ok? ==>
                var folded := Fold(schema, dialect, c, old(Position())).value;
                r.value == OutcomeResult(dialect, folded.outcome) && args == old(args) + folded.args
      decreases c
    {
      hide LeafFormula;
      match c
      case Logical(op, left, right) =>
        ghost var n := Position();
        var l := RenderCondition(left);
        if l.Err? {
          return Err(l.reason);
        }
        assert Position() == n + |Fold(schema, dialect, left, n).value.args|;
        var rr := RenderCondition(right);
        if rr.Err? {
          return Err(rr.reason);
        }
        CombineFollowsFold(dialect, Fold(schema, dialect, left, n).value.outcome,
          Fold(schema, dialect, right, n + |Fold(schema, dialect, left, n).value.args|).value.outcome);
        return Ok(if op == LogicalAnd then CombineAnd(l.value, rr.value) else CombineOr(l.value, rr.value));
      case NotCondition(e) =>
        var child := RenderCondition(e);
        if child.Err? {
          return child;
        }
        if child.value.trivial {
          return Ok(RenderResult(ONE_IS_ZERO, false, true));
        }
        if child.value.unsatisfiable {
          return Ok(RenderResult([], true, false));
        }
        return Ok(RenderResult([NotWord, LParen] + child.value.sql + [RParen], false, false));
      case Constant(value) =>
        return Ok(if value then RenderResult([], true, false) else RenderResult(ONE_IS_ZERO, false, true));
      case _ =>
        var leaf := RenderLeaf(c);
        return match leaf case Err(e) => Err(e) case Ok(text) => Ok(RenderResult(text, false, false));
    }

    method Render(c: Condition) returns (r: Result<Statement>)
      requires Valid() && args == []
      modifies this
      ensures r.Ok? <==> Fold(schema, dialect, c, placeholderOffset).Ok?
      ensures r.Ok? ==> r.value == StatementOf(dialect, Fold(schema, dialect, c, placeholderOffset).value)
    {
      hide Fold;
      ContradictionText(dialect);
      var result := RenderCondition(c);
      match result
      case Err(e) => return Err(e);
      case Ok(v) =>
        if v.unsatisfiable {
          return Ok(Statement(ONE_IS_ZERO, args));
        }
        if v.trivial {
          return Ok(Statement([], args));
        }
        return Ok(Statement(v.sql, args));
    }
  }

  /** The query under construction that the filters are appended to. */
  class Query {
    var where: seq<seq<Token>>
    var args: seq<Value>

    constructor (where: seq<seq<Token>>, args: seq<Value>)
      ensures this.where == where && this.args == args
    {
      this.where, this.args := where, args;
    }

    method AppendConditions(schema: Schema, dialect: Dialect, filters: seq<Condition>) returns (ok: bool)
      modifies this
      ensures (Clause(where, args), ok) == Append(schema, dialect, filters, old(Clause(where, args)))
    {
      hide Fold;
      for i := 0 to |filters|
        invariant Append(schema, dialect, filters[i..], Clause(where, args)) ==
                  Append(schema, dialect, filters, old(Clause(where, args)))
      {
        assert filters[i..][0] == filters[i] && filters[i..][1..] == filters[i + 1..];
        var renderer := new Renderer(schema, dialect, |args|);
        var stmt := renderer.Render(filters[i]);
        if stmt.Err? {
          return false;
        }
        if stmt.value.sql == [] {
          continue;
        }
        where := where + [[LParen] + stmt.value.sql + [RParen]];
        args := args + stmt.value.args;
      }
      return true;
    }
  }
}
