/** What a condition tree means: which SQL condition over which bound values each leaf stands
    for, and the folding of boolean constants, as functions on values. */
module FilterMeaning {
  import opened Results
  import opened FilterSql
  import opened FilterIR

  function Leaf(form: Form, column: string, operator: string, values: seq<Value>): Formula<Value> {
    Atom(Predicate(form, column, operator), values)
  }

  function Quoted(s: string): string { "\"" + s + "\"" }

  function FieldPredicateFormula(schema: Schema, d: Dialect, name: string): Result<Formula<Value>> {
    match FieldOf(schema, name)
    case None => Err("unknown field")
    case Some(f) =>
      match f.kind
      case BoolColumn => Ok(Leaf(ColumnIsTrue, QualifyColumn(d, f), "IS TRUE", []))
      case JsonBool => Ok(Leaf(JsonIsTrue, JsonExtractExpr(d, f), "IS TRUE", []))
      case _ => Err("field cannot be used as a predicate")
  }

  function BoolValue(d: Dialect, b: bool): Value {
    if d == SQLite then Int(if b then 1 else 0) else Bool(b)
  }

  function JsonBoolFormula(d: Dialect, f: Field, op: ComparisonOperator, b: bool): Result<Formula<Value>> {
    var column := JsonExtractExpr(d, f);
    match d
    case SQLite =>
      if op != Eq && op != Neq then Err("operator not supported for boolean JSON field")
      else if f.name == "has_task_list" then Ok(Leaf(JsonLiteralCompare(b), column, op.Sql(), []))
      else
        var isTrue := Leaf(JsonIsTrue, column, "IS TRUE", []);
        Ok(if (op == Eq) == b then isTrue else Not(isTrue))
    case MySQL => Ok(Leaf(JsonLiteralCompare(b), column, op.Sql(), []))
    case Postgres => Ok(Leaf(JsonBoolCompare, column, op.Sql(), [Bool(b)]))
  }

  function ScalarFormula(d: Dialect, f: Field, op: ComparisonOperator, lit: Literal): Result<Formula<Value>> {
    var column := ColumnExpr(d, f);
    match lit
    case NullLit =>
      if op == Eq then Ok(Leaf(IsNull, column, "IS NULL", []))
      else if op == Neq then Ok(Leaf(IsNotNull, column, "IS NOT NULL", []))
      else Err("operator not supported for null comparison")
    case StringLit(s) =>
      if f.typ == StringType then Ok(Leaf(ScalarCompare, column, op.Sql(), [Str(s)])) else Err("unexpected string")
    case IntLit(i) =>
      if f.typ == IntType || f.typ == TimestampType then Ok(Leaf(ScalarCompare, column, op.Sql(), [Int(i)]))
      else Err("unexpected integer")
    case BoolLit(_) => Err("unexpected boolean")
  }

  function ComparisonFormula(schema: Schema, d: Dialect, c: Condition): Result<Formula<Value>>
    requires c.Comparison?
  {
    match c.lhs
    case FieldRef(name) =>
      (match FieldOf(schema, name)
       case None => Err("unknown field")
       case Some(f) =>
         match f.kind
         case BoolColumn =>
           if c.rhs.LiteralValue? && c.rhs.value.BoolLit?
           then Ok(Leaf(ColumnCompare, QualifyColumn(d, f), c.comparison.Sql(), [BoolValue(d, c.rhs.value.b)]))
           else Err("boolean literal required")
         case JsonBool =>
           if c.rhs.LiteralValue? && c.rhs.value.BoolLit? then JsonBoolFormula(d, f, c.comparison, c.rhs.value.b)
           else Err("boolean literal required")
         case Scalar =>
           if c.rhs.LiteralValue? then ScalarFormula(d, f, c.comparison, c.rhs.value)
           else Err("expression must be a literal")
         case _ => Err("field does not support comparison"))
    case FunctionValue(fn, args) =>
      if fn != "size" then Err("unsupported function")
      else if |args| != 1 then Err("size() expects one argument")
      else if !args[0].FieldRef? then Err("size() argument must be a field")
      else
        (match FieldOf(schema, args[0].name)
         case None => Err("unknown field")
         case Some(f) =>
           if f.kind != JsonList then Err("size() only supports tag lists")
           else if c.rhs.LiteralValue? && c.rhs.value.IntLit?
           then Ok(Leaf(SizeCompare, JsonArrayExpr(d, f), c.comparison.Sql(), [Int(c.rhs.value.i)]))
           else Err("numeric literal required"))
    case LiteralValue(_) => Err("comparison must start with a field reference or supported function")
  }

  /** Some element of the list equals `s`. */
  function ElementFormula(d: Dialect, f: Field, s: string): Formula<Value> {
    var column := JsonArrayExpr(d, f);
    if d == SQLite then Leaf(ArrayLike, column, "LIKE", [Str("%" + Quoted(s) + "%")])
    else Leaf(ArrayContains, column, "CONTAINS", [Str(Quoted(s))])
  }

  function ArrayLikeFormula(d: Dialect, f: Field, pattern: string): Formula<Value> {
    Leaf(ArrayLike, JsonArrayExpr(d, f), "LIKE", [Str(pattern)])
  }

  /** Hierarchical tags: the tag itself or one below it. */
  function TagFormula(d: Dialect, f: Field, s: string): Formula<Value> {
    Any([ElementFormula(d, f, s), ArrayLikeFormula(d, f, "%\"" + s + "/%")])
  }

  function TagFormulas(d: Dialect, f: Field, values: seq<ValueExpr>): (r: seq<Formula<Value>>)
    requires AllStrings(values)
    ensures |r| == |values|
  {
    seq(|values|, i requires 0 <= i < |values| => TagFormula(d, f, StringOf(values[i])))
  }

  function StringOf(v: ValueExpr): string {
    if v.LiteralValue? && v.value.StringLit? then v.value.s else ""
  }

  predicate AllStrings(values: seq<ValueExpr>) {
    forall i :: 0 <= i < |values| ==> values[i].LiteralValue? && values[i].value.StringLit?
  }

  function InFormula(schema: Schema, d: Dialect, c: Condition): Result<Formula<Value>>
    requires c.In?
  {
    if !c.element.FieldRef? then Err("IN operator requires a field on the left-hand side")
    else if c.element.name == "tag" then
      match ResolveAlias(schema, "tag")
      case None => Err("tag attribute is not configured")
      case Some(f) =>
        if !AllStrings(c.values) then Err("tags must be compared with string literals")
        else
          var fs := TagFormulas(d, f, c.values);
          Ok(if |fs| == 1 then fs[0] else Any(fs))
    else
      match FieldOf(schema, c.element.name)
      case None => Err("unknown field")
      case Some(f) =>
        if f.kind != Scalar then Err("field does not support IN()")
        else if forall i :: 0 <= i < |c.values| ==> InValue(f.typ, c.values[i]).Some? then
          Ok(Leaf(InList, ColumnExpr(d, f), "IN", InValues(f.typ, c.values)))
        else Err("unexpected IN() value")
  }

  function InValue(typ: FieldType, v: ValueExpr): Option<Value> {
    if v.LiteralValue? && typ == StringType && v.value.StringLit? then Some(Str(v.value.s))
    else if v.LiteralValue? && typ == IntType && v.value.IntLit? then Some(Int(v.value.i))
    else None
  }

  function InValues(typ: FieldType, values: seq<ValueExpr>): (r: seq<Value>)
    requires forall i :: 0 <= i < |values| ==> InValue(typ, values[i]).Some?
    ensures |r| == |values|
  {
    seq(|values|, i requires 0 <= i < |values| => InValue(typ, values[i]).value)
  }

  function ElementInFormula(schema: Schema, d: Dialect, c: Condition): Result<Formula<Value>>
    requires c.ElementIn?
  {
    match FieldOf(schema, c.field)
    case None => Err("unknown field")
    case Some(f) =>
      if f.kind != JsonList then Err("field is not a tag list")
      else if c.element.LiteralValue? && c.element.value.StringLit? then Ok(ElementFormula(d, f, c.element.value.s))
      else Err("tags membership requires string literal")
  }

  function ContainsFormula(schema: Schema, d: Dialect, c: Condition): Result<Formula<Value>>
    requires c.Contains?
  {
    match FieldOf(schema, c.field)
    case None => Err("unknown field")
    case Some(f) => Ok(Leaf(ContainsLike, ColumnExpr(d, f), "LIKE", [Str("%" + c.text + "%")]))
  }

  /** MySQL matches an exact tag inside a comprehension by pattern, unlike in an IN list. */
  function ExactTag(d: Dialect, f: Field, s: string): Formula<Value> {
    if d == Postgres then ElementFormula(d, f, s) else ArrayLikeFormula(d, f, "%" + Quoted(s) + "%")
  }

  function TagPredicate(d: Dialect, f: Field, p: PredicateExpr): Formula<Value> {
    match p
    case Equals(v) => ExactTag(d, f, v)
    case StartsWith(v) => Any([ExactTag(d, f, v), ArrayLikeFormula(d, f, "%\"" + v + "%")])
    case EndsWith(v) => ArrayLikeFormula(d, f, "%" + v + "\"%")
    case ContainsText(v) => ArrayLikeFormula(d, f, "%" + v + "%")
  }

  function ComprehensionFormula(schema: Schema, d: Dialect, c: Condition): Result<Formula<Value>>
    requires c.ListComprehension?
  {
    match FieldOf(schema, c.field)
    case None => Err("unknown field")
    case Some(f) =>
      if f.kind != JsonList then Err("field is not a JSON list")
      else
        var column := JsonArrayExpr(d, f);
        Ok(All([TagPredicate(d, f, c.each), Leaf(ArrayNotNull, column, "IS NOT NULL", []),
                Leaf(ArrayNotEmpty, column, "!=", [])]))
  }

  /** The SQL condition a leaf stands for. */
  function LeafFormula(schema: Schema, d: Dialect, c: Condition): Result<Formula<Value>>
    requires c.IsLeaf()
  {
    match c
    case FieldPredicate(name) => FieldPredicateFormula(schema, d, name)
    case Comparison(_, _, _) => ComparisonFormula(schema, d, c)
    case In(_, _) => InFormula(schema, d, c)
    case ElementIn(_, _) => ElementInFormula(schema, d, c)
    case Contains(_, _) => ContainsFormula(schema, d, c)
    case ListComprehension(_, _) => ComprehensionFormula(schema, d, c)
  }

  /** The meaning of a condition tree: no folding, constants are the truth values. */
  function Denote(schema: Schema, d: Dialect, c: Condition): Result<Formula<Value>> {
    match c
    case Logical(op, l, r) =>
      var a, b := Denote(schema, d, l), Denote(schema, d, r);
      if a.Err? then a else if b.Err? then b
      else Ok(if op == LogicalAnd then All([a.value, b.value]) else Any([a.value, b.value]))
    case NotCondition(e) =>
      var a := Denote(schema, d, e);
      if a.Err? then a else Ok(Not(a.value))
    case Constant(b) => Ok(Atom(if b then Tautology else Contradiction, []))
    case _ => LeafFormula(schema, d, c)
  }

  /** What folding makes of a condition. */
  datatype Outcome = Trivial | Unsatisfiable | Sql(formula: Formula<Bind>)

  /** The outcome and every argument that was bound on the way, used or not. */
  datatype Rendering = Rendering(outcome: Outcome, args: seq<Value>)

  function FoldAnd(l: Outcome, r: Outcome): Outcome {
    if l.Unsatisfiable? || r.Unsatisfiable? then Unsatisfiable
    else if l.Trivial? then r
    else if r.Trivial? then l
    else Sql(All([l.formula, r.formula]))
  }

  function FoldOr(l: Outcome, r: Outcome): Outcome {
    if l.Trivial? || r.Trivial? then Trivial
    else if l.Unsatisfiable? then r
    else if r.Unsatisfiable? then l
    else Sql(Any([l.formula, r.formula]))
  }

  function FoldNot(o: Outcome): Outcome {
    match o
    case Trivial => Unsatisfiable
    case Unsatisfiable => Trivial
    case Sql(f) => Sql(Not(f))
  }

  /** Folding with `n` arguments already bound: leaves bind theirs from left to right. */
  function Fold(schema: Schema, d: Dialect, c: Condition, n: nat): Result<Rendering> {
    match c
    case Logical(op, left, right) =>
      var l := Fold(schema, d, left, n);
      if l.Err? then l
      else
        var r := Fold(schema, d, right, n + |l.value.args|);
        if r.Err? then r
        else Ok(Rendering(if op == LogicalAnd then FoldAnd(l.value.outcome, r.value.outcome)
                          else FoldOr(l.value.outcome, r.value.outcome), l.value.args + r.value.args))
    case NotCondition(e) =>
      var r := Fold(schema, d, e, n);
      if r.Err? then r else Ok(Rendering(FoldNot(r.value.outcome), r.value.args))
    case Constant(b) => Ok(Rendering(if b then Trivial else Unsatisfiable, []))
    case _ =>
      match LeafFormula(schema, d, c)
      case Err(e) => Err(e)
      case Ok(f) => Ok(Rendering(Sql(Number(f, n)), Flat(f)))
  }

  function OutcomeTruth(o: Outcome, row: Row): Truth {
    match o
    case Trivial => True
    case Unsatisfiable => False
    case Sql(f) => Eval(Map(ValueOf(), f), row)
  }

  // Folding preserves meaning.

  lemma Pairs(a: Formula<Value>, b: Formula<Value>, row: Row)
    ensures Eval(All([a, b]), row) == And3(Eval(a, row), Eval(b, row))
    ensures Eval(Any([a, b]), row) == Or3(Eval(a, row), Eval(b, row))
  {
    assert [a, b][1..] == [b] && [b][1..] == [];
    assert EvalAll([b], row) == And3(Eval(b, row), True);
    assert EvalAny([b], row) == Or3(Eval(b, row), False);
  }

  lemma MapPairs<A, B>(g: A -> B, a: Formula<A>, b: Formula<A>)
    ensures Map(g, All([a, b])) == All([Map(g, a), Map(g, b)]) && Map(g, Any([a, b])) == Any([Map(g, a), Map(g, b)])
  {
    assert [a, b][1..] == [b] && [b][1..] == [];
    assert MapList(g, [b]) == [Map(g, b)];
    assert MapList(g, [a, b]) == [Map(g, a)] + MapList(g, [b]);
  }

  /** On every row, the folded outcome has the truth value of the condition: TRUE where it is
      trivial, FALSE where it is unsatisfiable, and UNKNOWN where the condition is UNKNOWN. */
  lemma {:induction false} FoldPreservesMeaning(schema: Schema, d: Dialect, c: Condition, n: nat, row: Row)
    ensures Fold(schema, d, c, n).Ok? <==> Denote(schema, d, c).Ok?
    ensures Fold(schema, d, c, n).Ok? ==>
              OutcomeTruth(Fold(schema, d, c, n).value.outcome, row) == Eval(Denote(schema, d, c).value, row)
  {
    hide LeafFormula;
    match c
    case Logical(op, left, right) =>
      FoldPreservesMeaning(schema, d, left, n, row);
      var l := Fold(schema, d, left, n);
      if l.Ok? {
        var m := n + |l.value.args|;
        FoldPreservesMeaning(schema, d, right, m, row);
        var r := Fold(schema, d, right, m);
        if r.Ok? {
          Pairs(Denote(schema, d, left).value, Denote(schema, d, right).value, row);
          FoldPair(op, l.value.outcome, r.value.outcome, row);
        }
      }
    case NotCondition(e) => FoldPreservesMeaning(schema, d, e, n, row);
    case Constant(_) =>
    case _ =>
      if LeafFormula(schema, d, c).Ok? {
        NumberKeepsValues(LeafFormula(schema, d, c).value, n);
      }
  }

  lemma FoldPair(op: LogicalOperator, l: Outcome, r: Outcome, row: Row)
    ensures OutcomeTruth(FoldAnd(l, r), row) == And3(OutcomeTruth(l, row), OutcomeTruth(r, row))
    ensures OutcomeTruth(FoldOr(l, r), row) == Or3(OutcomeTruth(l, row), OutcomeTruth(r, row))
  {
    if l.Sql? && r.Sql? {
      MapPairs(ValueOf(), l.formula, r.formula);
      Pairs(Map(ValueOf(), l.formula), Map(ValueOf(), r.formula), row);
    }
  }
}
