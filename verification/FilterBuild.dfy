/** From expression trees to condition trees. */
module FilterBuild {
  import opened Results
  import opened FilterSql
  import opened FilterIR
  import opened FilterMeaning
  import opened FilterBinding

  const TWO_63 := 0x8000_0000_0000_0000
  const TWO_64 := 0x1_0000_0000_0000_0000

  type Int64 = x: int | -TWO_63 <= x < TWO_63

  datatype Const = StringConst(s: string) | IntConst(i: Int64) | UintConst(u: nat) | BoolConst(b: bool) | NullConst

  datatype Expr =
    | ConstExpr(const_: Const)
    | Ident(name: string)
    | Call(function_: string, target: Option<Expr>, args: seq<Expr>)
    | ListExpr(elements: seq<Expr>)
    | Comprehension(iterRange: Expr, accuInit: Expr, loopStep: Expr, iterVar: string)

  /** Go's conversion to int64, and the result of its int64 arithmetic. */
  function Wrap(x: int): Int64 {
    (x + TWO_63) % TWO_64 - TWO_63
  }

  function ConstValue(c: Const): Literal {
    match c
    case StringConst(s) => StringLit(s)
    case IntConst(i) => IntLit(i)
    case UintConst(u) => IntLit(Wrap(u))
    case BoolConst(b) => BoolLit(b)
    case NullConst => NullLit
  }

  predicate IsArithmetic(fn: string) {
    fn == "_+_" || fn == "_-_" || fn == "_*_"
  }

  function Apply(fn: string, x: int, y: int): int
    requires IsArithmetic(fn)
  {
    if fn == "_+_" then x + y else if fn == "_-_" then x - y else x * y
  }

  /** Folds integer arithmetic; no value when the expression is not numeric. */
  function EvaluateNumeric(e: Expr, now: Int64): Result<Option<Int64>> {
    match e
    case ConstExpr(c) => Ok(if ConstValue(c).IntLit? then Some(Wrap(ConstValue(c).i)) else None)
    case Call(fn, _, args) =>
      if fn == "now" then Ok(Some(now))
      else if !IsArithmetic(fn) then Ok(None)
      else if |args| != 2 then Err("arithmetic requires two arguments")
      else
        var l := EvaluateNumeric(args[0], now);
        if l.Err? || l.value.None? then l
        else
          var r := EvaluateNumeric(args[1], now);
          if r.Err? || r.value.None? then r
          else Ok(Some(Wrap(Apply(fn, l.value.value, r.value.value))))
    case _ => Ok(None)
  }

  /** The integer an arithmetic expression denotes, without bounds. */
  function ExactValue(e: Expr, now: int): int {
    match e
    case ConstExpr(IntConst(i)) => i
    case ConstExpr(UintConst(u)) => u
    case Call(fn, _, args) =>
      if IsArithmetic(fn) && |args| == 2 then Apply(fn, ExactValue(args[0], now), ExactValue(args[1], now)) else now
    case _ => 0
  }

  lemma WrapDiffersByCycles(x: int) returns (k: int)
    ensures x == Wrap(x) + k * TWO_64
  {
    k := (x + TWO_63) / TWO_64;
  }

  lemma WrapIgnoresCycles(x: int, k: int)
    ensures Wrap(x + k * TWO_64) == Wrap(x)
  {
    var q, r := (x + TWO_63) / TWO_64, (x + TWO_63) % TWO_64;
    assert x + k * TWO_64 + TWO_63 == (q + k) * TWO_64 + r;
    DivModUnique(x + k * TWO_64 + TWO_63, q + k, r);
  }

  lemma DivModUnique(x: int, q: int, r: int)
    requires 0 <= r < TWO_64 && x == q * TWO_64 + r
    ensures x % TWO_64 == r
  {
  }

  lemma WrapIsHomomorphic(fn: string, x: int, y: int)
    requires IsArithmetic(fn)
    ensures Wrap(Apply(fn, Wrap(x), Wrap(y))) == Wrap(Apply(fn, x, y))
  {
    var j := WrapDiffersByCycles(x);
    var k := WrapDiffersByCycles(y);
    var a, b: int := Wrap(x), Wrap(y);
    hide Wrap;
    if fn == "_+_" {
      assert x + y == a + b + (j + k) * TWO_64;
      WrapIgnoresCycles(a + b, j + k);
    } else if fn == "_-_" {
      assert x - y == a - b + (j - k) * TWO_64;
      WrapIgnoresCycles(a - b, j - k);
    } else {
      assert x * y == a * b + (a * k + j * b + j * k * TWO_64) * TWO_64;
      WrapIgnoresCycles(a * b, a * k + j * b + j * k * TWO_64);
    }
  }

  /** However deeply arithmetic nests, folding it step by step in 64 bits gives the exact value
      reduced to 64 bits once. */
  lemma {:induction false} NumericFoldingWrapsOnce(e: Expr, now: Int64)
    requires EvaluateNumeric(e, now).Ok? && EvaluateNumeric(e, now).value.Some?
    ensures EvaluateNumeric(e, now).value.value == Wrap(ExactValue(e, now))
  {
    match e
    case Call(fn, _, args) =>
      if fn != "now" {
        NumericFoldingWrapsOnce(args[0], now);
        NumericFoldingWrapsOnce(args[1], now);
        WrapIsHomomorphic(fn, ExactValue(args[0], now), ExactValue(args[1], now));
      }
    case _ =>
  }

  function EvaluateBool(e: Expr): Result<Option<bool>> {
    match e
    case ConstExpr(BoolConst(b)) => Ok(Some(b))
    case Call(fn, _, args) =>
      if fn != "!_" then Ok(None)
      else if |args| != 1 then Err("NOT expects exactly one argument")
      else
        var r := EvaluateBool(args[0]);
        if r.Err? || r.value.None? then r else Ok(Some(!r.value.value))
    case _ => Ok(None)
  }

  function BuildValue(e: Expr, schema: Schema, now: Int64): Result<ValueExpr> {
    match e
    case Ident(name) => if name in schema then Ok(FieldRef(name)) else Err("unknown identifier")
    case ConstExpr(c) => Ok(LiteralValue(ConstValue(c)))
    case Call(fn, _, args) =>
      var n := EvaluateNumeric(e, now);
      if n.Err? then Err(n.reason)
      else if n.value.Some? then Ok(LiteralValue(IntLit(n.value.value)))
      else
        var b := EvaluateBool(e);
        if b.Err? then Err(b.reason)
        else if b.value.Some? then Ok(LiteralValue(BoolLit(b.value.value)))
        else if fn != "size" then Err("unsupported value expression")
        else if |args| != 1 then Err("size() expects one argument")
        else
          var a := BuildValue(args[0], schema, now);
          if a.Err? then a else Ok(FunctionValue("size", [a.value]))
    case _ => Err("unsupported value expression")
  }

  function ComparisonOf(fn: string): Option<ComparisonOperator> {
    if fn == "_==_" then Some(Eq) else if fn == "_!=_" then Some(Neq)
    else if fn == "_<_" then Some(Lt) else if fn == "_>_" then Some(Gt)
    else if fn == "_<=_" then Some(Lte) else if fn == "_>=_" then Some(Gte) else None
  }

  function BuildComparison(op: ComparisonOperator, args: seq<Expr>, schema: Schema, now: Int64): Result<Condition> {
    if |args| != 2 then Err("comparison expects two arguments")
    else
      var l, r := BuildValue(args[0], schema, now), BuildValue(args[1], schema, now);
      if l.Err? then Err(l.reason)
      else if r.Err? then Err(r.reason)
      else if l.value.FieldRef? && ResolveAlias(schema, l.value.name).None? then Err("invalid alias")
      else if l.value.FieldRef? && !Allows(ResolveAlias(schema, l.value.name).value, op) then Err("operator not allowed")
      else Ok(Comparison(l.value, op, r.value))
  }

  predicate Allows(f: Field, op: ComparisonOperator) {
    f.allowedOps.None? || op in f.allowedOps.value
  }

  function BuildValues(es: seq<Expr>, schema: Schema, now: Int64): Result<seq<ValueExpr>> {
    if |es| == 0 then Ok([])
    else
      var v := BuildValue(es[0], schema, now);
      if v.Err? then Err(v.reason)
      else
        var vs := BuildValues(es[1..], schema, now);
        if vs.Err? then vs else Ok([v.value] + vs.value)
  }

  function BuildIn(args: seq<Expr>, schema: Schema, now: Int64): Result<Condition> {
    if |args| != 2 then Err("in operator expects two arguments")
    else if args[0].Ident? && args[0].name !in schema then Err("unknown identifier")
    else if args[0].Ident? && ResolveAlias(schema, args[0].name).None? then Err("invalid alias")
    else if args[0].Ident? && args[1].ListExpr? then
      var vs := BuildValues(args[1].elements, schema, now);
      if vs.Err? then Err(vs.reason) else Ok(In(FieldRef(args[0].name), vs.value))
    else if args[1].Ident? then
      if args[1].name !in schema then Err("unknown identifier")
      else
        var e := BuildValue(args[0], schema, now);
        if e.Err? then Err(e.reason) else Ok(ElementIn(e.value, args[1].name))
    else Err("invalid use of in operator")
  }

  function BuildContains(target: Option<Expr>, args: seq<Expr>, schema: Schema): Result<Condition> {
    if target.None? then Err("contains requires a target")
    else if !target.value.Ident? then Err("expression is not an identifier")
    else if target.value.name !in schema then Err("unknown identifier")
    else if !schema[target.value.name].supportsContains then Err("identifier does not support contains()")
    else if |args| != 1 then Err("contains expects exactly one argument")
    else if !args[0].ConstExpr? then Err("contains only supports literal arguments")
    else if !args[0].const_.StringConst? then Err("contains argument must be a string")
    else Ok(Contains(target.value.name, args[0].const_.s))
  }

  predicate IsIterVar(e: Expr, iterVar: string) {
    e == Ident(iterVar)
  }

  function StringConstant(e: Expr): Option<string> {
    if e.ConstExpr? && e.const_.StringConst? then Some(e.const_.s) else None
  }

  /** The predicate of an exists() macro: its loop step is `@result || predicate`. */
  function BuildPredicate(call: Expr, iterVar: string): Result<PredicateExpr>
    requires call.Call?
  {
    var fn, args := call.function_, call.args;
    if fn == "_==_" then
      if |args| != 2 then Err("equality predicate expects exactly two arguments")
      else if !IsIterVar(args[0], iterVar) && !IsIterVar(args[1], iterVar) then
        Err("equality predicate must compare against the iteration variable")
      else
        match StringConstant(if IsIterVar(args[0], iterVar) then args[1] else args[0])
        case None => Err("equality argument must be a constant string")
        case Some(s) => Ok(Equals(s))
    else if fn == "startsWith" || fn == "endsWith" || fn == "contains" then
      if call.target.None? || !IsIterVar(call.target.value, iterVar) then Err("target must be the iteration variable")
      else if |args| != 1 then Err("exactly one argument expected")
      else
        match StringConstant(args[0])
        case None => Err("argument must be a constant string")
        case Some(s) =>
          Ok(if fn == "startsWith" then StartsWith(s) else if fn == "endsWith" then EndsWith(s) else ContainsText(s))
    else Err("unsupported predicate function")
  }

  function BuildComprehension(e: Expr, schema: Schema): Result<Condition>
    requires e.Comprehension?
  {
    if !e.accuInit.ConstExpr? then Err("comprehension accumulator must be initialized with a constant")
    else if e.accuInit.const_ == BoolConst(true) || !e.loopStep.Call? || e.loopStep.function_ != "_||_" then
      Err("only exists() is supported")
    else if !e.iterRange.Ident? then Err("comprehension range must be a field identifier")
    else if e.iterRange.name !in schema then Err("unknown field")
    else if schema[e.iterRange.name].kind != JsonList then Err("field must be a list")
    else if |e.loopStep.args| != 2 then Err("comprehension loop step must have two arguments")
    else if !e.loopStep.args[1].Call? then Err("comprehension predicate must be a function call")
    else
      var p := BuildPredicate(e.loopStep.args[1], e.iterVar);
      if p.Err? then Err(p.reason) else Ok(ListComprehension(e.iterRange.name, p.value))
  }

  function Build(e: Expr, schema: Schema, now: Int64): Result<Condition> {
    match e
    case Call(fn, target, args) =>
      if fn == "_&&_" || fn == "_||_" then
        if |args| != 2 then Err("logical operator expects two arguments")
        else
          var l := Build(args[0], schema, now);
          if l.Err? then l
          else
            var r := Build(args[1], schema, now);
            if r.Err? then r else Ok(Logical(if fn == "_&&_" then LogicalAnd else LogicalOr, l.value, r.value))
      else if fn == "!_" then
        if |args| != 1 then Err("logical NOT expects one argument")
        else
          var c := Build(args[0], schema, now);
          if c.Err? then c else Ok(NotCondition(c.value))
      else if ComparisonOf(fn).Some? then BuildComparison(ComparisonOf(fn).value, args, schema, now)
      else if fn == "@in" then BuildIn(args, schema, now)
      else if fn == "contains" then BuildContains(target, args, schema)
      else Err("unsupported call expression")
    case ConstExpr(c) => if c.BoolConst? then Ok(Constant(c.b)) else Err("filter must evaluate to a boolean value")
    case Ident(name) =>
      if name !in schema then Err("unknown identifier")
      else if schema[name].typ != BoolType then Err("identifier is not boolean")
      else Ok(FieldPredicate(name))
    case Comprehension(_, _, _, _) => BuildComprehension(e, schema)
    case ListExpr(_) => Err("unsupported top-level expression")
  }

  predicate IsConnective(e: Expr) {
    e.Call? && ((e.function_ in {"_&&_", "_||_"} && |e.args| == 2) || (e.function_ == "!_" && |e.args| == 1))
  }

  /** A comparison of an integer column with an expression whose value is an integer. */
  predicate IsIntegerComparison(e: Expr, schema: Schema, now: Int64) {
    && e.Call? && ComparisonOf(e.function_).Some? && |e.args| == 2 && e.args[0].Ident? && e.args[0].name in schema
    && schema[e.args[0].name].kind == Scalar && schema[e.args[0].name].typ in {IntType, TimestampType}
    && EvaluateNumeric(e.args[1], now).Ok? && EvaluateNumeric(e.args[1], now).value.Some?
  }

  /** The column compared with the exact value of the arithmetic, reduced to 64 bits once. */
  function IntegerComparison(e: Expr, schema: Schema, d: Dialect, now: Int64, row: Row): Truth
    requires IsIntegerComparison(e, schema, now)
  {
    var column := ColumnExpr(d, schema[e.args[0].name]);
    row(Predicate(ScalarCompare, column, ComparisonOf(e.function_).value.Sql()), [Int(Wrap(ExactValue(e.args[1], now)))])
  }

  lemma IntegerLiteral(e: Expr, schema: Schema, now: Int64)
    requires EvaluateNumeric(e, now).Ok? && EvaluateNumeric(e, now).value.Some?
    ensures BuildValue(e, schema, now) == Ok(LiteralValue(IntLit(Wrap(ExactValue(e, now)))))
  {
    NumericFoldingWrapsOnce(e, now);
  }

  lemma IntegerComparisonIsBuilt(e: Expr, schema: Schema, d: Dialect, now: Int64, row: Row)
    requires IsIntegerComparison(e, schema, now)
    requires Build(e, schema, now).Ok? && Denote(schema, d, Build(e, schema, now).value).Ok?
    ensures Eval(Denote(schema, d, Build(e, schema, now).value).value, row) == IntegerComparison(e, schema, d, now, row)
  {
    hide Wrap, ExactValue, ColumnExpr, EvaluateNumeric;
    IntegerLiteral(e.args[1], schema, now);
    var op, name := ComparisonOf(e.function_).value, e.args[0].name;
    var c := Comparison(FieldRef(name), op, LiteralValue(IntLit(Wrap(ExactValue(e.args[1], now)))));
    assert Build(e, schema, now) == BuildComparison(op, e.args, schema, now) == Ok(c);
    assert Denote(schema, d, c) == ScalarFormula(d, schema[name], op, c.rhs.value);
  }

  predicate Compares(op: ComparisonOperator, x: int, y: int) {
    match op
    case Eq => x == y case Neq => x != y case Lt => x < y case Lte => x <= y case Gt => x > y case Gte => x >= y
  }

  /** The row holds the integer, or NULL, in the column. */
  ghost predicate HoldsInteger(row: Row, column: string, v: Option<int>) {
    forall op: ComparisonOperator, k: int ::
      row(Predicate(ScalarCompare, column, op.Sql()), [Int(k)]) ==
      if v.None? then Unknown else if Compares(op, v.value, k) then True else False
  }

  /** On a row that holds an integer in the column, a compiled comparison compares that integer
      with the exact value of the arithmetic, reduced to 64 bits. */
  lemma IntegerComparisonMeans(e: Expr, schema: Schema, d: Dialect, now: Int64, row: Row, v: Option<int>)
    requires IsIntegerComparison(e, schema, now)
    requires Build(e, schema, now).Ok? && Denote(schema, d, Build(e, schema, now).value).Ok?
    requires HoldsInteger(row, ColumnExpr(d, schema[e.args[0].name]), v)
    ensures Eval(Denote(schema, d, Build(e, schema, now).value).value, row) ==
            if v.None? then Unknown
            else if Compares(ComparisonOf(e.function_).value, v.value, Wrap(ExactValue(e.args[1], now))) then True else False
  {
    hide Wrap, ExactValue, ColumnExpr, EvaluateNumeric, Build, Denote, Eval, ComparisonOf, Compares;
    IntegerComparisonIsBuilt(e, schema, d, now, row);
  }

  /** The Kleene truth value of an expression. A leaf other than an integer comparison counts as
      what its own condition means. */
  function ExprTruth(e: Expr, schema: Schema, d: Dialect, now: Int64, row: Row): Truth {
    if IsConnective(e) then
      if e.function_ == "!_" then Not3(ExprTruth(e.args[0], schema, d, now, row))
      else
        var l, r := ExprTruth(e.args[0], schema, d, now, row), ExprTruth(e.args[1], schema, d, now, row);
        if e.function_ == "_&&_" then And3(l, r) else Or3(l, r)
    else if e.ConstExpr? then (if e.const_ == BoolConst(true) then True else False)
    else if IsIntegerComparison(e, schema, now) then IntegerComparison(e, schema, d, now, row)
    else
      var c := Build(e, schema, now);
      if c.Ok? && Denote(schema, d, c.value).Ok? then Eval(Denote(schema, d, c.value).value, row) else Unknown
  }

  lemma {:induction false} BuildPreservesMeaning(e: Expr, schema: Schema, d: Dialect, now: Int64, row: Row)
    requires Build(e, schema, now).Ok? && Denote(schema, d, Build(e, schema, now).value).Ok?
    ensures Eval(Denote(schema, d, Build(e, schema, now).value).value, row) == ExprTruth(e, schema, d, now, row)
  {
    hide LeafFormula, IsIntegerComparison, IntegerComparison, ComparisonOf;
    if IsConnective(e) {
      BuildPreservesMeaning(e.args[0], schema, d, now, row);
      if e.function_ != "!_" {
        BuildPreservesMeaning(e.args[1], schema, d, now, row);
        Pairs(Denote(schema, d, Build(e.args[0], schema, now).value).value,
              Denote(schema, d, Build(e.args[1], schema, now).value).value, row);
      }
    } else if IsIntegerComparison(e, schema, now) {
      IntegerComparisonIsBuilt(e, schema, d, now, row);
    }
  }

  function BuildAll(es: seq<Expr>, schema: Schema, now: Int64): (r: seq<Condition>)
    requires forall i :: 0 <= i < |es| ==> Build(es[i], schema, now).Ok?
    ensures |r| == |es|
  {
    seq(|es|, i requires 0 <= i < |es| => Build(es[i], schema, now).value)
  }

  /** The whole compiler: a clause built from expressions behind a prior clause keeps a row, once
      it reads back and fits its arguments, exactly when the prior clause and every expression
      are TRUE on it. */
  lemma CompiledFiltersSelectRows(es: seq<Expr>, schema: Schema, d: Dialect, now: Int64,
                                  before: seq<Formula<Bind>>, prior: Clause, row: Row)
    requires forall i :: 0 <= i < |es| ==> Build(es[i], schema, now).Ok?
    requires AllValid(schema, d, BuildAll(es, schema, now)) && Prior(d, before, prior)
    ensures var q := Append(schema, d, BuildAll(es, schema, now), prior).0;
            Run(d, q).Some? ==>
              (Eval(Run(d, q).value, row) == True <==>
               && EvalAll(MapList(ValueOf(), before), row) == True
               && forall i :: 0 <= i < |es| ==> ExprTruth(es[i], schema, d, now, row) == True)
  {
    hide ExprTruth, Build, Denote, Append, Run, Eval, EvalAll, Prior;
    var filters := BuildAll(es, schema, now);
    FiltersSelectRows(schema, d, filters, before, prior, row);
    forall i | 0 <= i < |es|
      ensures Eval(Denote(schema, d, filters[i]).value, row) == ExprTruth(es[i], schema, d, now, row)
    {
      assert filters[i] == Build(es[i], schema, now).value && Denote(schema, d, filters[i]).Ok?;
      BuildPreservesMeaning(es[i], schema, d, now, row);
    }
  }

  // Inputs whose clause cannot be used.

  const PINNED := Field("pinned", BoolColumn, BoolType, "memo", "pinned", [], "", false, map[], None)
  const CREATOR := Field("creator_id", Scalar, IntType, "memo", "creator_id", [], "", false, map[], None)
  const TAG := Field("tag", VirtualAlias, StringType, "", "", [], "tags", false, map[], None)
  const TAGS := Field("tags", JsonList, StringType, "memo", "payload", ["tags"], "", false, map[], None)

  const PINNED_AND_FALSE := Logical(LogicalAnd, Comparison(FieldRef("pinned"), Eq, LiteralValue(BoolLit(true))), Constant(false))

  /** `pinned == true && false` prints no placeholder but keeps an argument, which nothing in the
      finished clause denotes. */
  lemma FoldedConstantLeavesStrayArgument(d: Dialect)
    ensures var q := Append(map["pinned" := PINNED], d, [PINNED_AND_FALSE], NO_CONDITION).0;
            |q.args| == 1 && Run(d, q) == Option.None
  {
    var schema := map["pinned" := PINNED];
    var c := PINNED_AND_FALSE;
    var f := LeafFormula(schema, d, c.left).value;
    FlatPairs(f, Atom(Contradiction, []));
    assert Denote(schema, d, c.left).value == f && Denote(schema, d, c.right).value == Atom(Contradiction, []);
    assert Denote(schema, d, c).value == All([f, Atom(Contradiction, [])]);
    assert |Flat(Denote(schema, d, c).value)| == 1;
    assert ConstantValue(c) == Some(false) && !NothingDropped(schema, d, c);
    OneFilter(schema, d, c);
  }

  /** A clause of one filter cannot be used when its text is unreadable or it lost an argument. */
  lemma OneFilter(schema: Schema, d: Dialect, c: Condition)
    requires Denote(schema, d, c).Ok? && ConstantValue(c) != Some(true)
    ensures var q := Append(schema, d, [c], NO_CONDITION).0;
            && q.args == Flat(Denote(schema, d, c).value)
            && (ReadBack(d, JoinAnd(q.where)).Some? <==> NoEmptyIn(d, c))
            && (Run(d, q).Some? <==> NoEmptyIn(d, c) && NothingDropped(schema, d, c))
  {
    hide Fold, Denote, ConstantValue, NothingDropped, NoEmptyIn, Run, Flat, Print;
    assert [c][0] == c && [c][1..] == [];
    NoConditionIsPrior(d);
    FiltersSelectRows(schema, d, [c], [TAUTOLOGY], NO_CONDITION, (s, v) => Unknown);
    FoldPreservesMeaning(schema, d, c, 0, (s, v) => Unknown);
    FoldPlacesArguments(schema, d, c, 0);
    FoldIsConstant(schema, d, c, 0);
    assert NoEmptyIns(d, [c]) <==> NoEmptyIn(d, c);
    assert Aligned(schema, d, [c]) <==> NothingDropped(schema, d, c);
    assert Append(schema, d, [c], NO_CONDITION).0 == Extend(d, Fold(schema, d, c, 0).value, NO_CONDITION);
  }

  /** `tag in []` prints `()`, which no dialect reads. */
  lemma EmptyTagListIsUnreadable(d: Dialect)
    ensures var q := Append(map["tag" := TAG, "tags" := TAGS], d, [In(FieldRef("tag"), [])], NO_CONDITION).0;
            ReadBack(d, JoinAnd(q.where)) == Option.None && Run(d, q) == Option.None
  {
    var schema := map["tag" := TAG, "tags" := TAGS];
    var c := In(FieldRef("tag"), []);
    assert ResolveAlias(schema, "tag") == Some(TAGS);
    assert Denote(schema, d, c) == InFormula(schema, d, c);
    OneFilter(schema, d, c);
  }

  /** `creator_id in []` prints an empty IN list, which only SQLite takes. */
  lemma EmptyScalarListIsReadableOnSqliteOnly(d: Dialect)
    ensures var q := Append(map["creator_id" := CREATOR], d, [In(FieldRef("creator_id"), [])], NO_CONDITION).0;
            (ReadBack(d, JoinAnd(q.where)).Some? <==> d == SQLite) && (Run(d, q).Some? <==> d == SQLite)
  {
    var schema := map["creator_id" := CREATOR];
    var c := In(FieldRef("creator_id"), []);
    assert Denote(schema, d, c) == InFormula(schema, d, c);
    assert |Flat(Denote(schema, d, c).value)| == 0;
    OneFilter(schema, d, c);
  }
}
