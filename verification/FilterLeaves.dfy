/** What compiled leaves mean on rows that hold known values, told with the operator texts and the
    function names of the expression language written out. */
module FilterLeaves {
  import opened Results
  import opened FilterSql
  import opened FilterIR
  import opened FilterMeaning
  import opened FilterBinding
  import opened FilterBuild

  function Of(b: bool): Truth { if b then True else False }

  // Logic.

  /** The three truth values in order: FALSE, UNKNOWN, TRUE. */
  function Rank(t: Truth): int {
    match t case False => 0 case Unknown => 1 case True => 2
  }

  /** AND is the lesser, OR the greater of two truth values; NOT turns the order around. */
  lemma ConnectivesAreLatticeOperations(a: Truth, b: Truth)
    ensures Rank(And3(a, b)) == (if Rank(a) <= Rank(b) then Rank(a) else Rank(b))
    ensures Rank(Or3(a, b)) == (if Rank(a) <= Rank(b) then Rank(b) else Rank(a))
    ensures Rank(Not3(a)) == 2 - Rank(a)
  {
  }

  // Integer comparisons.

  /** SQL's comparison of the integer in the column with a bound integer. */
  ghost predicate ReadsInteger(row: Row, column: string, v: int) {
    && (forall k: int :: row(Predicate(ScalarCompare, column, "="), [Int(k)]) == Of(v == k))
    && (forall k: int :: row(Predicate(ScalarCompare, column, "!="), [Int(k)]) == Of(v != k))
    && (forall k: int :: row(Predicate(ScalarCompare, column, "<"), [Int(k)]) == Of(v < k))
    && (forall k: int :: row(Predicate(ScalarCompare, column, "<="), [Int(k)]) == Of(v <= k))
    && (forall k: int :: row(Predicate(ScalarCompare, column, ">"), [Int(k)]) == Of(v > k))
    && (forall k: int :: row(Predicate(ScalarCompare, column, ">="), [Int(k)]) == Of(v >= k))
  }

  /** Each of the six comparisons, compiled, compares the integer in the column with the value of
      the arithmetic as its name says. */
  lemma ComparisonsMeanTheirNames(e: Expr, schema: Schema, d: Dialect, now: Int64, row: Row, v: int)
    requires IsIntegerComparison(e, schema, now)
    requires Build(e, schema, now).Ok? && Denote(schema, d, Build(e, schema, now).value).Ok?
    requires ReadsInteger(row, ColumnExpr(d, schema[e.args[0].name]), v)
    ensures var truth := Eval(Denote(schema, d, Build(e, schema, now).value).value, row);
            var x := Wrap(ExactValue(e.args[1], now));
            && (e.function_ == "_==_" ==> truth == Of(v == x))
            && (e.function_ == "_!=_" ==> truth == Of(v != x))
            && (e.function_ == "_<_" ==> truth == Of(v < x))
            && (e.function_ == "_<=_" ==> truth == Of(v <= x))
            && (e.function_ == "_>_" ==> truth == Of(v > x))
            && (e.function_ == "_>=_" ==> truth == Of(v >= x))
  {
    hide Wrap, ExactValue, ColumnExpr, EvaluateNumeric, Build, Denote, Eval;
    IntegerComparisonIsBuilt(e, schema, d, now, row);
  }

  predicate NamedComparison(fn: string, v: int, x: int) {
    if fn == "_==_" then v == x
    else if fn == "_!=_" then v != x
    else if fn == "_<_" then v < x
    else if fn == "_<=_" then v <= x
    else if fn == "_>_" then v > x
    else fn == "_>=_" && v >= x
  }

  lemma ComparisonMeansItsName(e: Expr, schema: Schema, d: Dialect, now: Int64, row: Row, v: int)
    requires IsIntegerComparison(e, schema, now)
    requires Build(e, schema, now).Ok? && Denote(schema, d, Build(e, schema, now).value).Ok?
    requires ReadsInteger(row, ColumnExpr(d, schema[e.args[0].name]), v)
    ensures Eval(Denote(schema, d, Build(e, schema, now).value).value, row) ==
            Of(NamedComparison(e.function_, v, Wrap(ExactValue(e.args[1], now))))
  {
    SixComparisons(e.function_);
    hide Wrap, ExactValue, ColumnExpr, EvaluateNumeric, Build, Denote, Eval, ComparisonOf, IsIntegerComparison, ReadsInteger;
    ComparisonsMeanTheirNames(e, schema, d, now, row, v);
  }

  /** ... and so do whole clauses: `created_ts < 100` keeps exactly the rows below 100. */
  lemma ComparisonSelectsRows(e: Expr, schema: Schema, d: Dialect, now: Int64, row: Row, v: int)
    requires IsIntegerComparison(e, schema, now)
    requires Build(e, schema, now).Ok? && Denote(schema, d, Build(e, schema, now).value).Ok?
    requires ReadsInteger(row, ColumnExpr(d, schema[e.args[0].name]), v)
    ensures var q := Append(schema, d, [Build(e, schema, now).value], NO_CONDITION).0;
            && Run(d, q).Some?
            && (Eval(Run(d, q).value, row) == True <==>
                NamedComparison(e.function_, v, Wrap(ExactValue(e.args[1], now))))
  {
    var c := Build(e, schema, now).value;
    IntegerComparisonIsLeaf(e, schema, now);
    ComparisonMeansItsName(e, schema, d, now, row, v);
    hide Wrap, ExactValue, ColumnExpr, EvaluateNumeric, Build, Denote, Eval, Append, Run, IsIntegerComparison, NamedComparison;
    ClauseOfLeaf(schema, d, c, row);
  }

  lemma ClauseOfLeaf(schema: Schema, d: Dialect, c: Condition, row: Row)
    requires c.Comparison? && Denote(schema, d, c).Ok?
    ensures var q := Append(schema, d, [c], NO_CONDITION).0;
            && Run(d, q).Some?
            && (Eval(Run(d, q).value, row) == True <==> Eval(Denote(schema, d, c).value, row) == True)
  {
    hide Denote, Eval, Append, Run;
    NoConditionIsPrior(d);
    FiltersSelectRows(schema, d, [c], [TAUTOLOGY], NO_CONDITION, row);
    assert Aligned(schema, d, [c]) && NoEmptyIns(d, [c]);
    assert Holds(schema, d, [c], row) <==> Eval(Denote(schema, d, [c][0]).value, row) == True;
  }

  lemma IntegerComparisonIsLeaf(e: Expr, schema: Schema, now: Int64)
    requires IsIntegerComparison(e, schema, now) && Build(e, schema, now).Ok?
    ensures Build(e, schema, now).value.Comparison?
  {
  }

  lemma SixComparisons(fn: string)
    requires ComparisonOf(fn).Some?
    ensures fn == "_==_" || fn == "_!=_" || fn == "_<_" || fn == "_<=_" || fn == "_>_" || fn == "_>=_"
  {
  }

  /** Arithmetic adds, subtracts and multiplies. */
  lemma ArithmeticMeans(a: Expr, b: Expr, now: int)
    ensures ExactValue(Call("_+_", None, [a, b]), now) == ExactValue(a, now) + ExactValue(b, now)
    ensures ExactValue(Call("_-_", None, [a, b]), now) == ExactValue(a, now) - ExactValue(b, now)
    ensures ExactValue(Call("_*_", None, [a, b]), now) == ExactValue(a, now) * ExactValue(b, now)
    ensures ExactValue(Call("now", None, []), now) == now
    ensures forall i: Int64 :: ExactValue(ConstExpr(IntConst(i)), now) == i
  {
  }

  // Booleans and NULL.

  /** What a boolean is bound as. */
  function BoundBoolean(d: Dialect, b: bool): Value {
    if d != SQLite then Bool(b) else if b then Int(1) else Int(0)
  }

  /** A boolean column; SQLite compares it with 1 and 0. */
  ghost predicate ReadsBoolean(row: Row, d: Dialect, column: string, v: bool) {
    && row(Predicate(ColumnIsTrue, column, "IS TRUE"), []) == Of(v)
    && (forall b: bool :: row(Predicate(ColumnCompare, column, "="), [BoundBoolean(d, b)]) == Of(v == b))
    && (forall b: bool :: row(Predicate(ColumnCompare, column, "!="), [BoundBoolean(d, b)]) == Of(v != b))
  }

  lemma BooleanColumnMeans(schema: Schema, d: Dialect, name: string, b: bool, row: Row, v: bool)
    requires name in schema && schema[name].kind == BoolColumn
    requires ReadsBoolean(row, d, QualifyColumn(d, schema[name]), v)
    ensures var eq := Denote(schema, d, Comparison(FieldRef(name), Eq, LiteralValue(BoolLit(b))));
            eq.Ok? && Eval(eq.value, row) == Of(v == b)
    ensures var neq := Denote(schema, d, Comparison(FieldRef(name), Neq, LiteralValue(BoolLit(b))));
            neq.Ok? && Eval(neq.value, row) == Of(v != b)
    ensures var plain := Denote(schema, d, FieldPredicate(name));
            plain.Ok? && Eval(plain.value, row) == Of(v)
  {
    hide QualifyColumn;
    var column := QualifyColumn(d, schema[name]);
    BooleanLeaf(d, column, b, row, v);
    var eq := Comparison(FieldRef(name), Eq, LiteralValue(BoolLit(b)));
    var neq := Comparison(FieldRef(name), Neq, LiteralValue(BoolLit(b)));
    assert Denote(schema, d, eq) == Ok(Leaf(ColumnCompare, column, "=", [BoolValue(d, b)]));
    assert Denote(schema, d, neq) == Ok(Leaf(ColumnCompare, column, "!=", [BoolValue(d, b)]));
    assert Denote(schema, d, FieldPredicate(name)) == Ok(Leaf(ColumnIsTrue, column, "IS TRUE", []));
  }

  lemma BooleanLeaf(d: Dialect, column: string, b: bool, row: Row, v: bool)
    requires ReadsBoolean(row, d, column, v)
    ensures Eval(Leaf(ColumnCompare, column, "=", [BoolValue(d, b)]), row) == Of(v == b)
    ensures Eval(Leaf(ColumnCompare, column, "!=", [BoolValue(d, b)]), row) == Of(v != b)
    ensures Eval(Leaf(ColumnIsTrue, column, "IS TRUE", []), row) == Of(v)
  {
    assert BoolValue(d, b) == BoundBoolean(d, b);
  }

  /** A boolean that is present in the JSON payload, in the three forms the dialects ask for it. */
  ghost predicate ReadsJsonBoolean(row: Row, column: string, v: bool) {
    && row(Predicate(JsonIsTrue, column, "IS TRUE"), []) == Of(v)
    && (forall b: bool :: row(Predicate(JsonLiteralCompare(b), column, "="), []) == Of(v == b))
    && (forall b: bool :: row(Predicate(JsonLiteralCompare(b), column, "!="), []) == Of(v != b))
    && (forall b: bool :: row(Predicate(JsonBoolCompare, column, "="), [Bool(b)]) == Of(v == b))
    && (forall b: bool :: row(Predicate(JsonBoolCompare, column, "!="), [Bool(b)]) == Of(v != b))
  }

  /** In every dialect and for every field, `== b`, `!= b` and the bare field ask for the boolean. */
  lemma JsonBooleanMeans(schema: Schema, d: Dialect, name: string, b: bool, row: Row, v: bool)
    requires name in schema && schema[name].kind == JsonBool
    requires ReadsJsonBoolean(row, JsonExtractExpr(d, schema[name]), v)
    ensures var eq := Denote(schema, d, Comparison(FieldRef(name), Eq, LiteralValue(BoolLit(b))));
            eq.Ok? && Eval(eq.value, row) == Of(v == b)
    ensures var neq := Denote(schema, d, Comparison(FieldRef(name), Neq, LiteralValue(BoolLit(b))));
            neq.Ok? && Eval(neq.value, row) == Of(v != b)
    ensures var plain := Denote(schema, d, FieldPredicate(name));
            plain.Ok? && Eval(plain.value, row) == Of(v)
  {
    hide JsonExtractExpr;
    var f := schema[name];
    JsonBooleanLeaf(d, f, b, row, v);
    assert Denote(schema, d, Comparison(FieldRef(name), Eq, LiteralValue(BoolLit(b)))) == JsonBoolFormula(d, f, Eq, b);
    assert Denote(schema, d, Comparison(FieldRef(name), Neq, LiteralValue(BoolLit(b)))) == JsonBoolFormula(d, f, Neq, b);
    assert Denote(schema, d, FieldPredicate(name)) == Ok(Leaf(JsonIsTrue, JsonExtractExpr(d, f), "IS TRUE", []));
  }

  lemma JsonBooleanLeaf(d: Dialect, f: Field, b: bool, row: Row, v: bool)
    requires ReadsJsonBoolean(row, JsonExtractExpr(d, f), v)
    ensures JsonBoolFormula(d, f, Eq, b).Ok? && Eval(JsonBoolFormula(d, f, Eq, b).value, row) == Of(v == b)
    ensures JsonBoolFormula(d, f, Neq, b).Ok? && Eval(JsonBoolFormula(d, f, Neq, b).value, row) == Of(v != b)
    ensures Eval(Leaf(JsonIsTrue, JsonExtractExpr(d, f), "IS TRUE", []), row) == Of(v)
  {
    hide JsonExtractExpr;
  }

  /** A payload without the boolean: tests for truth fail and comparisons are UNKNOWN. */
  ghost predicate LacksJsonBoolean(row: Row, column: string) {
    && row(Predicate(JsonIsTrue, column, "IS TRUE"), []) == False
    && (forall b: bool :: row(Predicate(JsonLiteralCompare(b), column, "="), []) == Unknown)
    && (forall b: bool :: row(Predicate(JsonBoolCompare, column, "="), [Bool(b)]) == Unknown)
  }

  /** `field == false` keeps such a row exactly on SQLite, and there not for `has_task_list`. */
  lemma MissingBooleanIsFalseOnSqliteOnly(schema: Schema, d: Dialect, name: string, row: Row)
    requires name in schema && schema[name].kind == JsonBool
    requires LacksJsonBoolean(row, JsonExtractExpr(d, schema[name]))
    ensures var eq := Denote(schema, d, Comparison(FieldRef(name), Eq, LiteralValue(BoolLit(false))));
            eq.Ok? && (Eval(eq.value, row) == True <==> d == SQLite && schema[name].name != "has_task_list")
  {
    hide JsonExtractExpr;
    var f := schema[name];
    MissingLeaf(d, f, row);
    assert Denote(schema, d, Comparison(FieldRef(name), Eq, LiteralValue(BoolLit(false)))) == JsonBoolFormula(d, f, Eq, false);
  }

  lemma MissingLeaf(d: Dialect, f: Field, row: Row)
    requires LacksJsonBoolean(row, JsonExtractExpr(d, f))
    ensures JsonBoolFormula(d, f, Eq, false).Ok?
    ensures Eval(JsonBoolFormula(d, f, Eq, false).value, row) == True <==> d == SQLite && f.name != "has_task_list"
  {
    hide JsonExtractExpr;
  }

  ghost predicate ReadsNull(row: Row, column: string, isNull: bool) {
    && row(Predicate(IsNull, column, "IS NULL"), []) == Of(isNull)
    && row(Predicate(IsNotNull, column, "IS NOT NULL"), []) == Of(!isNull)
  }

  /** `field == null` and `field != null` ask whether the column is NULL and are never UNKNOWN. */
  lemma NullComparisonMeans(schema: Schema, d: Dialect, name: string, row: Row, isNull: bool)
    requires name in schema && schema[name].kind == Scalar
    requires ReadsNull(row, ColumnExpr(d, schema[name]), isNull)
    ensures var eq := Denote(schema, d, Comparison(FieldRef(name), Eq, LiteralValue(NullLit)));
            eq.Ok? && Eval(eq.value, row) == Of(isNull)
    ensures var neq := Denote(schema, d, Comparison(FieldRef(name), Neq, LiteralValue(NullLit)));
            neq.Ok? && Eval(neq.value, row) == Of(!isNull)
  {
    hide ColumnExpr;
    var column := ColumnExpr(d, schema[name]);
    var eq, neq := Comparison(FieldRef(name), Eq, LiteralValue(NullLit)), Comparison(FieldRef(name), Neq, LiteralValue(NullLit));
    assert Denote(schema, d, eq) == Ok(Leaf(IsNull, column, "IS NULL", []));
    assert Denote(schema, d, neq) == Ok(Leaf(IsNotNull, column, "IS NOT NULL", []));
  }

  // Literals, strings and lists.

  lemma LiteralsAreTheirValues(schema: Schema, now: Int64, s: string, b: bool, i: Int64)
    ensures BuildValue(ConstExpr(StringConst(s)), schema, now) == Ok(LiteralValue(StringLit(s)))
    ensures BuildValue(ConstExpr(BoolConst(b)), schema, now) == Ok(LiteralValue(BoolLit(b)))
    ensures BuildValue(ConstExpr(IntConst(i)), schema, now) == Ok(LiteralValue(IntLit(i)))
    ensures BuildValue(ConstExpr(NullConst), schema, now) == Ok(LiteralValue(NullLit))
    ensures BuildValue(Call("!_", None, [ConstExpr(BoolConst(b))]), schema, now) == Ok(LiteralValue(BoolLit(!b)))
  {
    var e := ConstExpr(BoolConst(b));
    assert EvaluateBool(e) == Ok(Some(b));
    assert EvaluateBool(Call("!_", None, [e])) == Ok(Some(!b));
  }

  ghost predicate ReadsString(row: Row, column: string, v: string) {
    && (forall s: string :: row(Predicate(ScalarCompare, column, "="), [Str(s)]) == Of(v == s))
    && (forall s: string :: row(Predicate(ScalarCompare, column, "!="), [Str(s)]) == Of(v != s))
  }

  lemma StringComparisonMeans(schema: Schema, d: Dialect, name: string, s: string, row: Row, v: string)
    requires name in schema && schema[name].kind == Scalar && schema[name].typ == StringType
    requires ReadsString(row, ColumnExpr(d, schema[name]), v)
    ensures var eq := Denote(schema, d, Comparison(FieldRef(name), Eq, LiteralValue(StringLit(s))));
            eq.Ok? && Eval(eq.value, row) == Of(v == s)
    ensures var neq := Denote(schema, d, Comparison(FieldRef(name), Neq, LiteralValue(StringLit(s))));
            neq.Ok? && Eval(neq.value, row) == Of(v != s)
  {
    hide ColumnExpr;
    var column := ColumnExpr(d, schema[name]);
    var eq := Comparison(FieldRef(name), Eq, LiteralValue(StringLit(s)));
    var neq := Comparison(FieldRef(name), Neq, LiteralValue(StringLit(s)));
    assert Denote(schema, d, eq) == Ok(Leaf(ScalarCompare, column, "=", [Str(s)]));
    assert Denote(schema, d, neq) == Ok(Leaf(ScalarCompare, column, "!=", [Str(s)]));
  }

  /** SQL's IN: the value of the column is one of the bound values. */
  ghost predicate ReadsMembership(row: Row, column: string, v: Value) {
    forall vs: seq<Value> :: row(Predicate(InList, column, "IN"), vs) == Of(v in vs)
  }

  function Integers(ks: seq<int>): seq<ValueExpr> {
    seq(|ks|, i requires 0 <= i < |ks| => LiteralValue(IntLit(ks[i])))
  }

  lemma IntegerListMeans(schema: Schema, d: Dialect, name: string, ks: seq<int>, row: Row, v: int)
    requires name in schema && name != "tag" && schema[name].kind == Scalar && schema[name].typ == IntType
    requires ReadsMembership(row, ColumnExpr(d, schema[name]), Int(v))
    ensures var c := Denote(schema, d, In(FieldRef(name), Integers(ks)));
            c.Ok? && Eval(c.value, row) == Of(v in ks)
  {
    hide ColumnExpr;
    var values := InValues(IntType, Integers(ks));
    assert Denote(schema, d, In(FieldRef(name), Integers(ks))) == Ok(Leaf(InList, ColumnExpr(d, schema[name]), "IN", values));
    assert forall i :: 0 <= i < |ks| ==> values[i] == Int(ks[i]);
    if v in ks {
      var i :| 0 <= i < |ks| && ks[i] == v;
      assert values[i] == Int(v);
    }
  }

  function Strings(ss: seq<string>): seq<ValueExpr> {
    seq(|ss|, i requires 0 <= i < |ss| => LiteralValue(StringLit(ss[i])))
  }

  lemma StringListMeans(schema: Schema, d: Dialect, name: string, ss: seq<string>, row: Row, v: string)
    requires name in schema && name != "tag" && schema[name].kind == Scalar && schema[name].typ == StringType
    requires ReadsMembership(row, ColumnExpr(d, schema[name]), Str(v))
    ensures var c := Denote(schema, d, In(FieldRef(name), Strings(ss)));
            c.Ok? && Eval(c.value, row) == Of(v in ss)
  {
    hide ColumnExpr;
    var values := InValues(StringType, Strings(ss));
    assert Denote(schema, d, In(FieldRef(name), Strings(ss))) == Ok(Leaf(InList, ColumnExpr(d, schema[name]), "IN", values));
    assert forall i :: 0 <= i < |ss| ==> values[i] == Str(ss[i]);
    if v in ss {
      var i :| 0 <= i < |ss| && ss[i] == v;
      assert values[i] == Str(v);
    }
  }

  /** The number of tags compared with a literal. */
  ghost predicate ReadsSize(row: Row, column: string, n: int) {
    && (forall k: int :: row(Predicate(SizeCompare, column, "="), [Int(k)]) == Of(n == k))
    && (forall k: int :: row(Predicate(SizeCompare, column, "<"), [Int(k)]) == Of(n < k))
    && (forall k: int :: row(Predicate(SizeCompare, column, ">"), [Int(k)]) == Of(n > k))
  }

  lemma SizeComparisonMeans(schema: Schema, d: Dialect, name: string, k: int, row: Row, n: int)
    requires name in schema && schema[name].kind == JsonList
    requires ReadsSize(row, JsonArrayExpr(d, schema[name]), n)
    ensures var size := FunctionValue("size", [FieldRef(name)]);
            var eq := Denote(schema, d, Comparison(size, Eq, LiteralValue(IntLit(k))));
            var lt := Denote(schema, d, Comparison(size, Lt, LiteralValue(IntLit(k))));
            var gt := Denote(schema, d, Comparison(size, Gt, LiteralValue(IntLit(k))));
            && eq.Ok? && Eval(eq.value, row) == Of(n == k)
            && lt.Ok? && Eval(lt.value, row) == Of(n < k)
            && gt.Ok? && Eval(gt.value, row) == Of(n > k)
  {
    hide JsonArrayExpr;
    var size, column := FunctionValue("size", [FieldRef(name)]), JsonArrayExpr(d, schema[name]);
    var x := LiteralValue(IntLit(k));
    assert Denote(schema, d, Comparison(size, Eq, x)) == Ok(Leaf(SizeCompare, column, "=", [Int(k)]));
    assert Denote(schema, d, Comparison(size, Lt, x)) == Ok(Leaf(SizeCompare, column, "<", [Int(k)]));
    assert Denote(schema, d, Comparison(size, Gt, x)) == Ok(Leaf(SizeCompare, column, ">", [Int(k)]));
  }

  // Column texts.

  /** Columns are qualified and quoted, JSON paths of two steps written, in each dialect's way: as in
      JSON_EXTRACT(`memo`.`payload`, '$.property.hasLink') and memo.payload->'property'->>'hasLink'. */
  lemma ColumnTexts(f: Field, a: string, b: string)
    requires f.jsonPath == [a, b]
    ensures QualifyColumn(SQLite, f) == QualifyColumn(MySQL, f) == "`" + f.table + "`.`" + f.column + "`"
    ensures QualifyColumn(Postgres, f) == f.table + "." + f.column
    ensures forall d :: d != Postgres ==>
              JsonExtractExpr(d, f) == JsonArrayExpr(d, f)
              == "JSON_EXTRACT(" + QualifyColumn(d, f) + ", '$." + (a + "." + b) + "')"
    ensures JsonExtractExpr(Postgres, f) == QualifyColumn(Postgres, f) + "->'" + a + "'" + "->>'" + b + "'"
    ensures JsonArrayExpr(Postgres, f) == QualifyColumn(Postgres, f) + "->'" + a + "'" + "->'" + b + "'"
  {
    var base := QualifyColumn(Postgres, f);
    assert f.jsonPath[1..] == [b] && [b][1..] == [];
    assert PathText([b]) == b;
    LastStep(base + "->'" + a + "'", b, true);
    LastStep(base + "->'" + a + "'", b, false);
  }

  lemma LastStep(base: string, b: string, terminalText: bool)
    ensures Accessor(base, [b], terminalText) == base + (if terminalText then "->>'" else "->'") + b + "'"
  {
    assert [b][1..] == [];
  }

  // Tags.

  /** The predicates that exists() understands. */
  lemma PredicatesMeanTheirNames(x: string, s: string)
    ensures var t, c := Ident(x), ConstExpr(StringConst(s));
            && BuildPredicate(Call("_==_", None, [t, c]), x) == Ok(Equals(s))
            && BuildPredicate(Call("_==_", None, [c, t]), x) == Ok(Equals(s))
            && BuildPredicate(Call("startsWith", Some(t), [c]), x) == Ok(StartsWith(s))
            && BuildPredicate(Call("endsWith", Some(t), [c]), x) == Ok(EndsWith(s))
            && BuildPredicate(Call("contains", Some(t), [c]), x) == Ok(ContainsText(s))
  {
  }

  /** The texts bound for tags: a whole tag is quoted, what precedes or follows within a tag is open
      on that side, and a hierarchical tag ends in a slash. */
  lemma TagArguments(d: Dialect, f: Field, s: string)
    ensures Flat(TagFormula(d, f, s)) ==
            [Str(if d == SQLite then "%\"" + s + "\"%" else "\"" + s + "\""), Str("%\"" + s + "/%")]
    ensures Flat(TagPredicate(d, f, Equals(s))) == [Str(if d == Postgres then "\"" + s + "\"" else "%\"" + s + "\"%")]
    ensures Flat(TagPredicate(d, f, StartsWith(s))) ==
            [Str(if d == Postgres then "\"" + s + "\"" else "%\"" + s + "\"%"), Str("%\"" + s + "%")]
    ensures Flat(TagPredicate(d, f, EndsWith(s))) == [Str("%" + s + "\"%")]
    ensures Flat(TagPredicate(d, f, ContainsText(s))) == [Str("%" + s + "%")]
    ensures Flat(ElementFormula(d, f, s)) == [Str(if d == SQLite then "%\"" + s + "\"%" else "\"" + s + "\"")]
  {
    hide JsonArrayExpr;
    QuotedInPercent(s);
    FlatPairs(ElementFormula(d, f, s), ArrayLikeFormula(d, f, "%\"" + s + "/%"));
    FlatPairs(ExactTag(d, f, s), ArrayLikeFormula(d, f, "%\"" + s + "%"));
  }

  lemma QuotedInPercent(s: string)
    ensures "%" + Quoted(s) + "%" == "%\"" + s + "\"%" && Quoted(s) == "\"" + s + "\""
  {
  }

  /** `field.contains("text")` looks for the text anywhere in the column. */
  lemma ContainsMeans(schema: Schema, d: Dialect, name: string, s: string, row: Row)
    requires name in schema
    ensures var c := Denote(schema, d, Contains(name, s));
            && c.Ok?
            && Eval(c.value, row) == row(Predicate(ContainsLike, ColumnExpr(d, schema[name]), "LIKE"), [Str("%" + s + "%")])
  {
    hide ColumnExpr;
    assert Denote(schema, d, Contains(name, s)) ==
           Ok(Leaf(ContainsLike, ColumnExpr(d, schema[name]), "LIKE", [Str("%" + s + "%")]));
  }

  /** `tag in [...]` is TRUE exactly when the row has one of the tags, itself or one below it. */
  lemma TagListMeans(schema: Schema, d: Dialect, f: Field, ss: seq<string>, row: Row)
    requires ResolveAlias(schema, "tag") == Some(f)
    ensures var c := Denote(schema, d, In(FieldRef("tag"), Strings(ss)));
            && c.Ok?
            && (Eval(c.value, row) == True <==>
                exists i :: 0 <= i < |ss| && (Eval(ElementFormula(d, f, ss[i]), row) == True
                                              || Eval(ArrayLikeFormula(d, f, "%\"" + ss[i] + "/%"), row) == True))
  {
    hide ElementFormula, ArrayLikeFormula, Eval, TagFormula;
    var fs := TagFormulas(d, f, Strings(ss));
    assert Denote(schema, d, In(FieldRef("tag"), Strings(ss))) == Ok(if |fs| == 1 then fs[0] else Any(fs));
    forall i | 0 <= i < |ss|
      ensures Eval(fs[i], row) == True <==>
              (Eval(ElementFormula(d, f, ss[i]), row) == True || Eval(ArrayLikeFormula(d, f, "%\"" + ss[i] + "/%"), row) == True)
    {
      assert fs[i] == TagFormula(d, f, ss[i]);
      TagMeans(d, f, ss[i], row);
    }
    AnyMeans(fs, row);
  }

  lemma TagMeans(d: Dialect, f: Field, s: string, row: Row)
    ensures Eval(TagFormula(d, f, s), row) == True <==>
            (Eval(ElementFormula(d, f, s), row) == True || Eval(ArrayLikeFormula(d, f, "%\"" + s + "/%"), row) == True)
  {
    hide ElementFormula, ArrayLikeFormula;
    Pairs(ElementFormula(d, f, s), ArrayLikeFormula(d, f, "%\"" + s + "/%"), row);
  }

  lemma AnyMeans(fs: seq<Formula<Value>>, row: Row)
    ensures Eval(Any(fs), row) == True <==> exists i :: 0 <= i < |fs| && Eval(fs[i], row) == True
  {
    EvalAnyMeans(fs, row);
  }

  lemma {:induction false} EvalAnyMeans(fs: seq<Formula<Value>>, row: Row)
    ensures EvalAny(fs, row) == True <==> exists i :: 0 <= i < |fs| && Eval(fs[i], row) == True
    decreases |fs|
  {
    hide Eval;
    if |fs| > 0 {
      EvalAnyMeans(fs[1..], row);
      if i :| 0 <= i < |fs[1..]| && Eval(fs[1..][i], row) == True {
        assert fs[i + 1] == fs[1..][i];
      }
      if i :| 0 <= i < |fs| && Eval(fs[i], row) == True {
        assert i > 0 ==> fs[1..][i - 1] == fs[i];
      }
    }
  }

  /** `tags.exists(...)` is TRUE exactly when its predicate is and the list is neither NULL nor empty. */
  lemma ExistsMeans(schema: Schema, d: Dialect, name: string, p: PredicateExpr, row: Row)
    requires name in schema && schema[name].kind == JsonList
    ensures var c := Denote(schema, d, ListComprehension(name, p));
            var column := JsonArrayExpr(d, schema[name]);
            && c.Ok?
            && (Eval(c.value, row) == True <==>
                && Eval(TagPredicate(d, schema[name], p), row) == True
                && row(Predicate(ArrayNotNull, column, "IS NOT NULL"), []) == True
                && row(Predicate(ArrayNotEmpty, column, "!="), []) == True)
  {
    hide JsonArrayExpr, TagPredicate;
    var f, column := schema[name], JsonArrayExpr(d, schema[name]);
    var t, notNull, notEmpty :=
      TagPredicate(d, f, p), Leaf(ArrayNotNull, column, "IS NOT NULL", []), Leaf(ArrayNotEmpty, column, "!=", []);
    assert Denote(schema, d, ListComprehension(name, p)) == Ok(All([t, notNull, notEmpty]));
    AllMeans([t, notNull, notEmpty], row);
    assert [t, notNull, notEmpty][0] == t && [t, notNull, notEmpty][1] == notNull && [t, notNull, notEmpty][2] == notEmpty;
  }

  lemma {:induction false} AllMeans(fs: seq<Formula<Value>>, row: Row)
    ensures EvalAll(fs, row) == True <==> forall i :: 0 <= i < |fs| ==> Eval(fs[i], row) == True
    decreases |fs|
  {
    hide Eval;
    if |fs| > 0 {
      AllMeans(fs[1..], row);
      assert forall i :: 0 <= i < |fs[1..]| ==> fs[1..][i] == fs[i + 1];
      assert forall i :: 0 < i < |fs| ==> fs[1..][i - 1] == fs[i];
    }
  }

  // What is rejected.

  /** Unknown names, operators that a field does not allow, and contains() on a field without it are errors. */
  lemma Rejections(schema: Schema, now: Int64, name: string, s: string, x: Expr)
    ensures name !in schema ==> Build(Ident(name), schema, now).Err?
    ensures name in schema && schema[name].typ != BoolType ==> Build(Ident(name), schema, now).Err?
    ensures name !in schema || !schema[name].supportsContains ==>
              Build(Call("contains", Some(Ident(name)), [ConstExpr(StringConst(s))]), schema, now).Err?
    ensures name in schema && schema[name].supportsContains ==>
              Build(Call("contains", Some(Ident(name)), [ConstExpr(StringConst(s))]), schema, now) == Ok(Contains(name, s))
    ensures ComparisonRejected(schema, now, name, x, "_==_", Eq) && ComparisonRejected(schema, now, name, x, "_!=_", Neq)
    ensures ComparisonRejected(schema, now, name, x, "_<_", Lt) && ComparisonRejected(schema, now, name, x, "_>_", Gt)
  {
  }

  ghost predicate ComparisonRejected(schema: Schema, now: Int64, name: string, x: Expr, fn: string, op: ComparisonOperator) {
    name !in schema
    || (ResolveAlias(schema, name).Some? && ResolveAlias(schema, name).value.allowedOps.Some?
        && op !in ResolveAlias(schema, name).value.allowedOps.value)
    ==> Build(Call(fn, None, [Ident(name), x]), schema, now).Err?
  }

  /** An alias stands for the field it names. */
  lemma AliasMeans(schema: Schema, name: string)
    requires name in schema
    ensures schema[name].kind != VirtualAlias ==> ResolveAlias(schema, name) == Some(schema[name])
    ensures schema[name].kind == VirtualAlias && schema[name].aliasFor in schema ==>
              ResolveAlias(schema, name) == Some(schema[schema[name].aliasFor])
    ensures schema[name].kind == VirtualAlias && schema[name].aliasFor !in schema ==> ResolveAlias(schema, name) == None
  {
  }
}
