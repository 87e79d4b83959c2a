/** The condition tree of the filter compiler and the schema it is checked against. */
module FilterIR {
  import opened Results
  import opened FilterSql

  datatype LogicalOperator = LogicalAnd | LogicalOr

  datatype ComparisonOperator = Eq | Neq | Lt | Lte | Gt | Gte
  {
    function Sql(): string {
      match this
      case Eq => "=" case Neq => "!=" case Lt => "<" case Lte => "<=" case Gt => ">" case Gte => ">="
    }
  }

  datatype Literal = StringLit(s: string) | IntLit(i: int) | BoolLit(b: bool) | NullLit

  datatype ValueExpr =
    | FieldRef(name: string)
    | LiteralValue(value: Literal)
    | FunctionValue(name: string, args: seq<ValueExpr>)

  datatype PredicateExpr =
    | StartsWith(prefix: string) | EndsWith(suffix: string) | ContainsText(substring: string) | Equals(value: string)

  datatype Condition =
    | Logical(operator: LogicalOperator, left: Condition, right: Condition)
    | NotCondition(expr: Condition)
    | FieldPredicate(field: string)
    | Comparison(lhs: ValueExpr, comparison: ComparisonOperator, rhs: ValueExpr)
    | In(element: ValueExpr, values: seq<ValueExpr>)
    | ElementIn(element: ValueExpr, field: string)
    | Contains(field: string, text: string)
    | ListComprehension(field: string, each: PredicateExpr)  // the only kind is exists()
    | Constant(value: bool)
  {
    predicate IsLeaf() {
      !Logical? && !NotCondition? && !Constant?
    }
  }

  datatype FieldKind = Scalar | BoolColumn | JsonBool | JsonList | VirtualAlias

  datatype FieldType = StringType | IntType | BoolType | TimestampType

  /** A per-dialect override of a column expression, split at its `%s`. */
  datatype Template = Template(before: string, after: string)

  datatype Field = Field(name: string, kind: FieldKind, typ: FieldType, table: string, column: string,
                         jsonPath: seq<string>, aliasFor: string, supportsContains: bool,
                         expressions: map<Dialect, Template>,
                         allowedOps: Option<set<ComparisonOperator>>)

  type Schema = map<string, Field>

  function FieldOf(schema: Schema, name: string): Option<Field> {
    if name in schema then Some(schema[name]) else None
  }

  function ResolveAlias(schema: Schema, name: string): Option<Field> {
    if name !in schema then None
    else if schema[name].kind == VirtualAlias then FieldOf(schema, schema[name].aliasFor)
    else Some(schema[name])
  }

  function QualifyColumn(d: Dialect, f: Field): string {
    if d == Postgres then f.table + "." + f.column else "`" + f.table + "`.`" + f.column + "`"
  }

  function ColumnExpr(d: Dialect, f: Field): string {
    var base := QualifyColumn(d, f);
    if d in f.expressions && f.expressions[d] != Template("", "")
    then f.expressions[d].before + base + f.expressions[d].after else base
  }

  function PathText(path: seq<string>): string {
    if |path| == 0 then "" else if |path| == 1 then path[0] else path[0] + "." + PathText(path[1..])
  }

  function Accessor(base: string, path: seq<string>, terminalText: bool): string
    decreases |path|
  {
    if |path| == 0 then base
    else Accessor(base + (if |path| == 1 && terminalText then "->>'" else "->'") + path[0] + "'", path[1..], terminalText)
  }

  function JsonExpr(d: Dialect, f: Field, terminalText: bool): string {
    if d == Postgres then Accessor(QualifyColumn(d, f), f.jsonPath, terminalText)
    else "JSON_EXTRACT(" + QualifyColumn(d, f) + ", '$." + PathText(f.jsonPath) + "')"
  }

  function JsonExtractExpr(d: Dialect, f: Field): string { JsonExpr(d, f, true) }
  function JsonArrayExpr(d: Dialect, f: Field): string { JsonExpr(d, f, false) }
}
