/** Which arguments the text of a folded condition refers to, and what a list of filters
    selects once its text is read back and its arguments are bound. */
module FilterBinding {
  import opened Results
  import opened FilterSql
  import opened FilterIR
  import opened FilterMeaning

  /** The binds stand, in increasing order, for arguments of a stretch that begins at `n`. */
  ghost predicate BoundFrom(binds: seq<Bind>, n: nat, args: seq<Value>) {
    && (forall i :: 0 <= i < |binds| ==>
          n <= binds[i].position < n + |args| && args[binds[i].position - n] == binds[i].value)
    && (forall i, j :: 0 <= i < j < |binds| ==> binds[i].position < binds[j].position)
  }

  lemma BoundPair(l: seq<Bind>, r: seq<Bind>, n: nat, largs: seq<Value>, rargs: seq<Value>)
    requires BoundFrom(l, n, largs) && BoundFrom(r, n + |largs|, rargs)
    ensures BoundFrom(l + r, n, largs + rargs)
    ensures BoundFrom(l, n, largs + rargs) && BoundFrom(r, n, largs + rargs)
  {
  }

  /** Every placeholder of the outcome stands for the argument bound at its position. */
  ghost predicate Placed(o: Outcome, n: nat, args: seq<Value>) {
    o.Sql? ==> BoundFrom(Flat(o.formula), n, args)
  }

  lemma PlacedPair(op: LogicalOperator, l: Outcome, r: Outcome, n: nat, largs: seq<Value>, rargs: seq<Value>)
    requires Placed(l, n, largs) && Placed(r, n + |largs|, rargs)
    ensures Placed(FoldPairOf(op, l, r), n, largs + rargs)
  {
    hide BoundFrom;
    NothingBound(n, largs);
    NothingBound(n + |largs|, rargs);
    BoundPair(if l.Sql? then Flat(l.formula) else [], if r.Sql? then Flat(r.formula) else [], n, largs, rargs);
    if l.Sql? && r.Sql? {
      FlatPairs(l.formula, r.formula);
    }
  }

  lemma NothingBound(n: nat, args: seq<Value>)
    ensures BoundFrom([], n, args)
  {
  }

  lemma ConsList<A, B>(g: A -> B, f: Formula<A>, fs: seq<Formula<A>>)
    ensures MapList(g, [f] + fs) == [Map(g, f)] + MapList(g, fs)
    ensures FlatList([f] + fs) == Flat(f) + FlatList(fs)
    ensures NoSingletons([f] + fs) == (NoSingleton(f) && NoSingletons(fs))
  {
    assert ([f] + fs)[1..] == fs;
  }

  lemma FlatPairs<B>(a: Formula<B>, b: Formula<B>)
    ensures Flat(All([a, b])) == Flat(a) + Flat(b) && Flat(Any([a, b])) == Flat(a) + Flat(b)
    ensures NoSingleton(All([a, b])) == NoSingleton(Any([a, b])) == (NoSingleton(a) && NoSingleton(b))
  {
    OneMember(b);
    assert [a, b][1..] == [b];
  }

  lemma OneMember<B>(b: Formula<B>)
    ensures FlatList([b]) == Flat(b) && NoSingletons([b]) == NoSingleton(b)
  {
    var none: seq<Formula<B>> := [];
    assert [b][1..] == none && |FlatList(none)| == 0 && NoSingletons(none);
  }

  lemma ReadableCons<B>(d: Dialect, f: Formula<B>, fs: seq<Formula<B>>)
    ensures Readables(d, [f] + fs) == (Readable(d, f) && Readables(d, fs))
  {
    assert ([f] + fs)[1..] == fs;
  }

  lemma ReadablePair<B>(d: Dialect, a: Formula<B>, b: Formula<B>)
    ensures Readable(d, All([a, b])) == Readable(d, Any([a, b])) == (Readable(d, a) && Readable(d, b))
  {
    ReadableCons(d, b, []);
    ReadableCons(d, a, [b]);
    assert [b] + [] == [b] && [a] + [b] == [a, b];
  }

  lemma PlacedNot(o: Outcome, n: nat, args: seq<Value>)
    requires Placed(o, n, args)
    ensures Placed(FoldNot(o), n, args)
  {
  }

  lemma PlacedConstant(o: Outcome, n: nat)
    requires !o.Sql?
    ensures Placed(o, n, [])
  {
  }

  lemma PlacedLeaf(f: Formula<Value>, n: nat)
    ensures Placed(Sql(Number(f, n)), n, Flat(f))
  {
    hide BoundFrom, Flat, Number, NumberValues;
    NumberKeepsValues(f, n);
    NumberedAreBound(Flat(f), n);
  }

  lemma NumberedAreBound(values: seq<Value>, n: nat)
    ensures BoundFrom(NumberValues(values, n), n, values)
  {
  }

  /** The arguments are the values of the whole condition in reading order, folded away or not,
      and each placeholder that is left stands for its own. */
  lemma {:induction false} FoldPlacesArguments(schema: Schema, d: Dialect, c: Condition, n: nat)
    requires Fold(schema, d, c, n).Ok?
    ensures Denote(schema, d, c).Ok? && Fold(schema, d, c, n).value.args == Flat(Denote(schema, d, c).value)
    ensures Placed(Fold(schema, d, c, n).value.outcome, n, Fold(schema, d, c, n).value.args)
  {
    hide LeafFormula, Placed;
    match c
    case Logical(op, left, right) =>
      var l := Fold(schema, d, left, n).value;
      var r := Fold(schema, d, right, n + |l.args|).value;
      FoldPlacesArguments(schema, d, left, n);
      FoldPlacesArguments(schema, d, right, n + |l.args|);
      FlatPairs(Denote(schema, d, left).value, Denote(schema, d, right).value);
      PlacedPair(op, l.outcome, r.outcome, n, l.args, r.args);
    case NotCondition(e) =>
      FoldPlacesArguments(schema, d, e, n);
      PlacedNot(Fold(schema, d, e, n).value.outcome, n, Fold(schema, d, e, n).value.args);
    case Constant(_) =>
      PlacedConstant(Fold(schema, d, c, n).value.outcome, n);
    case _ => PlacedLeaf(LeafFormula(schema, d, c).value, n);
  }

  /** The truth value a condition has for its constants alone, if any. */
  function ConstantValue(c: Condition): Option<bool> {
    match c
    case Constant(b) => Some(b)
    case NotCondition(e) => (match ConstantValue(e) case None => None case Some(b) => Some(!b))
    case Logical(op, left, right) =>
      PairConstant(op, ConstantValue(left), ConstantValue(right))
    case _ => None
  }

  function PairConstant(op: LogicalOperator, l: Option<bool>, r: Option<bool>): Option<bool> {
    var absorbing := op == LogicalOr;  // TRUE decides an OR, FALSE an AND
    if l == Some(absorbing) || r == Some(absorbing) then Some(absorbing)
    else if l.Some? then r
    else if r.Some? then l
    else None
  }

  function OutcomeConstant(o: Outcome): Option<bool> {
    match o
    case Trivial => Some(true)
    case Unsatisfiable => Some(false)
    case Sql(_) => None
  }

  function FoldPairOf(op: LogicalOperator, l: Outcome, r: Outcome): Outcome {
    if op == LogicalAnd then FoldAnd(l, r) else FoldOr(l, r)
  }

  lemma PairIsConstant(op: LogicalOperator, l: Outcome, r: Outcome)
    ensures OutcomeConstant(FoldPairOf(op, l, r)) == PairConstant(op, OutcomeConstant(l), OutcomeConstant(r))
  {
  }

  lemma {:induction false} FoldIsConstant(schema: Schema, d: Dialect, c: Condition, n: nat)
    requires Fold(schema, d, c, n).Ok?
    ensures OutcomeConstant(Fold(schema, d, c, n).value.outcome) == ConstantValue(c)
  {
    hide LeafFormula;
    match c
    case Logical(op, left, right) =>
      var l := Fold(schema, d, left, n).value;
      var r := Fold(schema, d, right, n + |l.args|).value;
      FoldIsConstant(schema, d, left, n);
      FoldIsConstant(schema, d, right, n + |l.args|);
      PairIsConstant(op, l.outcome, r.outcome);
    case NotCondition(e) => FoldIsConstant(schema, d, e, n);
    case _ =>
  }

  /** No subtree that its constants decide binds an argument. */
  predicate NothingDropped(schema: Schema, d: Dialect, c: Condition)
    requires Denote(schema, d, c).Ok?
  {
    if ConstantValue(c).Some? then |Flat(Denote(schema, d, c).value)| == 0
    else match c
      case Logical(_, left, right) => NothingDropped(schema, d, left) && NothingDropped(schema, d, right)
      case NotCondition(e) => NothingDropped(schema, d, e)
      case _ => true
  }

  function Kept(o: Outcome): seq<Value> {
    if o.Sql? then ValuesAt(Flat(o.formula)) else []
  }

  /** The text has as many placeholders as there are arguments exactly when nothing was dropped,
      and then it lists them in the order of the arguments. */
  lemma {:induction false} KeptExactly(schema: Schema, d: Dialect, c: Condition, n: nat)
    requires Fold(schema, d, c, n).Ok? && Denote(schema, d, c).Ok?
    ensures var r := Fold(schema, d, c, n).value;
            KeepsAll(Kept(r.outcome), r.args, NothingDropped(schema, d, c))
  {
    hide LeafFormula, Flat, Placed;
    FoldPlacesArguments(schema, d, c, n);
    FoldIsConstant(schema, d, c, n);
    match c
    case Logical(op, left, right) =>
      var l := Fold(schema, d, left, n).value;
      KeptExactly(schema, d, left, n);
      KeptExactly(schema, d, right, n + |l.args|);
      var r := Fold(schema, d, right, n + |l.args|).value;
      KeptByPair(op, l.outcome, r.outcome, l.args, r.args, NothingDropped(schema, d, left), NothingDropped(schema, d, right));
    case NotCondition(e) =>
      KeptExactly(schema, d, e, n);
      KeptByNot(Fold(schema, d, e, n).value.outcome);
    case Constant(_) =>
    case _ => NumberKeepsValues(LeafFormula(schema, d, c).value, n);
  }

  /** Among `args` all are kept, or `kept` says which are missing. */
  ghost predicate KeepsAll(kept: seq<Value>, args: seq<Value>, all: bool) {
    |kept| <= |args| && (|kept| == |args| <==> all) && (all ==> kept == args)
  }

  lemma KeptByPair(op: LogicalOperator, l: Outcome, r: Outcome, largs: seq<Value>, rargs: seq<Value>, lall: bool, rall: bool)
    requires KeepsAll(Kept(l), largs, lall) && KeepsAll(Kept(r), rargs, rall)
    ensures var o := FoldPairOf(op, l, r);
            KeepsAll(Kept(o), largs + rargs, if o.Sql? then lall && rall else |largs + rargs| == 0)
  {
    if l.Sql? && r.Sql? {
      FlatPairs(l.formula, r.formula);
    }
  }

  lemma KeptByNot(o: Outcome)
    ensures Kept(FoldNot(o)) == Kept(o)
  {
  }

  /** Leaves and folding never build a one-member list, so the text shows every node. */
  lemma {:induction false} FoldHasNoSingleton(schema: Schema, d: Dialect, c: Condition, n: nat)
    requires Fold(schema, d, c, n).Ok? && Fold(schema, d, c, n).value.outcome.Sql?
    ensures NoSingleton(Fold(schema, d, c, n).value.outcome.formula)
  {
    hide LeafFormula;
    match c
    case Logical(op, left, right) =>
      var l := Fold(schema, d, left, n).value;
      var r := Fold(schema, d, right, n + |l.args|).value;
      if l.outcome.Sql? { FoldHasNoSingleton(schema, d, left, n); }
      if r.outcome.Sql? { FoldHasNoSingleton(schema, d, right, n + |l.args|); }
      if l.outcome.Sql? && r.outcome.Sql? { FlatPairs(l.outcome.formula, r.outcome.formula); }
    case NotCondition(e) => FoldHasNoSingleton(schema, d, e, n);
    case Constant(_) => assert false;
    case _ =>
      var f := LeafFormula(schema, d, c).value;
      LeafHasNoSingleton(schema, d, c);
      NumberKeepsValues(f, n);
  }

  lemma LeafHasNoSingleton(schema: Schema, d: Dialect, c: Condition)
    requires c.IsLeaf() && LeafFormula(schema, d, c).Ok?
    ensures NoSingleton(LeafFormula(schema, d, c).value)
  {
    hide ComparisonFormula, InFormula, ComprehensionFormula, ColumnExpr, QualifyColumn, JsonArrayExpr, JsonExtractExpr;
    match c
    case In(_, _) => InHasNoSingleton(schema, d, c);
    case ListComprehension(_, _) => ComprehensionHasNoSingleton(schema, d, c);
    case Comparison(_, _, _) => ComparisonIsPlain(schema, d, c);
    case _ =>
  }

  lemma InHasNoSingleton(schema: Schema, d: Dialect, c: Condition)
    requires c.In? && InFormula(schema, d, c).Ok?
    ensures NoSingleton(InFormula(schema, d, c).value)
  {
    hide TagFormulas, ColumnExpr;
    if c.element.name == "tag" {
      TagsHaveNoSingleton(d, ResolveAlias(schema, "tag").value, c.values);
    }
  }

  lemma ComprehensionHasNoSingleton(schema: Schema, d: Dialect, c: Condition)
    requires c.ListComprehension? && ComprehensionFormula(schema, d, c).Ok?
    ensures NoSingleton(ComprehensionFormula(schema, d, c).value)
  {
    hide TagPredicate, JsonArrayExpr, NoSingleton;
    var f := FieldOf(schema, c.field).value;
    PredicateHasNoSingleton(d, f, c.each);
    WrappedHasNoSingleton(d, TagPredicate(d, f, c.each), JsonArrayExpr(d, f));
  }

  lemma PredicateHasNoSingleton(d: Dialect, f: Field, p: PredicateExpr)
    ensures NoSingleton(TagPredicate(d, f, p))
  {
    if p.StartsWith? {
      FlatPairs(ExactTag(d, f, p.prefix), ArrayLikeFormula(d, f, "%\"" + p.prefix + "%"));
    }
  }

  lemma WrappedHasNoSingleton(d: Dialect, t: Formula<Value>, column: string)
    requires NoSingleton(t)
    ensures NoSingleton(All([t, Leaf(ArrayNotNull, column, "IS NOT NULL", []), Leaf(ArrayNotEmpty, column, "!=", [])]))
  {
    AllNoSingleton([t, Leaf(ArrayNotNull, column, "IS NOT NULL", []), Leaf(ArrayNotEmpty, column, "!=", [])]);
  }

  lemma TagsHaveNoSingleton(d: Dialect, f: Field, values: seq<ValueExpr>)
    requires AllStrings(values)
    ensures NoSingletons(TagFormulas(d, f, values))
    ensures |values| == 1 ==> NoSingleton(TagFormulas(d, f, values)[0])
  {
    var fs := TagFormulas(d, f, values);
    forall i | 0 <= i < |fs| ensures NoSingleton(fs[i]) {
      var s := StringOf(values[i]);
      FlatPairs(ElementFormula(d, f, s), ArrayLikeFormula(d, f, "%\"" + s + "/%"));
    }
    AllNoSingleton(fs);
  }

  /** One primary that is no IN list, or its negation. */
  predicate Plain<B>(f: Formula<B>) {
    match f
    case Atom(shape, _) => shape.Predicate? ==> shape.form != InList
    case Not(g) => g.Atom? && (g.shape.Predicate? ==> g.shape.form != InList)
    case _ => false
  }

  lemma ComparisonIsPlain(schema: Schema, d: Dialect, c: Condition)
    requires c.Comparison? && ComparisonFormula(schema, d, c).Ok?
    ensures Plain(ComparisonFormula(schema, d, c).value)
  {
    hide ColumnExpr, QualifyColumn, JsonArrayExpr, JsonExtractExpr;
  }

  lemma {:induction false} AllNoSingleton(fs: seq<Formula<Value>>)
    requires forall i :: 0 <= i < |fs| ==> NoSingleton(fs[i])
    ensures NoSingletons(fs)
  {
    if |fs| > 0 {
      AllNoSingleton(fs[1..]);
    }
  }

  /** No empty IN list outside the subtrees that constants decide, but for the scalar ones that
      SQLite takes. */
  predicate NoEmptyIn(d: Dialect, c: Condition) {
    ConstantValue(c).Some? ||
    match c
    case Logical(_, left, right) => NoEmptyIn(d, left) && NoEmptyIn(d, right)
    case NotCondition(e) => NoEmptyIn(d, e)
    case In(element, values) => |values| > 0 || (d == SQLite && element != FieldRef("tag"))
    case _ => true
  }

  lemma LeafIsReadable(schema: Schema, d: Dialect, c: Condition)
    requires c.IsLeaf() && LeafFormula(schema, d, c).Ok?
    ensures Readable(d, LeafFormula(schema, d, c).value) == NoEmptyIn(d, c)
  {
    hide ComparisonFormula, InFormula, ComprehensionFormula, ColumnExpr, QualifyColumn, JsonArrayExpr, JsonExtractExpr;
    match c
    case In(_, _) => InIsReadable(schema, d, c);
    case ListComprehension(_, _) => ComprehensionIsReadable(schema, d, c);
    case Comparison(_, _, _) => ComparisonIsPlain(schema, d, c);
    case _ =>
  }

  lemma InIsReadable(schema: Schema, d: Dialect, c: Condition)
    requires c.In? && InFormula(schema, d, c).Ok?
    ensures Readable(d, InFormula(schema, d, c).value) == NoEmptyIn(d, c)
  {
    hide TagFormulas, ColumnExpr;
    if c.element.name == "tag" {
      TagsAreReadable(d, ResolveAlias(schema, "tag").value, c.values);
    }
  }

  lemma ComprehensionIsReadable(schema: Schema, d: Dialect, c: Condition)
    requires c.ListComprehension? && ComprehensionFormula(schema, d, c).Ok?
    ensures Readable(d, ComprehensionFormula(schema, d, c).value)
  {
    hide TagPredicate, JsonArrayExpr, Readable;
    var f := FieldOf(schema, c.field).value;
    PredicateIsReadable(d, f, c.each);
    WrappedIsReadable(d, TagPredicate(d, f, c.each), JsonArrayExpr(d, f));
  }

  lemma PredicateIsReadable(d: Dialect, f: Field, p: PredicateExpr)
    ensures Readable(d, TagPredicate(d, f, p))
  {
    if p.StartsWith? {
      ReadablePair(d, ExactTag(d, f, p.prefix), ArrayLikeFormula(d, f, "%\"" + p.prefix + "%"));
    }
  }

  lemma WrappedIsReadable(d: Dialect, t: Formula<Value>, column: string)
    requires Readable(d, t)
    ensures Readable(d, All([t, Leaf(ArrayNotNull, column, "IS NOT NULL", []), Leaf(ArrayNotEmpty, column, "!=", [])]))
  {
    var p, q := Leaf(ArrayNotNull, column, "IS NOT NULL", []), Leaf(ArrayNotEmpty, column, "!=", []);
    ReadablePair(d, p, q);
    ReadableCons(d, t, [p, q]);
    assert [t] + [p, q] == [t, p, q];
  }

  lemma TagsAreReadable(d: Dialect, f: Field, values: seq<ValueExpr>)
    requires AllStrings(values)
    ensures Readables(d, TagFormulas(d, f, values))
    ensures |values| == 1 ==> Readable(d, TagFormulas(d, f, values)[0])
  {
    var fs := TagFormulas(d, f, values);
    forall i | 0 <= i < |fs| ensures Readable(d, fs[i]) {
      var s := StringOf(values[i]);
      ReadablePair(d, ElementFormula(d, f, s), ArrayLikeFormula(d, f, "%\"" + s + "/%"));
    }
    AllReadable(d, fs);
  }

  lemma {:induction false} AllReadable(d: Dialect, fs: seq<Formula<Value>>)
    requires forall i :: 0 <= i < |fs| ==> Readable(d, fs[i])
    ensures Readables(d, fs)
  {
    if |fs| > 0 {
      AllReadable(d, fs[1..]);
    }
  }

  /** The text of a filter is readable exactly when no empty IN list is left in it. */
  lemma {:induction false} FoldIsReadable(schema: Schema, d: Dialect, c: Condition, n: nat)
    requires Fold(schema, d, c, n).Ok? && Printed(Fold(schema, d, c, n).value.outcome).Some?
    ensures Readable(d, Printed(Fold(schema, d, c, n).value.outcome).value) == NoEmptyIn(d, c)
  {
    hide LeafFormula;
    FoldIsConstant(schema, d, c, n);
    match c
    case Logical(op, left, right) =>
      var l := Fold(schema, d, left, n).value;
      var r := Fold(schema, d, right, n + |l.args|).value;
      FoldIsConstant(schema, d, left, n);
      FoldIsConstant(schema, d, right, n + |l.args|);
      if l.outcome.Sql? { FoldIsReadable(schema, d, left, n); }
      if r.outcome.Sql? { FoldIsReadable(schema, d, right, n + |l.args|); }
      if l.outcome.Sql? && r.outcome.Sql? { ReadablePair(d, l.outcome.formula, r.outcome.formula); }
    case NotCondition(e) =>
      FoldIsConstant(schema, d, e, n);
      if Fold(schema, d, e, n).value.outcome.Sql? { FoldIsReadable(schema, d, e, n); }
    case Constant(_) =>
    case _ =>
      LeafIsReadable(schema, d, c);
      NumberKeepsReadable(d, LeafFormula(schema, d, c).value, n);
  }

  // Lists of filters.

  /** The WHERE clause under construction: fragments to be joined by AND, and the arguments. */
  datatype Clause = Clause(where: seq<seq<Token>>, args: seq<Value>)

  const CONTRADICTION: Formula<Bind> := Atom(Contradiction, [])
  const TAUTOLOGY: Formula<Bind> := Atom(Tautology, [])

  /** The condition a rendered statement prints; none for the empty statement. */
  function Printed(o: Outcome): Option<Formula<Bind>> {
    match o
    case Trivial => None
    case Unsatisfiable => Some(CONTRADICTION)
    case Sql(f) => Some(f)
  }

  function Fragment(d: Dialect, f: Formula<Bind>): seq<Token> {
    [LParen] + Print(Map(MarkOf(d), f)) + [RParen]
  }

  /** Compiles each filter in turn with the arguments so far as its placeholder offset. A filter
      that prints nothing leaves no arguments behind either; the first error stops the work. */
  function Append(schema: Schema, d: Dialect, filters: seq<Condition>, q: Clause): (Clause, bool) {
    if |filters| == 0 then (q, true)
    else match Fold(schema, d, filters[0], |q.args|)
      case Err(_) => (q, false)
      case Ok(r) => Append(schema, d, filters[1..], Extend(d, r, q))
  }

  function Extend(d: Dialect, r: Rendering, q: Clause): Clause {
    match Printed(r.outcome)
    case None => q
    case Some(f) => Clause(q.where + [Fragment(d, f)], q.args + r.args)
  }

  /** The conditions whose fragments Append adds. */
  function Appended(schema: Schema, d: Dialect, filters: seq<Condition>, n: nat): seq<Formula<Bind>> {
    if |filters| == 0 then []
    else match Fold(schema, d, filters[0], n)
      case Err(_) => []
      case Ok(r) =>
        match Printed(r.outcome)
        case None => Appended(schema, d, filters[1..], n)
        case Some(f) => [f] + Appended(schema, d, filters[1..], n + |r.args|)
  }

  function Fragments(d: Dialect, fs: seq<Formula<Bind>>): (r: seq<seq<Token>>)
    ensures |r| == |fs|
  {
    seq(|fs|, i requires 0 <= i < |fs| => Fragment(d, fs[i]))
  }

  ghost predicate AllValid(schema: Schema, d: Dialect, filters: seq<Condition>) {
    forall i :: 0 <= i < |filters| ==> Denote(schema, d, filters[i]).Ok?
  }

  /** `strings.Join(where, " AND ")`. */
  function JoinAnd(where: seq<seq<Token>>): seq<Token> {
    if |where| == 0 then [] else if |where| == 1 then where[0] else where[0] + [AndWord] + JoinAnd(where[1..])
  }

  lemma {:induction false} AppendAddsFragments(schema: Schema, d: Dialect, filters: seq<Condition>, q: Clause)
    requires AllValid(schema, d, filters)
    ensures var (r, ok) := Append(schema, d, filters, q);
            ok && r.where == q.where + Fragments(d, Appended(schema, d, filters, |q.args|)) && q.args <= r.args
  {
    hide Fold, Denote;
    if |filters| > 0 {
      FoldPreservesMeaning(schema, d, filters[0], |q.args|, (s, v) => Unknown);
      var r := Fold(schema, d, filters[0], |q.args|).value;
      AppendAddsFragments(schema, d, filters[1..], Extend(d, r, q));
      match Printed(r.outcome)
      case None =>
      case Some(f) =>
        var rest := Appended(schema, d, filters[1..], |q.args| + |r.args|);
        assert Fragments(d, [f] + rest) == [Fragment(d, f)] + Fragments(d, rest);
    } else {
      assert Fragments(d, []) == [];
    }
  }

  /** The text prints the condition as one unit for the reader, whatever follows it. */
  ghost predicate IsUnit(d: Dialect, text: seq<Token>, f: Formula<Bind>) {
    forall rest :: ReadNot(d, text + rest) == if Readable(d, f) then Read(Map(MarkOf(d), f), rest) else Error
  }

  lemma FragmentIsUnit(d: Dialect, f: Formula<Bind>)
    requires NoSingleton(f)
    ensures IsUnit(d, Fragment(d, f), f)
  {
    var m := Map(MarkOf(d), f);
    MapKeepsForm(MarkOf(d), f);
    MapKeepsReadable(d, MarkOf(d), f);
    forall rest ensures ReadNot(d, Fragment(d, f) + rest) == if Readable(d, f) then Read(m, rest) else Error {
      ReadPrinted(d, m, [RParen] + rest);
      ReadUnit(d, Print(m) + ([RParen] + rest));
      ReadBracketed(d, Print(m), rest, m);
    }
  }

  lemma PrintIsUnit(d: Dialect, f: Formula<Bind>)
    requires NoSingleton(f)
    ensures IsUnit(d, Print(Map(MarkOf(d), f)), f)
  {
    var m := Map(MarkOf(d), f);
    MapKeepsForm(MarkOf(d), f);
    MapKeepsReadable(d, MarkOf(d), f);
    forall rest ensures ReadNot(d, Print(m) + rest) == if Readable(d, f) then Read(m, rest) else Error {
      ReadPrinted(d, m, rest);
    }
  }

  lemma UnitReads(d: Dialect, text: seq<Token>, f: Formula<Bind>, rest: seq<Token>)
    requires IsUnit(d, text, f)
    ensures ReadNot(d, text + rest) == if Readable(d, f) then Read(Map(MarkOf(d), f), rest) else Error
  {
  }

  ghost predicate AreUnits(d: Dialect, texts: seq<seq<Token>>, fs: seq<Formula<Bind>>) {
    |texts| == |fs| && forall i :: 0 <= i < |fs| ==> IsUnit(d, texts[i], fs[i])
  }

  lemma {:induction false} ReadJoined(d: Dialect, texts: seq<seq<Token>>, fs: seq<Formula<Bind>>)
    requires |fs| > 0 && AreUnits(d, texts, fs)
    ensures ReadAndList(d, JoinAnd(texts)) == if Readables(d, fs) then Read(MapList(MarkOf(d), fs), []) else Error
  {
    hide Print, Readable, Map, IsUnit, MarkOf, ReadNot;
    var f, rest, g := fs[0], fs[1..], MarkOf(d);
    assert fs == [f] + rest;
    ReadableCons(d, f, rest);
    ConsList(g, f, rest);
    if |fs| == 1 {
      var text := texts[0];
      UnitReads(d, text, f, []);
      assert text + [] == text == JoinAnd(texts);
      assert |rest| == 0 && Readables(d, rest) && MapList(g, fs) == [Map(g, f)];
      assert Readable(d, f) ==> ReadAndList(d, text) == Read([Map(g, f)], []);
    } else {
      var tail := JoinAnd(texts[1..]);
      ReadJoined(d, texts[1..], rest);
      assert JoinAnd(texts) == texts[0] + ([AndWord] + tail);
      UnitReads(d, texts[0], f, [AndWord] + tail);
      assert ([AndWord] + tail)[1..] == tail;
    }
  }

  /** The condition of a whole WHERE clause. */
  function WhereFormula(fs: seq<Formula<Bind>>): Formula<Bind>
    requires |fs| > 0
  {
    if |fs| == 1 then fs[0] else All(fs)
  }

  lemma ReadWhereClause(d: Dialect, texts: seq<seq<Token>>, fs: seq<Formula<Bind>>)
    requires |fs| > 0 && AreUnits(d, texts, fs)
    ensures ReadBack(d, JoinAnd(texts)) ==
            if Readables(d, fs) then Some(Map(MarkOf(d), WhereFormula(fs))) else None
  {
    hide AreUnits, JoinAnd, Readables, ReadBack, ReadAndList;
    ReadJoined(d, texts, fs);
    WholeText(d, JoinAnd(texts));
    assert Map(MarkOf(d), All(fs)) == All(MapList(MarkOf(d), fs));
  }

  lemma WholeText(d: Dialect, text: seq<Token>)
    requires ReadAndList(d, text).Read? ==> ReadAndList(d, text).rest == []
    ensures ReadBack(d, text) == match ReadAndList(d, text)
                                 case Error => None
                                 case Read(fs, _) => Some(if |fs| == 1 then fs[0] else All(fs))
  {
    hide ReadAndList;
    var r := ReadAndList(d, text);
    if r.Read? {
      var f := if |r.value| == 1 then r.value[0] else All(r.value);
      assert ReadAnd(d, text) == Read(f, []);
      assert ReadOrList(d, text) == Read([f], []);
    } else {
      assert ReadAnd(d, text) == Error;
      assert ReadOrList(d, text) == Error;
    }
  }

  ghost predicate Holds(schema: Schema, d: Dialect, filters: seq<Condition>, row: Row)
    requires AllValid(schema, d, filters)
  {
    forall i :: 0 <= i < |filters| ==> Eval(Denote(schema, d, filters[i]).value, row) == True
  }

  /** The appended conditions are all TRUE on a row exactly when every filter is, whether or not
      a filter printed anything. */
  lemma {:induction false} AppendedMeaning(schema: Schema, d: Dialect, filters: seq<Condition>, n: nat, row: Row)
    requires AllValid(schema, d, filters)
    ensures EvalAll(MapList(ValueOf(), Appended(schema, d, filters, n)), row) == True <==> Holds(schema, d, filters, row)
  {
    hide Fold, Denote, Eval, Map, OutcomeTruth;
    if |filters| > 0 {
      var c := filters[0];
      FoldPreservesMeaning(schema, d, c, n, row);
      var r := Fold(schema, d, c, n).value;
      PrintedTruth(r.outcome, row);
      var m := if Printed(r.outcome).None? then n else n + |r.args|;
      AppendedMeaning(schema, d, filters[1..], m, row);
      var rest := Appended(schema, d, filters[1..], m);
      assert Holds(schema, d, filters, row) <==>
             Eval(Denote(schema, d, c).value, row) == True && Holds(schema, d, filters[1..], row);
      if Printed(r.outcome).Some? {
        var f := Printed(r.outcome).value;
        ConsList(ValueOf(), f, rest);
      }
    }
  }

  lemma PrintedTruth(o: Outcome, row: Row)
    ensures OutcomeTruth(o, row) == match Printed(o) case None => True case Some(f) => Eval(Map(ValueOf(), f), row)
  {
  }

  /** The appended placeholders stand, in order, for their values in the final argument vector. */
  lemma {:induction false} AppendedPlaces(schema: Schema, d: Dialect, filters: seq<Condition>, q: Clause)
    requires AllValid(schema, d, filters)
    ensures var args := Append(schema, d, filters, q).0.args;
            q.args <= args && BoundFrom(FlatList(Appended(schema, d, filters, |q.args|)), |q.args|, args[|q.args|..])
    ensures NoSingletons(Appended(schema, d, filters, |q.args|))
  {
    hide Fold, Denote, BoundFrom, Fragment, Flat, NoSingleton;
    var n := |q.args|;
    AppendAddsFragments(schema, d, filters, q);
    if |filters| == 0 {
      NothingBound(n, q.args[n..]);
    } else {
      FoldPreservesMeaning(schema, d, filters[0], n, (s, v) => Unknown);
      var r := Fold(schema, d, filters[0], n).value;
      var next := Extend(d, r, q);
      AppendedPlaces(schema, d, filters[1..], next);
      if Printed(r.outcome).Some? {
        PrintedPlaces(schema, d, filters[0], n);
        var f := Printed(r.outcome).value;
        var rest := Appended(schema, d, filters[1..], n + |r.args|);
        var args := Append(schema, d, filters[1..], next).0.args;
        ConsList(ValueOf(), f, rest);
        BoundPair(Flat(f), FlatList(rest), n, r.args, args[n + |r.args|..]);
        assert args[n..] == r.args + args[n + |r.args|..];
      }
    }
  }

  lemma PrintedPlaces(schema: Schema, d: Dialect, c: Condition, n: nat)
    requires Fold(schema, d, c, n).Ok? && Printed(Fold(schema, d, c, n).value.outcome).Some?
    ensures var r := Fold(schema, d, c, n).value;
            BoundFrom(Flat(Printed(r.outcome).value), n, r.args) && NoSingleton(Printed(r.outcome).value)
  {
    FoldPlacesArguments(schema, d, c, n);
    if Fold(schema, d, c, n).value.outcome.Sql? {
      FoldHasNoSingleton(schema, d, c, n);
    }
  }

  lemma {:induction false} AppendedIsReadable(schema: Schema, d: Dialect, filters: seq<Condition>, n: nat)
    requires AllValid(schema, d, filters)
    ensures Readables(d, Appended(schema, d, filters, n)) <==> NoEmptyIns(d, filters)
  {
    hide Fold, Denote, NoEmptyIn, Readable;
    if |filters| > 0 {
      var c := filters[0];
      FoldPreservesMeaning(schema, d, c, n, (s, v) => Unknown);
      var r := Fold(schema, d, c, n).value;
      assert NoEmptyIns(d, filters) <==> NoEmptyIn(d, c) && NoEmptyIns(d, filters[1..]);
      if Printed(r.outcome).Some? {
        FoldIsReadable(schema, d, c, n);
        AppendedIsReadable(schema, d, filters[1..], n + |r.args|);
        ReadableCons(d, Printed(r.outcome).value, Appended(schema, d, filters[1..], n + |r.args|));
      } else {
        FoldIsConstant(schema, d, c, n);
        ConstantHasNoIn(d, c);
        AppendedIsReadable(schema, d, filters[1..], n);
      }
    }
  }

  lemma ConstantHasNoIn(d: Dialect, c: Condition)
    requires ConstantValue(c).Some?
    ensures NoEmptyIn(d, c)
  {
  }

  ghost predicate NoEmptyIns(d: Dialect, filters: seq<Condition>) {
    forall i :: 0 <= i < |filters| ==> NoEmptyIn(d, filters[i])
  }

  /** No filter but a trivially true one lost arguments to folding. */
  ghost predicate Aligned(schema: Schema, d: Dialect, filters: seq<Condition>)
    requires AllValid(schema, d, filters)
  {
    forall i :: 0 <= i < |filters| ==>
      ConstantValue(filters[i]) == Some(true) || NothingDropped(schema, d, filters[i])
  }

  lemma KeptStep(o: Outcome, f: Formula<Bind>, rest: seq<Formula<Bind>>)
    requires Printed(o) == Some(f)
    ensures ValuesAt(FlatList([f] + rest)) == Kept(o) + ValuesAt(FlatList(rest))
  {
    ConsList(ValueOf(), f, rest);
  }

  lemma AlignedStep(schema: Schema, d: Dialect, filters: seq<Condition>)
    requires |filters| > 0 && AllValid(schema, d, filters)
    ensures Aligned(schema, d, filters) <==>
            && (ConstantValue(filters[0]) == Some(true) || NothingDropped(schema, d, filters[0]))
            && Aligned(schema, d, filters[1..])
  {
    hide ConstantValue, NothingDropped;
  }

  /** The arguments and the placeholders of the appended conditions, counted and listed. */
  ghost predicate Keeps(before: seq<Value>, args: seq<Value>, kept: seq<Value>, aligned: bool) {
    && |kept| + |before| <= |args|
    && (|kept| + |before| == |args| <==> aligned)
    && (aligned ==> args == before + kept)
  }

  lemma KeepsStep(before: seq<Value>, bound: seq<Value>, keptHere: seq<Value>, here: bool,
                  args: seq<Value>, keptLater: seq<Value>, later: bool)
    requires |keptHere| <= |bound| && (|keptHere| == |bound| <==> here) && (here ==> keptHere == bound)
    requires Keeps(before + bound, args, keptLater, later)
    ensures Keeps(before, args, keptHere + keptLater, here && later)
  {
  }

  lemma {:induction false} AppendedKeeps(schema: Schema, d: Dialect, filters: seq<Condition>, q: Clause)
    requires AllValid(schema, d, filters)
    ensures Keeps(q.args, Append(schema, d, filters, q).0.args,
                  ValuesAt(FlatList(Appended(schema, d, filters, |q.args|))), Aligned(schema, d, filters))
  {
    hide Fold, Denote, NothingDropped, ConstantValue, Aligned, Keeps, ValuesAt, FlatList, Fragment;
    if |filters| > 0 {
      var n, c := |q.args|, filters[0];
      FoldPreservesMeaning(schema, d, c, n, (s, v) => Unknown);
      var r := Fold(schema, d, c, n).value;
      var next := Extend(d, r, q);
      KeptExactly(schema, d, c, n);
      FoldIsConstant(schema, d, c, n);
      AlignedStep(schema, d, filters);
      AppendedKeeps(schema, d, filters[1..], next);
      if Printed(r.outcome).Some? {
        var f := Printed(r.outcome).value;
        var rest := Appended(schema, d, filters[1..], n + |r.args|);
        KeptStep(r.outcome, f, rest);
        KeepsStep(q.args, r.args, Kept(r.outcome), NothingDropped(schema, d, c),
                  Append(schema, d, filters[1..], next).0.args, ValuesAt(FlatList(rest)),
                  Aligned(schema, d, filters[1..]));
      }
    } else {
      assert filters == [];
      NothingKept(schema, d, q.args);
    }
  }

  lemma NothingKept(schema: Schema, d: Dialect, args: seq<Value>)
    ensures Keeps(args, args, ValuesAt(FlatList([])), Aligned(schema, d, []))
  {
  }

  /** The condition that a finished clause denotes, if its text can be read and fits its arguments. */
  function Run(d: Dialect, q: Clause): Option<Formula<Value>> {
    match ReadBack(d, JoinAnd(q.where))
    case None => None
    case Some(f) => Execute(d, f, q.args)
  }

  /** What callers start from: conditions printed one by one, whose placeholders take the
      arguments in order, such as `1 = 1` and a few comparisons. */
  ghost predicate Prior(d: Dialect, before: seq<Formula<Bind>>, q: Clause) {
    && |before| > 0 && |q.where| == |before| && NoSingletons(before) && Readables(d, before)
    && (forall i :: 0 <= i < |before| ==> q.where[i] == Print(Map(MarkOf(d), before[i])))
    && FlatList(before) == NumberValues(q.args, 0)
  }

  const NO_CONDITION := Clause([[Primary(Tautology, [])]], [])

  lemma NoConditionIsPrior(d: Dialect)
    ensures Prior(d, [TAUTOLOGY], NO_CONDITION)
    ensures forall row :: EvalAll(MapList(ValueOf(), [TAUTOLOGY]), row) == True
  {
    assert Map(MarkOf(d), TAUTOLOGY).binds == [];
    assert Map(ValueOf(), TAUTOLOGY).binds == [];
    OneMember(TAUTOLOGY);
    ConsList(ValueOf(), TAUTOLOGY, []);
    assert [TAUTOLOGY] + [] == [TAUTOLOGY];
  }

  lemma {:induction false} NoSingletonAt<B>(fs: seq<Formula<B>>, i: nat)
    requires i < |fs| && NoSingletons(fs)
    ensures NoSingleton(fs[i])
  {
    if i > 0 {
      NoSingletonAt(fs[1..], i - 1);
    }
  }

  lemma ClauseTexts(d: Dialect, before: seq<Formula<Bind>>, q: Clause, fs: seq<Formula<Bind>>)
    requires Prior(d, before, q) && NoSingletons(fs)
    ensures AreUnits(d, q.where + Fragments(d, fs), before + fs)
  {
    hide IsUnit, NoSingleton, Fragment, Print;
    var texts, all := q.where + Fragments(d, fs), before + fs;
    forall i | 0 <= i < |all| ensures IsUnit(d, texts[i], all[i]) {
      if i < |before| {
        NoSingletonAt(before, i);
        PrintIsUnit(d, before[i]);
      } else {
        NoSingletonAt(fs, i - |before|);
        FragmentIsUnit(d, fs[i - |before|]);
      }
    }
  }

  lemma {:induction false} FlatListAppends<A>(a: seq<Formula<A>>, b: seq<Formula<A>>)
    ensures FlatList(a + b) == FlatList(a) + FlatList(b)
  {
    hide Flat;
    if |a| == 0 {
      assert a + b == b;
    } else {
      FlatListAppends(a[1..], b);
      var all := a + b;
      assert all[0] == a[0] && all[1..] == a[1..] + b;
      assert FlatList(all) == Flat(all[0]) + FlatList(all[1..]);
    }
  }

  lemma {:induction false} MapListAppends<A, B>(g: A -> B, a: seq<Formula<A>>, b: seq<Formula<A>>)
    ensures MapList(g, a + b) == MapList(g, a) + MapList(g, b)
  {
    hide Map;
    if |a| == 0 {
      assert a + b == b;
    } else {
      MapListAppends(g, a[1..], b);
      assert (a + b)[0] == a[0] && (a + b)[1..] == a[1..] + b;
    }
  }

  lemma {:induction false} ReadablesAppend<A>(d: Dialect, a: seq<Formula<A>>, b: seq<Formula<A>>)
    ensures Readables(d, a + b) == (Readables(d, a) && Readables(d, b))
  {
    hide Readable;
    if |a| == 0 {
      assert a + b == b;
    } else {
      ReadablesAppend(d, a[1..], b);
      assert (a + b)[0] == a[0] && (a + b)[1..] == a[1..] + b;
    }
  }

  lemma {:induction false} EvalAllAppends(a: seq<Formula<Value>>, b: seq<Formula<Value>>, row: Row)
    ensures EvalAll(a + b, row) == True <==> EvalAll(a, row) == True && EvalAll(b, row) == True
  {
    hide Eval;
    if |a| == 0 {
      assert a + b == b;
    } else {
      EvalAllAppends(a[1..], b, row);
      assert (a + b)[0] == a[0] && (a + b)[1..] == a[1..] + b;
    }
  }

  lemma WhereFormulaIs(fs: seq<Formula<Bind>>, row: Row)
    requires |fs| > 0
    ensures Flat(WhereFormula(fs)) == FlatList(fs)
    ensures Eval(Map(ValueOf(), WhereFormula(fs)), row) == True <==> EvalAll(MapList(ValueOf(), fs), row) == True
  {
    if |fs| == 1 {
      assert fs == [fs[0]];
      OneMember(fs[0]);
      var m := MapList(ValueOf(), fs);
      assert m[1..] == [] && EvalAll(m, row) == And3(Eval(m[0], row), EvalAll(m[1..], row));
    }
  }

  lemma ClauseIsBound(before: seq<Value>, binds: seq<Bind>, args: seq<Value>)
    requires before <= args && BoundFrom(binds, |before|, args[|before|..])
    ensures Bound(NumberValues(before, 0) + binds, args)
  {
  }

  /** The clause built from a list of filters behind a prior clause keeps a row exactly when the
      prior clause and every filter are TRUE on it. Its text can be read exactly when no empty IN
      list is left in a filter, and it fits its arguments exactly when no filter that prints lost
      an argument to folding. */
  lemma FiltersSelectRows(schema: Schema, d: Dialect, filters: seq<Condition>, before: seq<Formula<Bind>>, prior: Clause, row: Row)
    requires AllValid(schema, d, filters) && Prior(d, before, prior)
    ensures var (q, ok) := Append(schema, d, filters, prior);
            && ok
            && (ReadBack(d, JoinAnd(q.where)).Some? <==> NoEmptyIns(d, filters))
            && (Run(d, q).Some? <==> NoEmptyIns(d, filters) && Aligned(schema, d, filters))
            && (Run(d, q).Some? ==>
                  (Eval(Run(d, q).value, row) == True <==>
                   EvalAll(MapList(ValueOf(), before), row) == True && Holds(schema, d, filters, row)))
  {
    hide Fold, Denote, Append, Appended, Fragments, NoEmptyIns, Aligned, Holds, Readables, NoSingletons, Bound, BoundFrom;
    hide WhereFormula, Flat, FlatList, Map, MapList, Eval, EvalAll, Execute, AreUnits, AllValid, JoinAnd;
    var n := |prior.args|;
    var q := Append(schema, d, filters, prior).0;
    var fs := Appended(schema, d, filters, n);
    var all := before + fs;
    AppendAddsFragments(schema, d, filters, prior);
    AppendedPlaces(schema, d, filters, prior);
    AppendedIsReadable(schema, d, filters, n);
    AppendedKeeps(schema, d, filters, prior);
    AppendedMeaning(schema, d, filters, n, row);
    ClauseTexts(d, before, prior, fs);
    ReadWhereClause(d, q.where, all);
    FlatListAppends(before, fs);
    MapListAppends(ValueOf(), before, fs);
    ReadablesAppend(d, before, fs);
    ClauseIsBound(prior.args, FlatList(fs), q.args);
    WhereFormulaIs(all, row);
    Execution(d, WhereFormula(all), q.args);
    EvalAllAppends(MapList(ValueOf(), before), MapList(ValueOf(), fs), row);
  }
}
