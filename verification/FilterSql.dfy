/** SQL search conditions: three-valued meaning, text as tokens, and how a reader with SQL's
    operator precedence and a driver with an argument vector understand that text. */
module FilterSql {
  import opened Results

  // Three-valued logic: section 8.12 <search condition> of ISO/IEC 9075:1992.

  datatype Truth = True | False | Unknown

  function And3(a: Truth, b: Truth): Truth {
    if a.False? || b.False? then False else if a.True? && b.True? then True else Unknown
  }

  function Or3(a: Truth, b: Truth): Truth {
    if a.True? || b.True? then True else if a.False? && b.False? then False else Unknown
  }

  function Not3(a: Truth): Truth {
    match a case True => False case False => True case Unknown => Unknown
  }

  datatype Value = Str(s: string) | Int(i: int) | Bool(b: bool)

  /** The SQL forms a leaf renders to; each is one boolean primary with bound values.
      `column` and the operator text identify the fragment, `form` the template around them. */
  datatype Shape =
    | Tautology      // 1 = 1
    | Contradiction  // 1 = 0
    | Predicate(form: Form, column: string, operator: string)

  datatype Form =
    | ColumnIsTrue | JsonIsTrue | ColumnCompare | ScalarCompare | IsNull | IsNotNull
    | JsonLiteralCompare(target: bool) | JsonBoolCompare | SizeCompare
    | InList | ArrayLike | ArrayContains | ContainsLike | ArrayNotNull | ArrayNotEmpty

  /** A search condition whose leaves carry values, placeholders, or values with the place
      they were bound at. */
  datatype Formula<+B> =
    | Atom(shape: Shape, binds: seq<B>)
    | Not(negated: Formula<B>)
    | All(conjuncts: seq<Formula<B>>)
    | Any(disjuncts: seq<Formula<B>>)

  /** The truth of each primary on one row, given the values bound to its placeholders. */
  type Row = (Shape, seq<Value>) -> Truth

  function Eval(f: Formula<Value>, row: Row): Truth
    decreases f, 1
  {
    match f
    case Atom(Tautology, _) => True
    case Atom(Contradiction, _) => False
    case Atom(shape, values) => row(shape, values)
    case Not(g) => Not3(Eval(g, row))
    case All(fs) => EvalAll(fs, row)
    case Any(fs) => EvalAny(fs, row)
  }

  function EvalAll(fs: seq<Formula<Value>>, row: Row): Truth
    decreases fs, 0
  {
    if fs == [] then True else And3(Eval(fs[0], row), EvalAll(fs[1..], row))
  }

  function EvalAny(fs: seq<Formula<Value>>, row: Row): Truth
    decreases fs, 0
  {
    if fs == [] then False else Or3(Eval(fs[0], row), EvalAny(fs[1..], row))
  }

  // Text.

  datatype Mark = Question | Dollar(k: nat)

  datatype Token = LParen | RParen | AndWord | OrWord | NotWord | Primary(shape: Shape, marks: seq<Mark>)

  function Print(f: Formula<Mark>): (text: seq<Token>)
    ensures |text| > 0
    decreases f, 1
  {
    match f
    case Atom(shape, marks) => [Primary(shape, marks)]
    case Not(g) => [NotWord, LParen] + Print(g) + [RParen]
    case All(fs) => [LParen] + Join(fs, AndWord) + [RParen]
    case Any(fs) => [LParen] + Join(fs, OrWord) + [RParen]
  }

  function Join(fs: seq<Formula<Mark>>, separator: Token): seq<Token>
    decreases fs, 0
  {
    if fs == [] then []
    else if |fs| == 1 then Print(fs[0])
    else Print(fs[0]) + [separator] + Join(fs[1..], separator)
  }

  // Reading text back: NOT binds tighter than AND, AND tighter than OR.

  datatype Reading<+T> = Error | Read(value: T, rest: seq<Token>)

  function ReadOr(d: Dialect, text: seq<Token>): (r: Reading<Formula<Mark>>)
    ensures r.Read? ==> |r.rest| < |text|
    decreases |text|, 5
  {
    match ReadOrList(d, text)
    case Error => Error
    case Read(fs, rest) => Read(if |fs| == 1 then fs[0] else Any(fs), rest)
  }

  function ReadOrList(d: Dialect, text: seq<Token>): (r: Reading<seq<Formula<Mark>>>)
    ensures r.Read? ==> |r.rest| < |text| && |r.value| > 0
    decreases |text|, 4
  {
    match ReadAnd(d, text)
    case Error => Error
    case Read(f, rest) =>
      if rest == [] || rest[0] != OrWord then Read([f], rest)
      else match ReadOrList(d, rest[1..])
           case Error => Error
           case Read(fs, more) => Read([f] + fs, more)
  }

  function ReadAnd(d: Dialect, text: seq<Token>): (r: Reading<Formula<Mark>>)
    ensures r.Read? ==> |r.rest| < |text|
    decreases |text|, 3
  {
    match ReadAndList(d, text)
    case Error => Error
    case Read(fs, rest) => Read(if |fs| == 1 then fs[0] else All(fs), rest)
  }

  function ReadAndList(d: Dialect, text: seq<Token>): (r: Reading<seq<Formula<Mark>>>)
    ensures r.Read? ==> |r.rest| < |text| && |r.value| > 0
    decreases |text|, 2
  {
    match ReadNot(d, text)
    case Error => Error
    case Read(f, rest) =>
      if rest == [] || rest[0] != AndWord then Read([f], rest)
      else match ReadAndList(d, rest[1..])
           case Error => Error
           case Read(fs, more) => Read([f] + fs, more)
  }

  function ReadNot(d: Dialect, text: seq<Token>): (r: Reading<Formula<Mark>>)
    ensures r.Read? ==> |r.rest| < |text|
    decreases |text|, 1
  {
    if text == [] then Error
    else if text[0] == NotWord then
      match ReadNot(d, text[1..])
      case Error => Error
      case Read(f, rest) => Read(Not(f), rest)
    else ReadPrimary(d, text)
  }

  function ReadPrimary(d: Dialect, text: seq<Token>): (r: Reading<Formula<Mark>>)
    requires text != []
    ensures r.Read? ==> |r.rest| < |text|
    decreases |text|, 0
  {
    match text[0]
    case Primary(shape, marks) => if Takes(d, shape, |marks|) then Read(Atom(shape, marks), text[1..]) else Error
    case LParen =>
      (match ReadOr(d, text[1..])
       case Error => Error
       case Read(f, rest) => if rest != [] && rest[0] == RParen then Read(f, rest[1..]) else Error)
    case _ => Error
  }

  /** The condition a whole text denotes, if it is one. */
  function ReadBack(d: Dialect, text: seq<Token>): Option<Formula<Mark>> {
    match ReadOr(d, text)
    case Error => None
    case Read(f, rest) => if rest == [] then Some(f) else None
  }

  /** No conjunction or disjunction of a single member, which would print like that member. */
  predicate NoSingleton<B>(f: Formula<B>)
    decreases f, 1
  {
    match f
    case Atom(_, _) => true
    case Not(g) => NoSingleton(g)
    case All(fs) => |fs| != 1 && NoSingletons(fs)
    case Any(fs) => |fs| != 1 && NoSingletons(fs)
  }

  predicate NoSingletons<B>(fs: seq<Formula<B>>)
    decreases fs, 0
  {
    |fs| == 0 || (NoSingleton(fs[0]) && NoSingletons(fs[1..]))
  }

  /** Only SQLite takes `IN ()`. */
  predicate Takes(d: Dialect, shape: Shape, values: nat) {
    shape.Predicate? && shape.form == InList && values == 0 ==> d == SQLite
  }

  /** No conjunction or disjunction without members, which would print as `()`, and no empty IN
      list that the dialect does not take. */
  predicate Readable<B>(d: Dialect, f: Formula<B>)
    decreases f, 1
  {
    match f
    case Atom(shape, binds) => Takes(d, shape, |binds|)
    case Not(g) => Readable(d, g)
    case All(fs) => |fs| > 0 && Readables(d, fs)
    case Any(fs) => |fs| > 0 && Readables(d, fs)
  }

  predicate Readables<B>(d: Dialect, fs: seq<Formula<B>>)
    decreases fs, 0
  {
    |fs| == 0 || (Readable(d, fs[0]) && Readables(d, fs[1..]))
  }

  predicate AtEnd(rest: seq<Token>) {
    rest == [] || rest[0] == RParen
  }

  lemma ReadUnit(d: Dialect, text: seq<Token>)
    requires ReadNot(d, text).Read? ==> AtEnd(ReadNot(d, text).rest)
    ensures ReadAnd(d, text) == ReadNot(d, text) && ReadOr(d, text) == ReadNot(d, text)
  {
    assert ReadNot(d, text).Error? ==> ReadAndList(d, text).Error?;
    assert ReadAnd(d, text) == ReadNot(d, text);
  }

  lemma ReadBracketed(d: Dialect, inner: seq<Token>, rest: seq<Token>, f: Formula<Mark>)
    requires ReadOr(d, inner + ([RParen] + rest)) in {Read(f, [RParen] + rest), Error}
    ensures ReadNot(d, [LParen] + inner + [RParen] + rest) ==
            if ReadOr(d, inner + ([RParen] + rest)).Read? then Read(f, rest) else Error
  {
    var text := [LParen] + inner + [RParen] + rest;
    assert text[1..] == inner + ([RParen] + rest);
    assert ReadNot(d, text) == ReadPrimary(d, text);
  }

  /** A condition that is not followed by AND is a whole conjunction. */
  lemma ReadLast(d: Dialect, f: Formula<Mark>, rest: seq<Token>)
    requires ReadNot(d, Print(f) + rest) == Read(f, rest) || ReadNot(d, Print(f) + rest) == Error
    requires rest == [] || rest[0] != AndWord
    ensures ReadAnd(d, Print(f) + rest) == ReadNot(d, Print(f) + rest)
  {
    assert ReadNot(d, Print(f) + rest).Error? ==> ReadAndList(d, Print(f) + rest).Error?;
  }

  /** A printed condition is one unit for the reader, whatever follows it. */
  lemma {:induction false} ReadPrinted(d: Dialect, f: Formula<Mark>, rest: seq<Token>)
    requires NoSingleton(f)
    ensures ReadNot(d, Print(f) + rest) == if Readable(d, f) then Read(f, rest) else Error
    decreases f, 1
  {
    var text := Print(f) + rest;
    match f
    case Atom(shape, marks) =>
    case Not(g) =>
      ReadPrinted(d, g, [RParen] + rest);
      ReadUnit(d, Print(g) + ([RParen] + rest));
      ReadBracketed(d, Print(g), rest, g);
      assert text[1..] == [LParen] + Print(g) + [RParen] + rest;
    case All(fs) =>
      ReadPrintedList(d, fs, AndWord, rest);
      ReadBracketed(d, Join(fs, AndWord), rest, f);
    case Any(fs) =>
      ReadPrintedList(d, fs, OrWord, rest);
      ReadBracketed(d, Join(fs, OrWord), rest, f);
  }

  /** ... and so is a bracketed list of conditions joined by AND or OR. */
  lemma {:induction false} ReadPrintedList(d: Dialect, fs: seq<Formula<Mark>>, separator: Token, rest: seq<Token>)
    requires separator == AndWord || separator == OrWord
    requires |fs| != 1 && NoSingletons(fs)
    ensures ReadOr(d, Join(fs, separator) + ([RParen] + rest)) ==
            if fs != [] && Readables(d, fs)
            then Read(if separator == AndWord then All(fs) else Any(fs), [RParen] + rest) else Error
    decreases fs, 2
  {
    var text := Join(fs, separator) + ([RParen] + rest);
    if fs == [] {
      assert text == [RParen] + rest;
      ReadUnit(d, text);
    } else if separator == AndWord {
      ReadConjuncts(d, fs, [RParen] + rest);
      assert ReadAnd(d, text) == if ReadAndList(d, text).Read? then Read(All(fs), [RParen] + rest) else Error;
    } else {
      ReadDisjuncts(d, fs, [RParen] + rest);
    }
  }

  lemma {:induction false} ReadConjuncts(d: Dialect, fs: seq<Formula<Mark>>, rest: seq<Token>)
    requires fs != [] && AtEnd(rest) && NoSingletons(fs)
    ensures ReadAndList(d, Join(fs, AndWord) + rest) ==
            if Readables(d, fs) then Read(fs, rest) else Error
    decreases fs, 0
  {
    hide Print, Readable, ReadNot, NoSingleton;
    assert fs == [fs[0]] + fs[1..];
    if |fs| == 1 {
      ReadPrinted(d, fs[0], rest);
      assert fs == [fs[0]];
    } else {
      var tail := Join(fs[1..], AndWord) + rest;
      ReadPrinted(d, fs[0], [AndWord] + tail);
      ReadConjuncts(d, fs[1..], rest);
      assert Join(fs, AndWord) + rest == Print(fs[0]) + ([AndWord] + tail);
      assert ([AndWord] + tail)[1..] == tail;
    }
  }

  lemma {:induction false} ReadDisjuncts(d: Dialect, fs: seq<Formula<Mark>>, rest: seq<Token>)
    requires fs != [] && AtEnd(rest) && NoSingletons(fs)
    ensures ReadOrList(d, Join(fs, OrWord) + rest) ==
            if Readables(d, fs) then Read(fs, rest) else Error
    decreases fs, 0
  {
    hide Print, Readable, ReadNot, NoSingleton;
    assert fs == [fs[0]] + fs[1..];
    if |fs| == 1 {
      ReadPrinted(d, fs[0], rest);
      assert fs == [fs[0]];
      ReadLast(d, fs[0], rest);
    } else {
      var tail := Join(fs[1..], OrWord) + rest;
      ReadPrinted(d, fs[0], [OrWord] + tail);
      ReadDisjuncts(d, fs[1..], rest);
      assert Join(fs, OrWord) + rest == Print(fs[0]) + ([OrWord] + tail);
      assert ([OrWord] + tail)[1..] == tail;
      ReadLast(d, fs[0], [OrWord] + tail);
    }
  }

  /** The printed text is unambiguous: reading it back gives exactly the printed condition,
      unless an empty list was printed that the dialect's reader does not accept. */
  lemma TextReadsBack(d: Dialect, f: Formula<Mark>)
    requires NoSingleton(f)
    ensures ReadBack(d, Print(f)) == if Readable(d, f) then Some(f) else None
  {
    ReadPrinted(d, f, []);
    assert Print(f) + [] == Print(f);
    ReadUnit(d, Print(f));
  }

  // Placeholders and the values bound to them.

  datatype Dialect = SQLite | MySQL | Postgres

  /** A value together with its place in the argument vector. */
  datatype Bind = Bind(value: Value, position: nat)

  function Map<A, B>(g: A -> B, f: Formula<A>): (r: Formula<B>)
    decreases f, 1
  {
    match f
    case Atom(shape, binds) => Atom(shape, seq(|binds|, i requires 0 <= i < |binds| => g(binds[i])))
    case Not(n) => Not(Map(g, n))
    case All(fs) => All(MapList(g, fs))
    case Any(fs) => Any(MapList(g, fs))
  }

  function MapList<A, B>(g: A -> B, fs: seq<Formula<A>>): (r: seq<Formula<B>>)
    ensures |r| == |fs|
    decreases fs, 0
  {
    if |fs| == 0 then [] else [Map(g, fs[0])] + MapList(g, fs[1..])
  }

  /** Everything bound in a condition, in reading order. */
  function Flat<B>(f: Formula<B>): seq<B>
    decreases f, 1
  {
    match f
    case Atom(_, binds) => binds
    case Not(g) => Flat(g)
    case All(fs) => FlatList(fs)
    case Any(fs) => FlatList(fs)
  }

  function FlatList<B>(fs: seq<Formula<B>>): seq<B>
    decreases fs, 0
  {
    if |fs| == 0 then [] else Flat(fs[0]) + FlatList(fs[1..])
  }

  /** Binds the values of a condition in reading order, the first at position `n`. */
  function Number(f: Formula<Value>, n: nat): Formula<Bind>
    decreases f, 1
  {
    match f
    case Atom(shape, values) => Atom(shape, NumberValues(values, n))
    case Not(g) => Not(Number(g, n))
    case All(fs) => All(NumberList(fs, n))
    case Any(fs) => Any(NumberList(fs, n))
  }

  function NumberList(fs: seq<Formula<Value>>, n: nat): (r: seq<Formula<Bind>>)
    ensures |r| == |fs|
    decreases fs, 0
  {
    if |fs| == 0 then [] else [Number(fs[0], n)] + NumberList(fs[1..], n + |Flat(fs[0])|)
  }

  function NumberValues(values: seq<Value>, n: nat): (r: seq<Bind>)
    ensures |r| == |values|
  {
    seq(|values|, i requires 0 <= i < |values| => Bind(values[i], n + i))
  }

  function ValueOf(): Bind -> Value { (b: Bind) => b.value }

  function MarkOf(d: Dialect): Bind -> Mark {
    (b: Bind) => if d == Postgres then Dollar(b.position + 1) else Question
  }

  lemma {:induction false} NumberKeepsValues(f: Formula<Value>, n: nat)
    ensures Flat(Number(f, n)) == NumberValues(Flat(f), n)
    ensures Map(ValueOf(), Number(f, n)) == f
    ensures NoSingleton(Number(f, n)) == NoSingleton(f)
    decreases f, 1
  {
    match f
    case Atom(shape, values) =>
      assert Map(ValueOf(), Number(f, n)).binds == values;
    case Not(g) => NumberKeepsValues(g, n);
    case All(fs) => NumberListKeepsValues(fs, n);
    case Any(fs) => NumberListKeepsValues(fs, n);
  }

  lemma {:induction false} NumberListKeepsValues(fs: seq<Formula<Value>>, n: nat)
    ensures FlatList(NumberList(fs, n)) == NumberValues(FlatList(fs), n)
    ensures MapList(ValueOf(), NumberList(fs, n)) == fs
    ensures NoSingletons(NumberList(fs, n)) == NoSingletons(fs)
    decreases fs, 0
  {
    if |fs| > 0 {
      NumberKeepsValues(fs[0], n);
      NumberListKeepsValues(fs[1..], n + |Flat(fs[0])|);
      assert NumberList(fs, n)[1..] == NumberList(fs[1..], n + |Flat(fs[0])|);
    }
  }

  lemma {:induction false} MapKeepsForm<A, B>(g: A -> B, f: Formula<A>)
    ensures NoSingleton(Map(g, f)) == NoSingleton(f)
    ensures |Flat(Map(g, f))| == |Flat(f)|
    ensures forall i :: 0 <= i < |Flat(f)| ==> Flat(Map(g, f))[i] == g(Flat(f)[i])
    decreases f, 1
  {
    match f
    case Atom(_, _) =>
    case Not(n) => MapKeepsForm(g, n);
    case All(fs) => MapListKeepsForm(g, fs);
    case Any(fs) => MapListKeepsForm(g, fs);
  }

  lemma {:induction false} MapListKeepsForm<A, B>(g: A -> B, fs: seq<Formula<A>>)
    ensures NoSingletons(MapList(g, fs)) == NoSingletons(fs)
    ensures |FlatList(MapList(g, fs))| == |FlatList(fs)|
    ensures forall i :: 0 <= i < |FlatList(fs)| ==> FlatList(MapList(g, fs))[i] == g(FlatList(fs)[i])
    decreases fs, 0
  {
    if |fs| > 0 {
      MapKeepsForm(g, fs[0]);
      MapListKeepsForm(g, fs[1..]);
      assert MapList(g, fs)[1..] == MapList(g, fs[1..]);
    }
  }

  lemma {:induction false} MapKeepsReadable<A, B>(d: Dialect, g: A -> B, f: Formula<A>)
    ensures Readable(d, Map(g, f)) == Readable(d, f)
    decreases f, 1
  {
    match f
    case Atom(_, _) =>
    case Not(n) => MapKeepsReadable(d, g, n);
    case All(fs) => MapListKeepsReadable(d, g, fs);
    case Any(fs) => MapListKeepsReadable(d, g, fs);
  }

  lemma {:induction false} MapListKeepsReadable<A, B>(d: Dialect, g: A -> B, fs: seq<Formula<A>>)
    ensures Readables(d, MapList(g, fs)) == Readables(d, fs)
    decreases fs, 0
  {
    if |fs| > 0 {
      MapKeepsReadable(d, g, fs[0]);
      MapListKeepsReadable(d, g, fs[1..]);
      assert MapList(g, fs)[1..] == MapList(g, fs[1..]);
    }
  }

  lemma NumberKeepsReadable(d: Dialect, f: Formula<Value>, n: nat)
    ensures Readable(d, Number(f, n)) == Readable(d, f)
  {
    NumberKeepsValues(f, n);
    MapKeepsReadable(d, ValueOf(), Number(f, n));
  }

  // Text and arguments together: `$k` is the k-th argument, each `?` takes the next one, and
  // they fit when every placeholder denotes an argument and every argument is denoted.

  function Lookup(args: seq<Value>): Mark -> Option<Value> {
    (m: Mark) => if m.Dollar? && 1 <= m.k <= |args| then Some(args[m.k - 1]) else None
  }

  function Refill<A, B>(f: Formula<A>, values: seq<B>): Formula<B>
    requires |values| == |Flat(f)|
    decreases f, 1
  {
    match f
    case Atom(shape, _) => Atom(shape, values)
    case Not(g) => Not(Refill(g, values))
    case All(fs) => All(RefillList(fs, values))
    case Any(fs) => Any(RefillList(fs, values))
  }

  function RefillList<A, B>(fs: seq<Formula<A>>, values: seq<B>): seq<Formula<B>>
    requires |values| == |FlatList(fs)|
    decreases fs, 0
  {
    if |fs| == 0 then []
    else
      var n := |Flat(fs[0])|;
      [Refill(fs[0], values[..n])] + RefillList(fs[1..], values[n..])
  }

  /** The condition that a text with placeholders and an argument vector denote, if they fit. */
  function Execute(d: Dialect, f: Formula<Mark>, args: seq<Value>): Option<Formula<Value>> {
    if d == Postgres then
      if && (forall i :: 0 <= i < |Flat(f)| ==> Lookup(args)(Flat(f)[i]).Some?)
         && (forall k: nat :: 1 <= k <= |args| ==> Dollar(k) in Flat(f))
      then Some(Refill(f, seq(|Flat(f)|, i requires 0 <= i < |Flat(f)| && Lookup(args)(Flat(f)[i]).Some?
                                           => Lookup(args)(Flat(f)[i]).value)))
      else None
    else
      if |args| == |Flat(f)| && (forall i :: 0 <= i < |Flat(f)| ==> Flat(f)[i] == Question)
      then Some(Refill(f, args)) else None
  }

  function ValuesAt(binds: seq<Bind>): (r: seq<Value>)
    ensures |r| == |binds|
  {
    seq(|binds|, i requires 0 <= i < |binds| => binds[i].value)
  }

  lemma {:induction false} RefillOwnValues<A>(g: Bind -> A, f: Formula<Bind>)
    requires |Flat(Map(g, f))| == |Flat(f)|
    ensures Refill(Map(g, f), ValuesAt(Flat(f))) == Map(ValueOf(), f)
    decreases f, 1
  {
    match f
    case Atom(_, _) =>
    case Not(n) => RefillOwnValues(g, n);
    case All(fs) => RefillListOwnValues(g, fs);
    case Any(fs) => RefillListOwnValues(g, fs);
  }

  lemma {:induction false} RefillListOwnValues<A>(g: Bind -> A, fs: seq<Formula<Bind>>)
    requires |FlatList(MapList(g, fs))| == |FlatList(fs)|
    ensures RefillList(MapList(g, fs), ValuesAt(FlatList(fs))) == MapList(ValueOf(), fs)
    decreases fs, 0
  {
    if |fs| > 0 {
      MapKeepsForm(g, fs[0]);
      MapListKeepsForm(g, fs[1..]);
      RefillOwnValues(g, fs[0]);
      RefillListOwnValues(g, fs[1..]);
      var n := |Flat(fs[0])|;
      assert ValuesAt(FlatList(fs))[..n] == ValuesAt(Flat(fs[0]));
      assert ValuesAt(FlatList(fs))[n..] == ValuesAt(FlatList(fs[1..]));
      assert MapList(g, fs)[1..] == MapList(g, fs[1..]);
    }
  }

  /** Every bind stands for the argument at its position, and positions increase. */
  ghost predicate Bound(binds: seq<Bind>, args: seq<Value>) {
    && (forall i :: 0 <= i < |binds| ==> binds[i].position < |args| && args[binds[i].position] == binds[i].value)
    && (forall i, j :: 0 <= i < j < |binds| ==> binds[i].position < binds[j].position)
  }

  ghost predicate Denoted(binds: seq<Bind>, p: int) {
    exists i :: 0 <= i < |binds| && binds[i].position == p
  }

  ghost predicate AllDenoted(binds: seq<Bind>, lo: int, hi: int) {
    forall p :: lo <= p < hi ==> Denoted(binds, p)
  }

  lemma {:induction false} IncreasingBound(binds: seq<Bind>, lo: nat, hi: nat)
    requires lo <= hi && forall i :: 0 <= i < |binds| ==> lo <= binds[i].position < hi
    requires forall i, j :: 0 <= i < j < |binds| ==> binds[i].position < binds[j].position
    ensures |binds| <= hi - lo
    ensures |binds| == hi - lo ==> forall i :: 0 <= i < |binds| ==> binds[i].position == lo + i
    decreases |binds|
  {
    if |binds| > 0 {
      var rest := binds[1..];
      IncreasingBound(rest, binds[0].position + 1, hi);
      if |binds| == hi - lo {
        forall i | 0 < i < |binds| ensures binds[i].position == lo + i {
          assert rest[i - 1] == binds[i];
        }
      }
    }
  }

  /** Increasing positions below `hi` denote all from `lo` on only when there are as many. */
  lemma {:induction false} IncreasingCover(binds: seq<Bind>, lo: nat, hi: nat)
    requires lo <= hi && forall i :: 0 <= i < |binds| ==> lo <= binds[i].position < hi
    requires forall i, j :: 0 <= i < j < |binds| ==> binds[i].position < binds[j].position
    requires AllDenoted(binds, lo, hi)
    ensures |binds| == hi - lo
    decreases |binds|
  {
    if lo < hi {
      assert Denoted(binds, lo);
      var rest := binds[1..];
      assert binds[0].position == lo;
      forall p | lo + 1 <= p < hi ensures Denoted(rest, p) {
        assert Denoted(binds, p);
        var i :| 0 <= i < |binds| && binds[i].position == p;
        assert rest[i - 1].position == p;
      }
      IncreasingCover(rest, lo + 1, hi);
    }
  }

  lemma NumberedExecution(f: Formula<Bind>, args: seq<Value>)
    requires Bound(Flat(f), args)
    ensures var r := Execute(Postgres, Map(MarkOf(Postgres), f), args);
            (r.Some? <==> |args| == |Flat(f)|) && (r.Some? ==> r.value == Map(ValueOf(), f))
  {
    var g := MarkOf(Postgres);
    var m, binds := Map(g, f), Flat(f);
    MapKeepsForm(g, f);
    forall i | 0 <= i < |Flat(m)| ensures Lookup(args)(Flat(m)[i]) == Some(binds[i].value) {}
    DenotedPositions(f, args);
    RefillOwnValues(g, f);
    assert ValuesAt(binds) == seq(|Flat(m)|, i requires 0 <= i < |Flat(m)| && Lookup(args)(Flat(m)[i]).Some?
                                             => Lookup(args)(Flat(m)[i]).value);
  }

  lemma DenotedPositions(f: Formula<Bind>, args: seq<Value>)
    requires Bound(Flat(f), args)
    ensures (forall k: nat :: 1 <= k <= |args| ==> Dollar(k) in Flat(Map(MarkOf(Postgres), f))) <==> |args| == |Flat(f)|
  {
    var binds, marks := Flat(f), Flat(Map(MarkOf(Postgres), f));
    MapKeepsForm(MarkOf(Postgres), f);
    assert forall i :: 0 <= i < |marks| ==> marks[i] == Dollar(binds[i].position + 1);
    IncreasingBound(binds, 0, |args|);
    if |args| == |binds| {
      forall k: nat | 1 <= k <= |args| ensures Dollar(k) in marks {
        assert marks[k - 1] == Dollar(k);
      }
    }
    if forall k: nat :: 1 <= k <= |args| ==> Dollar(k) in marks {
      forall p | 0 <= p < |args| ensures Denoted(binds, p) {
        assert Dollar(p + 1) in marks;
        var i :| 0 <= i < |marks| && marks[i] == Dollar(p + 1);
        assert binds[i].position == p;
      }
      IncreasingCover(binds, 0, |args|);
    }
  }

  lemma PositionalExecution(d: Dialect, f: Formula<Bind>, args: seq<Value>)
    requires d != Postgres && Bound(Flat(f), args)
    ensures var r := Execute(d, Map(MarkOf(d), f), args);
            (r.Some? <==> |args| == |Flat(f)|) && (r.Some? ==> r.value == Map(ValueOf(), f))
  {
    MapKeepsForm(MarkOf(d), f);
    RefillOwnValues(MarkOf(d), f);
    IncreasingBound(Flat(f), 0, |args|);
    assert |args| == |Flat(f)| ==> args == ValuesAt(Flat(f));
  }

  /** In every dialect text and arguments fit exactly when no argument is left over, and then
      each placeholder has its own value. */
  lemma Execution(d: Dialect, f: Formula<Bind>, args: seq<Value>)
    requires Bound(Flat(f), args)
    ensures var r := Execute(d, Map(MarkOf(d), f), args);
            (r.Some? <==> |args| == |Flat(f)|) && (r.Some? ==> r.value == Map(ValueOf(), f))
  {
    hide Bound, Execute;
    if d == Postgres {
      NumberedExecution(f, args);
    } else {
      PositionalExecution(d, f, args);
    }
  }
}
