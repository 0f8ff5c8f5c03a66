/** Leaf predicates: `create_predicate` of rust/src/builder.rs lowers a condition to a compiled
    predicate, rust/src/predicate.rs evaluates it, and both together say what the condition says. */
module Predicates {
  import opened Values
  import opened WhereTree
  import LK = Like

  type Columns = seq<string>

  datatype CompiledPredicate =
    | Cmp(col: ColId, op: Op, value: Value)
    | InSet(col: ColId, values: seq<Value>, negated: bool)
    | LikeMatch(col: ColId, pattern: Bytes, caseInsensitive: bool, negated: bool)
    | IsValue(col: ColId, value: Value, negated: bool)
    | IsNull(col: ColId, negated: bool)
    | Const(b: bool)

  /** `CompiledPredicate::eval`: a null cell fails everything but the null tests. */
  predicate Eval(p: CompiledPredicate, row: Row) {
    match p
    case Const(b) => b
    case IsValue(col, value, negated) => ValuesIdentical(Col(row, col), value) != negated
    case IsNull(col, negated) => Col(row, col).Null? != negated
    case Cmp(col, op, value) => !Col(row, col).Null? && Compare(op, Col(row, col), value)
    case InSet(col, values, negated) => !Col(row, col).Null? && Contains(values, Col(row, col)) != negated
    case LikeMatch(col, pattern, ci, negated) =>
      var cell := Col(row, col);
      !cell.Null?
      && ((cell.Str? && LK.Matches(pattern, cell.bytes, ci)) || (cell.Json? && LK.Matches(pattern, cell.text, ci)))
        != negated
  }

  predicate Compare(op: Op, cell: Value, v: Value) {
    match op
    case Eq => ValuesIdentical(cell, v)
    case Ne => !ValuesIdentical(cell, v)
    case Lt => !v.Null? && CompareValues(cell, v).Less?
    case Le => !v.Null? && !CompareValues(cell, v).Greater?
    case Gt => !v.Null? && CompareValues(cell, v).Greater?
    case Ge => !v.Null? && !CompareValues(cell, v).Less?
    case _ => false
  }

  /** `ValueSet::contains` */
  predicate Contains(values: seq<Value>, needle: Value) {
    exists i :: 0 <= i < |values| && ValuesIdentical(values[i], needle)
  }

  /** `Schema::col_id` */
  function ColIdOf(schema: Columns, name: string): (c: Option<ColId>)
    ensures c.Some? ==> c.value < |schema| && schema[c.value] == name
  {
    if schema == [] then None
    else if schema[0] == name then Some(0)
    else match ColIdOf(schema[1..], name) case None => None case Some(i) => Some(i + 1)
  }

  predicate Integral(n: Double) {
    IsFinite(n) && !Fractional(n) && !AtLeast(n, P63) && !BelowMinus(n, P63)
  }

  /** `number_to_owned` */
  function NumberToOwned(n: Double): (v: Value)
    ensures v.Int? || v.Float?
  {
    IntegralRange(n);
    if Integral(n) then Int(Trunc(n)) else Float(n)
  }

  lemma IntegralRange(n: Double)
    ensures Integral(n) ==> -P63 <= Trunc(n) < P63
    ensures !Integral(n) ==> FloatIntClass(n).None?
  {
    hide Units;
    hide One;
    WholeAndRest(P63, Units(n.mag), One());
  }

  /** A number literal lowers to the cell of its number, with one exception: minus zero lowers to
      the cell of zero, which is another one. */
  lemma LiteralCell(n: Double)
    ensures NumberToOwned(n) == CellOf(Real(n)) <==> n != Double(true, 0)
  {
    hide One;
    UnitsOrder(0, n.mag);
    IntegralRange(n);
    hide Units;
    WholeAndRest(0, Units(n.mag), One());
  }

  /** `lit_to_scalar` */
  function Scalar(l: Lit): (v: Option<Value>)
    ensures v.Some? ==> !v.value.Absent? && (v.value.Null? <==> l.LNull?)
  {
    match l
    case LNull => Some(Null)
    case LBool(b) => Some(Bool(b))
    case LInt(i) => Some(Int(i))
    case LStr(s) => Some(Str(s))
    case LNumber(n) => Some(NumberToOwned(n))
    case LArray(_) => None
  }

  function Scalars(ls: seq<Lit>): Option<seq<Value>> {
    if ls == [] then Some([])
    else
      var (front, last) := (Scalars(ls[..|ls| - 1]), Scalar(ls[|ls| - 1]));
      if front.None? || last.None? then None else Some(front.value + [last.value])
  }

  /** `lower_op` */
  function LowerOp(op: Op, col: ColId, right: Lit): Option<CompiledPredicate> {
    match op
    case Like => if right.LStr? then Some(LikeMatch(col, right.s, false, false)) else None
    case NotLike => if right.LStr? then Some(LikeMatch(col, right.s, false, true)) else None
    case ILike => if right.LStr? then Some(LikeMatch(col, right.s, true, false)) else None
    case NotILike => if right.LStr? then Some(LikeMatch(col, right.s, true, true)) else None
    case In => InPred(col, right, false)
    case NotIn => InPred(col, right, true)
    case Is => None
    case IsNot => None
    case _ => if Scalar(right).Some? then Some(Cmp(col, op, Scalar(right).value)) else None
  }

  function InPred(col: ColId, right: Lit, negated: bool): Option<CompiledPredicate> {
    if !right.LArray? || Scalars(right.elems).None? then None else Some(InSet(col, Scalars(right.elems).value, negated))
  }

  /** `guard_ordering_const`: an ordering between literals of different types is refused. */
  predicate OrderingRefused(op: Op, lhs: Value, right: Lit) {
    (op.Lt? || op.Le? || op.Gt? || op.Ge?) && (Scalar(right).None? || !SameClass(lhs, Scalar(right).value))
  }

  /** `same_class`, of cells that are not null: integers and floats are apart. */
  predicate SameClass(a: Value, b: Value) {
    TypeRank(a) == TypeRank(b) && a.Int? == b.Int?
  }

  /** `create_predicate`; `None` is a build error. */
  function CreatePredicate(sc: SimpleCond, schema: Columns): Option<CompiledPredicate> {
    if sc.right.Column? then None
    else
      var right := sc.right.lit;
      if sc.op.Is? || sc.op.IsNot? then
        if Scalar(right).None? then None
        else
          match sc.left
          case Column(name) =>
            var col := ColIdOf(schema, name);
            if col.None? then None
            else if right.LNull? then Some(IsNull(col.value, sc.op.IsNot?))
            else Some(IsValue(col.value, Scalar(right).value, sc.op.IsNot?))
          case Literal(l) =>
            if Scalar(l).None? then None
            else Some(Const(ValuesIdentical(Scalar(l).value, Scalar(right).value) != sc.op.IsNot?))
      else if right.LNull? then Some(Const(false))
      else
        match sc.left
        case Literal(l) =>
          if l.LNull? then Some(Const(false))
          else if Scalar(l).None? || OrderingRefused(sc.op, Scalar(l).value, right) then None
          else
            var probe := LowerOp(sc.op, 0, right);
            if probe.None? then None else Some(Const(Eval(probe.value, [Scalar(l).value])))
        case Column(name) =>
          var col := ColIdOf(schema, name);
          if col.None? then None else LowerOp(sc.op, col.value, right)
  }

  /** A row the condition keeps, given which subquery gates are open: `create_row_predicate` on
      subquery-free conditions, the filter chain in general. */
  predicate Keeps(c: Where, schema: Columns, row: Row, gates: nat -> bool) {
    match c
    case Simple(sc) => CreatePredicate(sc, schema).Some? && Eval(CreatePredicate(sc, schema).value, row)
    case Csq(_, gate) => gates(gate)
    case And(cs) => forall i :: 0 <= i < |cs| ==> Keeps(cs[i], schema, row, gates)
    case Or(cs) => exists i :: 0 <= i < |cs| && Keeps(cs[i], schema, row, gates)
  }

  // ---- what a condition says ----

  /** The cell a literal stands for; minus zero is read as zero, an array stands for none. */
  ghost predicate StandsFor(l: Lit, v: Value) {
    match l
    case LNull => v == Null
    case LBool(b) => v == Bool(b)
    case LInt(i) => v == Int(i)
    case LNumber(n) => v == if n == Double(true, 0) then Int(0) else CellOf(Real(n))
    case LStr(s) => v == Str(s)
    case LArray(_) => false
  }

  ghost predicate TextMatches(cell: Value, pattern: Bytes, ci: bool) {
    (cell.Str? && LK.Matches(pattern, cell.bytes, ci)) || (cell.Json? && LK.Matches(pattern, cell.text, ci))
  }

  /** The cell stands in the operator's relation to the literal: IS and IS NOT compare with null like
      with any cell; everything else is false when either side is null. */
  ghost predicate Related(cell: Value, op: Op, l: Lit) {
    if op.Is? then StandsFor(l, cell)
    else if op.IsNot? then !StandsFor(l, cell)
    else !cell.Null? && !l.LNull? && Compares(cell, op, l)
  }

  ghost predicate Compares(cell: Value, op: Op, l: Lit) {
    match op
    case Eq => StandsFor(l, cell)
    case Ne => !StandsFor(l, cell)
    case Lt => exists v :: StandsFor(l, v) && CellBefore(cell, v)
    case Le => exists v :: StandsFor(l, v) && (cell == v || CellBefore(cell, v))
    case Gt => exists v :: StandsFor(l, v) && CellBefore(v, cell)
    case Ge => exists v :: StandsFor(l, v) && (cell == v || CellBefore(v, cell))
    case In => AnyOf(l, cell)
    case NotIn => !AnyOf(l, cell)
    case Like => l.LStr? && TextMatches(cell, l.s, false)
    case NotLike => !(l.LStr? && TextMatches(cell, l.s, false))
    case ILike => l.LStr? && TextMatches(cell, l.s, true)
    case NotILike => !(l.LStr? && TextMatches(cell, l.s, true))
    case Is => false
    case IsNot => false
  }

  ghost predicate AnyOf(l: Lit, cell: Value) {
    l.LArray? && exists i :: 0 <= i < |l.elems| && StandsFor(l.elems[i], cell)
  }

  /** The first column of that name. */
  ghost predicate FirstAt(schema: Columns, name: string, i: nat) {
    i < |schema| && schema[i] == name && name !in schema[..i]
  }

  /** The cell on the left of a condition. */
  ghost predicate LeftIs(sc: SimpleCond, schema: Columns, row: Row, cell: Value) {
    match sc.left
    case Column(name) => exists i :: FirstAt(schema, name, i) && cell == Col(row, i)
    case Literal(l) => StandsFor(l, cell)
  }

  // ---- the lowering says it ----

  lemma {:induction false} ColIdIs(schema: Columns, name: string, i: nat)
    ensures ColIdOf(schema, name) == Some(i) <==> FirstAt(schema, name, i)
    ensures ColIdOf(schema, name).None? <==> name !in schema
  {
    if schema != [] {
      var rest := schema[1..];
      assert schema == [schema[0]] + rest;
      if i > 0 {
        ColIdIs(rest, name, i - 1);
        if i <= |schema| { assert schema[..i] == [schema[0]] + rest[..i - 1]; }
      } else {
        ColIdIs(rest, name, 0);
      }
    }
  }

  lemma MinusZero()
    ensures NumberToOwned(Double(true, 0)) == Int(0)
  {
    hide One;
    assert Units(0) == 0;
  }

  /** Lowering a literal gives the cell it stands for; only arrays have none. */
  lemma ScalarIs(l: Lit, v: Value)
    ensures Scalar(l) == Some(v) <==> StandsFor(l, v)
    ensures Scalar(l).None? <==> l.LArray?
  {
    hide NumberToOwned;
    hide CellOf;
    MinusZero();
    if l.LNumber? { LiteralCell(l.n); }
  }

  lemma {:induction false} ScalarsAre(ls: seq<Lit>, v: Value)
    ensures Scalars(ls).None? <==> exists i :: 0 <= i < |ls| && ls[i].LArray?
    ensures Scalars(ls).Some? ==> (v in Scalars(ls).value <==> exists i :: 0 <= i < |ls| && StandsFor(ls[i], v))
  {
    if ls != [] {
      var (front, last) := (ls[..|ls| - 1], ls[|ls| - 1]);
      hide StandsFor;
      hide Scalar;
      ScalarsAre(front, v);
      ScalarIs(last, v);
      assert forall i :: 0 <= i < |front| ==> ls[i] == front[i];
    }
  }

  lemma ContainsIs(values: seq<Value>, v: Value)
    ensures Contains(values, v) <==> v in values
  {
    forall i | 0 <= i < |values| ensures ValuesIdentical(values[i], v) <==> values[i] == v { ValueLaws(values[i], v); }
  }

  lemma CompareIs(cell: Value, op: Op, l: Lit, v: Value)
    requires StandsFor(l, v) && !l.LNull?
    requires op.Eq? || op.Ne? || op.Lt? || op.Le? || op.Gt? || op.Ge?
    ensures Compare(op, cell, v) <==> Compares(cell, op, l)
  {
    hide CellBefore;
    hide CompareValues;
    CellOrderIs(cell, v);
    EqualitiesAre(cell, v);
    ValueLaws(cell, v);
    forall w ensures StandsFor(l, w) <==> w == v { ScalarIs(l, w); ScalarIs(l, v); }
    hide StandsFor;
  }

  lemma {:induction false} LoweredMeans(op: Op, col: ColId, l: Lit, row: Row)
    requires LowerOp(op, col, l).Some? && !l.LNull?
    ensures Eval(LowerOp(op, col, l).value, row) <==> Related(Col(row, col), op, l)
  {
    hide StandsFor;
    var cell := Col(row, col);
    if op.In? || op.NotIn? {
      ScalarsAre(l.elems, cell);
      ContainsIs(Scalars(l.elems).value, cell);
    } else if !(op.Like? || op.NotLike? || op.ILike? || op.NotILike?) {
      var v := Scalar(l).value;
      ScalarIs(l, v);
      hide Compare;
      hide Compares;
      CompareIs(cell, op, l, v);
    }
  }

  /** A compiled predicate accepts a row exactly when the cell on the left, in the row or given
      outright, stands in the operator's relation to the literal. */
  lemma {:induction false} PredicateMeans(sc: SimpleCond, schema: Columns, row: Row, cell: Value)
    requires CreatePredicate(sc, schema).Some? && LeftIs(sc, schema, row, cell)
    ensures sc.right.Literal?
    ensures Eval(CreatePredicate(sc, schema).value, row) <==> Related(cell, sc.op, sc.right.lit)
  {
    hide StandsFor;
    var l := sc.right.lit;
    if sc.op.Is? || sc.op.IsNot? {
      IsMeans(sc, schema, row, cell);
    } else if !l.LNull? {
      match sc.left {
        case Literal(a) =>
          ScalarIs(a, cell);
          if !a.LNull? { LoweredMeans(sc.op, 0, l, [cell]); }
        case Column(name) =>
          var i :| FirstAt(schema, name, i) && cell == Col(row, i);
          ColIdIs(schema, name, i);
          LoweredMeans(sc.op, i, l, row);
      }
    }
  }

  lemma {:induction false} IsMeans(sc: SimpleCond, schema: Columns, row: Row, cell: Value)
    requires CreatePredicate(sc, schema).Some? && LeftIs(sc, schema, row, cell) && (sc.op.Is? || sc.op.IsNot?)
    ensures sc.right.Literal?
    ensures Eval(CreatePredicate(sc, schema).value, row) <==> StandsFor(sc.right.lit, cell) == sc.op.Is?
  {
    var l := sc.right.lit;
    var v := Scalar(l).value;
    ScalarIs(l, v);
    ScalarIs(l, cell);
    EqualitiesAre(cell, v);
    match sc.left {
      case Literal(a) => ScalarIs(a, cell);
      case Column(name) =>
        var i :| FirstAt(schema, name, i) && cell == Col(row, i);
        ColIdIs(schema, name, i);
    }
    hide StandsFor;
  }

  // ---- which conditions build ----

  predicate IsOrdering(op: Op) {
    op.Lt? || op.Le? || op.Gt? || op.Ge?
  }

  /** The right side fits its operator: a string for the LIKE family, an array of scalars for IN, a
      scalar for everything else. */
  ghost predicate Fits(op: Op, l: Lit) {
    if op.Like? || op.NotLike? || op.ILike? || op.NotILike? then l.LStr?
    else if op.In? || op.NotIn? then l.LArray? && forall i :: 0 <= i < |l.elems| ==> !l.elems[i].LArray?
    else !l.LArray?
  }

  /** Two literals of one type, integers and floats apart. */
  ghost predicate OneType(a: Lit, b: Lit) {
    exists v, w :: StandsFor(a, v) && StandsFor(b, w)
      && ((v.Bool? && w.Bool?) || (v.Int? && w.Int?) || (v.Float? && w.Float?) || (v.Str? && w.Str?))
  }

  /** Exactly which conditions are accepted: with a null literal on the right (or, on the left, of
      anything but IS) anything is, and is false. */
  ghost predicate Buildable(sc: SimpleCond, schema: Columns) {
    sc.right.Literal? &&
    var (op, l) := (sc.op, sc.right.lit);
    if op.Is? || op.IsNot? then !l.LArray? && LeftKnown(sc.left, schema)
    else
      || l.LNull?
      || sc.left == Literal(LNull)
      || (LeftKnown(sc.left, schema) && Fits(op, l)
        && (sc.left.Literal? && IsOrdering(op) ==> OneType(sc.left.lit, l)))
  }

  ghost predicate LeftKnown(left: Position, schema: Columns) {
    match left case Column(name) => name in schema case Literal(l) => !l.LArray?
  }

  lemma {:induction false} PredicateBuilds(sc: SimpleCond, schema: Columns)
    ensures CreatePredicate(sc, schema).Some? <==> Buildable(sc, schema)
  {
    if sc.right.Literal? {
      var l := sc.right.lit;
      hide StandsFor;
      ScalarIs(l, Null);
      if l.LArray? { ScalarsAre(l.elems, Null); }
      match sc.left {
        case Column(name) => ColIdIs(schema, name, 0);
        case Literal(a) =>
          ScalarIs(a, Null);
          if !a.LArray? && !a.LNull? && !l.LArray? && !l.LNull? { ClassesAre(a, l); }
      }
    }
  }

  lemma ClassesAre(a: Lit, b: Lit)
    requires Scalar(a).Some? && Scalar(b).Some? && !a.LNull? && !b.LNull?
    ensures SameClass(Scalar(a).value, Scalar(b).value) <==> OneType(a, b)
  {
    var (v, w) := (Scalar(a).value, Scalar(b).value);
    forall x ensures StandsFor(a, x) <==> x == v { ScalarIs(a, x); ScalarIs(a, v); }
    forall x ensures StandsFor(b, x) <==> x == w { ScalarIs(b, x); ScalarIs(b, w); }
    NotJson(a);
    NotJson(b);
  }

  lemma NotJson(a: Lit)
    requires Scalar(a).Some?
    ensures !Scalar(a).value.Json?
  {
  }
}
