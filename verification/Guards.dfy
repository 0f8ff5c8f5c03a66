/** The two over-approximations of a condition in rust/src/builder.rs: the seek constraint and the
    push guard. */
module Guards {
  import opened Values
  import opened WhereTree
  import opened Lists
  import opened Predicates
  import MS = MemorySource

  // ---- pushable_constraint ----

  /** `simple_eq_constraint` */
  function SimpleEq(sc: SimpleCond, schema: Columns): MS.Constraint {
    if !sc.op.Eq? || !sc.left.Column? || !sc.right.Literal? || sc.right.lit.LNull? then []
    else
      var (col, v) := (ColIdOf(schema, sc.left.name), Scalar(sc.right.lit));
      if col.Some? && v.Some? then [(col.value, v.value)] else []
  }

  predicate HasColumn(out: MS.Constraint, col: ColId) {
    exists i :: 0 <= i < |out| && out[i].0 == col
  }

  /** Conjuncts add up; the first pair for a column wins. */
  function Merged(out: MS.Constraint, more: MS.Constraint): MS.Constraint {
    if more == [] then out
    else
      var front := Merged(out, more[..|more| - 1]);
      var e := more[|more| - 1];
      if HasColumn(front, e.0) then front else front + [e]
  }

  predicate Forces(next: MS.Constraint, e: (ColId, Value)) {
    exists i :: 0 <= i < |next| && next[i].0 == e.0 && ValuesIdentical(e.1, next[i].1)
  }

  /** A disjunction keeps only the pairs every disjunct forces. */
  function Retained(acc: MS.Constraint, next: MS.Constraint): MS.Constraint {
    if acc == [] then []
    else Retained(acc[..|acc| - 1], next) + (if Forces(next, acc[|acc| - 1]) then [acc[|acc| - 1]] else [])
  }

  function Pushable(c: Where, schema: Columns): MS.Constraint
    decreases c, Parts(c) + 1
  {
    match c
    case Simple(sc) => SimpleEq(sc, schema)
    case Csq(_, _) => []
    case And(_) => AndUpTo(c, Parts(c), schema)
    case Or(_) => OrUpTo(c, Parts(c), schema)
  }

  function AndUpTo(c: Where, k: nat, schema: Columns): MS.Constraint
    requires k <= Parts(c)
    decreases c, k
  {
    if k == 0 then [] else Merged(AndUpTo(c, k - 1, schema), Pushable(c.conds[k - 1], schema))
  }

  function OrUpTo(c: Where, k: nat, schema: Columns): MS.Constraint
    requires k <= Parts(c)
    decreases c, k
  {
    if k == 0 then []
    else if k == 1 then Pushable(c.conds[0], schema)
    else Retained(OrUpTo(c, k - 1, schema), Pushable(c.conds[k - 1], schema))
  }

  lemma {:induction false} MergedIn(out: MS.Constraint, more: MS.Constraint, e: (ColId, Value))
    requires e in Merged(out, more)
    ensures e in out || e in more
  {
    if more != [] && e in Merged(out, more[..|more| - 1]) { MergedIn(out, more[..|more| - 1], e); }
  }

  lemma {:induction false} RetainedIn(acc: MS.Constraint, next: MS.Constraint, e: (ColId, Value))
    requires e in Retained(acc, next)
    ensures e in acc && Forces(next, e)
  {
    if acc != [] && e in Retained(acc[..|acc| - 1], next) { RetainedIn(acc[..|acc| - 1], next, e); }
  }

  lemma ForcedMatches(row: Row, next: MS.Constraint, e: (ColId, Value))
    requires Forces(next, e) && MS.Matches(row, next)
    ensures ValuesEqual(Col(row, e.0), e.1)
  {
    var i :| 0 <= i < |next| && next[i].0 == e.0 && ValuesIdentical(e.1, next[i].1);
    ValueLaws(e.1, next[i].1);
    assert next[i] in next;
  }

  lemma SimpleSound(sc: SimpleCond, schema: Columns, row: Row)
    requires CreatePredicate(sc, schema).Some? && Eval(CreatePredicate(sc, schema).value, row)
    ensures MS.Matches(row, SimpleEq(sc, schema))
  {
    if SimpleEq(sc, schema) != [] {
      var (col, v) := (ColIdOf(schema, sc.left.name).value, Scalar(sc.right.lit).value);
      ValueLaws(Col(row, col), v);
    }
  }

  /** Every row a condition keeps satisfies the constraint it is sought by. */
  lemma {:induction false} PushableSound(c: Where, schema: Columns, row: Row, gates: nat -> bool)
    requires Keeps(c, schema, row, gates)
    ensures MS.Matches(row, Pushable(c, schema))
    decreases c, Parts(c) + 1
  {
    match c {
      case Simple(sc) => SimpleSound(sc, schema, row);
      case Csq(_, _) =>
      case And(_) => AndSound(c, Parts(c), schema, row, gates);
      case Or(cs) =>
        var i :| 0 <= i < |cs| && Keeps(cs[i], schema, row, gates);
        OrSound(c, Parts(c), i, schema, row, gates);
    }
  }

  lemma {:induction false} AndSound(c: Where, k: nat, schema: Columns, row: Row, gates: nat -> bool)
    requires c.And? && k <= Parts(c) && Keeps(c, schema, row, gates)
    ensures MS.Matches(row, AndUpTo(c, k, schema))
    decreases c, k
  {
    if k > 0 {
      AndSound(c, k - 1, schema, row, gates);
      PushableSound(c.conds[k - 1], schema, row, gates);
      forall e | e in AndUpTo(c, k, schema) ensures ValuesEqual(Col(row, e.0), e.1) {
        MergedIn(AndUpTo(c, k - 1, schema), Pushable(c.conds[k - 1], schema), e);
      }
    }
  }

  lemma {:induction false} OrSound(c: Where, k: nat, i: nat, schema: Columns, row: Row, gates: nat -> bool)
    requires c.Or? && i < k <= Parts(c) && Keeps(c.conds[i], schema, row, gates)
    ensures MS.Matches(row, OrUpTo(c, k, schema))
    decreases c, k
  {
    if k == 1 {
      PushableSound(c.conds[0], schema, row, gates);
    } else {
      var (acc, next) := (OrUpTo(c, k - 1, schema), Pushable(c.conds[k - 1], schema));
      if i < k - 1 { OrSound(c, k - 1, i, schema, row, gates); } else { PushableSound(c.conds[i], schema, row, gates); }
      forall e | e in Retained(acc, next) ensures ValuesEqual(Col(row, e.0), e.1) {
        RetainedIn(acc, next, e);
        if i == k - 1 { ForcedMatches(row, next, e); }
      }
    }
  }

  /** The cell a condition pins a column to: an equality with a literal pins its column; in a
      conjunction the first part that pins the column decides; in a disjunction all parts agree. */
  ghost function Pinned(c: Where, schema: Columns, col: ColId): Option<Value>
    decreases c, Parts(c) + 1
  {
    match c
    case Simple(sc) =>
      if sc.op.Eq? && sc.left.Column? && FirstAt(schema, sc.left.name, col) && sc.right.Literal?
        && !sc.right.lit.LNull? && exists v :: StandsFor(sc.right.lit, v)
      then
        var v :| StandsFor(sc.right.lit, v);
        Some(v)
      else None
    case Csq(_, _) => None
    case And(_) => FirstPinned(c, Parts(c), schema, col)
    case Or(_) => AllPinned(c, Parts(c), schema, col)
  }

  ghost function FirstPinned(c: Where, k: nat, schema: Columns, col: ColId): Option<Value>
    requires k <= Parts(c)
    decreases c, k
  {
    if k == 0 then None
    else if FirstPinned(c, k - 1, schema, col).Some? then FirstPinned(c, k - 1, schema, col)
    else Pinned(c.conds[k - 1], schema, col)
  }

  ghost function AllPinned(c: Where, k: nat, schema: Columns, col: ColId): Option<Value>
    requires k <= Parts(c)
    decreases c, k
  {
    if k == 0 then None
    else if k == 1 || AllPinned(c, k - 1, schema, col) == Pinned(c.conds[k - 1], schema, col) then
      Pinned(c.conds[k - 1], schema, col)
    else None
  }

  /** The seek constraint holds exactly the pinned pairs, each column once. */
  lemma {:induction false} PushableIff(c: Where, schema: Columns, col: ColId, v: Value)
    ensures (col, v) in Pushable(c, schema) <==> Pinned(c, schema, col) == Some(v)
    ensures HasColumn(Pushable(c, schema), col) <==> Pinned(c, schema, col).Some?
    ensures OnePerColumn(Pushable(c, schema))
    decreases c, Parts(c) + 1, 0
  {
    match c {
      case Simple(sc) => SimpleIff(sc, schema, col, v);
      case Csq(_, _) =>
      case And(_) => AndIff(c, Parts(c), schema, col, v);
      case Or(_) =>
        forall w ensures (col, w) in Pushable(c, schema) <==> Pinned(c, schema, col) == Some(w) {
          OrIff(c, Parts(c), schema, col, w);
        }
        OrIff(c, Parts(c), schema, col, v);
        ColumnHeld(Pushable(c, schema), col);
    }
  }

  ghost predicate OnePerColumn(p: MS.Constraint) {
    forall i, j :: 0 <= i < j < |p| ==> p[i].0 != p[j].0
  }

  lemma SimpleIff(sc: SimpleCond, schema: Columns, col: ColId, v: Value)
    ensures (col, v) in SimpleEq(sc, schema) <==> Pinned(Simple(sc), schema, col) == Some(v)
    ensures HasColumn(SimpleEq(sc, schema), col) <==> Pinned(Simple(sc), schema, col).Some?
  {
    hide StandsFor;
    hide Scalar;
    if sc.left.Column? { ColIdIs(schema, sc.left.name, col); }
    if sc.right.Literal? {
      var l := sc.right.lit;
      forall w ensures Scalar(l) == Some(w) <==> StandsFor(l, w) { ScalarIs(l, w); }
      if Scalar(l).Some? { assert StandsFor(l, Scalar(l).value); }
    }
    var p := SimpleEq(sc, schema);
    if p != [] { assert p[0] in p; }
  }

  lemma {:induction false} AndIff(c: Where, k: nat, schema: Columns, col: ColId, v: Value)
    requires c.And? && k <= Parts(c)
    ensures (col, v) in AndUpTo(c, k, schema) <==> FirstPinned(c, k, schema, col) == Some(v)
    ensures HasColumn(AndUpTo(c, k, schema), col) <==> FirstPinned(c, k, schema, col).Some?
    ensures OnePerColumn(AndUpTo(c, k, schema))
    decreases c, k
  {
    hide Pinned;
    hide HasColumn;
    if k > 0 {
      var (before, more) := (AndUpTo(c, k - 1, schema), Pushable(c.conds[k - 1], schema));
      AndIff(c, k - 1, schema, col, v);
      PushableIff(c.conds[k - 1], schema, col, v);
      MergedIff(before, more, (col, v));
      MergedColumns(before, more, col);
      ColumnHeld(before, col);
    } else {
      NoColumn(col);
    }
  }

  lemma NoColumn(col: ColId)
    ensures !HasColumn([], col)
  {
  }

  lemma ColumnHeld(p: MS.Constraint, col: ColId)
    ensures HasColumn(p, col) <==> exists w :: (col, w) in p
  {
    if i :| 0 <= i < |p| && p[i].0 == col { assert (col, p[i].1) in p; }
  }

  lemma {:induction false} MergedColumns(out: MS.Constraint, more: MS.Constraint, col: ColId)
    ensures HasColumn(Merged(out, more), col) <==> HasColumn(out, col) || HasColumn(more, col)
  {
    if more != [] {
      var (front, e) := (more[..|more| - 1], more[|more| - 1]);
      MergedColumns(out, front, col);
      ColumnsSnoc(front, e, col);
      assert more == front + [e];
      ColumnsSnoc(Merged(out, front), e, col);
      hide HasColumn;
    }
  }

  lemma ColumnsSnoc(p: MS.Constraint, e: (ColId, Value), col: ColId)
    ensures HasColumn(p + [e], col) <==> HasColumn(p, col) || e.0 == col
  {
    var q := p + [e];
    assert q[|p|] == e && forall i :: 0 <= i < |p| ==> q[i] == p[i];
  }

  lemma OneSnoc(p: MS.Constraint, e: (ColId, Value))
    ensures OnePerColumn(p + [e]) <==> OnePerColumn(p) && !HasColumn(p, e.0)
  {
    var q := p + [e];
    assert q[|p|] == e && forall i :: 0 <= i < |p| ==> q[i] == p[i];
  }

  lemma {:induction false} MergedIff(out: MS.Constraint, more: MS.Constraint, e: (ColId, Value))
    requires OnePerColumn(out) && OnePerColumn(more)
    ensures e in Merged(out, more) <==> e in out || (e in more && !HasColumn(out, e.0))
    ensures OnePerColumn(Merged(out, more))
  {
    if more != [] {
      var (front, last) := (more[..|more| - 1], more[|more| - 1]);
      assert more == front + [last];
      OneSnoc(front, last);
      MergedIff(out, front, e);
      MergedColumns(out, front, last.0);
      OneSnoc(Merged(out, front), last);
      hide HasColumn;
      hide OnePerColumn;
    }
  }

  lemma {:induction false} RetainedIff(acc: MS.Constraint, next: MS.Constraint, e: (ColId, Value))
    requires OnePerColumn(acc)
    ensures e in Retained(acc, next) <==> e in acc && e in next
    ensures HasColumn(Retained(acc, next), e.0) ==> HasColumn(acc, e.0)
    ensures OnePerColumn(Retained(acc, next))
  {
    if acc != [] {
      var (front, last) := (acc[..|acc| - 1], acc[|acc| - 1]);
      assert acc == front + [last];
      OneSnoc(front, last);
      RetainedIff(front, next, e);
      RetainedIff(front, next, last);
      ForcesIs(next, last);
      OneSnoc(Retained(front, next), last);
      ColumnsSnoc(Retained(front, next), last, e.0);
      ColumnsSnoc(front, last, e.0);
      assert !Forces(next, last) ==> Retained(front, next) + [] == Retained(front, next);
      hide HasColumn;
      hide OnePerColumn;
      hide Forces;
    }
  }

  lemma ForcesIs(next: MS.Constraint, e: (ColId, Value))
    ensures Forces(next, e) <==> e in next
  {
    forall i | 0 <= i < |next| ensures ValuesIdentical(e.1, next[i].1) <==> e.1 == next[i].1 {
      EqualitiesAre(e.1, next[i].1);
    }
    if i :| 0 <= i < |next| && next[i].0 == e.0 && ValuesIdentical(e.1, next[i].1) { assert next[i] == e; }
  }

  lemma {:induction false} OrIff(c: Where, k: nat, schema: Columns, col: ColId, v: Value)
    requires c.Or? && k <= Parts(c)
    ensures (col, v) in OrUpTo(c, k, schema) <==> AllPinned(c, k, schema, col) == Some(v)
    ensures OnePerColumn(OrUpTo(c, k, schema))
    decreases c, k
  {
    hide Pinned;
    hide HasColumn;
    if k > 0 { PushableIff(c.conds[k - 1], schema, col, v); }
    if k > 1 {
      OrIff(c, k - 1, schema, col, v);
      RetainedIff(OrUpTo(c, k - 1, schema), Pushable(c.conds[k - 1], schema), (col, v));
    }
  }

  // ---- extract_push_guard ----

  datatype PushGuard = PushGuard(col: ColId, values: seq<Value>)

  /** `dedup_guard_values` */
  function Dedup(values: seq<Value>): seq<Value> {
    if values == [] then []
    else
      var front := Dedup(values[..|values| - 1]);
      if Contains(front, values[|values| - 1]) then front else front + [values[|values| - 1]]
  }

  /** `extract_simple_guard` */
  function SimpleGuard(sc: SimpleCond, schema: Columns): Option<PushGuard> {
    if !sc.left.Column? || !sc.right.Literal? || ColIdOf(schema, sc.left.name).None? then None
    else
      var (col, rhs) := (ColIdOf(schema, sc.left.name).value, sc.right.lit);
      if sc.op.Eq? && rhs.LNull? then Some(PushGuard(col, []))
      else if sc.op.Eq? || sc.op.Is? then
        if Scalar(rhs).None? then None else Some(PushGuard(col, [Scalar(rhs).value]))
      else if sc.op.In? then
        if !rhs.LArray? || Scalars(rhs.elems).None? then None else Some(PushGuard(col, Dedup(Scalars(rhs.elems).value)))
      else None
  }

  function Guard(c: Where, schema: Columns): Option<PushGuard>
    decreases c, Parts(c) + 1
  {
    match c
    case Simple(sc) => SimpleGuard(sc, schema)
    case Csq(_, _) => None
    case And(_) => Narrowest(c, Parts(c), schema)
    case Or(_) =>
      var s := Survivors(c, Parts(c), schema);
      if s.None? then None else Some(PushGuard(if s.value.0.Some? then s.value.0.value else 0, Dedup(s.value.1)))
  }

  /** The first smallest guard among the first `k` conjuncts. */
  function Narrowest(c: Where, k: nat, schema: Columns): Option<PushGuard>
    requires k <= Parts(c)
    decreases c, k
  {
    if k == 0 then None
    else
      var (best, g) := (Narrowest(c, k - 1, schema), Guard(c.conds[k - 1], schema));
      if g.None? then best
      else if best.None? || |g.value.values| < |best.value.values| then g
      else best
  }

  /** The shared column and pooled values of the first `k` disjuncts, never-true ones dropped. */
  function Survivors(c: Where, k: nat, schema: Columns): Option<(Option<ColId>, seq<Value>)>
    requires k <= Parts(c)
    decreases c, k
  {
    if k == 0 then Some((None, []))
    else
      var (before, g) := (Survivors(c, k - 1, schema), Guard(c.conds[k - 1], schema));
      if before.None? || g.None? then None
      else if g.value.values == [] then before
      else if before.value.0.Some? && before.value.0.value != g.value.col then None
      else Some((Some(g.value.col), before.value.1 + g.value.values))
  }

  lemma {:induction false} DedupKeeps(values: seq<Value>, v: Value)
    ensures v in Dedup(values) <==> v in values
  {
    if values != [] {
      var (front, last) := (values[..|values| - 1], values[|values| - 1]);
      DedupKeeps(front, v);
      ContainsIs(Dedup(front), last);
      assert values == front + [last];
    }
  }

  lemma SimpleGuardSound(sc: SimpleCond, schema: Columns, row: Row)
    requires CreatePredicate(sc, schema).Some? && Eval(CreatePredicate(sc, schema).value, row)
    requires SimpleGuard(sc, schema).Some?
    ensures var g := SimpleGuard(sc, schema).value; Col(row, g.col) in g.values
  {
    var (col, rhs) := (ColIdOf(schema, sc.left.name).value, sc.right.lit);
    if sc.op.In? {
      ContainsIs(Scalars(rhs.elems).value, Col(row, col));
      DedupKeeps(Scalars(rhs.elems).value, Col(row, col));
    } else if Scalar(rhs).Some? {
      ValueLaws(Col(row, col), Scalar(rhs).value);
    }
  }

  /** Every row a condition keeps has its guarded cell among the guard's values, so a connection
      skipped by its guard would have rejected the row. */
  lemma {:induction false} GuardSound(c: Where, schema: Columns, row: Row, gates: nat -> bool)
    requires Keeps(c, schema, row, gates) && Guard(c, schema).Some?
    ensures var g := Guard(c, schema).value; Col(row, g.col) in g.values
    decreases c, Parts(c) + 1
  {
    match c {
      case Simple(sc) => SimpleGuardSound(sc, schema, row);
      case And(_) => NarrowestSound(c, Parts(c), schema, row, gates);
      case Or(cs) =>
        var i :| 0 <= i < |cs| && Keeps(cs[i], schema, row, gates);
        SurvivorsSound(c, Parts(c), i, schema, row, gates);
        var s := Survivors(c, Parts(c), schema).value;
        DedupKeeps(s.1, Col(row, s.0.value));
    }
  }

  lemma {:induction false} NarrowestSound(c: Where, k: nat, schema: Columns, row: Row, gates: nat -> bool)
    requires c.And? && k <= Parts(c) && Keeps(c, schema, row, gates) && Narrowest(c, k, schema).Some?
    ensures var g := Narrowest(c, k, schema).value; Col(row, g.col) in g.values
    decreases c, k
  {
    if Guard(c.conds[k - 1], schema).Some? { GuardSound(c.conds[k - 1], schema, row, gates); }
    if Narrowest(c, k - 1, schema).Some? { NarrowestSound(c, k - 1, schema, row, gates); }
  }

  lemma {:induction false} SurvivorsSound(c: Where, k: nat, i: nat, schema: Columns, row: Row, gates: nat -> bool)
    requires c.Or? && i < k <= Parts(c) && Keeps(c.conds[i], schema, row, gates) && Survivors(c, k, schema).Some?
    ensures var s := Survivors(c, k, schema).value; s.0.Some? && Col(row, s.0.value) in s.1
    decreases c, k
  {
    if i < k - 1 {
      SurvivorsSound(c, k - 1, i, schema, row, gates);
    } else {
      GuardSound(c.conds[i], schema, row, gates);
    }
  }

  // ---- which guard ----

  /** The values a leaf's guard lists. */
  ghost predicate Listed(sc: SimpleCond, v: Value) {
    && sc.right.Literal?
    && var l := sc.right.lit;
      if sc.op.In? then AnyOf(l, v) else StandsFor(l, v) && (sc.op.Eq? ==> !l.LNull?)
  }

  /** A leaf has a guard exactly when it is an equality, IS or IN on a known column with a fitting
      literal; the guard is on that column and lists the literal's values, each once. */
  lemma {:induction false} SimpleGuardIff(sc: SimpleCond, schema: Columns)
    ensures SimpleGuard(sc, schema).Some? <==>
      && sc.left.Column? && sc.left.name in schema && sc.right.Literal?
      && (sc.op.Eq? || sc.op.Is? || sc.op.In?) && Fits(sc.op, sc.right.lit)
    ensures SimpleGuard(sc, schema).Some? ==>
      && FirstAt(schema, sc.left.name, SimpleGuard(sc, schema).value.col)
      && NoRepeats(SimpleGuard(sc, schema).value.values)
      && forall v :: v in SimpleGuard(sc, schema).value.values <==> Listed(sc, v)
  {
    hide StandsFor;
    hide Scalar;
    if sc.left.Column? && sc.right.Literal? {
      var (name, l) := (sc.left.name, sc.right.lit);
      ColIdIs(schema, name, if ColIdOf(schema, name).Some? then ColIdOf(schema, name).value else 0);
      forall v ensures Scalar(l) == Some(v) <==> StandsFor(l, v) { ScalarIs(l, v); }
      ScalarIs(l, Null);
      if l.LArray? { ElementsAre(l); }
      hide Dedup;
      hide Scalars;
      hide AnyOf;
    }
  }

  lemma {:induction false} ElementsAre(l: Lit)
    requires l.LArray?
    ensures Scalars(l.elems).Some? <==> forall i :: 0 <= i < |l.elems| ==> !l.elems[i].LArray?
    ensures Scalars(l.elems).Some? ==>
      && NoRepeats(Dedup(Scalars(l.elems).value))
      && forall v :: v in Dedup(Scalars(l.elems).value) <==> AnyOf(l, v)
  {
    hide StandsFor;
    hide Dedup;
    ScalarsAre(l.elems, Null);
    if Scalars(l.elems).Some? {
      var vs := Scalars(l.elems).value;
      DedupOnce(vs);
      forall v ensures v in Dedup(vs) <==> AnyOf(l, v) {
        DedupKeeps(vs, v);
        ScalarsAre(l.elems, v);
      }
    }
  }

  lemma {:induction false} DedupOnce(values: seq<Value>)
    ensures NoRepeats(Dedup(values))
  {
    if values != [] {
      var (front, last) := (values[..|values| - 1], values[|values| - 1]);
      DedupOnce(front);
      ContainsIs(Dedup(front), last);
      if last !in Dedup(front) { NoRepeatsSnoc(Dedup(front), last); }
    }
  }

  /** A conjunction takes the first of the shortest guards of its parts. */
  lemma {:induction false} AndGuardIff(c: Where, schema: Columns)
    requires c.And?
    ensures Guard(c, schema).None? <==> forall i :: 0 <= i < |c.conds| ==> Guard(c.conds[i], schema).None?
    ensures Guard(c, schema).Some? ==>
      exists i :: 0 <= i < |c.conds| && Narrow(c, i, |c.conds|, schema) && Guard(c, schema) == Guard(c.conds[i], schema)
  {
    NarrowestIs(c, Parts(c), schema);
  }

  /** Part `i` has a guard shorter than those of earlier parts and no longer than those of later
      ones. */
  ghost predicate Narrow(c: Where, i: nat, k: nat, schema: Columns)
    requires c.And? && i < k <= |c.conds|
  {
    && Guard(c.conds[i], schema).Some?
    && forall j :: 0 <= j < k && Guard(c.conds[j], schema).Some? ==>
      var (a, b) := (|Guard(c.conds[i], schema).value.values|, |Guard(c.conds[j], schema).value.values|);
      if j < i then a < b else a <= b
  }

  lemma NarrowNext(c: Where, i: nat, k: nat, schema: Columns)
    requires c.And? && i + 1 < k <= |c.conds| && Narrow(c, i, k - 1, schema)
    ensures var (best, g) := (Guard(c.conds[i], schema), Guard(c.conds[k - 1], schema));
      if g.None? || |g.value.values| >= |best.value.values| then Narrow(c, i, k, schema)
      else Narrow(c, k - 1, k, schema)
  {
    hide Guard;
  }

  lemma NarrowFirst(c: Where, k: nat, schema: Columns)
    requires c.And? && 0 < k <= |c.conds| && Guard(c.conds[k - 1], schema).Some?
    requires forall i :: 0 <= i < k - 1 ==> Guard(c.conds[i], schema).None?
    ensures Narrow(c, k - 1, k, schema)
  {
  }

  lemma NarrowestStep(c: Where, k: nat, schema: Columns)
    requires c.And? && k <= |c.conds|
    ensures k == 0 ==> Narrowest(c, k, schema).None?
    ensures k > 0 ==>
      var (best, g) := (Narrowest(c, k - 1, schema), Guard(c.conds[k - 1], schema));
      Narrowest(c, k, schema)
        == if g.None? || (best.Some? && |g.value.values| >= |best.value.values|) then best else g
  {
    hide Guard;
  }

  lemma {:induction false} NarrowestIs(c: Where, k: nat, schema: Columns)
    requires c.And? && k <= |c.conds|
    ensures Narrowest(c, k, schema).None? <==> forall i :: 0 <= i < k ==> Guard(c.conds[i], schema).None?
    ensures Narrowest(c, k, schema).Some? ==>
      exists i :: 0 <= i < k && Narrow(c, i, k, schema) && Narrowest(c, k, schema) == Guard(c.conds[i], schema)
  {
    hide *;
    PartsIs(c);
    NarrowestStep(c, k, schema);
    if k > 0 {
      NarrowestIs(c, k - 1, schema);
      var (best, g) := (Narrowest(c, k - 1, schema), Guard(c.conds[k - 1], schema));
      if best.Some? {
        var i :| 0 <= i < k - 1 && Narrow(c, i, k - 1, schema) && best == Guard(c.conds[i], schema);
        NarrowNext(c, i, k, schema);
      } else if g.Some? {
        NarrowFirst(c, k, schema);
      }
    }
  }

  ghost predicate CanMatch(c: Where, i: nat, schema: Columns)
    requires c.Or? && i < |c.conds|
  {
    Guard(c.conds[i], schema).Some? && Guard(c.conds[i], schema).value.values != []
  }

  ghost predicate AllGuarded(c: Where, k: nat, schema: Columns)
    requires c.Or? && k <= |c.conds|
  {
    forall i :: 0 <= i < k ==> Guard(c.conds[i], schema).Some?
  }

  ghost predicate OneColumn(c: Where, k: nat, schema: Columns)
    requires c.Or? && k <= |c.conds|
  {
    forall i, j :: 0 <= i < k && 0 <= j < k && CanMatch(c, i, schema) && CanMatch(c, j, schema) ==>
      Guard(c.conds[i], schema).value.col == Guard(c.conds[j], schema).value.col
  }

  /** A disjunction has a guard exactly when all its parts have one and those that can match at all
      are on one column; it is on that column and lists their values together, each once. */
  lemma {:induction false} OrGuardIff(c: Where, schema: Columns)
    requires c.Or?
    ensures Guard(c, schema).Some? <==> AllGuarded(c, |c.conds|, schema) && OneColumn(c, |c.conds|, schema)
    ensures Guard(c, schema).Some? ==>
      && NoRepeats(Guard(c, schema).value.values)
      && (forall i :: 0 <= i < |c.conds| && CanMatch(c, i, schema) ==>
          Guard(c.conds[i], schema).value.col == Guard(c, schema).value.col)
      && forall v :: v in Guard(c, schema).value.values <==>
        exists i :: 0 <= i < |c.conds| && CanMatch(c, i, schema) && v in Guard(c.conds[i], schema).value.values
  {
    var k := |c.conds|;
    SurvivorsAre(c, k, schema);
    var s := Survivors(c, k, schema);
    if s.Some? {
      DedupOnce(s.value.1);
      forall v ensures v in Dedup(s.value.1) <==> v in s.value.1 { DedupKeeps(s.value.1, v); }
    }
  }

  lemma {:induction false} SurvivorsAre(c: Where, k: nat, schema: Columns)
    requires c.Or? && k <= |c.conds|
    ensures Survivors(c, k, schema).Some? <==> AllGuarded(c, k, schema) && OneColumn(c, k, schema)
    ensures Survivors(c, k, schema).Some? ==>
      var s := Survivors(c, k, schema).value;
      && (s.0.Some? <==> exists i :: 0 <= i < k && CanMatch(c, i, schema))
      && (forall i :: 0 <= i < k && CanMatch(c, i, schema) ==> s.0 == Some(Guard(c.conds[i], schema).value.col))
      && forall v :: v in s.1 <==>
        exists i :: 0 <= i < k && CanMatch(c, i, schema) && v in Guard(c.conds[i], schema).value.values
  {
    hide Guard;
    if k > 0 {
      SurvivorsAre(c, k - 1, schema);
      assert CanMatch(c, k - 1, schema) <==>
        Guard(c.conds[k - 1], schema).Some? && Guard(c.conds[k - 1], schema).value.values != [];
    }
  }
}
