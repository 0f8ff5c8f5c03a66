/** The hierarchical join of rust/src/graph.rs: what it emits for a change on either side, what
    the receiver makes of it, and what a fetch that re-enters the join in the middle of a child
    fan-out sees. */
module Join {
  import opened Values
  import opened Order
  import opened Lists
  import opened Changes
  import MS = MemorySource
  import CU = Cursor
  import R = Receiver

  datatype JoinSpec = JoinSpec(
    parentKey: seq<ColId>, childKey: seq<ColId>,
    parentSort: Sort, childSort: Sort,
    childPk: seq<ColId>, childSchemaSort: Sort)

  predicate Paired(j: JoinSpec) {
    |j.parentKey| == |j.childKey|
  }

  // ---- matching ----

  /** `is_join_match`: null never matches. */
  predicate IsJoinMatch(j: JoinSpec, parent: Row, child: Row)
    requires Paired(j)
  {
    forall i :: 0 <= i < |j.parentKey| ==> ValuesEqual(Col(parent, j.parentKey[i]), Col(child, j.childKey[i]))
  }

  /** `build_join_constraint`: `None` when a key cell is null. */
  method BuildJoinConstraint(from: Row, fromKey: seq<ColId>, toKey: seq<ColId>) returns (c: Option<MS.Constraint>)
    requires |fromKey| == |toKey|
    ensures c == Constraint(from, fromKey, toKey)
  {
    var out: MS.Constraint := [];
    var i := 0;
    assert fromKey[0..] == fromKey && toKey[0..] == toKey;
    Prefixing([], Constraint(from, fromKey, toKey));
    while i < |fromKey|
      invariant i <= |fromKey|
      invariant Constraint(from, fromKey, toKey) == Prefixed(out, Constraint(from, fromKey[i..], toKey[i..]))
    {
      assert fromKey[i..][1..] == fromKey[i + 1..] && toKey[i..][1..] == toKey[i + 1..];
      var v := Col(from, fromKey[i]);
      if v.Null? { return None; }
      assert Constraint(from, fromKey[i..], toKey[i..])
        == Prefixed([(toKey[i], v)], Constraint(from, fromKey[i + 1..], toKey[i + 1..]));
      PrefixTwice(out, [(toKey[i], v)], Constraint(from, fromKey[i + 1..], toKey[i + 1..]));
      out := out + [(toKey[i], v)];
      i := i + 1;
    }
    assert out + [] == out;
    c := Some(out);
  }

  function Prefixed(out: MS.Constraint, rest: Option<MS.Constraint>): Option<MS.Constraint> {
    if rest.None? then None else Some(out + rest.value)
  }

  lemma Prefixing(out: MS.Constraint, rest: Option<MS.Constraint>)
    ensures out == [] ==> Prefixed(out, rest) == rest
  {
    if rest.Some? { assert [] + rest.value == rest.value; }
  }

  lemma PrefixTwice(a: MS.Constraint, b: MS.Constraint, rest: Option<MS.Constraint>)
    ensures Prefixed(a, Prefixed(b, rest)) == Prefixed(a + b, rest)
  {
    if rest.Some? { assert a + (b + rest.value) == a + b + rest.value; }
  }

  function Constraint(from: Row, fromKey: seq<ColId>, toKey: seq<ColId>): Option<MS.Constraint>
    requires |fromKey| == |toKey|
  {
    if fromKey == [] then Some([])
    else if Col(from, fromKey[0]).Null? then None
    else
      match Constraint(from, fromKey[1..], toKey[1..])
      case None => None
      case Some(rest) => Some([(toKey[0], Col(from, fromKey[0]))] + rest)
  }

  predicate MatchOn(from: Row, fromKey: seq<ColId>, to: Row, toKey: seq<ColId>)
    requires |fromKey| == |toKey|
  {
    forall i :: 0 <= i < |fromKey| ==> ValuesEqual(Col(to, toKey[i]), Col(from, fromKey[i]))
  }

  /** A constrained fetch finds exactly the rows that match; a null key finds none. */
  lemma {:induction false} ConstraintMatches(from: Row, fromKey: seq<ColId>, toKey: seq<ColId>, to: Row)
    requires |fromKey| == |toKey|
    ensures var c := Constraint(from, fromKey, toKey);
      MatchOn(from, fromKey, to, toKey) <==> c.Some? && MS.Matches(to, c.value)
  {
    if fromKey != [] {
      ConstraintMatches(from, fromKey[1..], toKey[1..], to);
      MatchHead(from, fromKey, to, toKey);
      var rest := Constraint(from, fromKey[1..], toKey[1..]);
      if rest.Some? && !Col(from, fromKey[0]).Null? {
        MatchesHead(to, (toKey[0], Col(from, fromKey[0])), rest.value);
      }
    }
  }

  lemma MatchHead(from: Row, fromKey: seq<ColId>, to: Row, toKey: seq<ColId>)
    requires |fromKey| == |toKey| && fromKey != []
    ensures MatchOn(from, fromKey, to, toKey)
      <==> ValuesEqual(Col(to, toKey[0]), Col(from, fromKey[0])) && MatchOn(from, fromKey[1..], to, toKey[1..])
  {
    if ValuesEqual(Col(to, toKey[0]), Col(from, fromKey[0])) && MatchOn(from, fromKey[1..], to, toKey[1..]) {
      forall i | 0 <= i < |fromKey| ensures ValuesEqual(Col(to, toKey[i]), Col(from, fromKey[i])) {
        if i > 0 { assert fromKey[1..][i - 1] == fromKey[i] && toKey[1..][i - 1] == toKey[i]; }
      }
    }
  }

  lemma MatchesHead(r: Row, e: (ColId, Value), rest: MS.Constraint)
    ensures MS.Matches(r, [e] + rest) <==> ValuesEqual(Col(r, e.0), e.1) && MS.Matches(r, rest)
  {
    var c := [e] + rest;
    assert forall i :: 0 <= i < |rest| ==> c[i + 1] == rest[i];
    if MS.Matches(r, c) { assert c[0] == e; }
  }

  /** Both directions of the join use the one relation. */
  lemma {:induction false} JoinMatches(j: JoinSpec, parent: Row, child: Row)
    requires Paired(j)
    ensures IsJoinMatch(j, parent, child) <==> MatchOn(child, j.childKey, parent, j.parentKey)
    ensures IsJoinMatch(j, parent, child) <==> MatchOn(parent, j.parentKey, child, j.childKey)
  {
    forall i | 0 <= i < |j.parentKey|
      ensures ValuesEqual(Col(parent, j.parentKey[i]), Col(child, j.childKey[i])) <==>
        ValuesEqual(Col(child, j.childKey[i]), Col(parent, j.parentKey[i]))
    {
      ValueLaws(Col(parent, j.parentKey[i]), Col(child, j.childKey[i]));
    }
    if MatchOn(parent, j.parentKey, child, j.childKey) {
      forall i | 0 <= i < |j.parentKey| ensures ValuesEqual(Col(parent, j.parentKey[i]), Col(child, j.childKey[i])) {
        assert ValuesEqual(Col(child, j.childKey[i]), Col(parent, j.parentKey[i]));
      }
    }
  }

  function ChildOf(j: JoinSpec, parent: Row): Row -> bool
    requires Paired(j)
  {
    (c: Row) => IsJoinMatch(j, parent, c)
  }

  function ParentOf(j: JoinSpec, child: Row): Row -> bool
    requires Paired(j)
  {
    (p: Row) => IsJoinMatch(j, p, child)
  }

  /** The constrained fetch a join performs on either input, over rows in the input's order. */
  function Fetched(rows: seq<Row>, c: Option<MS.Constraint>): seq<Row> {
    match c case None => [] case Some(k) => CU.Filter(MS.MatchesP(k), rows)
  }

  lemma {:induction false} FetchedChildren(j: JoinSpec, parent: Row, rows: seq<Row>)
    requires Paired(j)
    ensures Fetched(rows, Constraint(parent, j.parentKey, j.childKey)) == CU.Filter(ChildOf(j, parent), rows)
  {
    hide CU.Filter;
    var c := Constraint(parent, j.parentKey, j.childKey);
    forall r ensures ChildOf(j, parent)(r) <==> c.Some? && MS.Matches(r, c.value) {
      JoinMatches(j, parent, r);
      ConstraintMatches(parent, j.parentKey, j.childKey, r);
    }
    if c.Some? {
      FilterSame(ChildOf(j, parent), MS.MatchesP(c.value), rows);
    } else {
      CU.FilterNone(ChildOf(j, parent), rows);
    }
  }

  lemma {:induction false} FetchedParents(j: JoinSpec, child: Row, rows: seq<Row>)
    requires Paired(j)
    ensures Fetched(rows, Constraint(child, j.childKey, j.parentKey)) == CU.Filter(ParentOf(j, child), rows)
  {
    hide CU.Filter;
    var c := Constraint(child, j.childKey, j.parentKey);
    forall r ensures ParentOf(j, child)(r) <==> c.Some? && MS.Matches(r, c.value) {
      JoinMatches(j, r, child);
      ConstraintMatches(child, j.childKey, j.parentKey, r);
    }
    if c.Some? {
      FilterSame(ParentOf(j, child), MS.MatchesP(c.value), rows);
    } else {
      CU.FilterNone(ParentOf(j, child), rows);
    }
  }

  lemma {:induction false} FilterSame(p: Row -> bool, q: Row -> bool, s: seq<Row>)
    requires forall r :: p(r) <==> q(r)
    ensures CU.Filter(p, s) == CU.Filter(q, s)
  {
    if s != [] { FilterSame(p, q, s[1..]); }
  }

  // ---- the fresh join tree ----

  function KidsOf(j: JoinSpec, parent: Row, children: seq<Row>): seq<Row>
    requires Paired(j)
  {
    CU.Filter(ChildOf(j, parent), children)
  }

  /** One node per row, each referenced once, with the child lists `g` gives it. */
  function TreeOf(rows: seq<Row>, g: Row -> seq<R.List>): (t: R.List)
    ensures |t| == |rows|
    ensures forall i :: 0 <= i < |rows| ==> t[i] == R.RecvNode(rows[i], 1, g(rows[i]))
  {
    seq(|rows|, i requires 0 <= i < |rows| => R.RecvNode(rows[i], 1, g(rows[i])))
  }

  function NoRels(): Row -> seq<R.List> {
    (_: Row) => []
  }

  function Leaves(rows: seq<Row>): R.List {
    TreeOf(rows, NoRels())
  }

  function ChildSchema(j: JoinSpec): R.Schema {
    R.Schema(j.childSort, [])
  }

  function ViewSchema(j: JoinSpec): R.Schema {
    R.Schema(j.parentSort, [Some(ChildSchema(j))])
  }

  function Under(j: JoinSpec, children: seq<Row>): Row -> seq<R.List>
    requires Paired(j)
  {
    (p: Row) => [Leaves(KidsOf(j, p, children))]
  }

  /** What a fresh query of the join holds. */
  function Fresh(j: JoinSpec, parents: seq<Row>, children: seq<Row>): R.List
    requires Paired(j)
  {
    TreeOf(parents, Under(j, children))
  }

  // ---- receiver operations on such trees ----

  lemma RowsOfTree(rows: seq<Row>, g: Row -> seq<R.List>)
    ensures R.RowsOf(TreeOf(rows, g)) == rows
  {
  }

  lemma TreeShape(sort: Sort, rows: seq<Row>, g: Row -> seq<R.List>)
    requires Sorted(SortLt(sort), rows)
    ensures R.Shape(sort, TreeOf(rows, g))
    ensures forall k :: R.Found(sort, TreeOf(rows, g), k) <==> Hit(SortLt(sort), rows, k)
    ensures forall k :: R.Place(sort, TreeOf(rows, g), k) == LowerBound(SortLt(sort), rows, k)
  {
    RowsOfTree(rows, g);
  }

  lemma TreeInsert(rows: seq<Row>, g: Row -> seq<R.List>, p: nat, r: Row)
    requires p <= |rows|
    ensures R.InsertNode(TreeOf(rows, g), p, R.RecvNode(r, 1, g(r))) == TreeOf(rows[..p] + [r] + rows[p..], g)
  {
  }

  lemma TreeDrop(rows: seq<Row>, g: Row -> seq<R.List>, p: nat)
    requires p < |rows|
    ensures R.DropNode(TreeOf(rows, g), p) == TreeOf(rows[..p] + rows[p + 1..], g)
  {
  }

  lemma TreeSet(rows: seq<Row>, g: Row -> seq<R.List>, p: nat, r: Row)
    requires p < |rows| && g(r) == g(rows[p])
    ensures TreeOf(rows, g)[p := R.RecvNode(r, 1, g(r))] == TreeOf(rows[p := r], g)
  {
  }

  lemma {:induction false} AddOn(schema: R.Schema, rows: seq<Row>, g: Row -> seq<R.List>, node: R.WireNode)
    requires Sorted(SortLt(schema.sort), rows) && !Hit(SortLt(schema.sort), rows, node.row)
    requires R.BuildNode(node, schema) == R.RecvNode(node.row, 1, g(node.row))
    ensures R.ApplyAdd(TreeOf(rows, g), schema, node) == TreeOf(Insert(SortLt(schema.sort), rows, node.row), g)
  {
    hide *;
    TreeShape(schema.sort, rows, g);
    R.AddIs(TreeOf(rows, g), schema, node);
    InsertMiss(SortLt(schema.sort), rows, node.row);
    TreeInsert(rows, g, LowerBound(SortLt(schema.sort), rows, node.row), node.row);
  }

  lemma InsertMiss(lt: Lt, rows: seq<Row>, r: Row)
    requires !Hit(lt, rows, r)
    ensures var p := LowerBound(lt, rows, r); Insert(lt, rows, r) == rows[..p] + [r] + rows[p..]
  {
  }

  lemma {:induction false} RemoveHit(lt: Lt, rows: seq<Row>, r: Row)
    requires StrictWeak(lt) && Sorted(lt, rows) && r in rows
    ensures var p := LowerBound(lt, rows, r);
      && Hit(lt, rows, r) && p < |rows| && rows[p] == r
      && Order.Remove(lt, rows, r) == rows[..p] + rows[p + 1..]
  {
    HitIffPresent(lt, rows, r);
    Laws(lt, r, r, r);
    assert Lookup(lt, rows, r) == Some(r);
  }

  lemma {:induction false} RemoveOn(schema: R.Schema, rows: seq<Row>, g: Row -> seq<R.List>, row: Row)
    requires Sorted(SortLt(schema.sort), rows) && row in rows
    ensures R.ApplyRemove(TreeOf(rows, g), schema, row) == Some(TreeOf(Order.Remove(SortLt(schema.sort), rows, row), g))
  {
    hide *;
    var lt := SortLt(schema.sort);
    SortIsStrictWeak(schema.sort);
    TreeShape(schema.sort, rows, g);
    RemoveHit(lt, rows, row);
    var p := LowerBound(lt, rows, row);
    R.RemoveIs(TreeOf(rows, g), schema, row);
    R.VacatedIs(TreeOf(rows, g), p);
    TreeDrop(rows, g, p);
  }

  /** An edit whose new row keeps the children of the old one. */
  lemma {:induction false} EditOn(schema: R.Schema, rows: seq<Row>, g: Row -> seq<R.List>, old_: Row, new_: Row)
    requires Sorted(SortLt(schema.sort), rows) && Legal(SortLt(schema.sort), rows, Edit(old_, new_))
    requires g(old_) == g(new_)
    ensures R.ApplyEdit(TreeOf(rows, g), schema, old_, new_)
      == Some(TreeOf(Applied(SortLt(schema.sort), rows, Edit(old_, new_)), g))
  {
    hide *;
    var (lt, t) := (SortLt(schema.sort), TreeOf(rows, g));
    SortIsStrictWeak(schema.sort);
    TreeShape(schema.sort, rows, g);
    EditIsLegal(lt, rows, old_, new_);
    RemoveHit(lt, rows, old_);
    var p := LowerBound(lt, rows, old_);
    R.SameSortLaws(schema.sort, old_, new_, new_);
    R.SameSortIs(schema.sort, old_, new_);
    if SameKey(lt, old_, new_) {
      EditSameKey(lt, rows, old_, new_);
      R.EditSomewhere(t, schema, old_, new_);
      R.EditOpens(t, schema, old_, new_);
      TreeSet(rows, g, p, new_);
    } else {
      NotStuck(schema.sort, rows, g, old_, new_);
      R.EditIsMove(t, schema, old_, new_);
      R.VacatedIs(t, p);
      TreeDrop(rows, g, p);
      EditOtherKey(lt, rows, old_, new_);
      var rest := Order.Remove(lt, rows, old_);
      TreeShape(schema.sort, rest, g);
      R.ArrivedIs(schema.sort, TreeOf(rest, g), t[p], new_);
      TreeInsert(rest, g, LowerBound(lt, rest, new_), new_);
    }
  }

  lemma EditIsLegal(lt: Lt, rows: seq<Row>, old_: Row, new_: Row)
    requires Legal(lt, rows, Edit(old_, new_))
    ensures old_ in rows && (SameKey(lt, old_, new_) || !Hit(lt, rows, new_))
  {
  }

  lemma {:induction false} EditSameKey(lt: Lt, rows: seq<Row>, old_: Row, new_: Row)
    requires StrictWeak(lt) && Sorted(lt, rows) && old_ in rows && SameKey(lt, old_, new_)
    ensures var p := LowerBound(lt, rows, old_); p < |rows| && Applied(lt, rows, Edit(old_, new_)) == rows[p := new_]
  {
    hide Order.Remove;
    hide Insert;
    RemoveHit(lt, rows, old_);
    var p := LowerBound(lt, rows, old_);
    hide LowerBound;
    var (f, z) := (rows[..p], rows[p + 1..]);
    assert rows == f + [old_] + z;
    TailSorted(lt, f, old_, z);
    Headed(lt, old_, new_, z);
    EditTop(lt, f, old_, new_, z);
    if old_ == new_ { DropTop(lt, f, old_, z); AddTop(lt, f, old_, z); }
    assert rows[p := new_] == f + [new_] + z;
  }

  lemma Headed(lt: Lt, x: Row, y: Row, z: seq<Row>)
    requires StrictWeak(lt) && Sorted(lt, [x] + z) && SameKey(lt, x, y)
    ensures Sorted(lt, [y] + z)
  {
    forall i, j | 0 <= i < j < |[y] + z| ensures lt(([y] + z)[i], ([y] + z)[j]) {
      assert lt(([x] + z)[i], ([x] + z)[j]);
      if i == 0 { Laws(lt, x, y, ([x] + z)[j]); }
    }
  }

  lemma {:induction false} EditOtherKey(lt: Lt, rows: seq<Row>, old_: Row, new_: Row)
    requires StrictWeak(lt) && Sorted(lt, rows) && old_ in rows && !SameKey(lt, old_, new_) && !Hit(lt, rows, new_)
    ensures var rest := Order.Remove(lt, rows, old_);
      && Sorted(lt, rest) && !Hit(lt, rest, new_)
      && Applied(lt, rows, Edit(old_, new_))
        == rest[..LowerBound(lt, rest, new_)] + [new_] + rest[LowerBound(lt, rest, new_)..]
  {
    hide Order.Remove;
    hide Hit;
    var rest := Order.Remove(lt, rows, old_);
    RemoveActsAsErasure(lt, rows, old_, new_);
    MS.LookupHits(lt, rows, new_);
    MS.LookupHits(lt, rest, new_);
    InsertMiss(lt, rest, new_);
  }

  /** A destination that is absent is not the next node's key. */
  lemma {:induction false} NotStuck(sort: Sort, rows: seq<Row>, g: Row -> seq<R.List>, old_: Row, new_: Row)
    requires Sorted(SortLt(sort), rows) && Hit(SortLt(sort), rows, old_) && !Hit(SortLt(sort), rows, new_)
    ensures !R.Stuck(sort, TreeOf(rows, g), old_, new_)
  {
    hide Hit;
    hide LowerBound;
    hide SortLt;
    TreeShape(sort, rows, g);
    var t := TreeOf(rows, g);
    R.StuckIs(sort, t, old_, new_);
    var p := R.Place(sort, t, old_);
    SortIsStrictWeak(sort);
    HitIffPresent(SortLt(sort), rows, new_);
    if p + 1 < |t| { assert t[p + 1].row == rows[p + 1] && rows[p + 1] in rows; }
  }

  // ---- parent-side changes ----

  function WireLeaves(rows: seq<Row>): (w: seq<R.WireNode>)
    ensures |w| == |rows|
    ensures forall i :: 0 <= i < |rows| ==> w[i] == R.WireNode(rows[i], [])
  {
    seq(|rows|, i requires 0 <= i < |rows| => R.WireNode(rows[i], []))
  }

  /** `process_parent_node`, drained: the parent row with the children its constraint fetches. */
  function Processed(j: JoinSpec, parent: Row, children: seq<Row>): R.WireNode
    requires Paired(j)
  {
    R.WireNode(parent, [R.WireRel(0, WireLeaves(Fetched(children, Constraint(parent, j.parentKey, j.childKey))))])
  }

  /** `row_equals_for_compound_key`: null equals null. */
  predicate SameOn(a: Row, b: Row, key: seq<ColId>) {
    forall i :: 0 <= i < |key| ==> CompareValues(Col(a, key[i]), Col(b, key[i])).Equal?
  }

  /** Two rows agree on a key exactly when its cells are the same, nulls included. */
  lemma SameOnIs(a: Row, b: Row, key: seq<ColId>)
    ensures SameOn(a, b, key) <==> forall i :: 0 <= i < |key| ==> Col(a, key[i]) == Col(b, key[i])
  {
    forall i | 0 <= i < |key|
      ensures CompareValues(Col(a, key[i]), Col(b, key[i])).Equal? <==> Col(a, key[i]) == Col(b, key[i])
    {
      ValueLaws(Col(a, key[i]), Col(b, key[i]));
    }
  }

  /** An edit goes out exactly when it keeps every cell of the join key. */
  lemma EditRefusedIff(j: JoinSpec, children: seq<Row>, old_: Row, p: Row)
    requires Paired(j)
    ensures ParentPush(j, children, Edit(old_, p)) ==
      if forall i :: 0 <= i < |j.parentKey| ==> Col(old_, j.parentKey[i]) == Col(p, j.parentKey[i])
      then [R.CaughtEdit(old_, p)] else []
  {
    SameOnIs(old_, p, j.parentKey);
  }

  /** The parent side of `join_push`; an edit that moves the join key is refused. */
  function ParentPush(j: JoinSpec, children: seq<Row>, change: SourceChange): seq<R.CaughtChange>
    requires Paired(j)
  {
    match change
    case Add(p) => [R.CaughtAdd(Processed(j, p, children))]
    case Remove(p) => [R.CaughtRemove(Processed(j, p, children))]
    case Edit(old_, p) => if SameOn(old_, p, j.parentKey) then [R.CaughtEdit(old_, p)] else []
  }

  function FlatAll(cs: seq<R.CaughtChange>): (fs: seq<R.FlatChange>)
    ensures |fs| == |cs|
    ensures forall i :: 0 <= i < |cs| ==> fs[i] == R.Flat(cs[i])
  {
    seq(|cs|, i requires 0 <= i < |cs| => R.Flat(cs[i]))
  }

  lemma {:induction false} InsertLast(lt: Lt, s: seq<Row>, m: nat)
    requires StrictWeak(lt) && Sorted(lt, s) && m < |s|
    ensures Sorted(lt, s[..m]) && !Hit(lt, s[..m], s[m]) && Insert(lt, s[..m], s[m]) == s[..m + 1]
  {
    hide Insert;
    hide LowerBound;
    hide Hit;
    assert s[..m] + [] == s[..m] && s[..m] + [s[m]] + [] == s[..m + 1];
    AtCut(lt, s[..m], [], s[m]);
  }

  lemma {:induction false} BuiltLeaves(schema: R.Schema, node: R.WireNode, kids: seq<Row>, m: nat)
    requires schema.rels == [] && |node.rels| == 1 && node.rels[0].kids == WireLeaves(kids)
    requires Sorted(SortLt(schema.sort), kids) && m <= |kids|
    ensures R.BuildKids(node, 0, m, schema) == Leaves(kids[..m])
  {
    hide *;
    if m == 0 {
      R.NoTree(node, 0, schema);
      assert Leaves(kids[..0]) == [] by { LeavesNil(); assert kids[..0] == []; }
    } else {
      BuiltLeaves(schema, node, kids, m - 1);
      R.KidsStep(node, 0, m, schema);
      SortIsStrictWeak(schema.sort);
      InsertLast(SortLt(schema.sort), kids, m - 1);
      var leaf := R.WireNode(kids[m - 1], []);
      LeafBuilt(schema, leaf);
      LeavesIs(kids[..m - 1]);
      LeavesIs(kids[..m]);
      AddOn(schema, kids[..m - 1], NoRels(), leaf);
    }
  }

  lemma LeavesNil()
    ensures Leaves([]) == []
  {
  }

  lemma LeavesIs(rows: seq<Row>)
    ensures Leaves(rows) == TreeOf(rows, NoRels())
  {
  }

  lemma LeafBuilt(schema: R.Schema, leaf: R.WireNode)
    requires schema.rels == [] && leaf.rels == []
    ensures R.BuildNode(leaf, schema) == R.RecvNode(leaf.row, 1, NoRels()(leaf.row))
  {
    assert R.BuildRels(leaf, 0, schema) == [];
  }

  lemma {:induction false} KidsSorted(j: JoinSpec, parent: Row, children: seq<Row>)
    requires Paired(j) && Sorted(SortLt(j.childSort), children)
    ensures Sorted(SortLt(j.childSort), KidsOf(j, parent, children))
  {
    PartSorted(SortLt(j.childSort), ChildOf(j, parent), children);
  }

  /** A processed parent node builds into its fresh subtree. */
  lemma {:induction false} ProcessedBuilds(j: JoinSpec, parent: Row, children: seq<Row>)
    requires Paired(j) && Sorted(SortLt(j.childSort), children)
    ensures R.BuildNode(Processed(j, parent, children), ViewSchema(j))
      == R.RecvNode(parent, 1, Under(j, children)(parent))
  {
    var node := Processed(j, parent, children);
    var kids := KidsOf(j, parent, children);
    FetchedChildren(j, parent, children);
    KidsSorted(j, parent, children);
    BuiltLeaves(ChildSchema(j), node, kids, |kids|);
    hide CU.Filter;
    hide R.BuildKids;
    assert kids[..|kids|] == kids;
    assert R.BuildRels(node, 0, ViewSchema(j)) == [[]];
    assert R.BuildRels(node, 1, ViewSchema(j)) == [Leaves(kids)];
  }

  lemma {:induction false} SameKids(j: JoinSpec, a: Row, b: Row, children: seq<Row>)
    requires Paired(j) && SameOn(a, b, j.parentKey)
    ensures Under(j, children)(a) == Under(j, children)(b)
  {
    forall c ensures ChildOf(j, a)(c) <==> ChildOf(j, b)(c) { SameMatch(j, a, b, c); }
    FilterSame(ChildOf(j, a), ChildOf(j, b), children);
  }

  lemma SameMatch(j: JoinSpec, a: Row, b: Row, c: Row)
    requires Paired(j) && SameOn(a, b, j.parentKey)
    ensures ChildOf(j, a)(c) <==> ChildOf(j, b)(c)
  {
    forall i | 0 <= i < |j.parentKey| ensures Col(a, j.parentKey[i]) == Col(b, j.parentKey[i]) {
      assert CompareValues(Col(a, j.parentKey[i]), Col(b, j.parentKey[i])).Equal?;
      ValueLaws(Col(a, j.parentKey[i]), Col(b, j.parentKey[i]));
    }
  }

  lemma AllOne(list: R.List, schema: R.Schema, c: R.CaughtChange)
    requires !c.CaughtChild?
    ensures R.ApplyAll(list, schema, FlatAll([c])) == R.ApplyOp(list, schema, R.OpOf(c))
  {
    var f := R.FlatChange([], R.OpOf(c));
    assert FlatAll([c]) == [f] && [f][..0] == [];
  }

  /** Parent-side maintenance, end to end: folding what the join emits, flattened, into the
      receiver's tree for the old rows gives the fresh join tree of the new rows. */
  lemma {:induction false} ParentMaintains(j: JoinSpec, parents: seq<Row>, children: seq<Row>, change: SourceChange)
    requires Paired(j) && Sorted(SortLt(j.parentSort), parents) && Sorted(SortLt(j.childSort), children)
    requires Legal(SortLt(j.parentSort), parents, change)
    requires change.Edit? ==> SameOn(change.old_, change.row, j.parentKey)
    ensures R.ApplyAll(Fresh(j, parents, children), ViewSchema(j), FlatAll(ParentPush(j, children, change)))
         == Some(Fresh(j, Applied(SortLt(j.parentSort), parents, change), children))
  {
    hide *;
    var (schema, g) := (ViewSchema(j), Under(j, children));
    ViewSchemaIs(j);
    FreshIs(j, parents, children);
    FreshIs(j, Applied(SortLt(j.parentSort), parents, change), children);
    ParentPushIs(j, children, change);
    AppliedIs(SortLt(j.parentSort), parents, change);
    var t := TreeOf(parents, g);
    match change {
      case Add(p) =>
        ProcessedBuilds(j, p, children);
        ProcessedRow(j, p, children);
        AllOne(t, schema, R.CaughtAdd(Processed(j, p, children)));
        OpOfIs(R.CaughtAdd(Processed(j, p, children)));
        R.OpIs(t, schema, R.Add(Processed(j, p, children)));
        AddOn(schema, parents, g, Processed(j, p, children));
      case Remove(p) =>
        ProcessedRow(j, p, children);
        AllOne(t, schema, R.CaughtRemove(Processed(j, p, children)));
        OpOfIs(R.CaughtRemove(Processed(j, p, children)));
        R.OpIs(t, schema, R.Remove(p));
        RemoveOn(schema, parents, g, p);
      case Edit(old_, p) =>
        SameKids(j, old_, p, children);
        AllOne(t, schema, R.CaughtEdit(old_, p));
        OpOfIs(R.CaughtEdit(old_, p));
        R.OpIs(t, schema, R.Edit(old_, p));
        EditOn(schema, parents, g, old_, p);
    }
  }

  lemma ViewSchemaIs(j: JoinSpec)
    ensures ViewSchema(j).sort == j.parentSort && ViewSchema(j).rels == [Some(ChildSchema(j))]
    ensures ChildSchema(j).sort == j.childSort && ChildSchema(j).rels == []
    ensures R.RelChild(ViewSchema(j), 0) == Some(ChildSchema(j))
  {
  }

  lemma FreshIs(j: JoinSpec, parents: seq<Row>, children: seq<Row>)
    requires Paired(j)
    ensures Fresh(j, parents, children) == TreeOf(parents, Under(j, children))
  {
  }

  lemma ParentPushIs(j: JoinSpec, children: seq<Row>, change: SourceChange)
    requires Paired(j)
    ensures change.Add? ==> ParentPush(j, children, change) == [R.CaughtAdd(Processed(j, change.row, children))]
    ensures change.Remove? ==> ParentPush(j, children, change) == [R.CaughtRemove(Processed(j, change.row, children))]
    ensures change.Edit? && SameOn(change.old_, change.row, j.parentKey) ==>
      ParentPush(j, children, change) == [R.CaughtEdit(change.old_, change.row)]
  {
  }

  lemma AppliedIs(lt: Lt, s: seq<Row>, c: SourceChange)
    requires Legal(lt, s, c)
    ensures c.Add? ==> Applied(lt, s, c) == Insert(lt, s, c.row) && !Hit(lt, s, c.row)
    ensures c.Remove? ==> Applied(lt, s, c) == Order.Remove(lt, s, c.row) && c.row in s
  {
  }

  lemma ProcessedRow(j: JoinSpec, parent: Row, children: seq<Row>)
    requires Paired(j)
    ensures Processed(j, parent, children).row == parent
  {
  }

  lemma OpOfIs(c: R.CaughtChange)
    requires !c.CaughtChild?
    ensures c.CaughtAdd? ==> R.OpOf(c) == R.Add(c.node)
    ensures c.CaughtRemove? ==> R.OpOf(c) == R.Remove(c.node.row)
    ensures c.CaughtEdit? ==> R.OpOf(c) == R.Edit(c.old_, c.row)
  {
  }

  // ---- child-side changes: one parent's children ----

  /** The change keeps the join key, so it concerns the same parents before and after. */
  predicate KeepsKey(j: JoinSpec, change: SourceChange) {
    change.Edit? ==> SameOn(change.old_, change.row, j.childKey)
  }

  lemma OldMatches(j: JoinSpec, parent: Row, change: SourceChange)
    requires Paired(j) && change.Edit? && KeepsKey(j, change)
    ensures IsJoinMatch(j, parent, change.old_) <==> IsJoinMatch(j, parent, change.row)
  {
    forall i | 0 <= i < |j.childKey| ensures Col(change.old_, j.childKey[i]) == Col(change.row, j.childKey[i]) {
      assert CompareValues(Col(change.old_, j.childKey[i]), Col(change.row, j.childKey[i])).Equal?;
      ValueLaws(Col(change.old_, j.childKey[i]), Col(change.row, j.childKey[i]));
    }
  }

  lemma {:induction false} LegalSame(lt: Lt, s: seq<Row>, c: SourceChange)
    requires StrictWeak(lt) && Sorted(lt, s) && Legal(lt, s, c)
    ensures MS.Net(s, c, Applied(lt, s, c)) && Sorted(lt, Applied(lt, s, c))
  {
    AppliedSorted(lt, s, c);
    MS.WriteNet(lt, lt, s, s, c);
  }

  /** A part of a set, chosen by a predicate that an edit does not cross, after a legal change: the
      change of the part, or the part untouched. */
  lemma {:induction false} PartAfter(sort: Sort, m: Row -> bool, rows: seq<Row>, change: SourceChange)
    requires Sorted(SortLt(sort), rows) && Legal(SortLt(sort), rows, change)
    requires change.Edit? ==> m(change.old_) == m(change.row)
    ensures var (lt, part) := (SortLt(sort), CU.Filter(m, rows));
      && Sorted(lt, part)
      && CU.Filter(m, Applied(lt, rows, change)) == (if m(change.row) then Applied(lt, part, change) else part)
      && (m(change.row) ==> Legal(lt, part, change))
  {
    hide *;
    var lt := SortLt(sort);
    var (part, rows') := (CU.Filter(m, rows), Applied(lt, rows, change));
    SortIsStrictWeak(sort);
    LegalSame(lt, rows, change);
    PartSorted(lt, m, rows);
    PartSorted(lt, m, rows');
    PartMembers(m, rows);
    PartMembers(m, rows');
    StrictLt(sort);
    if m(change.row) {
      LegalInPart(lt, m, rows, change);
      LegalSame(lt, part, change);
      NetPart(m, rows, part, change, rows', CU.Filter(m, rows'), Applied(lt, part, change));
      MS.SortedUnique(lt, CU.Filter(m, rows'), Applied(lt, part, change));
    } else {
      NetPart(m, rows, part, change, rows', CU.Filter(m, rows'), part);
      MS.SortedUnique(lt, CU.Filter(m, rows'), part);
    }
  }

  lemma {:induction false} PartSorted(lt: Lt, m: Row -> bool, rows: seq<Row>)
    requires Sorted(lt, rows)
    ensures Sorted(lt, CU.Filter(m, rows))
  {
    hide CU.Filter;
    MS.SortedPairs(lt, rows, m);
    MS.FilterSorted(lt, m, rows);
  }

  lemma {:induction false} PartMembers(m: Row -> bool, rows: seq<Row>)
    ensures forall r :: r in CU.Filter(m, rows) <==> r in rows && m(r)
  {
    forall r ensures r in CU.Filter(m, rows) <==> r in rows && m(r) { MS.FilterMembers(m, rows, r); }
  }

  /** The changed child set, seen from one parent, is that parent's children changed, or, for an
      unrelated parent, untouched. */
  lemma {:induction false} KidsAfter(j: JoinSpec, parent: Row, children: seq<Row>, change: SourceChange)
    requires Paired(j) && Sorted(SortLt(j.childSort), children) && Legal(SortLt(j.childSort), children, change)
    requires KeepsKey(j, change)
    ensures var lt := SortLt(j.childSort);
      var (kids, after) := (KidsOf(j, parent, children), KidsOf(j, parent, Applied(lt, children, change)));
      if IsJoinMatch(j, parent, change.row) then Legal(lt, kids, change) && after == Applied(lt, kids, change)
      else after == kids
  {
    hide *;
    if change.Edit? { OldMatches(j, parent, change); ChildOfIs(j, parent, change.old_); }
    ChildOfIs(j, parent, change.row);
    KidsIs(j, parent, children);
    KidsIs(j, parent, Applied(SortLt(j.childSort), children, change));
    PartAfter(j.childSort, ChildOf(j, parent), children, change);
  }

  lemma ChildOfIs(j: JoinSpec, parent: Row, child: Row)
    requires Paired(j)
    ensures ChildOf(j, parent)(child) <==> IsJoinMatch(j, parent, child)
  {
  }

  lemma StrictLt(sort: Sort)
    ensures forall x, y :: SortLt(sort)(x, y) ==> !SortLt(sort)(y, x)
  {
    SortIsStrictWeak(sort);
    AllLaws(SortLt(sort));
  }

  lemma {:induction false} KidsMembers(j: JoinSpec, parent: Row, children: seq<Row>)
    requires Paired(j)
    ensures forall r :: r in KidsOf(j, parent, children) <==> r in children && IsJoinMatch(j, parent, r)
  {
    forall r ensures r in KidsOf(j, parent, children) <==> r in children && IsJoinMatch(j, parent, r) {
      MS.FilterMembers(ChildOf(j, parent), children, r);
    }
  }

  lemma {:induction false} LegalInPart(lt: Lt, m: Row -> bool, rows: seq<Row>, change: SourceChange)
    requires StrictWeak(lt) && Sorted(lt, rows) && Legal(lt, rows, change)
    requires m(change.row) && (change.Edit? ==> m(change.old_))
    ensures Legal(lt, CU.Filter(m, rows), change)
  {
    hide CU.Filter;
    hide Hit;
    PartSorted(lt, m, rows);
    PartMembers(m, rows);
    HitIffPresent(lt, rows, change.row);
    HitIffPresent(lt, CU.Filter(m, rows), change.row);
  }

  /** Restricting to a part commutes with the net change. */
  lemma NetPart(m: Row -> bool, rows: seq<Row>, part: seq<Row>, change: SourceChange,
                rows': seq<Row>, after: seq<Row>, part': seq<Row>)
    requires MS.Net(rows, change, rows')
    requires forall r :: r in part <==> r in rows && m(r)
    requires forall r :: r in after <==> r in rows' && m(r)
    requires change.Edit? ==> (m(change.old_) <==> m(change.row))
    requires if m(change.row) then MS.Net(part, change, part') else part' == part
    ensures MS.SameMembers(after, part')
  {
  }

  /** The leaf change a parent's child list receives. */
  function LeafChange(change: SourceChange): R.CaughtChange {
    match change
    case Add(c) => R.CaughtAdd(R.WireNode(c, []))
    case Remove(c) => R.CaughtRemove(R.WireNode(c, []))
    case Edit(old_, c) => R.CaughtEdit(old_, c)
  }

  /** Delivered to one child list, a legal change gives the changed list. */
  lemma {:induction false} LeafMaintains(schema: R.Schema, kids: seq<Row>, change: SourceChange)
    requires schema.rels == [] && Sorted(SortLt(schema.sort), kids) && Legal(SortLt(schema.sort), kids, change)
    ensures !LeafChange(change).CaughtChild?
    ensures R.ApplyOp(Leaves(kids), schema, R.OpOf(LeafChange(change)))
      == Some(Leaves(Applied(SortLt(schema.sort), kids, change)))
  {
    hide *;
    LeafChangeIs(change);
    OpOfIs(LeafChange(change));
    AppliedIs(SortLt(schema.sort), kids, change);
    LeavesIs(kids);
    LeavesIs(Applied(SortLt(schema.sort), kids, change));
    R.OpIs(Leaves(kids), schema, R.OpOf(LeafChange(change)));
    match change {
      case Add(c) =>
        LeafBuilt(schema, R.WireNode(c, []));
        AddOn(schema, kids, NoRels(), R.WireNode(c, []));
      case Remove(c) => RemoveOn(schema, kids, NoRels(), c);
      case Edit(old_, c) =>
        NoRelsIs(old_, c);
        EditOn(schema, kids, NoRels(), old_, c);
    }
  }

  lemma LeafChangeIs(change: SourceChange)
    ensures !LeafChange(change).CaughtChild?
    ensures change.Add? ==> LeafChange(change) == R.CaughtAdd(R.WireNode(change.row, []))
    ensures change.Remove? ==> LeafChange(change) == R.CaughtRemove(R.WireNode(change.row, []))
    ensures change.Edit? ==> LeafChange(change) == R.CaughtEdit(change.old_, change.row)
  {
  }

  lemma NoRelsIs(a: Row, b: Row)
    ensures NoRels()(a) == NoRels()(b)
  {
  }

  // ---- child-side changes: the fan-out ----

  /** Parents in `late` still show the old children, all others the new ones. */
  function Mixed(j: JoinSpec, before: seq<Row>, after: seq<Row>, late: Row -> bool): Row -> seq<R.List>
    requires Paired(j)
  {
    (p: Row) => [Leaves(KidsOf(j, p, if late(p) then before else after))]
  }

  /** Matching parents not among those delivered. */
  function Late(j: JoinSpec, child: Row, done: seq<Row>): Row -> bool
    requires Paired(j)
  {
    (p: Row) => IsJoinMatch(j, p, child) && p !in done
  }

  lemma TreeSame(rows: seq<Row>, g: Row -> seq<R.List>, h: Row -> seq<R.List>)
    requires forall p :: p in rows ==> g(p) == h(p)
    ensures TreeOf(rows, g) == TreeOf(rows, h)
  {
  }

  /** One delivery changes one parent's child list. */
  lemma {:induction false} Delivered(schema: R.Schema, rows: seq<Row>, g: Row -> seq<R.List>, h: Row -> seq<R.List>,
      p: Row, leaf: R.CaughtChange)
    requires Sorted(SortLt(schema.sort), rows) && p in rows && |schema.rels| == 1 && schema.rels[0].Some?
    requires !leaf.CaughtChild?
    requires |g(p)| == 1 && |h(p)| == 1
    requires R.ApplyOp(g(p)[0], schema.rels[0].value, R.OpOf(leaf)) == Some(h(p)[0])
    requires forall q :: q in rows && q != p ==> g(q) == h(q)
    ensures R.Apply(TreeOf(rows, g), schema, R.Flat(R.CaughtChild(p, 0, leaf))) == Some(TreeOf(rows, h))
  {
    hide *;
    SortIsStrictWeak(schema.sort);
    var (t, lt) := (TreeOf(rows, g), SortLt(schema.sort));
    TreeShape(schema.sort, rows, g);
    RemoveHit(lt, rows, p);
    var i := LowerBound(lt, rows, p);
    FlatChild(p, leaf);
    R.ApplyIs(t, schema, R.Flat(R.CaughtChild(p, 0, leaf)));
    PathStep(t, schema, p, R.OpOf(leaf), h(p)[0]);
    forall k | 0 <= k < |rows| && k != i ensures rows[k] != p { Elsewhere(lt, rows, i, k); }
    TreeUpdated(rows, g, h, i);
  }

  lemma FlatChild(p: Row, leaf: R.CaughtChange)
    requires !leaf.CaughtChild?
    ensures R.Flat(R.CaughtChild(p, 0, leaf)) == R.FlatChange([R.PathSeg(0, p)], R.OpOf(leaf))
  {
    assert [R.PathSeg(0, p)] + [] == [R.PathSeg(0, p)];
  }

  lemma {:induction false} PathStep(t: R.List, schema: R.Schema, p: Row, op: R.FlatOp, kids: R.List)
    requires |schema.rels| == 1 && schema.rels[0].Some? && R.Found(schema.sort, t, p)
    requires var i := R.Place(schema.sort, t, p);
      i < |t| && |t[i].rels| == 1 && R.ApplyOp(t[i].rels[0], schema.rels[0].value, op) == Some(kids)
    ensures var i := R.Place(schema.sort, t, p);
      R.ApplyAt(t, schema, [R.PathSeg(0, p)], op) == Some(t[i := t[i].(rels := [kids])])
  {
    hide R.ApplyOp;
    hide R.Found;
    hide R.Place;
    var i := R.Place(schema.sort, t, p);
    var path := [R.PathSeg(0, p)];
    assert path[1..] == [];
    R.AtNil(t[i].rels[0], schema.rels[0].value, op);
    assert t[i].rels[0 := kids] == [kids];
  }

  lemma Elsewhere(lt: Lt, rows: seq<Row>, i: nat, k: nat)
    requires StrictWeak(lt) && Sorted(lt, rows) && i < |rows| && k < |rows| && i != k
    ensures rows[i] != rows[k]
  {
    Laws(lt, rows[i], rows[i], rows[i]);
    assert if i < k then lt(rows[i], rows[k]) else lt(rows[k], rows[i]);
  }

  lemma TreeUpdated(rows: seq<Row>, g: Row -> seq<R.List>, h: Row -> seq<R.List>, i: nat)
    requires i < |rows| && |h(rows[i])| == 1
    requires forall k :: 0 <= k < |rows| && k != i ==> g(rows[k]) == h(rows[k])
    ensures TreeOf(rows, g)[i := TreeOf(rows, g)[i].(rels := [h(rows[i])[0]])] == TreeOf(rows, h)
  {
    assert [h(rows[i])[0]] == h(rows[i]);
  }

  // ---- the live overlay ----

  /** `same_pk`: join equality on the primary key, so a null cell equals nothing. */
  predicate SamePk(a: Row, b: Row, pk: seq<ColId>) {
    forall i :: 0 <= i < |pk| ==> ValuesEqual(Col(a, pk[i]), Col(b, pk[i]))
  }

  predicate HasPk(nodes: seq<Row>, row: Row, pk: seq<ColId>) {
    exists i :: 0 <= i < |nodes| && SamePk(nodes[i], row, pk)
  }

  function Suppressed(nodes: seq<Row>, row: Row, pk: seq<ColId>): seq<Row> {
    if nodes == [] then []
    else if SamePk(nodes[0], row, pk) then nodes[1..]
    else [nodes[0]] + Suppressed(nodes[1..], row, pk)
  }

  function Readded(nodes: seq<Row>, row: Row, pk: seq<ColId>): seq<Row> {
    if HasPk(nodes, row, pk) then nodes else nodes + [row]
  }

  /** `splice_join_overlay_pre`: pull a post-change child list back to before the change. */
  function SplicePre(base: seq<Row>, change: SourceChange, pk: seq<ColId>, sort: Sort): seq<Row> {
    MS.StableSort(SortLt(sort), Undone(base, change, pk))
  }

  function Undone(base: seq<Row>, change: SourceChange, pk: seq<ColId>): seq<Row> {
    match change
    case Add(row) => Suppressed(base, row, pk)
    case Remove(row) => Readded(base, row, pk)
    case Edit(old_, row) => Readded(Suppressed(base, row, pk), old_, pk)
  }

  /** The suppressed row can be recognised by its key: an added or edited-in row has no null
      primary-key cell. */
  predicate CanSuppress(pk: seq<ColId>, change: SourceChange) {
    change.Remove? || SamePk(change.row, change.row, pk)
  }

  /** A set keyed by its primary key. */
  ghost predicate PkUnique(pk: seq<ColId>, s: seq<Row>) {
    forall a, b :: a in s && b in s && SameSortKey(MS.PrimarySort(pk), a, b) ==> a == b
  }

  lemma SamePkIs(a: Row, b: Row, pk: seq<ColId>)
    requires SamePk(a, b, pk)
    ensures SameSortKey(MS.PrimarySort(pk), a, b) && SamePk(b, b, pk)
  {
    MS.PrimaryColumns(pk);
    forall i | 0 <= i < |pk| ensures Col(a, pk[i]) == Col(b, pk[i]) && ValuesEqual(Col(b, pk[i]), Col(b, pk[i])) {
      ValueLaws(Col(a, pk[i]), Col(b, pk[i]));
      ValueLaws(Col(b, pk[i]), Col(b, pk[i]));
    }
    forall c | c in MS.PrimarySort(pk) ensures Col(a, c.0) == Col(b, c.0) {
      var i :| 0 <= i < |pk| && pk[i] == c.0;
    }
  }

  lemma {:induction false} SuppressNone(nodes: seq<Row>, row: Row, pk: seq<ColId>)
    requires forall i :: 0 <= i < |nodes| ==> !SamePk(nodes[i], row, pk)
    ensures Suppressed(nodes, row, pk) == nodes
  {
    hide SamePk;
    if nodes != [] {
      assert !SamePk(nodes[0], row, pk);
      SuppressNone(nodes[1..], row, pk);
      assert nodes == [nodes[0]] + nodes[1..];
    }
  }

  lemma {:induction false} SuppressOne(nodes: seq<Row>, row: Row, pk: seq<ColId>)
    requires NoRepeats(nodes) && row in nodes && SamePk(row, row, pk)
    requires forall n :: n in nodes && SamePk(n, row, pk) ==> n == row
    ensures NoRepeats(Suppressed(nodes, row, pk))
    ensures forall n :: n in Suppressed(nodes, row, pk) <==> n in nodes && n != row
  {
    if !SamePk(nodes[0], row, pk) {
      SuppressOne(nodes[1..], row, pk);
      var t := Suppressed(nodes[1..], row, pk);
      forall k | 0 <= k < |t| ensures t[k] != nodes[0] { assert t[k] in t && t[k] in nodes[1..]; }
    } else {
      assert nodes[0] == row;
      forall n ensures n in nodes[1..] <==> n in nodes && n != row {
        if n in nodes[1..] { var i :| 0 <= i < |nodes[1..]| && nodes[1..][i] == n; assert nodes[i + 1] == n; }
      }
    }
  }

  /** Suppression removes exactly the row, if its key can be recognised, else nothing. */
  lemma {:induction false} SuppressIs(nodes: seq<Row>, row: Row, pk: seq<ColId>)
    requires NoRepeats(nodes) && row in nodes && PkUnique(pk, nodes)
    ensures NoRepeats(Suppressed(nodes, row, pk))
    ensures SamePk(row, row, pk) ==> forall n :: n in Suppressed(nodes, row, pk) <==> n in nodes && n != row
    ensures !SamePk(row, row, pk) ==> Suppressed(nodes, row, pk) == nodes
  {
    forall n | n in nodes && SamePk(n, row, pk) ensures n == row && SamePk(row, row, pk) { SamePkIs(n, row, pk); }
    if SamePk(row, row, pk) { SuppressOne(nodes, row, pk); } else { SuppressNone(nodes, row, pk); }
  }

  lemma {:induction false} ReaddIs(nodes: seq<Row>, row: Row, pk: seq<ColId>)
    requires NoRepeats(nodes) && forall n :: n in nodes ==> !SamePk(n, row, pk)
    requires row !in nodes
    ensures NoRepeats(Readded(nodes, row, pk)) && Readded(nodes, row, pk) == nodes + [row]
    ensures forall n :: n in Readded(nodes, row, pk) <==> n in nodes || n == row
  {
  }

  /** The relation between a parent's children before and after a change. */
  ghost predicate Stepped(pk: seq<ColId>, kids: seq<Row>, change: SourceChange, kids': seq<Row>) {
    && MS.Net(kids, change, kids') && PkUnique(pk, kids) && PkUnique(pk, kids') && NoRepeats(kids) && NoRepeats(kids')
    && match change
       case Add(r) => r !in kids
       case Remove(r) => r in kids
       case Edit(old_, r) => old_ in kids && (r in kids ==> r == old_)
  }

  lemma {:induction false} Untouched(pk: seq<ColId>, kids: seq<Row>, gone: Row, n: Row)
    requires PkUnique(pk, kids) && gone in kids && n in kids && n != gone
    ensures !SamePk(n, gone, pk)
  {
    if SamePk(n, gone, pk) { SamePkIs(n, gone, pk); }
  }

  lemma {:induction false} UndoneIs(pk: seq<ColId>, kids: seq<Row>, change: SourceChange, kids': seq<Row>)
    requires Stepped(pk, kids, change, kids') && CanSuppress(pk, change)
    ensures NoRepeats(Undone(kids', change, pk)) && MS.SameMembers(Undone(kids', change, pk), kids)
  {
    hide Suppressed;
    hide Readded;
    match change {
      case Add(row) => SuppressIs(kids', row, pk);
      case Remove(row) =>
        forall n | n in kids' ensures !SamePk(n, row, pk) { Untouched(pk, kids, row, n); }
        ReaddIs(kids', row, pk);
      case Edit(old_, row) =>
        SuppressIs(kids', row, pk);
        var nodes := Suppressed(kids', row, pk);
        forall n | n in nodes ensures !SamePk(n, old_, pk) && n != old_ { Untouched(pk, kids, old_, n); }
        ReaddIs(nodes, old_, pk);
    }
  }

  /** A keyed set has no ties in an order that includes the key. */
  lemma {:induction false} KeyedNoTies(pk: seq<ColId>, sort: Sort, s: seq<Row>)
    requires NoRepeats(s) && PkUnique(pk, s) && MS.IncludesPk(sort, pk)
    ensures MS.NoTies(SortLt(sort), s)
  {
    forall i, j | 0 <= i < j < |s| ensures !SameKey(SortLt(sort), s[i], s[j]) {
      assert s[i] in s && s[j] in s;
      SortIsStrictWeak(MS.PrimarySort(pk));
      if SameKey(SortLt(sort), s[i], s[j]) { MS.Finer(sort, pk, s[i], s[j]); }
    }
  }

  lemma {:induction false} SortMembers(lt: Lt, rows: seq<Row>)
    ensures MS.SameMembers(MS.StableSort(lt, rows), rows) && |MS.StableSort(lt, rows)| == |rows|
  {
    if rows != [] {
      var (front, r) := (rows[..|rows| - 1], rows[|rows| - 1]);
      SortMembers(lt, front);
      MS.SortStep(lt, rows);
      PlacedLength(lt, MS.StableSort(lt, front), r);
      forall x ensures x in MS.StableSort(lt, rows) <==> x in rows {
        MS.PlacedMembers(lt, MS.StableSort(lt, front), r, x);
        assert rows == front + [r];
      }
    }
  }

  lemma {:induction false} PlacedLength(lt: Lt, s: seq<Row>, r: Row)
    ensures |MS.Placed(lt, s, r)| == |s| + 1
  {
    if s != [] && !lt(r, s[0]) { PlacedLength(lt, s[1..], r); }
  }

  /** A late parent gets back exactly its old children; in the child's own order, if that is its
      schema sort. */
  lemma {:induction false} SpliceRestores(pk: seq<ColId>, sort: Sort, kids: seq<Row>, change: SourceChange,
      kids': seq<Row>)
    requires Stepped(pk, kids, change, kids') && CanSuppress(pk, change) && MS.IncludesPk(sort, pk)
    ensures MS.SameMembers(SplicePre(kids', change, pk, sort), kids)
    ensures |SplicePre(kids', change, pk, sort)| == |Undone(kids', change, pk)|
    ensures Sorted(SortLt(sort), SplicePre(kids', change, pk, sort))
    ensures Sorted(SortLt(sort), kids) ==> SplicePre(kids', change, pk, sort) == kids
  {
    hide Undone;
    hide MS.StableSort;
    hide SortLt;
    var nodes := Undone(kids', change, pk);
    UndoneIs(pk, kids, change, kids');
    KeyedNoTies(pk, sort, nodes);
    SortIsStrictWeak(sort);
    MS.StableSortSorts(SortLt(sort), nodes);
    SortMembers(SortLt(sort), nodes);
    StrictLt(sort);
    if Sorted(SortLt(sort), kids) { MS.SortedUnique(SortLt(sort), SplicePre(kids', change, pk, sort), kids); }
  }

  /** Where the key of the new row has a null cell, the overlay cannot take it back, and a late
      parent sees the change early; everywhere else it is exact. */
  lemma {:induction false} SpliceExactIff(pk: seq<ColId>, sort: Sort, kids: seq<Row>, change: SourceChange,
      kids': seq<Row>)
    requires Stepped(pk, kids, change, kids') && MS.IncludesPk(sort, pk) && Sorted(SortLt(sort), kids)
    requires Sorted(SortLt(sort), kids')
    ensures SplicePre(kids', change, pk, sort) == kids <==> CanSuppress(pk, change)
  {
    hide MS.StableSort;
    hide SortLt;
    if CanSuppress(pk, change) {
      SpliceRestores(pk, sort, kids, change, kids');
    } else {
      var (row, nodes) := (change.row, Undone(kids', change, pk));
      SuppressIs(kids', row, pk);
      SortMembers(SortLt(sort), nodes);
      assert row in nodes;
      if change.Edit? && row == change.old_ {
        StrictLt(sort);
        MS.SortedUnique(SortLt(sort), kids, kids');
        forall n | n in kids' ensures !SamePk(n, row, pk) { if SamePk(n, row, pk) { SamePkIs(n, row, pk); } }
        assert nodes == kids' + [row];
      }
    }
  }

  /** A child added with a null key cell stays visible to a late parent. */
  lemma NullKeyExample()
    ensures var (pk, sort, row) := ([0], [(0, true)], [Null]);
      Stepped(pk, [], Add(row), [row]) && !CanSuppress(pk, Add(row)) && SplicePre([row], Add(row), pk, sort) == [row]
  {
    var (pk, sort, row) := ([0], [(0, true)], [Null]);
    assert !ValuesEqual(Col(row, pk[0]), Col(row, pk[0]));
    SuppressNone([row], row, pk);
    assert [row][..0] == [];
    assert MS.StableSort(SortLt(sort), []) == [];
    MS.SortStep(SortLt(sort), [row]);
    assert MS.Placed(SortLt(sort), [], row) == [row];
  }

  // ---- the fan-out with its live fields ----

  /** The children a parent's thunk yields: those its constraint fetches, pulled back to before
      the change while the parent is still ahead of the fan-out (`join_overlay_for`). */
  function Seen(j: JoinSpec, overlay: Option<SourceChange>, position: Option<Row>, parent: Row,
      children: seq<Row>): seq<Row>
    requires Paired(j)
  {
    var base := Fetched(children, Constraint(parent, j.parentKey, j.childKey));
    if overlay.Some? && position.Some? && IsJoinMatch(j, parent, overlay.value.row)
       && CompareRows(j.parentSort, parent, position.value).Greater?
    then SplicePre(base, overlay.value, j.childPk, j.childSchemaSort)
    else base
  }

  function SeenTree(j: JoinSpec, overlay: Option<SourceChange>, position: Option<Row>,
      children: seq<Row>): Row -> seq<R.List>
    requires Paired(j)
  {
    (p: Row) => [Leaves(Seen(j, overlay, position, p, children))]
  }

  /** What the fan-out needs of its inputs: ordered keyed sets and a legal change that keeps the
      join key. */
  ghost predicate Ready(j: JoinSpec, parents: seq<Row>, before: seq<Row>, change: SourceChange) {
    && Paired(j) && Sorted(SortLt(j.parentSort), parents) && Sorted(SortLt(j.childSort), before)
    && Legal(SortLt(j.childSort), before, change) && KeepsKey(j, change)
  }

  function After(j: JoinSpec, before: seq<Row>, change: SourceChange): seq<Row> {
    Applied(SortLt(j.childSort), before, change)
  }

  ghost predicate Keyed(j: JoinSpec, before: seq<Row>, change: SourceChange) {
    && MS.IncludesPk(j.childSchemaSort, j.childPk)
    && PkUnique(j.childPk, before) && PkUnique(j.childPk, After(j, before, change))
    && CanSuppress(j.childPk, change)
  }

  /** Deliveries so far turn the old tree into the mixed tree. */
  lemma {:induction false} Deliver(j: JoinSpec, parents: seq<Row>, before: seq<Row>, change: SourceChange, m: seq<Row>,
      k: nat)
    requires Ready(j, parents, before, change) && Paired(j) && m == CU.Filter(ParentOf(j, change.row), parents)
    requires k < |m|
    ensures !LeafChange(change).CaughtChild?
    ensures R.Apply(TreeOf(parents, Mixed(j, before, After(j, before, change), Late(j, change.row, m[..k]))),
      ViewSchema(j),
                    R.Flat(R.CaughtChild(m[k], 0, LeafChange(change))))
         == Some(TreeOf(parents, Mixed(j, before, After(j, before, change), Late(j, change.row, m[..k + 1]))))
  {
    hide *;
    var (after, p) := (After(j, before, change), m[k]);
    var (g, h) := (Mixed(j, before, after, Late(j, change.row, m[..k])),
      Mixed(j, before, after, Late(j, change.row, m[..k + 1])));
    ReadyIs(j, parents, before, change);
    ViewSchemaIs(j);
    MatchedAt(j, parents, change.row, m, k);
    KidsAfter(j, p, before, change);
    KidsSorted(j, p, before);
    LeafMaintains(ChildSchema(j), KidsOf(j, p, before), change);
    MixedIs(j, before, after, change.row, m[..k], p);
    MixedIs(j, before, after, change.row, m[..k + 1], p);
    assert m[..k + 1] == m[..k] + [p];
    forall q | q in parents && q != p ensures g(q) == h(q) {
      MixedIs(j, before, after, change.row, m[..k], q);
      MixedIs(j, before, after, change.row, m[..k + 1], q);
    }
    Delivered(ViewSchema(j), parents, g, h, p, LeafChange(change));
  }

  lemma ReadyIs(j: JoinSpec, parents: seq<Row>, before: seq<Row>, change: SourceChange)
    requires Ready(j, parents, before, change)
    ensures Paired(j) && Sorted(SortLt(j.parentSort), parents) && Sorted(SortLt(j.childSort), before)
    ensures Legal(SortLt(j.childSort), before, change) && KeepsKey(j, change)
    ensures After(j, before, change) == Applied(SortLt(j.childSort), before, change)
  {
  }

  /** The matching parents, in order and without repeats. */
  lemma {:induction false} MatchedAt(j: JoinSpec, parents: seq<Row>, child: Row, m: seq<Row>, k: nat)
    requires Paired(j) && Sorted(SortLt(j.parentSort), parents) && m == CU.Filter(ParentOf(j, child), parents)
    requires k < |m|
    ensures m[k] in parents && IsJoinMatch(j, m[k], child) && m[k] !in m[..k]
    ensures Sorted(SortLt(j.parentSort), m)
    ensures forall q :: q in m <==> q in parents && IsJoinMatch(j, q, child)
  {
    var lt := SortLt(j.parentSort);
    forall q ensures q in m <==> q in parents && IsJoinMatch(j, q, child) {
      MS.FilterMembers(ParentOf(j, child), parents, q);
    }
    MS.SortedPairs(lt, parents, ParentOf(j, child));
    MS.FilterSorted(lt, ParentOf(j, child), parents);
    SortIsStrictWeak(j.parentSort);
    hide CU.Filter;
    hide SortLt;
    assert m[k] in m;
    forall i | 0 <= i < k ensures m[i] != m[k] { Elsewhere(lt, m, i, k); }
  }

  lemma MixedIs(j: JoinSpec, before: seq<Row>, after: seq<Row>, child: Row, done: seq<Row>, p: Row)
    requires Paired(j)
    ensures Mixed(j, before, after, Late(j, child, done))(p)
         == [Leaves(KidsOf(j, p, if IsJoinMatch(j, p, child) && p !in done then before else after))]
  {
  }

  lemma UnderIs(j: JoinSpec, children: seq<Row>, p: Row)
    requires Paired(j)
    ensures Under(j, children)(p) == [Leaves(KidsOf(j, p, children))]
  {
  }

  /** Before the first delivery downstream holds the old tree, after the last the new one. */
  lemma {:induction false} FanEnds(j: JoinSpec, parents: seq<Row>, before: seq<Row>, change: SourceChange, m: seq<Row>)
    requires Ready(j, parents, before, change) && Paired(j) && m == CU.Filter(ParentOf(j, change.row), parents)
    ensures TreeOf(parents, Mixed(j, before, After(j, before, change), Late(j, change.row, [])))
      == Fresh(j, parents, before)
    ensures TreeOf(parents, Mixed(j, before, After(j, before, change), Late(j, change.row, m)))
      == Fresh(j, parents, After(j, before, change))
  {
    hide *;
    var after := After(j, before, change);
    ReadyIs(j, parents, before, change);
    FreshIs(j, parents, before);
    FreshIs(j, parents, after);
    forall p | p in parents
      ensures Mixed(j, before, after, Late(j, change.row, []))(p) == Under(j, before)(p)
      ensures Mixed(j, before, after, Late(j, change.row, m))(p) == Under(j, after)(p)
    {
      MixedIs(j, before, after, change.row, [], p);
      MixedIs(j, before, after, change.row, m, p);
      UnderIs(j, before, p);
      UnderIs(j, after, p);
      KidsAfter(j, p, before, change);
      MS.FilterMembers(ParentOf(j, change.row), parents, p);
      ParentOfIs(j, change.row, p);
    }
    TreeSame(parents, Mixed(j, before, after, Late(j, change.row, [])), Under(j, before));
    TreeSame(parents, Mixed(j, before, after, Late(j, change.row, m)), Under(j, after));
  }

  lemma ParentOfIs(j: JoinSpec, child: Row, p: Row)
    requires Paired(j)
    ensures ParentOf(j, child)(p) <==> IsJoinMatch(j, p, child)
  {
  }

  /** While parent `m[k]` is being delivered, each parent's thunk shows what downstream holds for
      it: as sets always, as lists when the child's order is its schema sort. */
  lemma {:induction false} SeenIs(j: JoinSpec, parents: seq<Row>, before: seq<Row>, change: SourceChange, m: seq<Row>,
      k: nat, p: Row)
    requires Ready(j, parents, before, change) && Paired(j) && Keyed(j, before, change)
    requires m == CU.Filter(ParentOf(j, change.row), parents) && k < |m| && p in parents
    ensures var seen := Seen(j, Some(change), Some(m[k]), p, After(j, before, change));
      var held := KidsOf(j, p,
        if IsJoinMatch(j, p, change.row) && p !in m[..k + 1] then before else After(j, before, change));
      && MS.SameMembers(seen, held)
      && (j.childSchemaSort == j.childSort ==> seen == held)
  {
    hide *;
    var after := After(j, before, change);
    ReadyIs(j, parents, before, change);
    KeyedIs(j, before, change);
    FetchedChildren(j, p, after);
    KidsIs(j, p, after);
    SeenOpens(j, change, m[k], p, after);
    MatchedAt(j, parents, change.row, m, k);
    KidsAfter(j, p, before, change);
    SameRefl(KidsOf(j, p, after));
    if IsJoinMatch(j, p, change.row) {
      AheadIff(j, m, k, p);
      SteppedFor(j, p, before, change);
      SpliceRestores(j.childPk, j.childSchemaSort, KidsOf(j, p, before), change, KidsOf(j, p, after));
      KidsSorted(j, p, before);
    }
  }

  lemma SameRefl(s: seq<Row>)
    ensures MS.SameMembers(s, s)
  {
  }

  lemma KidsIs(j: JoinSpec, p: Row, children: seq<Row>)
    requires Paired(j)
    ensures KidsOf(j, p, children) == CU.Filter(ChildOf(j, p), children)
  {
  }

  lemma KeyedIs(j: JoinSpec, before: seq<Row>, change: SourceChange)
    requires Keyed(j, before, change)
    ensures MS.IncludesPk(j.childSchemaSort, j.childPk) && CanSuppress(j.childPk, change)
    ensures PkUnique(j.childPk, before) && PkUnique(j.childPk, After(j, before, change))
  {
  }

  lemma SeenOpens(j: JoinSpec, change: SourceChange, position: Row, p: Row, children: seq<Row>)
    requires Paired(j)
    ensures var base := Fetched(children, Constraint(p, j.parentKey, j.childKey));
      Seen(j, Some(change), Some(position), p, children)
      == if IsJoinMatch(j, p, change.row) && SortLt(j.parentSort)(position, p) then
           SplicePre(base, change, j.childPk, j.childSchemaSort)
         else base
  {
    RowLaws(j.parentSort, p, position);
  }

  /** Among the matching parents, being past the position is not being delivered yet. */
  lemma {:induction false} AheadIff(j: JoinSpec, m: seq<Row>, k: nat, p: Row)
    requires Sorted(SortLt(j.parentSort), m) && k < |m| && p in m
    ensures SortLt(j.parentSort)(m[k], p) <==> p !in m[..k + 1]
  {
    var lt := SortLt(j.parentSort);
    SortIsStrictWeak(j.parentSort);
    AllLaws(lt);
    hide SortLt;
    var i :| 0 <= i < |m| && m[i] == p;
    if i <= k { assert m[..k + 1][i] == p; }
    else { forall a | 0 <= a <= k ensures m[a] != p { Elsewhere(lt, m, a, i); } }
  }

  /** One parent's children before and after are keyed sets a step apart. */
  lemma {:induction false} SteppedFor(j: JoinSpec, p: Row, before: seq<Row>, change: SourceChange)
    requires Paired(j) && Sorted(SortLt(j.childSort), before) && Legal(SortLt(j.childSort), before, change)
    requires KeepsKey(j, change)
    requires PkUnique(j.childPk, before) && PkUnique(j.childPk, After(j, before, change))
    requires IsJoinMatch(j, p, change.row)
    ensures Stepped(j.childPk, KidsOf(j, p, before), change, KidsOf(j, p, After(j, before, change)))
  {
    hide *;
    var lt := SortLt(j.childSort);
    SortIsStrictWeak(j.childSort);
    AfterIs(j, before, change);
    var (kids, kids') := (KidsOf(j, p, before), KidsOf(j, p, After(j, before, change)));
    KidsAfter(j, p, before, change);
    KidsSorted(j, p, before);
    LegalSame(lt, kids, change);
    KidsMembers(j, p, before);
    KidsMembers(j, p, After(j, before, change));
    PkPart(j.childPk, before, kids);
    PkPart(j.childPk, After(j, before, change), kids');
    SortedNoRepeats(lt, kids);
    SortedNoRepeats(lt, kids');
    LegalMembers(lt, kids, change);
    SteppedMade(j.childPk, kids, change, kids');
  }

  lemma AfterIs(j: JoinSpec, before: seq<Row>, change: SourceChange)
    ensures After(j, before, change) == Applied(SortLt(j.childSort), before, change)
  {
  }

  lemma PkPart(pk: seq<ColId>, s: seq<Row>, part: seq<Row>)
    requires PkUnique(pk, s) && forall r :: r in part ==> r in s
    ensures PkUnique(pk, part)
  {
  }

  lemma SortedNoRepeats(lt: Lt, s: seq<Row>)
    requires StrictWeak(lt) && Sorted(lt, s)
    ensures NoRepeats(s)
  {
    forall i, j | 0 <= i < j < |s| ensures s[i] != s[j] { Elsewhere(lt, s, i, j); }
  }

  lemma {:induction false} LegalMembers(lt: Lt, s: seq<Row>, c: SourceChange)
    requires StrictWeak(lt) && Sorted(lt, s) && Legal(lt, s, c)
    ensures c.Add? ==> c.row !in s
    ensures c.Remove? ==> c.row in s
    ensures c.Edit? ==> c.old_ in s && (c.row in s ==> c.row == c.old_)
  {
    hide Hit;
    Laws(lt, c.row, c.row, c.row);
    HitIffPresent(lt, s, c.row);
    if c.Edit? && c.row in s && SameKey(lt, c.old_, c.row) { KeyIdentifies(lt, s, c.old_, c.row); }
  }

  lemma SteppedMade(pk: seq<ColId>, kids: seq<Row>, c: SourceChange, kids': seq<Row>)
    requires MS.Net(kids, c, kids') && PkUnique(pk, kids) && PkUnique(pk, kids') && NoRepeats(kids) && NoRepeats(kids')
    requires c.Add? ==> c.row !in kids
    requires c.Remove? ==> c.row in kids
    requires c.Edit? ==> c.old_ in kids && (c.row in kids ==> c.row == c.old_)
    ensures Stepped(pk, kids, c, kids')
  {
  }

  /** Two trees with the same parents in order and, per parent, the same set of children. */
  ghost predicate Alike(t: R.List, u: R.List) {
    && |t| == |u|
    && forall i :: 0 <= i < |t| ==>
         && t[i].row == u[i].row && |t[i].rels| == |u[i].rels| == 1
         && MS.SameMembers(R.RowsOf(t[i].rels[0]), R.RowsOf(u[i].rels[0]))
  }

  /** A fetch at position `m[k]` shows the tree after delivery `k`. */
  lemma {:induction false} ViewIs(j: JoinSpec, parents: seq<Row>, before: seq<Row>, change: SourceChange, m: seq<Row>,
      k: nat)
    requires Ready(j, parents, before, change) && Paired(j) && Keyed(j, before, change)
    requires m == CU.Filter(ParentOf(j, change.row), parents) && k < |m|
    ensures var view := TreeOf(parents, SeenTree(j, Some(change), Some(m[k]), After(j, before, change)));
      var held := TreeOf(parents, Mixed(j, before, After(j, before, change), Late(j, change.row, m[..k + 1])));
      Alike(view, held) && (j.childSchemaSort == j.childSort ==> view == held)
  {
    hide *;
    var after := After(j, before, change);
    var (f, h) := (SeenTree(j, Some(change), Some(m[k]), after),
      Mixed(j, before, after, Late(j, change.row, m[..k + 1])));
    forall i | 0 <= i < |parents|
      ensures |f(parents[i])| == |h(parents[i])| == 1
      ensures MS.SameMembers(R.RowsOf(f(parents[i])[0]), R.RowsOf(h(parents[i])[0]))
      ensures j.childSchemaSort == j.childSort ==> f(parents[i]) == h(parents[i])
    {
      var p := parents[i];
      SeenIs(j, parents, before, change, m, k, p);
      SeenTreeIs(j, Some(change), Some(m[k]), after, p);
      MixedIs(j, before, after, change.row, m[..k + 1], p);
      LeavesRows(Seen(j, Some(change), Some(m[k]), p, after));
      LeavesRows(KidsOf(j, p, if IsJoinMatch(j, p, change.row) && p !in m[..k + 1] then before else after));
    }
    AlikeMade(parents, f, h);
    if j.childSchemaSort == j.childSort { TreeSame(parents, f, h); }
  }

  /** With no change in flight a fetch returns what a fresh query does. */
  lemma {:induction false} QuietFetch(j: JoinSpec, position: Option<Row>, parents: seq<Row>, children: seq<Row>)
    requires Paired(j)
    ensures TreeOf(parents, SeenTree(j, None, position, children)) == Fresh(j, parents, children)
  {
    hide *;
    FreshIs(j, parents, children);
    forall p ensures SeenTree(j, None, position, children)(p) == Under(j, children)(p) {
      SeenTreeIs(j, None, position, children, p);
      UnderIs(j, children, p);
      QuietSeen(j, position, p, children);
    }
    TreeSame(parents, SeenTree(j, None, position, children), Under(j, children));
  }

  lemma QuietSeen(j: JoinSpec, position: Option<Row>, p: Row, children: seq<Row>)
    requires Paired(j)
    ensures Seen(j, None, position, p, children) == KidsOf(j, p, children)
  {
    FetchedChildren(j, p, children);
  }

  lemma SeenTreeIs(j: JoinSpec, overlay: Option<SourceChange>, position: Option<Row>, children: seq<Row>, p: Row)
    requires Paired(j)
    ensures SeenTree(j, overlay, position, children)(p) == [Leaves(Seen(j, overlay, position, p, children))]
  {
  }

  lemma LeavesRows(rows: seq<Row>)
    ensures R.RowsOf(Leaves(rows)) == rows
  {
  }

  lemma AlikeMade(rows: seq<Row>, f: Row -> seq<R.List>, h: Row -> seq<R.List>)
    requires forall i :: 0 <= i < |rows| ==>
      |f(rows[i])| == |h(rows[i])| == 1 && MS.SameMembers(R.RowsOf(f(rows[i])[0]), R.RowsOf(h(rows[i])[0]))
    ensures Alike(TreeOf(rows, f), TreeOf(rows, h))
  {
  }

  lemma PairedIs(j: JoinSpec)
    requires Paired(j)
    ensures |j.parentKey| == |j.childKey|
  {
  }

  lemma TreeSnoc(rows: seq<Row>, i: nat, g: Row -> seq<R.List>)
    requires i < |rows|
    ensures TreeOf(rows[..i + 1], g) == TreeOf(rows[..i], g) + [R.RecvNode(rows[i], 1, g(rows[i]))]
  {
  }

  class JoinOp {
    const j: JoinSpec
    var overlay: Option<SourceChange>
    var position: Option<Row>

    constructor (j: JoinSpec)
      ensures this.j == j && overlay == None && position == None
    {
      this.j, overlay, position := j, None, None;
    }

    /** `join_fetch`, drained: every parent with the children its live thunk yields. */
    method Fetch(parents: seq<Row>, children: seq<Row>) returns (t: R.List)
      requires Paired(j)
      ensures t == TreeOf(parents, SeenTree(j, overlay, position, children))
      ensures overlay == None ==> t == Fresh(j, parents, children)
    {
      hide *;
      t := [];
      var i := 0;
      assert TreeOf(parents[..0], SeenTree(j, overlay, position, children)) == [];
      while i < |parents|
        invariant i <= |parents| && t == TreeOf(parents[..i], SeenTree(j, overlay, position, children))
      {
        var kids := Seen(j, overlay, position, parents[i], children);
        SeenTreeIs(j, overlay, position, children, parents[i]);
        TreeSnoc(parents, i, SeenTree(j, overlay, position, children));
        t := t + [R.RecvNode(parents[i], 1, [Leaves(kids)])];
        i := i + 1;
      }
      assert parents[..i] == parents;
      if overlay == None { QuietFetch(j, position, parents, children); }
    }

    /** `push_child_change`: one delivery per matching parent.  Folded into the receiver, the
        deliveries turn the old join tree into the new one; and `views`, what a fetch re-entering
        the join during each delivery returns, is at every point the tree downstream holds. */
    method PushChildChange(parents: seq<Row>, ghost before: seq<Row>, after: seq<Row>, change: SourceChange)
      returns (emitted: seq<R.CaughtChange>, views: seq<R.List>)
      requires Paired(j) && Ready(j, parents, before, change) && after == After(j, before, change)
      modifies this
      ensures overlay == None && position == None && |views| == |emitted|
      ensures R.ApplyAll(Fresh(j, parents, before), ViewSchema(j), FlatAll(emitted)) == Some(Fresh(j, parents, after))
      ensures Keyed(j, before, change) ==>
        forall k :: 0 <= k < |views| ==> Consistent(j, parents, before, emitted[..k + 1], views[k])
    {
      hide *;
      emitted, views := [], [];
      PairedIs(j);
      ghost var m := CU.Filter(ParentOf(j, change.row), parents);
      FetchedParents(j, change.row, parents);
      FanEnds(j, parents, before, change, m);
      R.AllNil(Fresh(j, parents, before), ViewSchema(j));
      NoFlats();
      var c := BuildJoinConstraint(change.row, j.childKey, j.parentKey);
      FetchedIs(parents, c);
      if c.None? {
        overlay, position := None, None;
        return;
      }
      overlay := Some(change);
      var matching := Fetched(parents, c);
      var i := 0;
      assert m[..0] == [];
      while i < |matching|
        invariant i <= |m| && overlay == Some(change) && |views| == |emitted| == i
        invariant R.ApplyAll(Fresh(j, parents, before), ViewSchema(j), FlatAll(emitted))
          == Some(TreeOf(parents, Mixed(j, before, after, Late(j, change.row, m[..i]))))
        invariant Keyed(j, before, change) ==>
          forall k :: 0 <= k < |views| ==> Consistent(j, parents, before, emitted[..k + 1], views[k])
      {
        position := Some(matching[i]);
        var one := R.CaughtChild(matching[i], 0, LeafChange(change));
        Deliver(j, parents, before, change, m, i);
        FlatSnoc(emitted, one);
        R.AllSnoc(Fresh(j, parents, before), ViewSchema(j), FlatAll(emitted), R.Flat(one));
        var view := Fetch(parents, after);
        ghost var sent := emitted + [one];
        forall k | 0 <= k < i && Keyed(j, before, change)
          ensures Consistent(j, parents, before, sent[..k + 1], views[k])
        {
          assert sent[..k + 1] == emitted[..k + 1];
        }
        assert sent[..i + 1] == sent;
        if Keyed(j, before, change) {
          ViewIs(j, parents, before, change, m, i);
          ConsistentMade(j, parents, before, sent, view,
            TreeOf(parents, Mixed(j, before, after, Late(j, change.row, m[..i + 1]))));
        }
        emitted, views := emitted + [one], views + [view];
        i := i + 1;
      }
      assert m[..i] == m;
      overlay, position := None, None;
    }
  }

  /** The view shows what the receiver holds after `sent`. */
  ghost predicate Consistent(j: JoinSpec, parents: seq<Row>, before: seq<Row>, sent: seq<R.CaughtChange>, view: R.List)
    requires Paired(j)
  {
    var held := R.ApplyAll(Fresh(j, parents, before), ViewSchema(j), FlatAll(sent));
    held.Some? && Alike(view, held.value) && (j.childSchemaSort == j.childSort ==> view == held.value)
  }

  lemma ConsistentMade(j: JoinSpec, parents: seq<Row>, before: seq<Row>, sent: seq<R.CaughtChange>, view: R.List,
      held: R.List)
    requires Paired(j) && R.ApplyAll(Fresh(j, parents, before), ViewSchema(j), FlatAll(sent)) == Some(held)
    requires Alike(view, held) && (j.childSchemaSort == j.childSort ==> view == held)
    ensures Consistent(j, parents, before, sent, view)
  {
  }

  lemma NoFlats()
    ensures FlatAll([]) == []
  {
  }

  lemma FetchedIs(rows: seq<Row>, c: Option<MS.Constraint>)
    ensures c.None? ==> Fetched(rows, c) == []
  {
  }

  lemma FlatSnoc(cs: seq<R.CaughtChange>, c: R.CaughtChange)
    ensures FlatAll(cs + [c]) == FlatAll(cs) + [R.Flat(c)]
  {
  }
}
