/** Joins stacked and side by side: a query tree of any depth and width.  A change to the rows of any
    one of its tables passes through the joins above it (rust/src/graph.rs, `join_push`): as a parent
    change through the joins of its own level, as a child change through the join to the level above,
    and from there as a nested child change through every further join. */
module JoinTree {
  import opened Values
  import opened Order
  import opened Changes
  import MS = MemorySource
  import CU = Cursor
  import R = Receiver
  import J = Join

  /** One level: its rows in order, and the relationships its joins attach, slot by slot. */
  datatype Query = Query(sort: Sort, rows: seq<Row>, rels: seq<Rel>)
  datatype Rel = Rel(parentKey: seq<ColId>, childKey: seq<ColId>, child: Query)

  ghost predicate WellFormed(q: Query) {
    && Sorted(SortLt(q.sort), q.rows)
    && forall i :: 0 <= i < |q.rels| ==> |q.rels[i].parentKey| == |q.rels[i].childKey| && WellFormed(q.rels[i].child)
  }

  /** The join behind slot `i`. */
  function Spec(q: Query, i: nat): J.JoinSpec
    requires i < |q.rels|
  {
    J.JoinSpec(q.rels[i].parentKey, q.rels[i].childKey, q.sort, q.rels[i].child.sort, [], [])
  }

  function SchemaOf(q: Query): R.Schema {
    R.Schema(q.sort, seq(|q.rels|, i requires 0 <= i < |q.rels| => Some(SchemaOf(q.rels[i].child))))
  }

  /** The children of a row in slot `i`. */
  function Kids(q: Query, i: nat, p: Row): seq<Row>
    requires i < |q.rels|
  {
    if J.Paired(Spec(q, i)) then J.KidsOf(Spec(q, i), p, q.rels[i].child.rows) else []
  }

  /** What a fresh query holds below a row. */
  function Subs(q: Query, p: Row): (s: seq<R.List>)
    ensures |s| == |q.rels|
    decreases q, 0
  {
    seq(|q.rels|, i requires 0 <= i < |q.rels| => J.TreeOf(Kids(q, i, p), Below(q.rels[i].child)))
  }

  function Below(q: Query): Row -> seq<R.List>
    decreases q, 1
  {
    (p: Row) => Subs(q, p)
  }

  /** What a fresh run of the query returns. */
  function Fresh(q: Query): R.List {
    J.TreeOf(q.rows, Below(q))
  }

  // ---- what the joins emit ----

  /** A row with its subtree, as its level's joins process it. */
  function Wire(q: Query, p: Row): R.WireNode {
    R.WireNode(p, seq(|q.rels|, i requires 0 <= i < |q.rels| =>
      var kids := Kids(q, i, p);
      R.WireRel(i, seq(|kids|, j requires 0 <= j < |kids| => Wire(q.rels[i].child, kids[j])))))
  }

  /** The row a change is about: the new row of an edit, the row that changed below. */
  function PrimaryRow(e: R.CaughtChange): Row {
    match e
    case CaughtAdd(node) => node.row
    case CaughtRemove(node) => node.row
    case CaughtEdit(_, row) => row
    case CaughtChild(row, _, _) => row
  }

  /** One change of a child level, delivered to every parent its row joins to. */
  function Fan(q: Query, i: nat, e: R.CaughtChange): seq<R.CaughtChange>
    requires i < |q.rels|
  {
    if !J.Paired(Spec(q, i)) then []
    else
      var j := Spec(q, i);
      var parents := J.Fetched(q.rows, J.Constraint(PrimaryRow(e), j.childKey, j.parentKey));
      seq(|parents|, k requires 0 <= k < |parents| => R.CaughtChild(parents[k], i, e))
  }

  function FanAll(q: Query, i: nat, es: seq<R.CaughtChange>): seq<R.CaughtChange>
    requires i < |q.rels|
  {
    if es == [] then [] else FanAll(q, i, es[..|es| - 1]) + Fan(q, i, es[|es| - 1])
  }

  /** What comes out on top for a change to the rows at `path`, a slot per level. */
  function Emit(q: Query, path: seq<nat>, change: SourceChange): seq<R.CaughtChange>
    decreases |path|
  {
    if path == [] then
      match change
      case Add(p) => [R.CaughtAdd(Wire(q, p))]
      case Remove(p) => [R.CaughtRemove(Wire(q, p))]
      case Edit(old_, p) => [R.CaughtEdit(old_, p)]
    else if path[0] < |q.rels| then FanAll(q, path[0], Emit(q.rels[path[0]].child, path[1..], change))
    else []
  }

  /** The query over the changed rows. */
  function Put(q: Query, path: seq<nat>, change: SourceChange): Query
    decreases |path|
  {
    if path == [] then q.(rows := Applied(SortLt(q.sort), q.rows, change))
    else if path[0] < |q.rels| then
      var rel := q.rels[path[0]];
      q.(rels := q.rels[path[0] := rel.(child := Put(rel.child, path[1..], change))])
    else q
  }

  /** A change the joins accept: it tells the truth about its table, and an edit keeps the keys its
      row is joined by, downward and upward. */
  ghost predicate LegalAt(q: Query, path: seq<nat>, change: SourceChange)
    decreases |path|
  {
    if path == [] then
      && Legal(SortLt(q.sort), q.rows, change)
      && (change.Edit? ==> forall i :: 0 <= i < |q.rels| ==> J.SameOn(change.old_, change.row, q.rels[i].parentKey))
    else
      && path[0] < |q.rels|
      && LegalAt(q.rels[path[0]].child, path[1..], change)
      && (|path| == 1 && change.Edit? ==> J.SameOn(change.old_, change.row, q.rels[path[0]].childKey))
  }

  // ---- folding nested changes ----

  function NestedAll(list: R.List, schema: R.Schema, es: seq<R.CaughtChange>): Option<R.List> {
    if es == [] then Some(list)
    else
      var before := NestedAll(list, schema, es[..|es| - 1]);
      if before.None? then None else R.ApplyNested(before.value, schema, es[|es| - 1])
  }

  lemma NestedSnoc(list: R.List, schema: R.Schema, es: seq<R.CaughtChange>, e: R.CaughtChange)
    ensures NestedAll(list, schema, []) == Some(list)
    ensures var before := NestedAll(list, schema, es);
      NestedAll(list, schema, es + [e]) == if before.None? then None else R.ApplyNested(before.value, schema, e)
  {
    assert (es + [e])[..|es|] == es;
  }

  lemma {:induction false} FlatFold(list: R.List, schema: R.Schema, es: seq<R.CaughtChange>)
    ensures R.ApplyAll(list, schema, J.FlatAll(es)) == NestedAll(list, schema, es)
    decreases |es|
  {
    hide *;
    if es == [] {
      J.NoFlats();
      R.AllNil(list, schema);
      NestedSnoc(list, schema, [], R.CaughtEdit([], []));
    } else {
      var (front, e) := (es[..|es| - 1], es[|es| - 1]);
      assert es == front + [e];
      FlatFold(list, schema, front);
      J.FlatSnoc(front, e);
      R.AllSnoc(list, schema, J.FlatAll(front), R.Flat(e));
      NestedSnoc(list, schema, front, e);
      if NestedAll(list, schema, front).Some? { R.FlatMeansNested(NestedAll(list, schema, front).value, schema, e); }
    }
  }

  /** The changes about rows that `m` accepts. */
  function Select(m: Row -> bool, es: seq<R.CaughtChange>): seq<R.CaughtChange> {
    if es == [] then []
    else Select(m, es[..|es| - 1]) + if m(PrimaryRow(es[|es| - 1])) then [es[|es| - 1]] else []
  }

  lemma SelectSnoc(m: Row -> bool, es: seq<R.CaughtChange>, e: R.CaughtChange)
    ensures Select(m, []) == []
    ensures Select(m, es + [e]) == Select(m, es) + if m(PrimaryRow(e)) then [e] else []
  {
    assert (es + [e])[..|es|] == es;
  }

  lemma {:induction false} SelectAll(m: Row -> bool, es: seq<R.CaughtChange>)
    requires forall r :: m(r)
    ensures Select(m, es) == es
  {
    if es != [] {
      SelectAll(m, es[..|es| - 1]);
      assert es == es[..|es| - 1] + [es[|es| - 1]];
    }
  }

  // ---- unfolding the definitions ----

  lemma SchemaIs(q: Query, i: nat)
    ensures SchemaOf(q).sort == q.sort && |SchemaOf(q).rels| == |q.rels|
    ensures i < |q.rels| ==>
      SchemaOf(q).rels[i] == Some(SchemaOf(q.rels[i].child))
      && R.RelChild(SchemaOf(q), i) == Some(SchemaOf(q.rels[i].child))
  {
  }

  lemma SubsAt(q: Query, p: Row, i: nat)
    requires i < |q.rels|
    ensures Subs(q, p)[i] == J.TreeOf(Kids(q, i, p), Below(q.rels[i].child))
  {
  }

  lemma BelowIs(q: Query, p: Row)
    ensures Below(q)(p) == Subs(q, p)
  {
  }

  lemma WireIs(q: Query, p: Row, i: nat)
    ensures Wire(q, p).row == p && |Wire(q, p).rels| == |q.rels|
    ensures i < |q.rels| ==>
      var (w, kids) := (Wire(q, p).rels[i], Kids(q, i, p));
      w.slot == i && |w.kids| == |kids| && forall j :: 0 <= j < |kids| ==> w.kids[j] == Wire(q.rels[i].child, kids[j])
  {
  }

  lemma WellFormedAt(q: Query, i: nat)
    requires WellFormed(q)
    ensures Sorted(SortLt(q.sort), q.rows)
    ensures i < |q.rels| ==> WellFormed(q.rels[i].child) && J.Paired(Spec(q, i))
    ensures i < |q.rels| ==> Sorted(SortLt(q.rels[i].child.sort), q.rels[i].child.rows)
  {
  }

  lemma SpecIs(q: Query, i: nat)
    requires i < |q.rels|
    ensures var j := Spec(q, i);
      && j.parentKey == q.rels[i].parentKey && j.childKey == q.rels[i].childKey
      && j.parentSort == q.sort && j.childSort == q.rels[i].child.sort
  {
  }

  lemma {:induction false} KidsAre(q: Query, i: nat, p: Row)
    requires WellFormed(q) && i < |q.rels|
    ensures J.Paired(Spec(q, i)) && Kids(q, i, p) == CU.Filter(J.ChildOf(Spec(q, i), p), q.rels[i].child.rows)
    ensures Sorted(SortLt(q.rels[i].child.sort), Kids(q, i, p))
  {
    WellFormedAt(q, i);
    J.KidsIs(Spec(q, i), p, q.rels[i].child.rows);
    J.PartSorted(SortLt(q.rels[i].child.sort), J.ChildOf(Spec(q, i), p), q.rels[i].child.rows);
  }

  // ---- a processed row builds into its fresh subtree ----

  lemma {:induction false} WireBuilds(q: Query, p: Row)
    requires WellFormed(q)
    ensures R.BuildNode(Wire(q, p), SchemaOf(q)) == R.RecvNode(p, 1, Below(q)(p))
    decreases q, 2, 0
  {
    hide *;
    WireIs(q, p, 0);
    BelowIs(q, p);
    RelsBuild(q, p, |q.rels|);
    BuildIs(Wire(q, p), SchemaOf(q));
    SchemaIs(q, 0);
    assert R.BuildRels(Wire(q, p), |q.rels|, SchemaOf(q)) == Subs(q, p);
  }

  lemma BuildIs(node: R.WireNode, schema: R.Schema)
    ensures R.BuildNode(node, schema) == R.RecvNode(node.row, 1, R.BuildRels(node, |node.rels|, schema))
  {
  }

  lemma {:induction false} RelsBuild(q: Query, p: Row, k: nat)
    requires WellFormed(q) && k <= |q.rels|
    ensures |Wire(q, p).rels| == |q.rels| == |SchemaOf(q).rels|
    ensures var rels := R.BuildRels(Wire(q, p), k, SchemaOf(q));
      |rels| == |q.rels| && forall i :: 0 <= i < |q.rels| ==> rels[i] == if i < k then Subs(q, p)[i] else []
    decreases q, 1, k
  {
    hide *;
    WireIs(q, p, 0);
    SchemaIs(q, 0);
    if k == 0 {
      NoRels(Wire(q, p), SchemaOf(q));
    } else {
      RelsBuild(q, p, k - 1);
      WireIs(q, p, k - 1);
      SchemaIs(q, k - 1);
      SubsAt(q, p, k - 1);
      var kids := Kids(q, k - 1, p);
      KidsBuild(q, p, k - 1, |kids|);
      assert kids[..|kids|] == kids;
      RelsStep(Wire(q, p), k, SchemaOf(q));
    }
  }

  lemma NoRels(node: R.WireNode, schema: R.Schema)
    ensures R.BuildRels(node, 0, schema) == seq(|schema.rels|, _ => [])
  {
  }

  lemma RelsStep(node: R.WireNode, k: nat, schema: R.Schema)
    requires 0 < k <= |node.rels| && node.rels[k - 1].slot < |schema.rels|
    requires R.RelChild(schema, node.rels[k - 1].slot).Some?
    ensures var rel := node.rels[k - 1];
      R.BuildRels(node, k, schema)
      == R.BuildRels(node, k - 1, schema)
        [rel.slot := R.BuildKids(node, k - 1, |rel.kids|, R.RelChild(schema, rel.slot).value)]
  {
  }

  lemma {:induction false} KidsBuild(q: Query, p: Row, i: nat, m: nat)
    requires WellFormed(q) && i < |q.rels| && m <= |Kids(q, i, p)|
    ensures |Wire(q, p).rels| == |q.rels| && |Wire(q, p).rels[i].kids| == |Kids(q, i, p)|
    ensures R.BuildKids(Wire(q, p), i, m, SchemaOf(q.rels[i].child))
      == J.TreeOf(Kids(q, i, p)[..m], Below(q.rels[i].child))
    decreases q, 0, m
  {
    hide *;
    var (child, kids) := (q.rels[i].child, Kids(q, i, p));
    WireIs(q, p, i);
    WellFormedAt(q, i);
    KidsAre(q, i, p);
    if m == 0 {
      R.NoTree(Wire(q, p), i, SchemaOf(child));
      assert kids[..0] == [];
    } else {
      KidsBuild(q, p, i, m - 1);
      R.KidsStep(Wire(q, p), i, m, SchemaOf(child));
      WireBuilds(child, kids[m - 1]);
      WireIs(child, kids[m - 1], 0);
      SchemaIs(child, 0);
      SortIsStrictWeak(child.sort);
      J.InsertLast(SortLt(child.sort), kids, m - 1);
      J.AddOn(SchemaOf(child), kids[..m - 1], Below(child), Wire(child, kids[m - 1]));
    }
  }

  // ---- a change at the level itself ----

  /** An edit that keeps a row's join keys keeps its subtree. */
  lemma {:induction false} SameBelow(q: Query, a: Row, b: Row)
    requires WellFormed(q) && forall i :: 0 <= i < |q.rels| ==> J.SameOn(a, b, q.rels[i].parentKey)
    ensures Below(q)(a) == Below(q)(b)
  {
    forall i | 0 <= i < |q.rels| ensures Subs(q, a)[i] == Subs(q, b)[i] {
      SameChildren(q, i, a, b);
    }
    BelowIs(q, a);
    BelowIs(q, b);
  }

  lemma {:induction false} SameChildren(q: Query, i: nat, a: Row, b: Row)
    requires WellFormed(q) && i < |q.rels| && J.SameOn(a, b, q.rels[i].parentKey)
    ensures Kids(q, i, a) == Kids(q, i, b)
  {
    hide *;
    KidsAre(q, i, a);
    KidsAre(q, i, b);
    SpecIs(q, i);
    forall c ensures J.ChildOf(Spec(q, i), a)(c) <==> J.ChildOf(Spec(q, i), b)(c) { J.SameMatch(Spec(q, i), a, b, c); }
    J.FilterSame(J.ChildOf(Spec(q, i), a), J.ChildOf(Spec(q, i), b), q.rels[i].child.rows);
  }

  /** The part of the query's tree whose top rows `m` accepts. */
  function Part(q: Query, m: Row -> bool): R.List {
    J.TreeOf(CU.Filter(m, q.rows), Below(q))
  }

  lemma PartIs(q: Query, m: Row -> bool)
    ensures Part(q, m) == J.TreeOf(CU.Filter(m, q.rows), Below(q))
  {
  }

  lemma LegalHere(q: Query, change: SourceChange)
    requires LegalAt(q, [], change)
    ensures Legal(SortLt(q.sort), q.rows, change)
    ensures change.Edit? ==> forall i :: 0 <= i < |q.rels| ==> J.SameOn(change.old_, change.row, q.rels[i].parentKey)
  {
  }

  lemma EmitHere(q: Query, change: SourceChange)
    ensures change.Add? ==> Emit(q, [], change) == [R.CaughtAdd(Wire(q, change.row))]
    ensures change.Remove? ==> Emit(q, [], change) == [R.CaughtRemove(Wire(q, change.row))]
    ensures change.Edit? ==> Emit(q, [], change) == [R.CaughtEdit(change.old_, change.row)]
    ensures Put(q, [], change) == q.(rows := Applied(SortLt(q.sort), q.rows, change))
  {
  }

  lemma {:induction false} BelowSame(q: Query, rows: seq<Row>, part: seq<Row>)
    ensures J.TreeOf(part, Below(q.(rows := rows))) == J.TreeOf(part, Below(q))
  {
    var q' := q.(rows := rows);
    forall p ensures Below(q')(p) == Below(q)(p) {
      BelowIs(q, p);
      BelowIs(q', p);
      forall i | 0 <= i < |q.rels| ensures Subs(q', p)[i] == Subs(q, p)[i] { assert Kids(q', i, p) == Kids(q, i, p); }
      assert Subs(q', p) == Subs(q, p);
    }
    J.TreeSame(part, Below(q'), Below(q));
  }

  lemma NestedIs(list: R.List, schema: R.Schema, e: R.CaughtChange)
    ensures e.CaughtAdd? ==> R.ApplyNested(list, schema, e) == Some(R.ApplyAdd(list, schema, e.node))
    ensures e.CaughtRemove? ==> R.ApplyNested(list, schema, e) == R.ApplyRemove(list, schema, e.node.row)
    ensures e.CaughtEdit? ==> R.ApplyNested(list, schema, e) == R.ApplyEdit(list, schema, e.old_, e.row)
  {
  }

  /** At the changed level: each part of the tree gets exactly its share of the change. */
  lemma {:induction false} MaintainsHere(q: Query, change: SourceChange, m: Row -> bool)
    requires WellFormed(q) && LegalAt(q, [], change) && (change.Edit? ==> m(change.old_) == m(change.row))
    ensures NestedAll(Part(q, m), SchemaOf(q), Select(m, Emit(q, [], change))) == Some(Part(Put(q, [], change), m))
  {
    hide *;
    var (lt, part, g, schema) := (SortLt(q.sort), CU.Filter(m, q.rows), Below(q), SchemaOf(q));
    LegalHere(q, change);
    WellFormedAt(q, 0);
    EmitHere(q, change);
    SchemaIs(q, 0);
    J.PartAfter(q.sort, m, q.rows, change);
    var q' := Put(q, [], change);
    PartIs(q, m);
    PartIs(q', m);
    BelowSame(q, q'.rows, CU.Filter(m, q'.rows));
    WireIs(q, change.row, 0);
    var e := Emit(q, [], change)[0];
    assert Emit(q, [], change) == [] + [e];
    PrimaryIs(e);
    SelectSnoc(m, [], e);
    NestedSnoc(Part(q, m), schema, [], e);
    assert [] + [e] == [e];
    NestedIs(Part(q, m), schema, e);
    if m(change.row) {
      J.AppliedIs(lt, part, change);
      match change {
        case Add(p) =>
          WireBuilds(q, p);
          J.AddOn(schema, part, g, Wire(q, p));
        case Remove(p) => J.RemoveOn(schema, part, g, p);
        case Edit(old_, p) =>
          SameBelow(q, old_, p);
          J.EditOn(schema, part, g, old_, p);
      }
    }
  }

  lemma PrimaryIs(e: R.CaughtChange)
    ensures e.CaughtAdd? || e.CaughtRemove? ==> PrimaryRow(e) == e.node.row
    ensures e.CaughtEdit? ==> PrimaryRow(e) == e.row
    ensures e.CaughtChild? ==> PrimaryRow(e) == e.row
  {
  }

  // ---- a change below: one level up ----

  lemma {:induction false} NestedConcat(list: R.List, schema: R.Schema, a: seq<R.CaughtChange>, b: seq<R.CaughtChange>)
    ensures var mid := NestedAll(list, schema, a);
      NestedAll(list, schema, a + b) == if mid.None? then None else NestedAll(mid.value, schema, b)
    decreases |b|
  {
    hide *;
    var mid := NestedAll(list, schema, a);
    if b == [] {
      assert a + b == a;
      if mid.Some? { NestedSnoc(mid.value, schema, [], R.CaughtEdit([], [])); }
    } else {
      var (front, e) := (b[..|b| - 1], b[|b| - 1]);
      NestedConcat(list, schema, a, front);
      assert a + b == (a + front) + [e] && b == front + [e];
      NestedSnoc(list, schema, a + front, e);
      if mid.Some? { NestedSnoc(mid.value, schema, front, e); }
    }
  }

  lemma {:induction false} SelectConcat(m: Row -> bool, a: seq<R.CaughtChange>, b: seq<R.CaughtChange>)
    ensures Select(m, a + b) == Select(m, a) + Select(m, b)
    decreases |b|
  {
    hide *;
    if b == [] {
      SelectSnoc(m, [], R.CaughtEdit([], []));
      assert a + b == a;
    } else {
      var (front, e) := (b[..|b| - 1], b[|b| - 1]);
      SelectConcat(m, a, front);
      SelectSnoc(m, a + front, e);
      SelectSnoc(m, front, e);
      assert a + b == (a + front) + [e] && b == front + [e];
    }
  }

  /** One delivery per parent, in order. */
  function Deliveries(ps: seq<Row>, i: nat, e: R.CaughtChange): (ds: seq<R.CaughtChange>)
    ensures |ds| == |ps| && forall k :: 0 <= k < |ps| ==> ds[k] == R.CaughtChild(ps[k], i, e)
  {
    seq(|ps|, k requires 0 <= k < |ps| => R.CaughtChild(ps[k], i, e))
  }

  lemma {:induction false} SelectDeliveries(m: Row -> bool, ps: seq<Row>, i: nat, e: R.CaughtChange)
    ensures Select(m, Deliveries(ps, i, e)) == Deliveries(CU.Filter(m, ps), i, e)
    decreases |ps|
  {
    hide *;
    if ps == [] {
      DeliveriesNil(m, i, e);
    } else {
      var (front, p) := (ps[..|ps| - 1], ps[|ps| - 1]);
      assert ps == front + [p];
      SelectDeliveries(m, front, i, e);
      CU.FilterConcat(m, front, [p]);
      FilterOne(m, p);
      DeliveriesSnoc(front, p, i, e);
      DeliveriesSnoc(CU.Filter(m, front), p, i, e);
      SelectSnoc(m, Deliveries(front, i, e), R.CaughtChild(p, i, e));
      assert !m(p) ==> CU.Filter(m, front) + [] == CU.Filter(m, front);
    }
  }

  lemma DeliveriesNil(m: Row -> bool, i: nat, e: R.CaughtChange)
    ensures Deliveries([], i, e) == [] == Select(m, []) && CU.Filter(m, []) == []
  {
  }

  lemma DeliveriesSnoc(ps: seq<Row>, p: Row, i: nat, e: R.CaughtChange)
    ensures Deliveries(ps + [p], i, e) == Deliveries(ps, i, e) + [R.CaughtChild(p, i, e)]
    ensures PrimaryRow(R.CaughtChild(p, i, e)) == p
  {
  }

  lemma FilterOne(m: Row -> bool, p: Row)
    ensures CU.Filter(m, [p]) == if m(p) then [p] else []
  {
    assert [p][1..] == [];
  }

  /** The child list in slot `i` of a parent, before anything is delivered to it. */
  function Start(q: Query, i: nat, p: Row): R.List
    requires i < |q.rels|
  {
    J.TreeOf(Kids(q, i, p), Below(q.rels[i].child))
  }

  /** That list after the parent's share of `es`. */
  function Folded(q: Query, i: nat, es: seq<R.CaughtChange>, p: Row): Option<R.List>
    requires i < |q.rels|
  {
    if !J.Paired(Spec(q, i)) then None
    else NestedAll(Start(q, i, p), SchemaOf(q.rels[i].child), Select(J.ChildOf(Spec(q, i), p), es))
  }

  function ListAt(q: Query, i: nat, es: seq<R.CaughtChange>, p: Row): R.List
    requires i < |q.rels|
  {
    if Folded(q, i, es, p).Some? then Folded(q, i, es, p).value else []
  }

  /** Every parent's child lists, slot `i` having received `es`. */
  function State(q: Query, i: nat, es: seq<R.CaughtChange>): Row -> seq<R.List>
    requires i < |q.rels|
  {
    (p: Row) => Subs(q, p)[i := ListAt(q, i, es, p)]
  }

  /** Parents in `done` have received `es'`, the others `es`. */
  function Midway(q: Query, i: nat, es: seq<R.CaughtChange>, es': seq<R.CaughtChange>,
      done: seq<Row>): Row -> seq<R.List>
    requires i < |q.rels|
  {
    (p: Row) => Subs(q, p)[i := ListAt(q, i, if p in done then es' else es, p)]
  }

  lemma StateIs(q: Query, i: nat, es: seq<R.CaughtChange>, es': seq<R.CaughtChange>, done: seq<Row>, p: Row)
    requires i < |q.rels|
    ensures State(q, i, es)(p) == Subs(q, p)[i := ListAt(q, i, es, p)]
    ensures Midway(q, i, es, es', done)(p) == Subs(q, p)[i := ListAt(q, i, if p in done then es' else es, p)]
  {
  }

  /** What one more change does to one parent's list: it is applied if the parent joins to its row. */
  lemma {:induction false} FoldedSnoc(q: Query, i: nat, es: seq<R.CaughtChange>, e: R.CaughtChange, p: Row)
    requires i < |q.rels| && J.Paired(Spec(q, i))
    ensures !J.ChildOf(Spec(q, i), p)(PrimaryRow(e)) ==> Folded(q, i, es + [e], p) == Folded(q, i, es, p)
    ensures J.ChildOf(Spec(q, i), p)(PrimaryRow(e)) ==>
      var before := Folded(q, i, es, p);
      Folded(q, i, es + [e], p)
      == if before.None? then None else R.ApplyNested(before.value, SchemaOf(q.rels[i].child), e)
    ensures Folded(q, i, es + [e], p).Some? ==> Folded(q, i, es, p).Some?
    ensures Folded(q, i, [], p) == Some(Start(q, i, p))
  {
    hide R.ApplyNested;
    hide NestedAll;
    hide Select;
    hide J.ChildOf;
    var m := J.ChildOf(Spec(q, i), p);
    SelectSnoc(m, es, e);
    NestedSnoc(Start(q, i, p), SchemaOf(q.rels[i].child), Select(m, es), e);
    assert Select(m, es) + [] == Select(m, es);
  }

  /** One delivery to one parent. */
  lemma {:induction false} NestedOne(schema: R.Schema, rows: seq<Row>, g: Row -> seq<R.List>, h: Row -> seq<R.List>,
                                     p: Row, i: nat, e: R.CaughtChange)
    requires Sorted(SortLt(schema.sort), rows) && p in rows && i < |schema.rels| && schema.rels[i].Some?
    requires i < |g(p)| && i < |h(p)| && h(p) == g(p)[i := h(p)[i]]
    requires R.ApplyNested(g(p)[i], schema.rels[i].value, e) == Some(h(p)[i])
    requires forall r :: r in rows && r != p ==> g(r) == h(r)
    ensures R.ApplyNested(J.TreeOf(rows, g), schema, R.CaughtChild(p, i, e)) == Some(J.TreeOf(rows, h))
  {
    hide *;
    var (t, lt) := (J.TreeOf(rows, g), SortLt(schema.sort));
    SortIsStrictWeak(schema.sort);
    J.TreeShape(schema.sort, rows, g);
    J.RemoveHit(lt, rows, p);
    var k := LowerBound(lt, rows, p);
    R.AtIs(schema.sort, t, p);
    RelChildIs(schema, i);
    ChildStep(t, schema, p, i, e);
    forall x | 0 <= x < |rows| && x != k ensures rows[x] != p { J.Elsewhere(lt, rows, k, x); }
    assert t[k := t[k].(rels := h(p))] == J.TreeOf(rows, h);
  }

  lemma RelChildIs(schema: R.Schema, i: nat)
    requires i < |schema.rels|
    ensures R.RelChild(schema, i) == schema.rels[i]
  {
  }

  lemma ChildStep(t: R.List, schema: R.Schema, p: Row, i: nat, e: R.CaughtChange)
    requires R.RelChild(schema, i).Some? && R.At(schema.sort, t, p).Some? && R.Place(schema.sort, t, p) < |t|
    requires var n := R.At(schema.sort, t, p).value;
      i < |n.rels| && R.ApplyNested(n.rels[i], R.RelChild(schema, i).value, e).Some?
    ensures var n := R.At(schema.sort, t, p).value;
      var kids := R.ApplyNested(n.rels[i], R.RelChild(schema, i).value, e).value;
      R.ApplyNested(t, schema, R.CaughtChild(p, i, e))
        == Some(t[R.Place(schema.sort, t, p) := n.(rels := n.rels[i := kids])])
  {
  }

  /** Delivering one child change to its parents, one by one. */
  lemma {:induction false} DeliverSome(q: Query, i: nat, es: seq<R.CaughtChange>, e: R.CaughtChange, part: seq<Row>,
                                       ps: seq<Row>, k: nat)
    requires WellFormed(q) && i < |q.rels| && J.Paired(Spec(q, i)) && Sorted(SortLt(q.sort), part) && k <= |ps|
    requires forall p :: Folded(q, i, es + [e], p).Some?
    requires forall p :: p in ps ==> p in part && J.ChildOf(Spec(q, i), p)(PrimaryRow(e))
    requires forall a, b :: 0 <= a < b < |ps| ==> ps[a] != ps[b]
    ensures NestedAll(J.TreeOf(part, State(q, i, es)), SchemaOf(q), Deliveries(ps[..k], i, e))
         == Some(J.TreeOf(part, Midway(q, i, es, es + [e], ps[..k])))
    decreases k
  {
    hide *;
    var (t, schema) := (J.TreeOf(part, State(q, i, es)), SchemaOf(q));
    if k == 0 {
      assert ps[..0] == [] && Deliveries([], i, e) == [];
      NestedSnoc(t, schema, [], e);
      forall p | p in part ensures State(q, i, es)(p) == Midway(q, i, es, es + [e], [])(p) {
        StateIs(q, i, es, es + [e], [], p);
      }
      J.TreeSame(part, State(q, i, es), Midway(q, i, es, es + [e], []));
    } else {
      DeliverSome(q, i, es, e, part, ps, k - 1);
      var (done, p) := (ps[..k - 1], ps[k - 1]);
      assert ps[..k] == done + [p] && p in ps;
      assert Deliveries(ps[..k], i, e) == Deliveries(done, i, e) + [R.CaughtChild(p, i, e)];
      NestedSnoc(t, schema, Deliveries(done, i, e), R.CaughtChild(p, i, e));
      DeliverOne(q, i, es, e, part, done, p);
    }
  }

  lemma {:induction false} DeliverOne(q: Query, i: nat, es: seq<R.CaughtChange>, e: R.CaughtChange, part: seq<Row>,
                                      done: seq<Row>, p: Row)
    requires WellFormed(q) && i < |q.rels| && J.Paired(Spec(q, i)) && Sorted(SortLt(q.sort), part)
    requires Folded(q, i, es + [e], p).Some? && p in part && J.ChildOf(Spec(q, i), p)(PrimaryRow(e)) && p !in done
    ensures R.ApplyNested(J.TreeOf(part, Midway(q, i, es, es + [e], done)), SchemaOf(q), R.CaughtChild(p, i, e))
         == Some(J.TreeOf(part, Midway(q, i, es, es + [e], done + [p])))
  {
    hide *;
    var (g, h) := (Midway(q, i, es, es + [e], done), Midway(q, i, es, es + [e], done + [p]));
    SchemaIs(q, i);
    StateIs(q, i, es, es + [e], done, p);
    StateIs(q, i, es, es + [e], done + [p], p);
    FoldedSnoc(q, i, es, e, p);
    ListAtIs(q, i, es, p);
    ListAtIs(q, i, es + [e], p);
    forall r | r in part && r != p ensures g(r) == h(r) {
      StateIs(q, i, es, es + [e], done, r);
      StateIs(q, i, es, es + [e], done + [p], r);
      assert r in done <==> r in done + [p];
    }
    assert h(p) == g(p)[i := h(p)[i]];
    NestedOne(SchemaOf(q), part, g, h, p, i, e);
  }

  lemma ListAtIs(q: Query, i: nat, es: seq<R.CaughtChange>, p: Row)
    requires i < |q.rels|
    ensures Folded(q, i, es, p).Some? ==> ListAt(q, i, es, p) == Folded(q, i, es, p).value
    ensures forall es' :: Folded(q, i, es', p) == Folded(q, i, es, p) ==> ListAt(q, i, es', p) == ListAt(q, i, es, p)
  {
  }

  /** The whole fan-out of one child change. */
  lemma {:induction false} FanStep(q: Query, i: nat, es: seq<R.CaughtChange>, e: R.CaughtChange, m: Row -> bool)
    requires WellFormed(q) && i < |q.rels| && J.Paired(Spec(q, i))
    requires forall p :: Folded(q, i, es + [e], p).Some?
    ensures var part := CU.Filter(m, q.rows);
      NestedAll(J.TreeOf(part, State(q, i, es)), SchemaOf(q), Select(m, Fan(q, i, e)))
      == Some(J.TreeOf(part, State(q, i, es + [e])))
  {
    hide *;
    var (j, part) := (Spec(q, i), CU.Filter(m, q.rows));
    var match_ := J.ParentOf(j, PrimaryRow(e));
    var ps := CU.Filter(m, CU.Filter(match_, q.rows));
    WellFormedAt(q, i);
    FanIs(q, i, e);
    SelectDeliveries(m, CU.Filter(match_, q.rows), i, e);
    J.PartMembers(m, q.rows);
    J.PartMembers(match_, q.rows);
    J.PartMembers(m, CU.Filter(match_, q.rows));
    J.PartSorted(SortLt(q.sort), m, q.rows);
    J.PartSorted(SortLt(q.sort), match_, q.rows);
    J.PartSorted(SortLt(q.sort), m, CU.Filter(match_, q.rows));
    SortIsStrictWeak(q.sort);
    forall a, b | 0 <= a < b < |ps| ensures ps[a] != ps[b] { J.Elsewhere(SortLt(q.sort), ps, a, b); }
    forall p ensures J.ChildOf(j, p)(PrimaryRow(e)) <==> match_(p) {
      J.ChildOfIs(j, p, PrimaryRow(e));
      J.ParentOfIs(j, PrimaryRow(e), p);
    }
    DeliverSome(q, i, es, e, part, ps, |ps|);
    assert ps[..|ps|] == ps;
    forall p | p in part ensures Midway(q, i, es, es + [e], ps)(p) == State(q, i, es + [e])(p) {
      StateIs(q, i, es, es + [e], ps, p);
      StateIs(q, i, es + [e], es, [], p);
      FoldedSnoc(q, i, es, e, p);
      ListAtIs(q, i, es, p);
      assert p in ps <==> match_(p);
    }
    J.TreeSame(part, Midway(q, i, es, es + [e], ps), State(q, i, es + [e]));
  }

  lemma {:induction false} FanIs(q: Query, i: nat, e: R.CaughtChange)
    requires i < |q.rels| && J.Paired(Spec(q, i))
    ensures Fan(q, i, e) == Deliveries(CU.Filter(J.ParentOf(Spec(q, i), PrimaryRow(e)), q.rows), i, e)
  {
    hide CU.Filter;
    J.FetchedParents(Spec(q, i), PrimaryRow(e), q.rows);
  }

  lemma FanAllSnoc(q: Query, i: nat, es: seq<R.CaughtChange>, e: R.CaughtChange)
    requires i < |q.rels|
    ensures FanAll(q, i, []) == [] && FanAll(q, i, es + [e]) == FanAll(q, i, es) + Fan(q, i, e)
  {
    assert (es + [e])[..|es|] == es;
  }

  /** All child changes, each to all its parents: every parent ends with its share of them. */
  lemma {:induction false} FanFolds(q: Query, i: nat, es: seq<R.CaughtChange>, m: Row -> bool)
    requires WellFormed(q) && i < |q.rels| && J.Paired(Spec(q, i)) && forall p :: Folded(q, i, es, p).Some?
    ensures NestedAll(Part(q, m), SchemaOf(q), Select(m, FanAll(q, i, es)))
         == Some(J.TreeOf(CU.Filter(m, q.rows), State(q, i, es)))
    decreases |es|
  {
    hide *;
    PartIs(q, m);
    if es == [] {
      FanAllSnoc(q, i, [], R.CaughtEdit([], []));
      SelectSnoc(m, [], R.CaughtEdit([], []));
      NestedSnoc(Part(q, m), SchemaOf(q), [], R.CaughtEdit([], []));
      forall p ensures Below(q)(p) == State(q, i, [])(p) { StateStarts(q, i, p); }
      J.TreeSame(CU.Filter(m, q.rows), Below(q), State(q, i, []));
    } else {
      var (front, e) := (es[..|es| - 1], es[|es| - 1]);
      assert es == front + [e];
      forall p ensures Folded(q, i, front, p).Some? { FoldedSnoc(q, i, front, e, p); }
      FanFolds(q, i, front, m);
      FanAllSnoc(q, i, front, e);
      SelectConcat(m, FanAll(q, i, front), Fan(q, i, e));
      NestedConcat(Part(q, m), SchemaOf(q), Select(m, FanAll(q, i, front)), Select(m, Fan(q, i, e)));
      FanStep(q, i, front, e, m);
    }
  }

  lemma {:induction false} StateStarts(q: Query, i: nat, p: Row)
    requires i < |q.rels| && J.Paired(Spec(q, i))
    ensures Below(q)(p) == State(q, i, [])(p)
  {
    hide *;
    BelowIs(q, p);
    StateIs(q, i, [], [], [], p);
    FoldedSnoc(q, i, [], R.CaughtEdit([], []), p);
    ListAtIs(q, i, [], p);
    SubsAt(q, p, i);
    StartIs(q, i, p);
    assert Subs(q, p)[i := Subs(q, p)[i]] == Subs(q, p);
  }

  lemma StartIs(q: Query, i: nat, p: Row)
    requires i < |q.rels|
    ensures Start(q, i, p) == J.TreeOf(Kids(q, i, p), Below(q.rels[i].child))
  {
  }

  // ---- the whole query tree ----

  lemma {:induction false} PutIs(q: Query, path: seq<nat>, change: SourceChange)
    requires path != [] && path[0] < |q.rels|
    ensures var (q', i) := (Put(q, path, change), path[0]);
      && q'.sort == q.sort && q'.rows == q.rows && |q'.rels| == |q.rels|
      && q'.rels[i].child == Put(q.rels[i].child, path[1..], change)
      && Spec(q', i) == Spec(q, i)
      && forall k :: 0 <= k < |q.rels| && k != i ==> q'.rels[k] == q.rels[k]
    ensures Emit(q, path, change) == FanAll(q, path[0], Emit(q.rels[path[0]].child, path[1..], change))
  {
    PutSort(q.rels[path[0]].child, path[1..], change);
  }

  lemma PutSort(q: Query, path: seq<nat>, change: SourceChange)
    ensures Put(q, path, change).sort == q.sort
  {
  }

  lemma LegalBelow(q: Query, path: seq<nat>, change: SourceChange)
    requires path != [] && LegalAt(q, path, change)
    ensures path[0] < |q.rels| && LegalAt(q.rels[path[0]].child, path[1..], change)
    ensures |path| == 1 && change.Edit? ==> J.SameOn(change.old_, change.row, q.rels[path[0]].childKey)
  {
  }

  /** An edit that keeps the key to the level above stays with its parents. */
  lemma {:induction false} SameParents(q: Query, i: nat, change: SourceChange, p: Row)
    requires WellFormed(q) && i < |q.rels| && change.Edit? && J.SameOn(change.old_, change.row, q.rels[i].childKey)
    requires J.Paired(Spec(q, i))
    ensures J.ChildOf(Spec(q, i), p)(change.old_) == J.ChildOf(Spec(q, i), p)(change.row)
  {
    SpecIs(q, i);
    J.OldMatches(Spec(q, i), p, change);
    J.ChildOfIs(Spec(q, i), p, change.old_);
    J.ChildOfIs(Spec(q, i), p, change.row);
  }

  /** Every part of the tree, cut out by any predicate on its top rows that the change does not
      cross, is maintained by its share of the emitted changes. */
  lemma {:induction false} MaintainsPart(q: Query, path: seq<nat>, change: SourceChange, m: Row -> bool)
    requires WellFormed(q) && LegalAt(q, path, change)
    requires path == [] && change.Edit? ==> m(change.old_) == m(change.row)
    ensures NestedAll(Part(q, m), SchemaOf(q), Select(m, Emit(q, path, change))) == Some(Part(Put(q, path, change), m))
    decreases |path|
  {
    hide *;
    if path == [] {
      MaintainsHere(q, change, m);
    } else {
      LegalBelow(q, path, change);
      PutIs(q, path, change);
      var (i, q') := (path[0], Put(q, path, change));
      var (c, es) := (q.rels[i].child, Emit(q.rels[i].child, path[1..], change));
      WellFormedAt(q, i);
      forall p
        ensures Folded(q, i, es, p) == Some(Part(q'.rels[i].child, J.ChildOf(Spec(q, i), p)))
        ensures State(q, i, es)(p) == Below(q')(p)
      {
        if path[1..] == [] && change.Edit? { SameParents(q, i, change, p); }
        MaintainsPart(c, path[1..], change, J.ChildOf(Spec(q, i), p));
        FoldedIs(q, i, es, p);
        StateDone(q, q', i, es, p);
      }
      FanFolds(q, i, es, m);
      PartIs(q', m);
      J.TreeSame(CU.Filter(m, q.rows), State(q, i, es), Below(q'));
    }
  }

  lemma {:induction false} FoldedIs(q: Query, i: nat, es: seq<R.CaughtChange>, p: Row)
    requires WellFormed(q) && i < |q.rels| && J.Paired(Spec(q, i))
    ensures var m := J.ChildOf(Spec(q, i), p);
      Folded(q, i, es, p) == NestedAll(Part(q.rels[i].child, m), SchemaOf(q.rels[i].child), Select(m, es))
  {
    hide NestedAll;
    hide Select;
    hide CU.Filter;
    hide Kids;
    KidsAre(q, i, p);
    PartIs(q.rels[i].child, J.ChildOf(Spec(q, i), p));
  }

  /** Once every share is delivered, a parent's lists are those of the changed query. */
  lemma {:induction false} StateDone(q: Query, q': Query, i: nat, es: seq<R.CaughtChange>, p: Row)
    requires i < |q.rels| && |q'.rels| == |q.rels| && J.Paired(Spec(q, i)) && Spec(q', i) == Spec(q, i)
    requires forall k :: 0 <= k < |q.rels| && k != i ==> q'.rels[k] == q.rels[k]
    requires q'.sort == q.sort && Folded(q, i, es, p) == Some(Part(q'.rels[i].child, J.ChildOf(Spec(q, i), p)))
    ensures State(q, i, es)(p) == Below(q')(p)
  {
    hide *;
    BelowIs(q', p);
    StateIs(q, i, es, es, [], p);
    ListAtIs(q, i, es, p);
    PartIs(q'.rels[i].child, J.ChildOf(Spec(q, i), p));
    KidsOfSlot(q', i, p);
    SubsAt(q', p, i);
    forall k | 0 <= k < |q.rels| && k != i ensures Subs(q', p)[k] == Subs(q, p)[k] {
      SubsAt(q, p, k);
      SubsAt(q', p, k);
      SameSlot(q, q', k, p);
    }
    assert Subs(q, p)[i := Subs(q', p)[i]] == Subs(q', p);
  }

  lemma KidsOfSlot(q: Query, i: nat, p: Row)
    requires i < |q.rels| && J.Paired(Spec(q, i))
    ensures Kids(q, i, p) == CU.Filter(J.ChildOf(Spec(q, i), p), q.rels[i].child.rows)
  {
    J.KidsIs(Spec(q, i), p, q.rels[i].child.rows);
  }

  lemma SameSlot(q: Query, q': Query, k: nat, p: Row)
    requires k < |q.rels| && k < |q'.rels| && q'.sort == q.sort && q'.rels[k] == q.rels[k]
    ensures Kids(q', k, p) == Kids(q, k, p)
  {
  }

  /** Maintenance at every depth: for every query tree and every legal change to the rows of any
      of its tables, folding what comes out on top, flattened, into the receiver's tree for the
      old rows gives the tree of a fresh run over the new rows. */
  lemma {:induction false} Maintains(q: Query, path: seq<nat>, change: SourceChange)
    requires WellFormed(q) && LegalAt(q, path, change)
    ensures R.ApplyAll(Fresh(q), SchemaOf(q), J.FlatAll(Emit(q, path, change))) == Some(Fresh(Put(q, path, change)))
  {
    hide *;
    var m := MS.AnyRow();
    AnyAccepts();
    MaintainsPart(q, path, change, m);
    SelectAll(m, Emit(q, path, change));
    FlatFold(Fresh(q), SchemaOf(q), Emit(q, path, change));
    WholePart(q);
    WholePart(Put(q, path, change));
  }

  lemma AnyAccepts()
    ensures forall r :: MS.AnyRow()(r)
  {
  }

  lemma {:induction false} WholePart(q: Query)
    ensures Part(q, MS.AnyRow()) == Fresh(q)
  {
    CU.FilterAll(MS.AnyRow(), q.rows);
  }

  /** The changed query is well formed again, so the result applies to every run of changes. */
  lemma {:induction false} PutWellFormed(q: Query, path: seq<nat>, change: SourceChange)
    requires WellFormed(q)
    ensures WellFormed(Put(q, path, change))
    decreases |path|
  {
    if path == [] {
      SortIsStrictWeak(q.sort);
      AppliedSorted(SortLt(q.sort), q.rows, change);
    } else if path[0] < |q.rels| {
      PutWellFormed(q.rels[path[0]].child, path[1..], change);
    }
  }

  datatype Step = Step(path: seq<nat>, change: SourceChange)

  ghost predicate AllLegalAt(q: Query, steps: seq<Step>)
    decreases |steps|
  {
    steps == []
    || (LegalAt(q, steps[0].path, steps[0].change)
        && AllLegalAt(Put(q, steps[0].path, steps[0].change), steps[1..]))
  }

  function PutAll(q: Query, steps: seq<Step>): Query
    decreases |steps|
  {
    if steps == [] then q else PutAll(Put(q, steps[0].path, steps[0].change), steps[1..])
  }

  function EmitAll(q: Query, steps: seq<Step>): seq<R.CaughtChange>
    decreases |steps|
  {
    if steps == [] then []
    else Emit(q, steps[0].path, steps[0].change)
         + EmitAll(Put(q, steps[0].path, steps[0].change), steps[1..])
  }

  /** View after writes equals fresh query, for every run of legal writes to any tables. */
  lemma {:induction false} MaintainsRun(q: Query, steps: seq<Step>)
    requires WellFormed(q) && AllLegalAt(q, steps)
    ensures R.ApplyAll(Fresh(q), SchemaOf(q), J.FlatAll(EmitAll(q, steps))) == Some(Fresh(PutAll(q, steps)))
    ensures SchemaOf(PutAll(q, steps)) == SchemaOf(q)
    decreases |steps|
  {
    if steps == [] {
      J.NoFlats();
      R.AllNil(Fresh(q), SchemaOf(q));
    } else {
      var s := steps[0];
      var q' := Put(q, s.path, s.change);
      Maintains(q, s.path, s.change);
      PutWellFormed(q, s.path, s.change);
      PutSchema(q, s.path, s.change);
      MaintainsRun(q', steps[1..]);
      RunJoins(q, steps, q');
    }
  }

  lemma {:induction false} RunJoins(q: Query, steps: seq<Step>, q': Query)
    requires steps != [] && q' == Put(q, steps[0].path, steps[0].change) && SchemaOf(q') == SchemaOf(q)
    requires R.ApplyAll(Fresh(q), SchemaOf(q), J.FlatAll(Emit(q, steps[0].path, steps[0].change))) == Some(Fresh(q'))
    requires R.ApplyAll(Fresh(q'), SchemaOf(q'), J.FlatAll(EmitAll(q', steps[1..])))
      == Some(Fresh(PutAll(q', steps[1..])))
    ensures R.ApplyAll(Fresh(q), SchemaOf(q), J.FlatAll(EmitAll(q, steps))) == Some(Fresh(PutAll(q, steps)))
  {
    hide R.ApplyAll;
    hide SchemaOf;
    hide Fresh;
    hide Emit;
    hide Put;
    var (a, b) := (Emit(q, steps[0].path, steps[0].change), EmitAll(q', steps[1..]));
    assert J.FlatAll(a + b) == J.FlatAll(a) + J.FlatAll(b);
    R.AllConcat(Fresh(q), SchemaOf(q), J.FlatAll(a), J.FlatAll(b));
  }

  /** Changing rows does not change the schema. */
  lemma {:induction false} PutSchema(q: Query, path: seq<nat>, change: SourceChange)
    ensures SchemaOf(Put(q, path, change)) == SchemaOf(q)
    decreases |path|
  {
    var q' := Put(q, path, change);
    if path != [] && path[0] < |q.rels| {
      PutSchema(q.rels[path[0]].child, path[1..], change);
      PutIs(q, path, change);
    }
    forall i | 0 <= i < |q.rels| ensures SchemaOf(q').rels[i] == SchemaOf(q).rels[i] {
      SchemaIs(q, i);
      SchemaIs(q', i);
    }
    SchemaIs(q, 0);
    SchemaIs(q', 0);
    assert SchemaOf(q').rels == SchemaOf(q).rels;
  }

  // ---- edits that move a key ----

  /** What a table's source pushes for a write: an edit that moves one of the split keys goes out as a
      removal and an addition. */
  function Writes(splitKeys: seq<ColId>, path: seq<nat>, change: SourceChange): seq<Step> {
    if MS.ShouldSplit(splitKeys, change) then [Step(path, Remove(change.old_)), Step(path, Add(change.row))]
    else [Step(path, change)]
  }

  /** The change tells the truth about the rows at `path`; nothing is asked of keys. */
  ghost predicate TruthfulAt(q: Query, path: seq<nat>, change: SourceChange)
    decreases |path|
  {
    if path == [] then Legal(SortLt(q.sort), q.rows, change)
    else path[0] < |q.rels| && TruthfulAt(q.rels[path[0]].child, path[1..], change)
  }

  /** The split keys cover every column the rows at `path` are joined by, downward and upward. */
  ghost predicate Covered(q: Query, path: seq<nat>, splitKeys: seq<ColId>)
    decreases |path|
  {
    if path == [] then
      forall i, k :: 0 <= i < |q.rels| && k in q.rels[i].parentKey ==> k in splitKeys
    else
      && path[0] < |q.rels| && Covered(q.rels[path[0]].child, path[1..], splitKeys)
      && (|path| == 1 ==> forall k :: k in q.rels[path[0]].childKey ==> k in splitKeys)
  }

  /** View after writes equals fresh query for every truthful write, key-moving edits included, once
      the joined columns are split keys. */
  lemma {:induction false} SplitMaintains(q: Query, path: seq<nat>, change: SourceChange, splitKeys: seq<ColId>)
    requires WellFormed(q) && TruthfulAt(q, path, change) && Covered(q, path, splitKeys)
    ensures var steps := Writes(splitKeys, path, change);
      R.ApplyAll(Fresh(q), SchemaOf(q), J.FlatAll(EmitAll(q, steps))) == Some(Fresh(Put(q, path, change)))
  {
    var steps := Writes(splitKeys, path, change);
    WritesLegal(q, path, change, splitKeys);
    MaintainsRun(q, steps);
  }

  lemma {:induction false} WritesLegal(q: Query, path: seq<nat>, change: SourceChange, splitKeys: seq<ColId>)
    requires WellFormed(q) && TruthfulAt(q, path, change) && Covered(q, path, splitKeys)
    ensures AllLegalAt(q, Writes(splitKeys, path, change))
    ensures PutAll(q, Writes(splitKeys, path, change)) == Put(q, path, change)
  {
    if MS.ShouldSplit(splitKeys, change) {
      var (a, b) := (Step(path, Remove(change.old_)), Step(path, Add(change.row)));
      SplitLegal(q, path, change.old_, change.row);
      hide LegalAt;
      hide Put;
      var q1 := Put(q, path, a.change);
      var q2 := Put(q1, path, b.change);
      assert [a, b][1..] == [b] && [b][1..] == [] && change == Edit(change.old_, change.row);
      assert AllLegalAt(q2, []) && PutAll(q2, []) == q2;
      assert AllLegalAt(q1, [b]) && PutAll(q1, [b]) == q2;
      assert AllLegalAt(q, [a, b]) && PutAll(q, [a, b]) == q2;
    } else {
      KeptLegal(q, path, change, splitKeys);
      hide LegalAt;
      hide Put;
      assert [Step(path, change)][1..] == [];
    }
  }

  lemma {:induction false} SplitLegal(q: Query, path: seq<nat>, old_: Row, row: Row)
    requires WellFormed(q) && TruthfulAt(q, path, Edit(old_, row))
    ensures LegalAt(q, path, Remove(old_)) && LegalAt(Put(q, path, Remove(old_)), path, Add(row))
    ensures Put(Put(q, path, Remove(old_)), path, Add(row)) == Put(q, path, Edit(old_, row))
    decreases |path|
  {
    if path == [] {
      SortIsStrictWeak(q.sort);
      MS.LegalSplit(SortLt(q.sort), q.rows, old_, row);
    } else {
      SplitLegal(q.rels[path[0]].child, path[1..], old_, row);
    }
  }

  lemma {:induction false} KeptLegal(q: Query, path: seq<nat>, change: SourceChange, splitKeys: seq<ColId>)
    requires TruthfulAt(q, path, change) && Covered(q, path, splitKeys) && !MS.ShouldSplit(splitKeys, change)
    ensures LegalAt(q, path, change)
    decreases |path|
  {
    hide Legal;
    if change.Edit? { KeysKept(splitKeys, change); }
    if path != [] { KeptLegal(q.rels[path[0]].child, path[1..], change, splitKeys); }
  }

  lemma KeysKept(splitKeys: seq<ColId>, change: SourceChange)
    requires change.Edit? && !MS.ShouldSplit(splitKeys, change)
    ensures forall key: seq<ColId> :: (forall k :: k in key ==> k in splitKeys) ==>
      J.SameOn(change.old_, change.row, key)
  {
    forall key: seq<ColId> | forall k :: k in key ==> k in splitKeys ensures J.SameOn(change.old_, change.row, key) {
      forall i | 0 <= i < |key| ensures Col(change.old_, key[i]) == Col(change.row, key[i]) {
        assert key[i] in splitKeys;
        MS.SplitIff(splitKeys, change);
        EqualitiesAre(Col(change.row, key[i]), Col(change.old_, key[i]));
      }
      J.SameOnIs(change.old_, change.row, key);
    }
  }
}
