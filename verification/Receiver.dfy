/** The flat change stream of rust/src/flat.rs and the receiver of rust/src/flat_receiver.rs
    that folds it into a tree of reference-counted nodes.  A panic is `None`. */
module Receiver {
  import opened Values
  import opened Order

  /** Per level: the sort, and per relationship slot the child schema, or `None` for a slot
      that is not part of the view. */
  datatype Schema = Schema(sort: Sort, rels: seq<Option<Schema>>)

  datatype RecvNode = RecvNode(row: Row, rc: nat, rels: seq<seq<RecvNode>>)

  /** A materialised node: its row and its children per slot, already in order. */
  datatype WireNode = WireNode(row: Row, rels: seq<WireRel>)
  datatype WireRel = WireRel(slot: nat, kids: seq<WireNode>)

  datatype PathSeg = PathSeg(rel: nat, parentRow: Row)
  datatype FlatOp = Add(node: WireNode) | Remove(row: Row) | Edit(old_: Row, new_: Row)
  datatype FlatChange = FlatChange(path: seq<PathSeg>, op: FlatOp)

  /** The nested form operators emit. */
  datatype CaughtChange =
    | CaughtAdd(node: WireNode)
    | CaughtRemove(node: WireNode)
    | CaughtEdit(old_: Row, row: Row)
    | CaughtChild(row: Row, rel: nat, change: CaughtChange)

  type List = seq<RecvNode>

  function RowsOf(list: List): (rows: seq<Row>)
    ensures |rows| == |list|
    ensures forall i :: 0 <= i < |list| ==> rows[i] == list[i].row
  {
    seq(|list|, i requires 0 <= i < |list| => list[i].row)
  }

  function Place(sort: Sort, list: List, row: Row): (p: nat)
    ensures p <= |list|
  {
    LowerBound(SortLt(sort), RowsOf(list), row)
  }

  predicate Found(sort: Sort, list: List, row: Row) {
    Hit(SortLt(sort), RowsOf(list), row)
  }

  function InsertNode(list: List, p: nat, n: RecvNode): List
    requires p <= |list|
  {
    list[..p] + [n] + list[p..]
  }

  function DropNode(list: List, p: nat): List
    requires p < |list|
  {
    list[..p] + list[p + 1..]
  }

  /** `rel_child`: undeclared and join-only slots are out of view. */
  function RelChild(schema: Schema, slot: nat): Option<Schema> {
    if slot < |schema.rels| then schema.rels[slot] else None
  }

  /** `build_node`: a fresh node with its inline subtree. */
  function BuildNode(node: WireNode, schema: Schema): RecvNode
    decreases node, 2, 0
  {
    RecvNode(node.row, 1, BuildRels(node, |node.rels|, schema))
  }

  function BuildRels(node: WireNode, k: nat, schema: Schema): (rels: seq<List>)
    requires k <= |node.rels|
    ensures |rels| == |schema.rels|
    decreases node, 1, k
  {
    if k == 0 then seq(|schema.rels|, _ => [])
    else
      var before := BuildRels(node, k - 1, schema);
      var slot := node.rels[k - 1].slot;
      if RelChild(schema, slot).None? then before
      else before[slot := BuildKids(node, k - 1, |node.rels[k - 1].kids|, RelChild(schema, slot).value)]
  }

  function BuildKids(node: WireNode, k: nat, m: nat, schema: Schema): List
    requires k < |node.rels| && m <= |node.rels[k].kids|
    decreases node, 0, m
  {
    if m == 0 then []
    else
      var built := BuildKids(node, k, m - 1, schema);
      var child := node.rels[k].kids[m - 1];
      var p := Place(schema.sort, built, child.row);
      if Found(schema.sort, built, child.row) then built[p := built[p].(rc := built[p].rc + 1)]
      else InsertNode(built, p, BuildNode(child, schema))
  }

  /** `apply_add` */
  function ApplyAdd(list: List, schema: Schema, node: WireNode): List {
    var p := Place(schema.sort, list, node.row);
    if Found(schema.sort, list, node.row) then list[p := list[p].(rc := list[p].rc + 1)]
    else InsertNode(list, p, BuildNode(node, schema))
  }

  /** `apply_remove` */
  function ApplyRemove(list: List, schema: Schema, row: Row): Option<List> {
    if !Found(schema.sort, list, row) then None
    else
      var p := Place(schema.sort, list, row);
      if list[p].rc <= 1 then Some(DropNode(list, p))
      else Some(list[p := list[p].(rc := list[p].rc - 1)])
  }

  /** `apply_edit`: in place when the sort key stays, a same-slot overwrite when a lone
      reference moves nowhere, else a move that may leave a survivor and may merge. */
  function ApplyEdit(list: List, schema: Schema, old_: Row, new_: Row): Option<List> {
    if !Found(schema.sort, list, old_) then None
    else
      var p := Place(schema.sort, list, old_);
      if CompareRows(schema.sort, old_, new_).Equal? then Some(list[p := list[p].(row := new_)])
      else
        var q := Place(schema.sort, list, new_);
        if list[p].rc <= 1 && (q == p || q == p + 1) then Some(list[p := list[p].(row := new_)])
        else
          if Found(schema.sort, list, new_) then
            DistinctPlaces(schema.sort, list, old_, new_);
            Some(Move(list, p, q, true, new_))
          else Some(Move(list, p, q, false, new_))
  }

  /** Different keys are found at different places. */
  lemma DistinctPlaces(sort: Sort, list: List, a: Row, b: Row)
    requires Found(sort, list, a) && Found(sort, list, b) && !CompareRows(sort, a, b).Equal?
    ensures Place(sort, list, a) != Place(sort, list, b)
  {
    SortIsStrictWeak(sort);
    var r := RowsOf(list)[Place(sort, list, a)];
    Laws(SortLt(sort), a, r, b);
    Laws(SortLt(sort), b, r, a);
  }

  /** The general move. */
  function Move(list: List, p: nat, q: nat, found: bool, new_: Row): List
    requires p < |list| && q <= |list| && (found ==> q < |list| && q != p)
  {
    var e := list[p];
    var lone := e.rc <= 1;
    var rest := if lone then DropNode(list, p) else list[p := e.(rc := e.rc - 1)];
    var at := if lone && p < q then q - 1 else q;
    if found then rest[at := rest[at].(row := new_, rc := rest[at].rc + 1)]
    else InsertNode(rest, at, e.(row := new_, rc := 1))
  }

  function ApplyOp(list: List, schema: Schema, op: FlatOp): Option<List> {
    match op
    case Add(node) => Some(ApplyAdd(list, schema, node))
    case Remove(row) => ApplyRemove(list, schema, row)
    case Edit(old_, new_) => ApplyEdit(list, schema, old_, new_)
  }

  /** `apply_at` */
  function ApplyAt(list: List, schema: Schema, path: seq<PathSeg>, op: FlatOp): Option<List>
    decreases |path|
  {
    if path == [] then ApplyOp(list, schema, op)
    else
      var seg := path[0];
      if RelChild(schema, seg.rel).None? then Some(list)
      else if !Found(schema.sort, list, seg.parentRow) then None
      else
        var p := Place(schema.sort, list, seg.parentRow);
        if seg.rel >= |list[p].rels| then None
        else
          var r := ApplyAt(list[p].rels[seg.rel], RelChild(schema, seg.rel).value, path[1..], op);
          if r.None? then None
          else Some(list[p := list[p].(rels := list[p].rels[seg.rel := r.value])])
  }

  function Apply(list: List, schema: Schema, c: FlatChange): Option<List> {
    ApplyAt(list, schema, c.path, c.op)
  }

  /** The fold of a batch. */
  function ApplyAll(list: List, schema: Schema, cs: seq<FlatChange>): Option<List> {
    if cs == [] then Some(list)
    else
      var before := ApplyAll(list, schema, cs[..|cs| - 1]);
      if before.None? then None else Apply(before.value, schema, cs[|cs| - 1])
  }

  // ---- one list as a map from keys to nodes ----

  /** Strictly sorted with positive counts. */
  ghost predicate Shape(sort: Sort, list: List) {
    Sorted(SortLt(sort), RowsOf(list)) && forall i :: 0 <= i < |list| ==> list[i].rc >= 1
  }

  /** The node a key maps to. */
  function At(sort: Sort, list: List, key: Row): Option<RecvNode> {
    if Found(sort, list, key) then Some(list[Place(sort, list, key)]) else None
  }

  predicate SameSort(sort: Sort, a: Row, b: Row) {
    SameKey(SortLt(sort), a, b)
  }

  lemma {:induction false} SameSortLaws(sort: Sort, a: Row, b: Row, c: Row)
    ensures SameSort(sort, a, a)
    ensures SameSort(sort, a, b) ==> SameSort(sort, b, a)
    ensures SameSort(sort, a, b) && SameSort(sort, b, c) ==> SameSort(sort, a, c)
    ensures SameSort(sort, a, b) <==> CompareRows(sort, a, b).Equal?
  {
    SortIsStrictWeak(sort);
    AllLaws(SortLt(sort));
  }

  /** Looking up is finding the one member with that key. */
  lemma {:induction false} AtIff(sort: Sort, list: List, key: Row, e: RecvNode)
    requires Sorted(SortLt(sort), RowsOf(list))
    ensures At(sort, list, key) == Some(e) <==> e in list && SameSort(sort, e.row, key)
  {
    var (lt, rows) := (SortLt(sort), RowsOf(list));
    SortIsStrictWeak(sort);
    HitIffPresent(lt, rows, key);
    hide SortLt;
    if e in list && SameSort(sort, e.row, key) {
      var i :| 0 <= i < |list| && list[i] == e;
      assert rows[i] == e.row && e.row in rows;
      assert Lookup(lt, rows, key) == Some(e.row);
      var p := Place(sort, list, key);
      assert rows[p] == e.row;
      Laws(lt, rows[i], rows[i], rows[i]);
      assert lt(rows[p], rows[i]) || p >= i;
      assert lt(rows[i], rows[p]) || i >= p;
    }
  }

  /** Two lists whose members with key `key` are the same look up the same. */
  lemma {:induction false} AtByMembers(sort: Sort, list: List, key: Row, want: Option<RecvNode>)
    requires Sorted(SortLt(sort), RowsOf(list))
    requires want.Some? ==> want.value in list && SameSort(sort, want.value.row, key)
    requires want.None? ==> forall e :: e in list ==> !SameSort(sort, e.row, key)
    ensures At(sort, list, key) == want
  {
    if want.Some? { AtIff(sort, list, key, want.value); }
    else if At(sort, list, key).Some? { AtIff(sort, list, key, At(sort, list, key).value); }
  }

  lemma AtMembers(sort: Sort, list: List, key: Row)
    requires Sorted(SortLt(sort), RowsOf(list))
    ensures At(sort, list, key).Some? ==>
      At(sort, list, key).value in list && SameSort(sort, At(sort, list, key).value.row, key)
    ensures At(sort, list, key).None? ==> forall e :: e in list ==> !SameSort(sort, e.row, key)
  {
    if At(sort, list, key).Some? { AtIff(sort, list, key, At(sort, list, key).value); }
    else { forall e | e in list ensures !SameSort(sort, e.row, key) { AtIff(sort, list, key, e); } }
  }

  /** Inserting an absent key. */
  lemma {:induction false} InsertShape(sort: Sort, list: List, n: RecvNode)
    requires Shape(sort, list) && !Found(sort, list, n.row) && n.rc >= 1
    ensures Shape(sort, InsertNode(list, Place(sort, list, n.row), n))
  {
    hide *;
    ShapeIs(sort, list);
    var list' := InsertNode(list, Place(sort, list, n.row), n);
    SortIsStrictWeak(sort);
    InsertSorted(SortLt(sort), RowsOf(list), n.row);
    RowsInserted(sort, list, n);
    forall i | 0 <= i < |list'| ensures list'[i].rc >= 1 { MemberInserted(list, Place(sort, list, n.row), n, i); }
    ShapeMade(sort, list');
  }

  lemma RowsInserted(sort: Sort, list: List, n: RecvNode)
    requires !Found(sort, list, n.row)
    ensures RowsOf(InsertNode(list, Place(sort, list, n.row), n)) == Insert(SortLt(sort), RowsOf(list), n.row)
  {
    var (p, rows) := (LowerBound(SortLt(sort), RowsOf(list), n.row), RowsOf(list));
    assert RowsOf(InsertNode(list, p, n)) == rows[..p] + [n.row] + rows[p..];
  }

  lemma MemberInserted(list: List, p: nat, n: RecvNode, i: nat)
    requires p <= |list| && i < |InsertNode(list, p, n)|
    ensures InsertNode(list, p, n)[i] == n || InsertNode(list, p, n)[i] in list
  {
  }

  lemma ShapeMade(sort: Sort, list: List)
    requires Sorted(SortLt(sort), RowsOf(list)) && forall i :: 0 <= i < |list| ==> list[i].rc >= 1
    ensures Shape(sort, list)
  {
  }

  lemma {:induction false} InsertLaw(sort: Sort, list: List, n: RecvNode, key: Row)
    requires Shape(sort, list) && !Found(sort, list, n.row) && n.rc >= 1
    ensures At(sort, InsertNode(list, Place(sort, list, n.row), n), key)
         == if SameSort(sort, n.row, key) then Some(n) else At(sort, list, key)
  {
    var list' := InsertNode(list, Place(sort, list, n.row), n);
    InsertShape(sort, list, n);
    SameSortLaws(sort, n.row, key, key);
    AtMembers(sort, list, key);
    AtMembers(sort, list, n.row);
    hide SameSort;
    hide Found;
    hide SortLt;
    assert forall e :: e in list' <==> e == n || e in list;
    if SameSort(sort, n.row, key) {
      assert n in list';
      AtByMembers(sort, list', key, Some(n));
    } else {
      AtByMembers(sort, list', key, At(sort, list, key));
    }
  }

  /** Overwriting a node by one with the same key. */
  lemma {:induction false} ReplaceShape(sort: Sort, list: List, p: nat, n: RecvNode)
    requires Shape(sort, list) && p < |list| && SameSort(sort, list[p].row, n.row) && n.rc >= 1
    ensures Shape(sort, list[p := n])
  {
    var (lt, rows) := (SortLt(sort), RowsOf(list));
    SortIsStrictWeak(sort);
    assert RowsOf(list[p := n]) == rows[p := n.row];
    hide SortLt;
    var rows' := rows[p := n.row];
    forall i, j | 0 <= i < j < |rows| ensures lt(rows'[i], rows'[j]) {
      Laws(lt, rows[i], n.row, rows[p]);
      Laws(lt, rows[p], n.row, rows[j]);
      Laws(lt, rows[i], rows[p], n.row);
      Laws(lt, n.row, rows[p], rows[j]);
      Laws(lt, rows[p], rows[j], n.row);
    }
  }

  lemma {:induction false} ReplaceLaw(sort: Sort, list: List, p: nat, n: RecvNode, key: Row)
    requires Shape(sort, list) && p < |list| && SameSort(sort, list[p].row, n.row) && n.rc >= 1
    ensures At(sort, list[p := n], key) == if SameSort(sort, n.row, key) then Some(n) else At(sort, list, key)
  {
    var list' := list[p := n];
    ReplaceShape(sort, list, p, n);
    SameSortLaws(sort, list[p].row, n.row, key);
    SameSortLaws(sort, n.row, list[p].row, key);
    AtMembers(sort, list, key);
    hide SameSort;
    hide SortLt;
    assert list'[p] == n;
    if SameSort(sort, n.row, key) {
      AtByMembers(sort, list', key, Some(n));
    } else {
      forall e | e in list' ensures e == n || e in list { }
      if At(sort, list, key).Some? {
        var d := At(sort, list, key).value;
        var i :| 0 <= i < |list| && list[i] == d;
        assert list'[i] == d;
      }
      AtByMembers(sort, list', key, At(sort, list, key));
    }
  }

  /** Dropping a node. */
  lemma {:induction false} DropShape(sort: Sort, list: List, p: nat)
    requires Shape(sort, list) && p < |list|
    ensures Shape(sort, DropNode(list, p))
  {
    var (lt, rows, rest) := (SortLt(sort), RowsOf(list), DropNode(list, p));
    hide SortLt;
    forall i, j | 0 <= i < j < |rest| ensures lt(RowsOf(rest)[i], RowsOf(rest)[j]) {
      assert RowsOf(rest)[i] == rows[if i < p then i else i + 1] && RowsOf(rest)[j] == rows[if j < p then j else j + 1];
    }
  }

  lemma {:induction false} DropLaw(sort: Sort, list: List, p: nat, key: Row)
    requires Shape(sort, list) && p < |list|
    ensures At(sort, DropNode(list, p), key) == if SameSort(sort, list[p].row, key) then None else At(sort, list, key)
  {
    hide *;
    var list' := DropNode(list, p);
    ShapeIs(sort, list);
    DropShape(sort, list, p);
    ShapeIs(sort, list');
    AtMembers(sort, list, key);
    Dropped(list, p);
    if SameSort(sort, list[p].row, key) {
      forall e | e in list' ensures !SameSort(sort, e.row, key) { DroppedKey(sort, list, p, e, key); }
      AtByMembers(sort, list', key, None);
    } else {
      AtByMembers(sort, list', key, At(sort, list, key));
    }
  }

  lemma Dropped(list: List, p: nat)
    requires p < |list|
    ensures forall e :: e in DropNode(list, p) ==> e in list
    ensures forall e :: e in list && e != list[p] ==> e in DropNode(list, p)
  {
    forall e | e in list && e != list[p] ensures e in DropNode(list, p) {
      var i :| 0 <= i < |list| && list[i] == e;
      assert DropNode(list, p)[if i < p then i else i - 1] == e;
    }
  }

  lemma DroppedKey(sort: Sort, list: List, p: nat, e: RecvNode, key: Row)
    requires Shape(sort, list) && p < |list| && e in DropNode(list, p) && SameSort(sort, list[p].row, key)
    ensures !SameSort(sort, e.row, key)
  {
    hide *;
    var i := DroppedFrom(list, p, e);
    TwoPlaces(sort, list, i, p);
    SameSortLaws(sort, e.row, key, list[p].row);
    SameSortLaws(sort, list[p].row, key, e.row);
  }

  lemma DroppedFrom(list: List, p: nat, e: RecvNode) returns (i: nat)
    requires p < |list| && e in DropNode(list, p)
    ensures i < |list| && i != p && list[i] == e
  {
    var rest := DropNode(list, p);
    var j :| 0 <= j < |rest| && rest[j] == e;
    i := if j < p then j else j + 1;
  }

  lemma TwoPlaces(sort: Sort, list: List, i: nat, p: nat)
    requires Shape(sort, list) && i < |list| && p < |list| && i != p
    ensures !SameSort(sort, list[i].row, list[p].row)
  {
    var rows := RowsOf(list);
    assert rows[i] == list[i].row && rows[p] == list[p].row;
  }

  // ---- the three operations as updates of that map ----

  /** `apply_add`: one more reference to the key; a new key brings its own subtree, a known one
      keeps the children it has. */
  lemma {:induction false} AddLaw(list: List, schema: Schema, node: WireNode, key: Row)
    requires Shape(schema.sort, list)
    ensures Shape(schema.sort, ApplyAdd(list, schema, node))
    ensures At(schema.sort, ApplyAdd(list, schema, node), key)
         == if !SameSort(schema.sort, node.row, key) then At(schema.sort, list, key)
            else match At(schema.sort, list, key)
                 case None => Some(BuildNode(node, schema))
                 case Some(e) => Some(e.(rc := e.rc + 1))
  {
    hide *;
    var sort := schema.sort;
    BuildRoot(node, schema);
    ShapeIs(sort, list);
    AtIs(sort, list, node.row);
    AddIs(list, schema, node);
    AtKey(sort, list, node.row, key);
    if Found(sort, list, node.row) {
      var p := Place(sort, list, node.row);
      var n := list[p].(rc := list[p].rc + 1);
      AtMembers(sort, list, node.row);
      SameSortLaws(sort, list[p].row, node.row, key);
      SameSortLaws(sort, node.row, list[p].row, key);
      ReplaceShape(sort, list, p, n);
      ReplaceLaw(sort, list, p, n, key);
    } else {
      InsertShape(sort, list, BuildNode(node, schema));
      InsertLaw(sort, list, BuildNode(node, schema), key);
    }
  }

  lemma AtIs(sort: Sort, list: List, key: Row)
    ensures Found(sort, list, key) <==> At(sort, list, key).Some?
    ensures Found(sort, list, key) ==>
      Place(sort, list, key) < |list| && At(sort, list, key) == Some(list[Place(sort, list, key)])
  {
  }

  lemma ShapeIs(sort: Sort, list: List)
    requires Shape(sort, list)
    ensures Sorted(SortLt(sort), RowsOf(list)) && forall i :: 0 <= i < |list| ==> list[i].rc >= 1
  {
  }

  lemma AddIs(list: List, schema: Schema, node: WireNode)
    ensures var p := Place(schema.sort, list, node.row);
      && (Found(schema.sort, list, node.row) ==>
        p < |list| && ApplyAdd(list, schema, node) == list[p := list[p].(rc := list[p].rc + 1)])
      && (!Found(schema.sort, list, node.row) ==>
        ApplyAdd(list, schema, node) == InsertNode(list, p, BuildNode(node, schema)))
  {
  }

  lemma RemoveIs(list: List, schema: Schema, row: Row)
    ensures var p := Place(schema.sort, list, row);
      && (!Found(schema.sort, list, row) ==> ApplyRemove(list, schema, row) == None)
      && (Found(schema.sort, list, row) ==> p < |list| && ApplyRemove(list, schema, row) == Some(Vacated(list, p)))
  {
  }

  lemma ReleasedIs(e: RecvNode)
    ensures Released(e) == if e.rc <= 1 then None else Some(e.(rc := e.rc - 1))
  {
  }

  lemma VacatedIs(list: List, p: nat)
    requires p < |list|
    ensures Vacated(list, p) == if list[p].rc <= 1 then DropNode(list, p) else list[p := list[p].(rc := list[p].rc - 1)]
  {
  }

  lemma ArrivedIs(sort: Sort, list: List, e: RecvNode, new_: Row)
    ensures var at := Place(sort, list, new_);
      && (Found(sort, list, new_) ==>
        at < |list| && Arrived(sort, list, e, new_) == list[at := list[at].(row := new_, rc := list[at].rc + 1)])
      && (!Found(sort, list, new_) ==> Arrived(sort, list, e, new_) == InsertNode(list, at, e.(row := new_, rc := 1)))
  {
  }

  lemma BuildRoot(node: WireNode, schema: Schema)
    ensures BuildNode(node, schema).row == node.row && BuildNode(node, schema).rc == 1
  {
  }

  /** Equal keys are found together, at one place. */
  lemma {:induction false} AtKey(sort: Sort, list: List, a: Row, b: Row)
    requires Sorted(SortLt(sort), RowsOf(list))
    ensures SameSort(sort, a, b) ==> At(sort, list, a) == At(sort, list, b)
  {
    hide At;
    if SameSort(sort, a, b) {
      AtMembers(sort, list, b);
      if At(sort, list, b).Some? { SameSortLaws(sort, At(sort, list, b).value.row, b, a); }
      SameSortLaws(sort, a, b, b);
      forall e | e in list ensures SameSort(sort, e.row, a) ==> SameSort(sort, e.row, b) {
        SameSortLaws(sort, e.row, a, b);
      }
      AtByMembers(sort, list, a, At(sort, list, b));
    }
  }

  /** `apply_remove`: panics exactly on an absent key; drops one reference, and the node with the
      last one. */
  lemma {:induction false} RemoveLaw(list: List, schema: Schema, row: Row, key: Row)
    requires Shape(schema.sort, list)
    ensures ApplyRemove(list, schema, row).None? <==> At(schema.sort, list, row).None?
    ensures var r := ApplyRemove(list, schema, row); r.Some? ==>
      && Shape(schema.sort, r.value)
      && At(schema.sort, r.value, key)
         == if !SameSort(schema.sort, row, key) then At(schema.sort, list, key)
           else Released(At(schema.sort, list, row).value)
  {
    hide *;
    var sort := schema.sort;
    ShapeIs(sort, list);
    AtIs(sort, list, row);
    RemoveIs(list, schema, row);
    if Found(sort, list, row) {
      var p := Place(sort, list, row);
      AtMembers(sort, list, row);
      SameSortLaws(sort, list[p].row, row, key);
      SameSortLaws(sort, row, list[p].row, key);
      VacatedLaw(sort, list, p, key);
    }
  }

  /** A node after one of its references is gone. */
  function Released(e: RecvNode): Option<RecvNode> {
    if e.rc <= 1 then None else Some(e.(rc := e.rc - 1))
  }

  /** A node that keeps its key is edited in place, with its count and children. */
  lemma {:induction false} EditInPlaceLaw(list: List, schema: Schema, old_: Row, new_: Row, key: Row)
    requires Shape(schema.sort, list) && SameSort(schema.sort, old_, new_)
    ensures ApplyEdit(list, schema, old_, new_).None? <==> At(schema.sort, list, old_).None?
    ensures var r := ApplyEdit(list, schema, old_, new_); r.Some? ==>
      && Shape(schema.sort, r.value)
      && At(schema.sort, r.value, key)
         == if !SameSort(schema.sort, old_, key) then At(schema.sort, list, key)
            else Some(At(schema.sort, list, old_).value.(row := new_))
  {
    var sort := schema.sort;
    SameSortLaws(sort, old_, new_, key);
    SameSortLaws(sort, new_, old_, key);
    if Found(sort, list, old_) {
      var p := Place(sort, list, old_);
      AtMembers(sort, list, old_);
      SameSortLaws(sort, list[p].row, old_, new_);
      ReplaceShape(sort, list, p, list[p].(row := new_));
      ReplaceLaw(sort, list, p, list[p].(row := new_), key);
    }
  }

  /** What a move of one reference from `old_` to `new_` should leave at `key`, where `e` is the
      node moved from and `there` what `key` held: a known destination keeps its children, a new
      one takes those of the node moved. */
  function Moved(sort: Sort, e: RecvNode, there: Option<RecvNode>, old_: Row, new_: Row, key: Row): Option<RecvNode> {
    if SameSort(sort, new_, key) then
      (match there case None => Some(e.(row := new_, rc := 1)) case Some(d) => Some(d.(row := new_, rc := d.rc + 1)))
    else if SameSort(sort, old_, key) then Released(e)
    else there
  }

  /** The case the same-slot shortcut gets wrong: the last reference to a node moves onto the key
      of the very next node. */
  predicate Stuck(sort: Sort, list: List, old_: Row, new_: Row) {
    && Found(sort, list, old_)
    && var p := Place(sort, list, old_);
       list[p].rc <= 1 && p + 1 < |list| && SameSort(sort, list[p + 1].row, new_)
  }

  /** The list with one reference to position `p` gone. */
  function Vacated(list: List, p: nat): List
    requires p < |list|
  {
    if list[p].rc <= 1 then DropNode(list, p) else list[p := list[p].(rc := list[p].rc - 1)]
  }

  /** Then the reference arrives. */
  function Arrived(sort: Sort, list: List, e: RecvNode, new_: Row): List {
    var at := Place(sort, list, new_);
    if Found(sort, list, new_) then list[at := list[at].(row := new_, rc := list[at].rc + 1)]
    else InsertNode(list, at, e.(row := new_, rc := 1))
  }

  lemma {:induction false} VacatedLaw(sort: Sort, list: List, p: nat, key: Row)
    requires Shape(sort, list) && p < |list|
    ensures Shape(sort, Vacated(list, p))
    ensures At(sort, Vacated(list, p), key)
      == if SameSort(sort, list[p].row, key) then Released(list[p]) else At(sort, list, key)
  {
    hide *;
    ShapeIs(sort, list);
    VacatedIs(list, p);
    ReleasedIs(list[p]);
    SameSortLaws(sort, list[p].row, list[p].row, key);
    if list[p].rc <= 1 {
      DropShape(sort, list, p);
      DropLaw(sort, list, p, key);
    } else {
      ReplaceShape(sort, list, p, list[p].(rc := list[p].rc - 1));
      ReplaceLaw(sort, list, p, list[p].(rc := list[p].rc - 1), key);
    }
  }

  lemma {:induction false} ArrivedLaw(sort: Sort, list: List, e: RecvNode, new_: Row, key: Row)
    requires Shape(sort, list)
    ensures Shape(sort, Arrived(sort, list, e, new_))
    ensures At(sort, Arrived(sort, list, e, new_), key)
         == if !SameSort(sort, new_, key) then At(sort, list, key)
            else match At(sort, list, new_)
                 case None => Some(e.(row := new_, rc := 1))
                 case Some(d) => Some(d.(row := new_, rc := d.rc + 1))
  {
    hide *;
    ShapeIs(sort, list);
    AtIs(sort, list, new_);
    ArrivedIs(sort, list, e, new_);
    if Found(sort, list, new_) {
      var at := Place(sort, list, new_);
      var n := list[at].(row := new_, rc := list[at].rc + 1);
      AtMembers(sort, list, new_);
      ReplaceShape(sort, list, at, n);
      ReplaceLaw(sort, list, at, n, key);
    } else {
      InsertShape(sort, list, e.(row := new_, rc := 1));
      InsertLaw(sort, list, e.(row := new_, rc := 1), key);
    }
  }

  /** Where the destination lies once the source is gone. */
  lemma {:induction false} PlaceAfterDrop(sort: Sort, list: List, p: nat, new_: Row)
    requires Shape(sort, list) && p < |list| && !SameSort(sort, list[p].row, new_)
    ensures var q := Place(sort, list, new_); Place(sort, DropNode(list, p), new_) == if p < q then q - 1 else q
  {
    var (lt, rows, q, rest) := (SortLt(sort), RowsOf(list), Place(sort, list, new_), DropNode(list, p));
    SortIsStrictWeak(sort);
    DropShape(sort, list, p);
    RowsDropped(list, p);
    hide SortLt;
    hide DropNode;
    LowerAfterDrop(lt, rows, p, new_);
  }

  lemma RowsDropped(list: List, p: nat)
    requires p < |list|
    ensures RowsOf(DropNode(list, p)) == RowsOf(list)[..p] + RowsOf(list)[p + 1..]
  {
  }

  lemma {:induction false} LowerAfterDrop(lt: Lt, rows: seq<Row>, p: nat, key: Row)
    requires StrictWeak(lt) && Sorted(lt, rows) && p < |rows| && Sorted(lt, rows[..p] + rows[p + 1..])
    requires !SameKey(lt, rows[p], key)
    ensures var q := LowerBound(lt, rows, key);
      LowerBound(lt, rows[..p] + rows[p + 1..], key) == if p < q then q - 1 else q
  {
    var (q, rest) := (LowerBound(lt, rows, key), rows[..p] + rows[p + 1..]);
    var at := if p < q then q - 1 else q;
    if at > 0 { assert rest[at - 1] == rows[if at - 1 < p then at - 1 else at]; }
    if at < |rest| {
      assert rest[at] == rows[if at < p then at else at + 1];
      if p == q { Laws(lt, rows[p], rows[p + 1], key); }
    }
    LowerBoundUnique(lt, rest, key, at);
  }

  /** Off the stuck case every branch of `apply_edit` is "vacate, then arrive". */
  lemma {:induction false} EditIsMove(list: List, schema: Schema, old_: Row, new_: Row)
    requires Shape(schema.sort, list) && Found(schema.sort, list, old_) && !SameSort(schema.sort, old_, new_)
    requires !Stuck(schema.sort, list, old_, new_)
    ensures var p := Place(schema.sort, list, old_);
      ApplyEdit(list, schema, old_, new_) == Some(Arrived(schema.sort, Vacated(list, p), list[p], new_))
  {
    hide *;
    var (sort, p, q) := (schema.sort, Place(schema.sort, list, old_), Place(schema.sort, list, new_));
    ShapeIs(sort, list);
    AtIs(sort, list, old_);
    AtIs(sort, list, new_);
    var e := list[p];
    StuckIs(sort, list, old_, new_);
    SameSortLaws(sort, old_, new_, new_);
    AtMembers(sort, list, old_);
    SameSortLaws(sort, e.row, old_, new_);
    SameSortLaws(sort, old_, e.row, new_);
    EditIs(list, schema, old_, new_);
    VacatedIs(list, p);
    VacatedLaw(sort, list, p, new_);
    AtIs(sort, Vacated(list, p), new_);
    ArrivedIs(sort, Vacated(list, p), e, new_);
    if e.rc <= 1 {
      PlaceAfterDrop(sort, list, p, new_);
      if q == p || q == p + 1 {
        NotFoundNearby(sort, list, p, new_);
        Overwritten(list, p, e.(row := new_, rc := 1));
      }
    } else {
      SameRows(sort, list, p, new_);
    }
  }

  lemma StuckIs(sort: Sort, list: List, old_: Row, new_: Row)
    requires Found(sort, list, old_)
    ensures var p := Place(sort, list, old_);
      p < |list| && (Stuck(sort, list, old_, new_) <==>
        list[p].rc <= 1 && p + 1 < |list| && SameSort(sort, list[p + 1].row, new_))
  {
  }

  lemma Overwritten(list: List, p: nat, n: RecvNode)
    requires p < |list|
    ensures |DropNode(list, p)| == |list| - 1 && list[p := n] == InsertNode(DropNode(list, p), p, n)
  {
    assert DropNode(list, p)[..p] == list[..p] && DropNode(list, p)[p..] == list[p + 1..];
  }

  lemma SameRows(sort: Sort, list: List, p: nat, key: Row)
    requires p < |list| && list[p].rc > 1
    ensures Place(sort, Vacated(list, p), key) == Place(sort, list, key)
    ensures Found(sort, Vacated(list, p), key) == Found(sort, list, key)
  {
    assert RowsOf(Vacated(list, p)) == RowsOf(list);
  }

  /** The branches of `apply_edit` for different keys. */
  lemma {:induction false} EditIs(list: List, schema: Schema, old_: Row, new_: Row)
    requires Found(schema.sort, list, old_) && !CompareRows(schema.sort, old_, new_).Equal?
    ensures
      var (p, q) := (Place(schema.sort, list, old_), Place(schema.sort, list, new_));
      var found := Found(schema.sort, list, new_);
      && p < |list| && q <= |list| && (found ==> q < |list| && q != p)
      && (list[p].rc <= 1 && (q == p || q == p + 1) ==>
        ApplyEdit(list, schema, old_, new_) == Some(list[p := list[p].(row := new_)]))
      && (!(list[p].rc <= 1 && (q == p || q == p + 1)) ==>
            var rest := Vacated(list, p);
            var at := if list[p].rc <= 1 && p < q then q - 1 else q;
            && at <= |rest| && (found ==> at < |rest|)
            && ApplyEdit(list, schema, old_, new_)
               == Some(if found then rest[at := rest[at].(row := new_, rc := rest[at].rc + 1)]
                       else InsertNode(rest, at, list[p].(row := new_, rc := 1))))
  {
    hide Found;
    hide Place;
    hide CompareRows;
    AtIs(schema.sort, list, old_);
    AtIs(schema.sort, list, new_);
    if Found(schema.sort, list, new_) { DistinctPlaces(schema.sort, list, old_, new_); }
  }

  lemma NotFoundNearby(sort: Sort, list: List, p: nat, new_: Row)
    requires Shape(sort, list) && p < |list| && !SameSort(sort, list[p].row, new_)
    requires p + 1 < |list| ==> !SameSort(sort, list[p + 1].row, new_)
    ensures var q := Place(sort, list, new_); q == p || q == p + 1 ==> !Found(sort, list, new_)
  {
    AtMembers(sort, list, new_);
  }

  ghost predicate MovesOne(list: List, schema: Schema, old_: Row, new_: Row, r: List)
    requires At(schema.sort, list, old_).Some?
  {
    forall key ::
      At(schema.sort, r, key)
      == Moved(schema.sort, At(schema.sort, list, old_).value, At(schema.sort, list, key), old_, new_, key)
  }

  /** `apply_edit` across keys: panics exactly on an absent old key, and is a move of one
      reference exactly off the stuck case; in the stuck case it leaves two nodes with one
      key. */
  lemma {:induction false} EditMoveLaw(list: List, schema: Schema, old_: Row, new_: Row)
    requires Shape(schema.sort, list) && !SameSort(schema.sort, old_, new_)
    ensures ApplyEdit(list, schema, old_, new_).None? <==> At(schema.sort, list, old_).None?
    ensures At(schema.sort, list, old_).Some? ==>
      var r := ApplyEdit(list, schema, old_, new_).value;
      (Shape(schema.sort, r) && MovesOne(list, schema, old_, new_, r)) <==> !Stuck(schema.sort, list, old_, new_)
  {
    var sort := schema.sort;
    SameSortLaws(sort, old_, new_, new_);
    if At(sort, list, old_).Some? {
      var r := ApplyEdit(list, schema, old_, new_).value;
      if Stuck(sort, list, old_, new_) {
        StuckBreaks(list, schema, old_, new_);
      } else {
        forall key ensures Shape(sort, r) && At(sort, r, key)
            == Moved(sort, At(sort, list, old_).value, At(sort, list, key), old_, new_, key)
        {
          EditMovesKey(list, schema, old_, new_, key);
        }
        assert Shape(sort, r) by { EditMovesKey(list, schema, old_, new_, new_); }
      }
    }
  }

  lemma {:induction false} EditMovesKey(list: List, schema: Schema, old_: Row, new_: Row, key: Row)
    requires Shape(schema.sort, list) && Found(schema.sort, list, old_) && !SameSort(schema.sort, old_, new_)
    requires !Stuck(schema.sort, list, old_, new_)
    ensures At(schema.sort, list, old_).Some?
    ensures var r := ApplyEdit(list, schema, old_, new_);
      && r.Some? && Shape(schema.sort, r.value)
      && At(schema.sort, r.value, key)
         == Moved(schema.sort, At(schema.sort, list, old_).value, At(schema.sort, list, key), old_, new_, key)
  {
    hide *;
    var (sort, p) := (schema.sort, Place(schema.sort, list, old_));
    ShapeIs(sort, list);
    AtIs(sort, list, old_);
    MovedIs(sort, list[p], At(sort, list, key), old_, new_, key);
    AtMembers(sort, list, old_);
    EditIsMove(list, schema, old_, new_);
    VacatedLaw(sort, list, p, key);
    VacatedLaw(sort, list, p, new_);
    ArrivedLaw(sort, Vacated(list, p), list[p], new_, key);
    AtKey(sort, list, new_, key);
    SameSortLaws(sort, list[p].row, old_, key);
    SameSortLaws(sort, old_, list[p].row, key);
    SameSortLaws(sort, list[p].row, old_, new_);
    SameSortLaws(sort, old_, list[p].row, new_);
  }

  lemma MovedIs(sort: Sort, e: RecvNode, there: Option<RecvNode>, old_: Row, new_: Row, key: Row)
    ensures Moved(sort, e, there, old_, new_, key) ==
      if SameSort(sort, new_, key) then
        (match there case None => Some(e.(row := new_, rc := 1)) case Some(d) => Some(d.(row := new_, rc := d.rc + 1)))
      else if SameSort(sort, old_, key) then Released(e)
      else there
  {
  }

  lemma {:induction false} StuckBreaks(list: List, schema: Schema, old_: Row, new_: Row)
    requires Shape(schema.sort, list) && !SameSort(schema.sort, old_, new_) && Stuck(schema.sort, list, old_, new_)
    ensures var r := ApplyEdit(list, schema, old_, new_); r.Some? && !Shape(schema.sort, r.value)
  {
    var (sort, p) := (schema.sort, Place(schema.sort, list, old_));
    hide *;
    StuckOpens(sort, list, old_, new_);
    SameSortLaws(sort, old_, new_, new_);
    SameSortLaws(sort, list[p + 1].row, new_, new_);
    NextPlace(sort, list, p, new_);
    EditIs(list, schema, old_, new_);
    var r := list[p := list[p].(row := new_)];
    if Shape(sort, r) { TwoPlaces(sort, r, p, p + 1); }
  }

  lemma StuckOpens(sort: Sort, list: List, old_: Row, new_: Row)
    requires Stuck(sort, list, old_, new_)
    ensures Found(sort, list, old_)
    ensures var p := Place(sort, list, old_); p + 1 < |list| && list[p].rc <= 1 && SameSort(sort, list[p + 1].row, new_)
  {
  }

  lemma {:induction false} NextPlace(sort: Sort, list: List, p: nat, new_: Row)
    requires Shape(sort, list) && p + 1 < |list| && SameSort(sort, list[p + 1].row, new_)
    ensures Place(sort, list, new_) == p + 1
  {
    SortIsStrictWeak(sort);
    var rows := RowsOf(list);
    Laws(SortLt(sort), rows[p], new_, rows[p + 1]);
    LowerBoundUnique(SortLt(sort), rows, new_, p + 1);
  }

  /** A concrete list on which the shortcut leaves one key twice. */
  lemma StuckExample()
    ensures var (sort, one, two) := ([(0, true)], [Int(1)], [Int(2)]);
      var list := [RecvNode(one, 1, []), RecvNode(two, 1, [])];
      && Shape(sort, list) && Stuck(sort, list, one, two)
      && ApplyEdit(list, Schema(sort, []), one, two) == Some([RecvNode(two, 1, []), RecvNode(two, 1, [])])
  {
    var (sort, one, two) := ([(0, true)], [Int(1)], [Int(2)]);
    var list := [RecvNode(one, 1, []), RecvNode(two, 1, [])];
    assert sort[1..] == [];
    assert CompareRows(sort, one, two).Less? && CompareRows(sort, one, one).Equal?
      && CompareRows(sort, two, two).Equal?;
    assert CompareRows(sort, two, one).Greater?;
    assert RowsOf(list) == [one, two];
    LowerBoundStart(SortLt(sort), [one, two], one);
    SameSortLaws(sort, two, two, two);
    NextPlace(sort, list, 0, two);
    assert list[0 := list[0].(row := two)] == [RecvNode(two, 1, []), RecvNode(two, 1, [])];
    assert Found(sort, list, one) && Place(sort, list, one) == 0 && Place(sort, list, two) == 1;
  }

  lemma LowerBoundStart(lt: Lt, s: seq<Row>, key: Row)
    requires s != [] && !lt(s[0], key)
    ensures LowerBound(lt, s, key) == 0
  {
  }

  // ---- whole trees ----

  /** Every level strictly sorted with positive counts, one child list per slot, and nothing in
      slots out of view. */
  ghost predicate Tree(schema: Schema, list: List)
    decreases schema, 1
  {
    Shape(schema.sort, list) && forall i :: 0 <= i < |list| ==> Kids(schema, list[i].rels)
  }

  ghost predicate Kids(schema: Schema, rels: seq<List>)
    decreases schema, 0
  {
    && |rels| == |schema.rels|
    && forall k :: 0 <= k < |rels| ==>
         if schema.rels[k].None? then rels[k] == [] else Tree(schema.rels[k].value, rels[k])
  }

  lemma {:induction false} BuiltTree(node: WireNode, schema: Schema)
    ensures Kids(schema, BuildNode(node, schema).rels)
    decreases node, 2, 0
  {
    BuiltRels(node, |node.rels|, schema);
  }

  lemma {:induction false} BuiltRels(node: WireNode, k: nat, schema: Schema)
    requires k <= |node.rels|
    ensures Kids(schema, BuildRels(node, k, schema))
    decreases node, 1, k
  {
    if k == 0 {
      NoKids(schema);
    } else {
      BuiltRels(node, k - 1, schema);
      var slot := node.rels[k - 1].slot;
      if RelChild(schema, slot).Some? {
        BuiltKids(node, k - 1, |node.rels[k - 1].kids|, RelChild(schema, slot).value);
      }
    }
  }

  lemma NoKids(schema: Schema)
    ensures Kids(schema, seq(|schema.rels|, _ => []))
  {
    forall k | 0 <= k < |schema.rels| && schema.rels[k].Some? ensures Tree(schema.rels[k].value, []) { }
  }

  lemma {:induction false} BuiltKids(node: WireNode, k: nat, m: nat, schema: Schema)
    requires k < |node.rels| && m <= |node.rels[k].kids|
    ensures Tree(schema, BuildKids(node, k, m, schema))
    decreases node, 0, m
  {
    hide *;
    if m > 0 {
      var (built, child) := (BuildKids(node, k, m - 1, schema), node.rels[k].kids[m - 1]);
      BuiltKids(node, k, m - 1, schema);
      BuiltTree(child, schema);
      KidsStep(node, k, m, schema);
      AddTree(built, schema, child);
    } else {
      NoTree(node, k, schema);
    }
  }

  lemma NoTree(node: WireNode, k: nat, schema: Schema)
    requires k < |node.rels|
    ensures Tree(schema, BuildKids(node, k, 0, schema)) && BuildKids(node, k, 0, schema) == []
  {
  }

  /** Building a child list is adding its nodes one by one. */
  lemma KidsStep(node: WireNode, k: nat, m: nat, schema: Schema)
    requires k < |node.rels| && 0 < m <= |node.rels[k].kids|
    ensures BuildKids(node, k, m, schema)
      == ApplyAdd(BuildKids(node, k, m - 1, schema), schema, node.rels[k].kids[m - 1])
  {
    hide InsertNode;
    hide RowsOf;
    hide Place;
    hide Found;
    hide BuildNode;
    AtIs(schema.sort, BuildKids(node, k, m - 1, schema), node.rels[k].kids[m - 1].row);
  }

  lemma {:induction false} AddTree(list: List, schema: Schema, node: WireNode)
    requires Tree(schema, list) && Kids(schema, BuildNode(node, schema).rels)
    ensures Tree(schema, ApplyAdd(list, schema, node))
  {
    hide *;
    TreeIs(schema, list);
    AddLaw(list, schema, node, node.row);
    var r := ApplyAdd(list, schema, node);
    OpIs(list, schema, Add(node));
    forall i | 0 <= i < |r| ensures Kids(schema, r[i].rels) {
      KeptRels(list, schema, Add(node), r, i);
    }
    TreeMade(schema, r);
  }

  lemma TreeIs(schema: Schema, list: List)
    requires Tree(schema, list)
    ensures Shape(schema.sort, list) && forall i :: 0 <= i < |list| ==> Kids(schema, list[i].rels)
  {
  }

  lemma TreeMade(schema: Schema, list: List)
    requires Shape(schema.sort, list) && forall i :: 0 <= i < |list| ==> Kids(schema, list[i].rels)
    ensures Tree(schema, list)
  {
  }

  /** Operations move and count nodes but never touch the children of a node they keep. */
  lemma {:induction false} KeptRels(list: List, schema: Schema, op: FlatOp, r: List, i: nat)
    requires ApplyOp(list, schema, op) == Some(r) && i < |r|
    ensures (exists j :: 0 <= j < |list| && list[j].rels == r[i].rels)
      || (op.Add? && r[i] == BuildNode(op.node, schema))
  {
    hide *;
    OpIs(list, schema, op);
    match op {
      case Add(node) =>
        AtIs(schema.sort, list, node.row);
        AddIs(list, schema, node);
        var p := Place(schema.sort, list, node.row);
        if Found(schema.sort, list, node.row) { assert list[i].rels == r[i].rels; }
        else { InsertedRels(list, p, BuildNode(node, schema), i); }
      case Remove(row) =>
        AtIs(schema.sort, list, row);
        RemoveIs(list, schema, row);
        VacatedRels(list, Place(schema.sort, list, row), i);
      case Edit(old_, new_) =>
        EditRels(list, schema, old_, new_, r, i);
    }
  }

  lemma OpIs(list: List, schema: Schema, op: FlatOp)
    ensures op.Add? ==> ApplyOp(list, schema, op) == Some(ApplyAdd(list, schema, op.node))
    ensures op.Remove? ==> ApplyOp(list, schema, op) == ApplyRemove(list, schema, op.row)
    ensures op.Edit? ==> ApplyOp(list, schema, op) == ApplyEdit(list, schema, op.old_, op.new_)
  {
  }

  lemma {:induction false} InsertedRels(list: List, p: nat, n: RecvNode, i: nat)
    requires p <= |list| && i < |InsertNode(list, p, n)|
    ensures InsertNode(list, p, n)[i] == n || exists j :: 0 <= j < |list| && list[j] == InsertNode(list, p, n)[i]
  {
    if i != p { assert list[if i < p then i else i - 1] == InsertNode(list, p, n)[i]; }
  }

  lemma {:induction false} VacatedRels(list: List, p: nat, i: nat)
    requires p < |list| && i < |Vacated(list, p)|
    ensures exists j :: 0 <= j < |list| && list[j].rels == Vacated(list, p)[i].rels
  {
    var j := if list[p].rc <= 1 && i >= p then i + 1 else i;
    assert list[j].rels == Vacated(list, p)[i].rels;
  }

  lemma {:induction false} EditRels(list: List, schema: Schema, old_: Row, new_: Row, r: List, i: nat)
    requires ApplyEdit(list, schema, old_, new_) == Some(r) && i < |r|
    ensures exists j :: 0 <= j < |list| && list[j].rels == r[i].rels
  {
    hide *;
    var (p, q) := (Place(schema.sort, list, old_), Place(schema.sort, list, new_));
    AtIs(schema.sort, list, old_);
    EditOpens(list, schema, old_, new_);
    if CompareRows(schema.sort, old_, new_).Equal? {
      assert list[i].rels == r[i].rels;
    } else {
      EditIs(list, schema, old_, new_);
      if list[p].rc <= 1 && (q == p || q == p + 1) {
        assert list[i].rels == r[i].rels;
      } else {
        var (rest, at) := (Vacated(list, p), if list[p].rc <= 1 && p < q then q - 1 else q);
        if Found(schema.sort, list, new_) {
          VacatedRels(list, p, i);
        } else {
          var n := list[p].(row := new_, rc := 1);
          InsertedRels(rest, at, n, i);
          if r[i] == n { assert list[p].rels == r[i].rels; }
          else {
            var j :| 0 <= j < |rest| && rest[j] == r[i];
            VacatedRels(list, p, j);
          }
        }
      }
    }
  }

  lemma EditSomewhere(list: List, schema: Schema, old_: Row, new_: Row)
    requires Found(schema.sort, list, old_)
    ensures ApplyEdit(list, schema, old_, new_).Some?
  {
  }

  lemma SameSortIs(sort: Sort, a: Row, b: Row)
    ensures SameSort(sort, a, b) <==> SameKey(SortLt(sort), a, b)
  {
  }

  lemma EditOpens(list: List, schema: Schema, old_: Row, new_: Row)
    requires ApplyEdit(list, schema, old_, new_).Some?
    ensures Found(schema.sort, list, old_)
    ensures CompareRows(schema.sort, old_, new_).Equal? ==>
      var p := Place(schema.sort, list, old_);
      p < |list|
      && ApplyEdit(list, schema, old_, new_) == Some(list[p := list[p].(row := new_)])
  {
  }

  /** Does the change end in the stuck case of `apply_edit`? */
  predicate StuckAt(list: List, schema: Schema, path: seq<PathSeg>, op: FlatOp)
    decreases |path|
  {
    if path == [] then op.Edit? && !SameSort(schema.sort, op.old_, op.new_)
      && Stuck(schema.sort, list, op.old_, op.new_)
    else
      var seg := path[0];
      && RelChild(schema, seg.rel).Some? && Found(schema.sort, list, seg.parentRow)
      && var p := Place(schema.sort, list, seg.parentRow);
         seg.rel < |list[p].rels| && StuckAt(list[p].rels[seg.rel], RelChild(schema, seg.rel).value, path[1..], op)
  }

  lemma {:induction false} OpKeepsTree(list: List, schema: Schema, op: FlatOp)
    requires Tree(schema, list)
    ensures ApplyOp(list, schema, op).Some? ==>
      (Tree(schema, ApplyOp(list, schema, op).value) <==> !StuckAt(list, schema, [], op))
  {
    hide *;
    TreeIs(schema, list);
    OpIs(list, schema, op);
    StuckAtOp(list, schema, op);
    match op {
      case Add(node) => AddLaw(list, schema, node, node.row); BuiltTree(node, schema);
      case Remove(row) => RemoveLaw(list, schema, row, row);
      case Edit(old_, new_) =>
        AtIs(schema.sort, list, old_);
        if SameSort(schema.sort, old_, new_) { EditInPlaceLaw(list, schema, old_, new_, new_); }
        else {
          EditMoveLaw(list, schema, old_, new_);
          if Stuck(schema.sort, list, old_, new_) { StuckBreaks(list, schema, old_, new_); }
        }
    }
    if ApplyOp(list, schema, op).Some? {
      var r := ApplyOp(list, schema, op).value;
      if StuckAt(list, schema, [], op) {
        if Tree(schema, r) { TreeIs(schema, r); }
      } else {
        forall i | 0 <= i < |r| ensures Kids(schema, r[i].rels) { KeptRels(list, schema, op, r, i); }
        TreeMade(schema, r);
      }
    }
  }

  lemma StuckAtOp(list: List, schema: Schema, op: FlatOp)
    ensures StuckAt(list, schema, [], op) <==>
      op.Edit? && !SameSort(schema.sort, op.old_, op.new_) && Stuck(schema.sort, list, op.old_, op.new_)
  {
  }

  /** A change that does not panic leaves a well-formed tree if and only if it does not end, at
      whatever depth its path leads to, in the stuck case. */
  lemma {:induction false} ApplyKeepsTree(list: List, schema: Schema, path: seq<PathSeg>, op: FlatOp)
    requires Tree(schema, list)
    ensures ApplyAt(list, schema, path, op).Some? ==>
      (Tree(schema, ApplyAt(list, schema, path, op).value) <==> !StuckAt(list, schema, path, op))
    decreases |path|
  {
    hide *;
    if path == [] {
      AtNil(list, schema, op);
      OpKeepsTree(list, schema, op);
    } else {
      AtCons(list, schema, path, op);
      StuckCons(list, schema, path, op);
      if ApplyAt(list, schema, path, op).Some? && RelChild(schema, path[0].rel).Some? {
        var (p, k) := (Place(schema.sort, list, path[0].parentRow), path[0].rel);
        TreeIs(schema, list);
        KidsAt(schema, list[p].rels, k);
        ApplyKeepsTree(list[p].rels[k], RelChild(schema, k).value, path[1..], op);
        var r := ApplyAt(list[p].rels[k], RelChild(schema, k).value, path[1..], op).value;
        KidsUpdate(schema, list, p, k, r);
      }
    }
  }

  lemma AtNil(list: List, schema: Schema, op: FlatOp)
    ensures ApplyAt(list, schema, [], op) == ApplyOp(list, schema, op)
  {
  }

  lemma AtCons(list: List, schema: Schema, path: seq<PathSeg>, op: FlatOp)
    requires path != []
    ensures RelChild(schema, path[0].rel).None? ==> ApplyAt(list, schema, path, op) == Some(list)
    ensures var p := Place(schema.sort, list, path[0].parentRow);
      ApplyAt(list, schema, path, op).Some? && RelChild(schema, path[0].rel).Some? ==>
        && Found(schema.sort, list, path[0].parentRow) && p < |list| && path[0].rel < |list[p].rels|
        && var r := ApplyAt(list[p].rels[path[0].rel], RelChild(schema, path[0].rel).value, path[1..], op);
           r.Some? && ApplyAt(list, schema, path, op)
             == Some(list[p := list[p].(rels := list[p].rels[path[0].rel := r.value])])
  {
  }

  lemma StuckCons(list: List, schema: Schema, path: seq<PathSeg>, op: FlatOp)
    requires path != []
    ensures RelChild(schema, path[0].rel).None? ==> !StuckAt(list, schema, path, op)
    ensures var (p, k) := (Place(schema.sort, list, path[0].parentRow), path[0].rel);
      RelChild(schema, k).Some? && Found(schema.sort, list, path[0].parentRow) ==>
        && p < |list|
        && (k < |list[p].rels| ==>
              (StuckAt(list[p].rels[k], RelChild(schema, k).value, path[1..], op) <==> StuckAt(list, schema, path, op)))
  {
  }

  lemma KidsAt(schema: Schema, rels: seq<List>, k: nat)
    requires Kids(schema, rels) && k < |rels| && RelChild(schema, k).Some?
    ensures Tree(RelChild(schema, k).value, rels[k])
  {
  }

  lemma {:induction false} KidsUpdate(schema: Schema, list: List, p: nat, k: nat, r: List)
    requires Tree(schema, list) && p < |list| && k < |list[p].rels| && RelChild(schema, k).Some?
    ensures Tree(schema, list[p := list[p].(rels := list[p].rels[k := r])]) <==> Tree(RelChild(schema, k).value, r)
  {
    hide *;
    var list' := list[p := list[p].(rels := list[p].rels[k := r])];
    TreeIs(schema, list);
    SameSortLaws(schema.sort, list[p].row, list[p].row, list[p].row);
    ShapeIs(schema.sort, list);
    ReplaceShape(schema.sort, list, p, list'[p]);
    if Tree(RelChild(schema, k).value, r) {
      KidsSet(schema, list[p].rels, k, r);
      TreeMade(schema, list');
    } else if Tree(schema, list') {
      TreeIs(schema, list');
      KidsAt(schema, list'[p].rels, k);
    }
  }

  lemma KidsSet(schema: Schema, rels: seq<List>, k: nat, r: List)
    requires Kids(schema, rels) && k < |rels| && RelChild(schema, k).Some? && Tree(RelChild(schema, k).value, r)
    ensures Kids(schema, rels[k := r])
  {
  }

  // ---- flattening ----

  /** The meaning of the nested form: descend into one child list and change it there. */
  function ApplyNested(list: List, schema: Schema, c: CaughtChange): Option<List>
    decreases c
  {
    match c
    case CaughtAdd(node) => Some(ApplyAdd(list, schema, node))
    case CaughtRemove(node) => ApplyRemove(list, schema, node.row)
    case CaughtEdit(old_, row) => ApplyEdit(list, schema, old_, row)
    case CaughtChild(row, rel, change) =>
      if RelChild(schema, rel).None? then Some(list)
      else match At(schema.sort, list, row)
        case None => None
        case Some(e) =>
          if rel >= |e.rels| then None
          else match ApplyNested(e.rels[rel], RelChild(schema, rel).value, change)
            case None => None
            case Some(kids) => Some(list[Place(schema.sort, list, row) := e.(rels := e.rels[rel := kids])])
  }

  function OpOf(c: CaughtChange): FlatOp
    requires !c.CaughtChild?
  {
    match c
    case CaughtAdd(node) => Add(node)
    case CaughtRemove(node) => Remove(node.row)
    case CaughtEdit(old_, row) => Edit(old_, row)
  }

  function Flat(c: CaughtChange): FlatChange {
    match c
    case CaughtChild(row, rel, change) => var f := Flat(change); FlatChange([PathSeg(rel, row)] + f.path, f.op)
    case _ => FlatChange([], OpOf(c))
  }

  /** `flatten`: peel one level at a time onto the path. */
  method Flatten(c: CaughtChange) returns (f: FlatChange)
    ensures f == Flat(c)
  {
    var path: seq<PathSeg> := [];
    var cur := c;
    while cur.CaughtChild?
      invariant FlatChange(path + Flat(cur).path, Flat(cur).op) == Flat(c)
      decreases cur
    {
      path := path + [PathSeg(cur.rel, cur.row)];
      cur := cur.change;
    }
    f := FlatChange(path, OpOf(cur));
  }

  /** Flattening preserves meaning: replaying the path is applying the nested change. */
  lemma {:induction false} FlatMeansNested(list: List, schema: Schema, c: CaughtChange)
    ensures Apply(list, schema, Flat(c)) == ApplyNested(list, schema, c)
    decreases c
  {
    if c.CaughtChild? && RelChild(schema, c.rel).Some? {
      var f := Flat(c);
      assert f.path[0] == PathSeg(c.rel, c.row) && f.path[1..] == Flat(c.change).path;
      AtIs(schema.sort, list, c.row);
      if Found(schema.sort, list, c.row) && c.rel < |list[Place(schema.sort, list, c.row)].rels| {
        FlatMeansNested(list[Place(schema.sort, list, c.row)].rels[c.rel], RelChild(schema, c.rel).value, c.change);
      }
      hide Found;
      hide Place;
    }
  }

  /** The nested form a flat change stands for. */
  function Nest(f: FlatChange): CaughtChange
    decreases |f.path|
  {
    if f.path == [] then
      match f.op
      case Add(node) => CaughtAdd(node)
      case Remove(row) => CaughtRemove(WireNode(row, []))
      case Edit(old_, new_) => CaughtEdit(old_, new_)
    else CaughtChild(f.path[0].parentRow, f.path[0].rel, Nest(FlatChange(f.path[1..], f.op)))
  }

  /** Nothing of a flat change is lost by nesting it. */
  lemma {:induction false} NestFlattens(f: FlatChange)
    ensures Flat(Nest(f)) == f
    decreases |f.path|
  {
    if f.path != [] {
      NestFlattens(FlatChange(f.path[1..], f.op));
      assert f.path == [f.path[0]] + f.path[1..];
    }
  }

  class Receiver {
    const schema: Schema
    var top: List

    constructor (schema: Schema)
      ensures this.schema == schema && top == [] && Tree(schema, top)
    {
      this.schema, top := schema, [];
    }

    /** `apply`; `ok` is false where the source panics. */
    method Fold(c: FlatChange) returns (ok: bool)
      modifies `top
      ensures ok <==> Apply(old(top), schema, c).Some?
      ensures top == if ok then Apply(old(top), schema, c).value else old(top)
      ensures ok && old(Tree(schema, top)) ==> (Tree(schema, top) <==> !StuckAt(old(top), schema, c.path, c.op))
    {
      hide *;
      ApplyIs(top, schema, c);
      if Tree(schema, top) { ApplyKeepsTree(top, schema, c.path, c.op); }
      var r := Apply(top, schema, c);
      ok := r.Some?;
      if ok { top := r.value; }
    }

    /** `apply_all`: the changes before a panic stay applied; `n` says how many there are. */
    method FoldAll(cs: seq<FlatChange>) returns (ok: bool, n: nat)
      modifies `top
      ensures n <= |cs| && ApplyAll(old(top), schema, cs[..n]) == Some(top)
      ensures ok <==> n == |cs|
      ensures ok <==> ApplyAll(old(top), schema, cs).Some?
      ensures ok ==> top == ApplyAll(old(top), schema, cs).value
      ensures !ok ==> Apply(top, schema, cs[n]).None?
    {
      hide *;
      ok, n := true, 0;
      var i := 0;
      AllNil(top, schema);
      assert cs[..0] == [];
      while i < |cs| && ok
        invariant i <= |cs| && n == (if ok then i else i - 1)
        invariant n <= |cs| && ApplyAll(old(top), schema, cs[..n]) == Some(top)
        invariant !ok ==> i > 0 && Apply(top, schema, cs[n]).None? && ApplyAll(old(top), schema, cs[..i]).None?
      {
        AllSnoc(old(top), schema, cs[..i], cs[i]);
        assert cs[..i + 1] == cs[..i] + [cs[i]];
        ok := Fold(cs[i]);
        if ok { n := n + 1; }
        i := i + 1;
      }
      if ok { assert cs[..i] == cs; } else { StaysNone(old(top), schema, cs, i); }
    }
  }

  lemma ApplyIs(list: List, schema: Schema, c: FlatChange)
    ensures Apply(list, schema, c) == ApplyAt(list, schema, c.path, c.op)
  {
  }

  lemma AllNil(list: List, schema: Schema)
    ensures ApplyAll(list, schema, []) == Some(list)
  {
  }

  lemma AllSnoc(list: List, schema: Schema, cs: seq<FlatChange>, c: FlatChange)
    ensures var before := ApplyAll(list, schema, cs);
      ApplyAll(list, schema, cs + [c]) == if before.None? then None else Apply(before.value, schema, c)
  {
    assert (cs + [c])[..|cs|] == cs;
  }

  lemma {:induction false} AllConcat(list: List, schema: Schema, a: seq<FlatChange>, b: seq<FlatChange>)
    ensures var mid := ApplyAll(list, schema, a);
      ApplyAll(list, schema, a + b) == if mid.None? then None else ApplyAll(mid.value, schema, b)
    decreases |b|
  {
    hide *;
    if b == [] {
      assert a + b == a;
      if ApplyAll(list, schema, a).Some? { AllNil(ApplyAll(list, schema, a).value, schema); }
    } else {
      var (front, c) := (b[..|b| - 1], b[|b| - 1]);
      AllConcat(list, schema, a, front);
      assert a + b == (a + front) + [c] && b == front + [c];
      AllSnoc(list, schema, a + front, c);
      if ApplyAll(list, schema, a).Some? { AllSnoc(ApplyAll(list, schema, a).value, schema, front, c); }
    }
  }

  lemma {:induction false} StaysNone(list: List, schema: Schema, cs: seq<FlatChange>, i: nat)
    requires i <= |cs| && ApplyAll(list, schema, cs[..i]).None?
    ensures ApplyAll(list, schema, cs).None?
  {
    hide *;
    AllConcat(list, schema, cs[..i], cs[i..]);
    assert cs == cs[..i] + cs[i..];
  }
}
